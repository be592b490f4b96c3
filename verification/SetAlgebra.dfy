/** Set operations that read vectors in any order and insert into a sorted one. */
module SetAlgebra {
  import opened Sequences
  import opened UniqueVectors

  /** The output must not be one of the inputs: inserting would move the elements being read. */
  method SetDifference(range1: UniqueVector, range2: UniqueVector, output: UniqueVector)
    requires output != range1 && output != range2 && Ascending(output.container)
    modifies output
    ensures Ascending(output.container)
    ensures Elems(output.container)
      == old(Elems(output.container)) + (Elems(range1.container) - Elems(range2.container))
  {
    var elements := range1.container;
    ghost var start, others := Elems(output.container), Elems(range2.container);
    for k := 0 to |elements|
      invariant Ascending(output.container)
      invariant Elems(output.container) == start + (Elems(elements[..k]) - others)
    {
      var found := range2.Contains(elements[k]);
      ElemsPrefix(elements, k);
      OneMore(start, Elems(elements[..k]), elements[k], others);
      if !found {
        output.Insert(elements[k]);
      }
    }
    assert elements[..|elements|] == elements;
  }

  method SetIntersection(range1: UniqueVector, range2: UniqueVector, output: UniqueVector)
    requires output != range1 && output != range2 && Ascending(output.container)
    modifies output
    ensures Ascending(output.container)
    ensures Elems(output.container) == old(Elems(output.container)) + Elems(range1.container) * Elems(range2.container)
  {
    var elements := range1.container;
    ghost var start, others := Elems(output.container), Elems(range2.container);
    for k := 0 to |elements|
      invariant Ascending(output.container)
      invariant Elems(output.container) == start + Elems(elements[..k]) * others
    {
      var found := range2.Contains(elements[k]);
      ElemsPrefix(elements, k);
      OneMore(start, Elems(elements[..k]), elements[k], others);
      if found {
        output.Insert(elements[k]);
      }
    }
    assert elements[..|elements|] == elements;
  }

  method SetSymmetricDifference(range1: UniqueVector, range2: UniqueVector, output: UniqueVector)
    requires output != range1 && output != range2 && Ascending(output.container)
    modifies output
    ensures Ascending(output.container)
    ensures Elems(output.container) == old(Elems(output.container))
      + (Elems(range1.container) - Elems(range2.container)) + (Elems(range2.container) - Elems(range1.container))
  {
    var intersection := new UniqueVector();
    SetIntersection(range1, range2, intersection);
    SetDifference(range1, intersection, output);
    SetDifference(range2, intersection, output);
  }

  function Selected(s: seq<int>, pred: int -> bool): set<int> {
    set x | x in s && pred(x)
  }

  lemma SelectedPrefix(s: seq<int>, k: nat, pred: int -> bool)
    requires k < |s|
    ensures Selected(s[..k + 1], pred) == Selected(s[..k], pred) + if pred(s[k]) then {s[k]} else {}
  {
    assert s[..k + 1] == s[..k] + [s[k]];
  }

  method CopyIf(input: UniqueVector, output: UniqueVector, pred: int -> bool)
    requires output != input && Ascending(output.container)
    modifies output
    ensures Ascending(output.container)
    ensures Elems(output.container) == old(Elems(output.container)) + Selected(input.container, pred)
  {
    hide Ascending, InsertInto;
    var elements := input.container;
    for k := 0 to |elements|
      invariant Ascending(output.container)
      invariant Elems(output.container) == old(Elems(output.container)) + Selected(elements[..k], pred)
    {
      SelectedPrefix(elements, k, pred);
      if pred(elements[k]) {
        output.Insert(elements[k]);
      }
    }
    assert elements[..|elements|] == elements;
  }

  method Transform<T>(input: seq<T>, output: UniqueVector, proj: T -> int)
    requires Ascending(output.container)
    modifies output
    ensures Ascending(output.container)
    ensures Elems(output.container) == old(Elems(output.container)) + set x | x in input :: proj(x)
  {
    for k := 0 to |input|
      invariant Ascending(output.container)
      invariant Elems(output.container) == old(Elems(output.container)) + set x | x in input[..k] :: proj(x)
    {
      output.Insert(proj(input[k]));
      assert forall x :: x in input[..k + 1] <==> x in input[..k] || x == input[k];
    }
    assert input[..|input|] == input;
  }

  lemma ElemsPrefix(s: seq<int>, k: nat)
    requires k < |s|
    ensures Elems(s[..k + 1]) == Elems(s[..k]) + {s[k]}
  {
    assert s[..k + 1] == s[..k] + [s[k]];
  }

  lemma OneMore(start: set<int>, seen: set<int>, x: int, others: set<int>)
    ensures x in others ==> start + ((seen + {x}) - others) == start + (seen - others)
    ensures x !in others ==> start + ((seen + {x}) - others) == start + (seen - others) + {x}
    ensures x in others ==> start + (seen + {x}) * others == start + seen * others + {x}
    ensures x !in others ==> start + (seen + {x}) * others == start + seen * others
  {
  }

  lemma AscendingIsDistinct(s: seq<int>)
    requires Ascending(s)
    ensures |Elems(s)| == |s|
  {
    DistinctSize(s);
  }

  /** However the first input is ordered, difference and intersection share out its elements. */
  lemma DifferenceAndIntersectionSizes(a: seq<int>, b: seq<int>, difference: seq<int>, intersection: seq<int>)
    requires Distinct(a) && Ascending(difference) && Ascending(intersection)
    requires Elems(difference) == Elems(a) - Elems(b) && Elems(intersection) == Elems(a) * Elems(b)
    ensures |difference| + |intersection| == |a|
  {
    DistinctSize(a);
    AscendingIsDistinct(difference);
    AscendingIsDistinct(intersection);
    assert Elems(a) == Elems(difference) + Elems(intersection);
  }
}
