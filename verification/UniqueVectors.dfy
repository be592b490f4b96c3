/** The sorted vector without duplicates, and the set operations on it. */
module UniqueVectors {
  import opened Sequences

  ghost predicate Ascending(s: seq<int>) {
    forall i, j :: 0 <= i < j < |s| ==> s[i] < s[j]
  }

  function Reverse(s: seq<int>): seq<int> {
    if s == [] then [] else Reverse(s[1..]) + [s[0]]
  }

  /** `std::ranges::lower_bound`: how many leading elements are below `value`. */
  function LowerBound(s: seq<int>, value: int): (i: nat)
    ensures i <= |s| && (i < |s| ==> value <= s[i])
    ensures forall k :: 0 <= k < i ==> s[k] < value
  {
    if s == [] || value <= s[0] then 0 else 1 + LowerBound(s[1..], value)
  }

  /** The vector with `value` at its sorted place, unless it is there already. */
  function InsertInto(s: seq<int>, value: int): seq<int> {
    var i := LowerBound(s, value);
    if i == |s| || s[i] != value then s[..i] + [value] + s[i..] else s
  }

  function InsertAll(s: seq<int>, values: seq<int>): seq<int>
    decreases |values|
  {
    if values == [] then s else InsertAll(InsertInto(s, values[0]), values[1..])
  }

  function Without(s: seq<int>, value: int): seq<int> {
    if s == [] then []
    else if s[0] == value then Without(s[1..], value)
    else [s[0]] + Without(s[1..], value)
  }

  class UniqueVector {
    var container: seq<int>

    constructor ()
      ensures container == []
    {
      container := [];
    }

    /** The binary search is defined on sorted vectors only. */
    method Insert(value: int)
      requires Ascending(container)
      modifies this
      ensures container == InsertInto(old(container), value)
      ensures Ascending(container) && Elems(container) == old(Elems(container)) + {value}
    {
      InsertIntoSorted(container, value);
      var i := LowerBound(container, value);
      if i == |container| || container[i] != value {
        container := container[..i] + [value] + container[i..];
      }
    }

    method InsertRange(range: seq<int>)
      requires Ascending(container)
      modifies this
      ensures container == InsertAll(old(container), range)
      ensures Ascending(container) && Elems(container) == old(Elems(container)) + Elems(range)
    {
      InsertAllSorted(container, range);
      for k := 0 to |range|
        invariant Ascending(container)
        invariant InsertAll(old(container), range) == InsertAll(container, range[k..])
      {
        assert range[k..][1..] == range[k + 1..];
        Insert(range[k]);
      }
    }

    /** The index of the first element equal to `value`, or the size if there is none. */
    method Find(value: int) returns (i: nat)
      ensures i <= |container| && value !in container[..i]
      ensures i < |container| ==> container[i] == value
    {
      i := 0;
      while i < |container| && container[i] != value
        invariant i <= |container| && value !in container[..i]
      {
        i := i + 1;
      }
    }

    method Contains(value: int) returns (found: bool)
      ensures found <==> value in container
    {
      var i := Find(value);
      found := i != |container|;
      assert i == |container| ==> container[..i] == container;
    }

    /** Removes every element equal to `value`, in whatever order the vector is. */
    method EraseValue(value: int)
      modifies this
      ensures container == Without(old(container), value)
      ensures Elems(container) == old(Elems(container)) - {value}
      ensures old(Ascending(container)) ==> Ascending(container)
    {
      container := Without(container, value);
      WithoutIsSubsequence(old(container), value);
    }

    method ReverseOrder()
      modifies this
      ensures container == Reverse(old(container))
    {
      var n := |container|;
      var before := container;
      ReverseFacts(before);
      container := seq(n, i requires 0 <= i < n => before[n - 1 - i]);
      assert container == Reverse(before);
    }

    method Equals(other: UniqueVector) returns (equal: bool)
      ensures equal <==> container == other.container
      ensures Ascending(container) && Ascending(other.container) ==>
        (equal <==> Elems(container) == Elems(other.container))
    {
      equal := container == other.container;
      if Ascending(container) && Ascending(other.container) && Elems(container) == Elems(other.container) {
        CanonicalForm(container, other.container);
      }
    }
  }

  lemma {:induction false} WithoutIsSubsequence(s: seq<int>, value: int)
    ensures Elems(Without(s, value)) == Elems(s) - {value}
    ensures Ascending(s) ==> Ascending(Without(s, value))
  {
    if s != [] {
      WithoutIsSubsequence(s[1..], value);
      assert Elems(s) == {s[0]} + Elems(s[1..]);
      if s[0] != value {
        assert Elems([s[0]] + Without(s[1..], value)) == {s[0]} + Elems(Without(s[1..], value));
        if Ascending(s) {
          assert [s[0]] + s[1..] == s;
          PrependAscending(s[0], s[1..], Without(s[1..], value));
        }
      }
    }
  }

  lemma PrependAscending(x: int, s: seq<int>, t: seq<int>)
    requires Ascending([x] + s) && Ascending(t) && Elems(t) <= Elems(s)
    ensures Ascending([x] + t)
  {
    forall y | y in t
      ensures x < y
    {
      assert y in Elems(s);
      var k :| 0 <= k < |s| && s[k] == y;
      assert ([x] + s)[0] == x && ([x] + s)[k + 1] == y;
    }
    assert forall k :: 0 <= k < |t| ==> t[k] in t && x < t[k];
  }

  lemma {:induction false} ReverseFacts(s: seq<int>)
    ensures |Reverse(s)| == |s| && forall i :: 0 <= i < |s| ==> Reverse(s)[i] == s[|s| - 1 - i]
    ensures Elems(Reverse(s)) == Elems(s)
  {
    if s != [] {
      ReverseFacts(s[1..]);
      ElemsSnoc(Reverse(s[1..]), s[0]);
      assert Elems(s) == {s[0]} + Elems(s[1..]);
    }
  }

  lemma ElemsSnoc(s: seq<int>, value: int)
    ensures Elems(s + [value]) == Elems(s) + {value}
  {
  }

  lemma InsertIntoSorted(s: seq<int>, value: int)
    requires Ascending(s)
    ensures Ascending(InsertInto(s, value)) && Elems(InsertInto(s, value)) == Elems(s) + {value}
  {
    var i := LowerBound(s, value);
    if i == |s| || s[i] != value {
      GrownAscending(s, value, i);
      GrownElems(s[..i], value, s[i..]);
      assert s == s[..i] + s[i..];
    }
  }

  lemma GrownAscending(s: seq<int>, value: int, i: nat)
    requires Ascending(s) && i <= |s|
    requires forall k :: 0 <= k < i ==> s[k] < value
    requires i < |s| ==> value < s[i]
    ensures Ascending(s[..i] + [value] + s[i..])
  {
    var grown := s[..i] + [value] + s[i..];
    forall a, b | 0 <= a < b < |grown|
      ensures grown[a] < grown[b]
    {
      assert grown[a] == if a < i then s[a] else if a == i then value else s[a - 1];
      assert grown[b] == if b < i then s[b] else if b == i then value else s[b - 1];
    }
  }

  lemma GrownElems(a: seq<int>, value: int, b: seq<int>)
    ensures Elems(a + [value] + b) == Elems(a + b) + {value}
  {
    assert forall x :: x in a + [value] + b <==> x in a || x == value || x in b;
    assert forall x :: x in a + b <==> x in a || x in b;
  }

  lemma {:induction false} InsertAllSorted(s: seq<int>, values: seq<int>)
    requires Ascending(s)
    ensures Ascending(InsertAll(s, values)) && Elems(InsertAll(s, values)) == Elems(s) + Elems(values)
    decreases |values|
  {
    if values != [] {
      InsertIntoSorted(s, values[0]);
      InsertAllSorted(InsertInto(s, values[0]), values[1..]);
      assert Elems(values) == {values[0]} + Elems(values[1..]);
    }
  }

  lemma EmptyElems(s: seq<int>)
    ensures Elems(s) == {} <==> s == []
  {
    if s != [] {
      assert s[0] in Elems(s);
    }
  }

  /** A set has one ascending sequence only. */
  lemma {:induction false} CanonicalForm(a: seq<int>, b: seq<int>)
    requires Ascending(a) && Ascending(b) && Elems(a) == Elems(b)
    ensures a == b
  {
    if a == [] || b == [] {
      EmptyElems(a);
      EmptyElems(b);
    } else {
      assert a[0] in Elems(b) && b[0] in Elems(a);
      assert forall x :: x in a ==> a[0] <= x;
      assert forall x :: x in b ==> b[0] <= x;
      assert a[0] == b[0];
      assert Elems(a[1..]) == Elems(a) - {a[0]} && Elems(b[1..]) == Elems(b) - {b[0]};
      CanonicalForm(a[1..], b[1..]);
      assert a == [a[0]] + a[1..] && b == [b[0]] + b[1..];
    }
  }

  // --- Runs of operations ---

  datatype Op = Insert(value: int) | InsertRange(values: seq<int>) | Erase(value: int)

  /** The container after the operations, starting from empty. */
  function Run(ops: seq<Op>): seq<int> {
    if ops == [] then []
    else
      var before := Run(ops[..|ops| - 1]);
      match ops[|ops| - 1]
      case Insert(v) => InsertInto(before, v)
      case InsertRange(vs) => InsertAll(before, vs)
      case Erase(v) => Without(before, v)
  }

  /** What the operations mean for a plain set. */
  function SetRun(ops: seq<Op>): set<int> {
    if ops == [] then {}
    else
      var before := SetRun(ops[..|ops| - 1]);
      match ops[|ops| - 1]
      case Insert(v) => before + {v}
      case InsertRange(vs) => before + Elems(vs)
      case Erase(v) => before - {v}
  }

  /** Every run keeps the container the sorted form of the set it stands for. */
  lemma {:induction false} RunIsSortedSet(ops: seq<Op>)
    ensures Ascending(Run(ops)) && Elems(Run(ops)) == SetRun(ops)
  {
    if ops != [] {
      var before := Run(ops[..|ops| - 1]);
      RunIsSortedSet(ops[..|ops| - 1]);
      match ops[|ops| - 1]
      case Insert(v) => InsertIntoSorted(before, v);
      case InsertRange(vs) => InsertAllSorted(before, vs);
      case Erase(v) => WithoutIsSubsequence(before, v);
    }
  }

  /** Two runs give equal containers exactly when they mean the same set. */
  lemma EqualRuns(ops: seq<Op>, others: seq<Op>)
    ensures Run(ops) == Run(others) <==> SetRun(ops) == SetRun(others)
  {
    RunIsSortedSet(ops);
    RunIsSortedSet(others);
    if SetRun(ops) == SetRun(others) {
      CanonicalForm(Run(ops), Run(others));
    }
  }

  lemma InsertsCommute(s: seq<int>, a: int, b: int)
    requires Ascending(s)
    ensures InsertInto(InsertInto(s, a), b) == InsertInto(InsertInto(s, b), a)
    ensures InsertInto(InsertInto(s, a), a) == InsertInto(s, a)
  {
    InsertIntoSorted(s, a);
    InsertIntoSorted(s, b);
    InsertIntoSorted(InsertInto(s, a), b);
    InsertIntoSorted(InsertInto(s, b), a);
    InsertIntoSorted(InsertInto(s, a), a);
    CanonicalForm(InsertInto(InsertInto(s, a), b), InsertInto(InsertInto(s, b), a));
    CanonicalForm(InsertInto(InsertInto(s, a), a), InsertInto(s, a));
  }
}
