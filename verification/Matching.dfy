/** Scanning for a pattern and replacing it in place. */
module Matching {
  import opened Options
  import opened Sequences

  predicate OccursAt(s: string, pattern: string, i: nat) {
    i + |pattern| <= |s| && s[i..i + |pattern|] == pattern
  }

  /** `std::string::find`: the first occurrence at or after `from`. */
  function Find(s: string, pattern: string, from: nat): (r: Option<nat>)
    ensures r.Some? ==> from <= r.value && OccursAt(s, pattern, r.value)
    decreases |s| + 1 - from
  {
    if from > |s| then None
    else if OccursAt(s, pattern, from) then Some(from)
    else Find(s, pattern, from + 1)
  }

  /** The occurrences met by scanning from left to right, resuming after each match. */
  function Positions(s: string, pattern: string, from: nat): seq<nat>
    requires pattern != ""
    decreases |s| + 1 - from
  {
    if from > |s| then []
    else if OccursAt(s, pattern, from) then [from] + Positions(s, pattern, from + |pattern|)
    else Positions(s, pattern, from + 1)
  }

  ghost predicate Apart(width: nat, at: set<nat>) {
    forall i, j :: i in at && j in at && i < j ==> i + width <= j
  }

  /** A set of occurrences no two of which share a character. */
  ghost predicate Disjoint(s: string, pattern: string, at: set<nat>) {
    Apart(|pattern|, at) && forall i :: i in at ==> OccursAt(s, pattern, i)
  }

  /** An occurrence is missing only if it overlaps one that starts before it. */
  ghost predicate Leftmost(s: string, pattern: string, at: set<nat>) {
    forall i: nat :: OccursAt(s, pattern, i) ==> exists p :: p in at && p <= i < p + |pattern|
  }

  /** Ascending occurrences that do not overlap, none before `from`. */
  ghost predicate Spaced(s: string, pattern: string, at: seq<nat>, from: nat) {
    && (forall i :: 0 <= i < |at| ==> from <= at[i] && OccursAt(s, pattern, at[i]))
    && (forall i, j :: 0 <= i < j < |at| ==> at[i] + |pattern| <= at[j])
  }

  /** Nothing is overlooked: no occurrence precedes the one found. */
  lemma {:induction false} FindIsFirst(s: string, pattern: string, from: nat, i: nat)
    requires from <= i && OccursAt(s, pattern, i)
    ensures Find(s, pattern, from).Some? && Find(s, pattern, from).value <= i
    decreases i - from
  {
    if from < i && !OccursAt(s, pattern, from) {
      FindIsFirst(s, pattern, from + 1, i);
    }
  }

  lemma {:induction false} PositionsFromFind(s: string, pattern: string, from: nat)
    requires pattern != ""
    ensures Positions(s, pattern, from) ==
      match Find(s, pattern, from)
      case None => []
      case Some(i) => [i] + Positions(s, pattern, i + |pattern|)
    decreases |s| + 1 - from
  {
    hide OccursAt;
    if from <= |s| && !OccursAt(s, pattern, from) {
      PositionsFromFind(s, pattern, from + 1);
    }
  }

  method FindIndexAll(s: string, pattern: string) returns (positions: set<nat>)
    requires pattern != ""  // otherwise the scan does not end, see ScanEnds
    ensures positions == Elems(Positions(s, pattern, 0))
    ensures Disjoint(s, pattern, positions)
    ensures Leftmost(s, pattern, positions)
    ensures forall at :: Disjoint(s, pattern, at) ==> |at| <= |positions|
  {
    hide Leftmost;
    positions := {};
    var position := 0;
    var found := Find(s, pattern, position);
    while found.Some?
      invariant found == Find(s, pattern, position)
      invariant Elems(Positions(s, pattern, 0)) == positions + Elems(Positions(s, pattern, position))
      decreases |s| + 1 - position
    {
      PositionsFromFind(s, pattern, position);
      position := found.value;
      positions := positions + {position};
      position := position + |pattern|;
      found := Find(s, pattern, position);
    }
    PositionsFromFind(s, pattern, position);
    PositionsAscend(s, pattern, 0);
    DistinctSize(Positions(s, pattern, 0));
    PositionsDisjoint(s, pattern);
    PositionsAreLeftmost(s, pattern);
    forall at | Disjoint(s, pattern, at)
      ensures |at| <= |positions|
    {
      PositionsAreMaximal(s, pattern, 0, at);
    }
  }

  method FindAllOf(s: string, pattern: string) returns (results: seq<string>)
    requires pattern != ""
    ensures results == seq(|Elems(Positions(s, pattern, 0))|, _ => pattern)
  {
    results := [];
    var position := 0;
    var found := Find(s, pattern, position);
    while found.Some?
      invariant found == Find(s, pattern, position)
      invariant |Positions(s, pattern, 0)| == |results| + |Positions(s, pattern, position)|
      invariant results == seq(|results|, _ => pattern)
      decreases |s| + 1 - position
    {
      PositionsFromFind(s, pattern, position);
      position := found.value;
      assert OccursAt(s, pattern, position);
      results := results + [s[position..position + |pattern|]];
      position := position + |pattern|;
      found := Find(s, pattern, position);
    }
    PositionsFromFind(s, pattern, position);
    PositionsAscend(s, pattern, 0);
    DistinctSize(Positions(s, pattern, 0));
  }

  // --- When the scan ends ---

  /** Where the search starts after so many turns of the scan's loop; none if the loop has ended. */
  function StartAfter(s: string, pattern: string, turns: nat): Option<nat> {
    if turns == 0 then Some(0)
    else
      match StartAfter(s, pattern, turns - 1)
      case None => None
      case Some(position) =>
        match Find(s, pattern, position)
        case None => None
        case Some(i) => Some(i + |pattern|)
  }

  lemma {:induction false} NeverMoves(s: string, turns: nat)
    ensures StartAfter(s, "", turns) == Some(0)
  {
    if turns > 0 {
      NeverMoves(s, turns - 1);
      FindIsFirst(s, "", 0, 0);
    }
  }

  lemma {:induction false} AlwaysMoves(s: string, pattern: string, turns: nat)
    requires pattern != "" && StartAfter(s, pattern, turns).Some?
    ensures turns <= StartAfter(s, pattern, turns).value <= |s|
  {
    if turns > 0 {
      AlwaysMoves(s, pattern, turns - 1);
    }
  }

  /** The scan ends exactly on patterns that are not empty, whatever the text. */
  lemma ScanEnds(s: string, pattern: string)
    ensures (exists turns: nat :: StartAfter(s, pattern, turns).None?) <==> pattern != ""
  {
    if pattern != "" {
      var turns := |s| + 1;
      if StartAfter(s, pattern, turns).Some? {
        AlwaysMoves(s, pattern, turns);
      }
      assert StartAfter(s, pattern, turns).None?;
    } else {
      forall turns: nat
        ensures StartAfter(s, pattern, turns).Some?
      {
        NeverMoves(s, turns);
      }
    }
  }

  lemma {:induction false} PositionsAscend(s: string, pattern: string, from: nat)
    requires pattern != ""
    ensures Spaced(s, pattern, Positions(s, pattern, from), from)
    decreases |s| + 1 - from
  {
    if from <= |s| {
      if OccursAt(s, pattern, from) {
        PositionsAscend(s, pattern, from + |pattern|);
      } else {
        PositionsAscend(s, pattern, from + 1);
      }
    }
  }

  lemma PositionsDisjoint(s: string, pattern: string)
    requires pattern != ""
    ensures Disjoint(s, pattern, Elems(Positions(s, pattern, 0)))
  {
    PositionsAscend(s, pattern, 0);
  }

  /** Leftmost-first matching takes as many occurrences as any non-overlapping choice. */
  lemma {:induction false} PositionsAreMaximal(s: string, pattern: string, from: nat, at: set<nat>)
    requires pattern != "" && Disjoint(s, pattern, at)
    requires forall i :: i in at ==> from <= i
    ensures |at| <= |Positions(s, pattern, from)|
    decreases |s| + 1 - from
  {
    if from > |s| {
      assert forall i :: i in at ==> OccursAt(s, pattern, i);
      assert at == {};
    } else if OccursAt(s, pattern, from) {
      DropFirstWindow(|pattern|, from, at);
      PositionsAreMaximal(s, pattern, from + |pattern|, From(at, from + |pattern|));
    } else {
      PositionsAreMaximal(s, pattern, from + 1, at);
    }
  }

  lemma PositionsAreLeftmost(s: string, pattern: string)
    requires pattern != ""
    ensures Leftmost(s, pattern, Elems(Positions(s, pattern, 0)))
  {
    forall i: nat | OccursAt(s, pattern, i)
      ensures exists p :: p in Elems(Positions(s, pattern, 0)) && p <= i < p + |pattern|
    {
      var p := MetBefore(s, pattern, 0, i);
      assert p in Elems(Positions(s, pattern, 0));
    }
  }

  lemma {:induction false} MetBefore(s: string, pattern: string, from: nat, i: nat) returns (p: nat)
    requires pattern != "" && from <= i && OccursAt(s, pattern, i)
    ensures p in Positions(s, pattern, from) && p <= i < p + |pattern|
    decreases |s| + 1 - from
  {
    if !OccursAt(s, pattern, from) {
      p := MetBefore(s, pattern, from + 1, i);
    } else if i < from + |pattern| {
      p := from;
    } else {
      p := MetBefore(s, pattern, from + |pattern|, i);
    }
  }

  function From(at: set<nat>, from: nat): set<nat> {
    set i | i in at && from <= i
  }

  /** At most one of the occurrences starts within the first `width` characters. */
  lemma DropFirstWindow(width: nat, from: nat, at: set<nat>)
    requires Apart(width, at) && forall i :: i in at ==> from <= i
    ensures |at| <= 1 + |From(at, from + width)|
  {
    var later := From(at, from + width);
    if later != at {
      var e :| e in at && e !in later;
      assert at == {e} + later;
    }
  }

  /** The text in which every match met by the scan has been replaced. */
  function Replaced(s: string, pattern: string, replacement: string): string
    requires pattern != ""
    decreases |s|
  {
    if s == "" then ""
    else if OccursAt(s, pattern, 0) then replacement + Replaced(s[|pattern|..], pattern, replacement)
    else [s[0]] + Replaced(s[1..], pattern, replacement)
  }

  /** `s` from `from` on, with `replacement` spliced over the pattern at each position. */
  function Splice(s: string, pattern: string, at: seq<nat>, replacement: string, from: nat): string
    requires from <= |s| && Spaced(s, pattern, at, from)
    decreases |at|
  {
    if at == [] then s[from..]
    else
      assert OccursAt(s, pattern, at[0]);
      s[from..at[0]] + replacement + Splice(s, pattern, at[1..], replacement, at[0] + |pattern|)
  }

  class Text {
    var chars: string

    method ReplaceAll(pattern: string, replacement: string)
      modifies this
      ensures chars == if pattern == "" then old(chars) else Replaced(old(chars), pattern, replacement)
    {
      if pattern == "" || chars == "" {
        return;
      }
      hide OccursAt, Find, Replaced, ReplacedSoFar;
      var pos: nat := 0;
      var found := Find(chars, pattern, pos);
      NothingReplacedYet(chars, pattern, replacement);
      while found.Some?
        invariant pos <= |chars| && found == Find(chars, pattern, pos)
        invariant ReplacedSoFar(old(chars), chars, pos, pattern, replacement)
        decreases |chars| - pos
      {
        ReplaceStep(old(chars), chars, pos, pattern, replacement, found.value);
        MatchInRange(chars, pattern, pos);
        pos := found.value;
        chars := chars[..pos] + replacement + chars[pos + |pattern|..];
        pos := pos + |replacement|;
        found := Find(chars, pattern, pos);
      }
      AllReplaced(old(chars), chars, pos, pattern, replacement);
    }
  }

  /** The text up to `pos` is final; the rest is still as in the original. */
  ghost predicate ReplacedSoFar(original: string, s: string, pos: nat, pattern: string, replacement: string)
    requires pattern != "" && pos <= |s|
  {
    Replaced(original, pattern, replacement) == s[..pos] + Replaced(s[pos..], pattern, replacement)
  }

  lemma NothingReplacedYet(s: string, pattern: string, replacement: string)
    requires pattern != ""
    ensures ReplacedSoFar(s, s, 0, pattern, replacement)
  {
    assert s[..0] == "" && s[0..] == s;
  }

  lemma AllReplaced(original: string, s: string, pos: nat, pattern: string, replacement: string)
    requires pattern != "" && pos <= |s| && Find(s, pattern, pos).None?
    requires ReplacedSoFar(original, s, pos, pattern, replacement)
    ensures s == Replaced(original, pattern, replacement)
  {
    ReplacedWithoutMatch(s, pos, pattern, replacement);
    assert s[..pos] + s[pos..] == s;
  }

  lemma MatchInRange(s: string, pattern: string, from: nat)
    ensures match Find(s, pattern, from)
      case None => true
      case Some(i) => from <= i && i + |pattern| <= |s|
  {
  }

  /** One turn of the in-place loop; the text grows or shrinks, but its unscanned part gets shorter. */
  lemma ReplaceStep(original: string, s: string, pos: nat, pattern: string, replacement: string, i: nat)
    requires pattern != "" && pos <= |s| && Find(s, pattern, pos) == Some(i)
    requires ReplacedSoFar(original, s, pos, pattern, replacement)
    ensures ReplacedSoFar(original, s[..i] + replacement + s[i + |pattern|..], i + |replacement|, pattern, replacement)
  {
    ReplacedUpToMatch(s, pos, pattern, replacement, i);
    hide OccursAt, Find, Replaced;
    assert s[..pos] + s[pos..i] == s[..i];
    Associative(s[..pos], s[pos..i] + replacement, Replaced(s[i + |pattern|..], pattern, replacement));
    Associative(s[..pos], s[pos..i], replacement);
    Cut(s[..i], replacement, s[i + |pattern|..]);
  }

  lemma Cut(a: string, b: string, c: string)
    ensures (a + b + c)[..|a| + |b|] == a + b && (a + b + c)[|a| + |b|..] == c
  {
  }

  lemma {:induction false} ReplacedWithoutMatch(s: string, from: nat, pattern: string, replacement: string)
    requires pattern != "" && from <= |s| && Find(s, pattern, from).None?
    ensures Replaced(s[from..], pattern, replacement) == s[from..]
    decreases |s| - from
  {
    OccursInSuffix(s, from, pattern);
    if from < |s| {
      ReplacedWithoutMatch(s, from + 1, pattern, replacement);
      assert s[from..][1..] == s[from + 1..];
    }
  }

  lemma {:induction false} ReplacedUpToMatch(s: string, from: nat, pattern: string, replacement: string, i: nat)
    requires pattern != "" && from <= |s| && Find(s, pattern, from) == Some(i)
    ensures from <= i && i + |pattern| <= |s|
    ensures Replaced(s[from..], pattern, replacement)
      == s[from..i] + replacement + Replaced(s[i + |pattern|..], pattern, replacement)
    decreases |s| - from
  {
    OccursInSuffix(s, from, pattern);
    assert OccursAt(s, pattern, i);
    hide OccursAt;
    if from == i {
      assert s[from..][|pattern|..] == s[from + |pattern|..];
    } else {
      ReplacedUpToMatch(s, from + 1, pattern, replacement, i);
      assert s[from..][1..] == s[from + 1..];
      assert s[from..i] == [s[from]] + s[from + 1..i];
      Associative([s[from]], s[from + 1..i] + replacement, Replaced(s[i + |pattern|..], pattern, replacement));
      Associative([s[from]], s[from + 1..i], replacement);
    }
  }

  lemma OccursInSuffix(s: string, from: nat, pattern: string)
    requires from <= |s|
    ensures OccursAt(s, pattern, from) <==> OccursAt(s[from..], pattern, 0)
  {
    if from + |pattern| <= |s| {
      assert s[from..][0..|pattern|] == s[from..from + |pattern|];
    }
  }

  /** In-place replacement is one splice at exactly the positions the scan reports on the original text. */
  lemma {:induction false} ReplacedIsSplice(s: string, pattern: string, replacement: string, from: nat)
    requires pattern != "" && from <= |s|
    ensures Spaced(s, pattern, Positions(s, pattern, from), from)
    ensures Replaced(s[from..], pattern, replacement)
      == Splice(s, pattern, Positions(s, pattern, from), replacement, from)
    decreases |s| - from
  {
    hide OccursAt, Find, Positions, Replaced;
    PositionsAscend(s, pattern, from);
    PositionsFromFind(s, pattern, from);
    if Find(s, pattern, from).None? {
      ReplacedWithoutMatch(s, from, pattern, replacement);
    } else {
      var i := Find(s, pattern, from).value;
      ReplacedUpToMatch(s, from, pattern, replacement, i);
      ReplacedIsSplice(s, pattern, replacement, i + |pattern|);
      assert Positions(s, pattern, from)[1..] == Positions(s, pattern, i + |pattern|);
    }
  }

  lemma {:induction false} ReplacedLength(s: string, pattern: string, replacement: string, from: nat)
    requires pattern != "" && from <= |s|
    ensures |Replaced(s[from..], pattern, replacement)|
      == |s| - from + |Positions(s, pattern, from)| * (|replacement| - |pattern|)
    decreases |s| - from
  {
    OccursInSuffix(s, from, pattern);
    if from < |s| {
      if OccursAt(s, pattern, from) {
        assert s[from..][|pattern|..] == s[from + |pattern|..];
        ReplacedLength(s, pattern, replacement, from + |pattern|);
        OneMore(|Positions(s, pattern, from + |pattern|)|, |replacement| - |pattern|);
      } else {
        assert s[from..][1..] == s[from + 1..];
        ReplacedLength(s, pattern, replacement, from + 1);
      }
    }
  }

  lemma OneMore(k: int, d: int)
    ensures (1 + k) * d == d + k * d
  {
  }

  lemma {:induction false} ReplacedBySelf(s: string, pattern: string)
    requires pattern != ""
    ensures Replaced(s, pattern, pattern) == s
    decreases |s|
  {
    if s != "" {
      if OccursAt(s, pattern, 0) {
        ReplacedBySelf(s[|pattern|..], pattern);
        assert s == s[0..|pattern|] + s[|pattern|..];
      } else {
        ReplacedBySelf(s[1..], pattern);
      }
    }
  }

  ghost predicate NoSharedChar(a: string, b: string) {
    forall i, j :: 0 <= i < |a| && 0 <= j < |b| ==> a[i] != b[j]
  }

  /** Output free of the replacement's characters is input copied unchanged. */
  lemma {:induction false} UntouchedPrefix(s: string, pattern: string, replacement: string, n: nat)
    requires pattern != "" && replacement != ""
    requires n <= |Replaced(s, pattern, replacement)|
    requires NoSharedChar(Replaced(s, pattern, replacement)[..n], replacement)
    ensures n <= |s| && s[..n] == Replaced(s, pattern, replacement)[..n]
    decreases n
  {
    if n > 0 {
      var out := Replaced(s, pattern, replacement);
      assert out[..n][0] == out[0];
      assert !OccursAt(s, pattern, 0);
      assert out[1..] == Replaced(s[1..], pattern, replacement);
      assert out[1..][..n - 1] == out[..n][1..];
      UntouchedPrefix(s[1..], pattern, replacement, n - 1);
      assert s[..n] == [s[0]] + s[1..][..n - 1];
    }
  }

  /** A replacement sharing no character with the pattern leaves no match behind. */
  lemma {:induction false} NoMatchRemains(s: string, pattern: string, replacement: string, k: nat)
    requires pattern != "" && replacement != "" && NoSharedChar(pattern, replacement)
    ensures !OccursAt(Replaced(s, pattern, replacement), pattern, k)
    decreases |s|
  {
    if OccursAt(Replaced(s, pattern, replacement), pattern, k) {
      MatchMovesOn(s, pattern, replacement, k);
      if OccursAt(s, pattern, 0) {
        NoMatchRemains(s[|pattern|..], pattern, replacement, k - |replacement|);
      } else {
        NoMatchRemains(s[1..], pattern, replacement, k - 1);
      }
    }
  }

  /** A match in the output cannot touch what the first step of the scan wrote. */
  lemma MatchMovesOn(s: string, pattern: string, replacement: string, k: nat)
    requires pattern != "" && replacement != "" && NoSharedChar(pattern, replacement)
    requires OccursAt(Replaced(s, pattern, replacement), pattern, k)
    ensures s != ""
    ensures if OccursAt(s, pattern, 0)
      then |replacement| <= k && OccursAt(Replaced(s[|pattern|..], pattern, replacement), pattern, k - |replacement|)
      else 1 <= k && OccursAt(Replaced(s[1..], pattern, replacement), pattern, k - 1)
  {
    var out := Replaced(s, pattern, replacement);
    FirstCharMatches(out, pattern, k);
    if OccursAt(s, pattern, 0) {
      if |replacement| <= k {
        OccursAfterDrop(out, pattern, k, |replacement|);
      }
      assert out[|replacement|..] == Replaced(s[|pattern|..], pattern, replacement);
    } else {
      if k == 0 {
        assert out[..|pattern|] == out[0..|pattern|] == pattern;
        UntouchedPrefix(s, pattern, replacement, |pattern|);
      }
      if k > 0 {
        OccursAfterDrop(out, pattern, k, 1);
      }
      assert out[1..] == Replaced(s[1..], pattern, replacement);
    }
  }

  lemma OccursAfterDrop(s: string, pattern: string, k: nat, d: nat)
    requires d <= k && OccursAt(s, pattern, k)
    ensures OccursAt(s[d..], pattern, k - d)
  {
    assert s[d..][k - d..k - d + |pattern|] == s[k..k + |pattern|];
  }

  /** Replacing with fresh characters can be undone by the opposite replacement. */
  lemma {:induction false} ReplaceRoundTrip(s: string, pattern: string, replacement: string)
    requires pattern != "" && replacement != "" && NoSharedChar(s, replacement)
    ensures Replaced(Replaced(s, pattern, replacement), replacement, pattern) == s
    decreases |s|
  {
    if s != "" {
      var out := Replaced(s, pattern, replacement);
      if OccursAt(s, pattern, 0) {
        ReplaceRoundTrip(s[|pattern|..], pattern, replacement);
        assert OccursAt(out, replacement, 0) && out[|replacement|..] == Replaced(s[|pattern|..], pattern, replacement);
        assert s == s[0..|pattern|] + s[|pattern|..];
      } else {
        ReplaceRoundTrip(s[1..], pattern, replacement);
        assert out[0] == s[0] != replacement[0] && out[1..] == Replaced(s[1..], pattern, replacement);
        assert !OccursAt(out, replacement, 0) by {
          if OccursAt(out, replacement, 0) {
            FirstCharMatches(out, replacement, 0);
          }
        }
      }
    }
  }

  lemma FirstCharMatches(s: string, pattern: string, k: nat)
    requires pattern != "" && OccursAt(s, pattern, k)
    ensures s[k] == pattern[0]
  {
    assert s[k..k + |pattern|][0] == s[k];
  }
}
