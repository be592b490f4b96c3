/** The digit/letter tokenizer. */
module Tokens {
  import opened Characters
  import opened Sequences

  /** `s` cut wherever the character class changes. */
  function Runs(s: string): (runs: seq<string>)
    ensures forall i :: 0 <= i < |runs| ==> runs[i] != ""
  {
    if s == "" then []
    else
      var rest := Runs(s[1..]);
      if rest != [] && ClassOf(s[0]) == ClassOf(rest[0][0]) then [[s[0]] + rest[0]] + rest[1..]
      else [[s[0]]] + rest
  }

  ghost predicate Uniform(run: string) {
    run != "" && forall i :: 0 <= i < |run| ==> ClassOf(run[i]) == ClassOf(run[0])
  }

  /** Non-empty runs of one class each, neighbours of different classes. */
  ghost predicate AreRuns(runs: seq<string>) {
    && (forall i :: 0 <= i < |runs| ==> Uniform(runs[i]))
    && (forall i :: 0 < i < |runs| ==> ClassOf(runs[i][0]) != ClassOf(runs[i - 1][0]))
  }

  lemma {:induction false} RunsAreRuns(s: string)
    ensures AreRuns(Runs(s)) && Flatten(Runs(s)) == s
  {
    hide ClassOf;
    if s != "" {
      var rest := Runs(s[1..]);
      RunsAreRuns(s[1..]);
      if rest != [] && ClassOf(s[0]) == ClassOf(rest[0][0]) {
        assert Runs(s) == [[s[0]] + rest[0]] + rest[1..];
        assert Runs(s)[1..] == rest[1..];
      } else {
        assert Runs(s)[1..] == rest;
      }
    }
  }

  /** The decomposition into maximal runs is the only one of its kind. */
  lemma {:induction false} RunsAreUnique(runs: seq<string>)
    requires AreRuns(runs)
    ensures Runs(Flatten(runs)) == runs
    decreases |Flatten(runs)|
  {
    hide ClassOf;
    if runs != [] {
      var s, first := Flatten(runs), runs[0];
      assert Uniform(first);
      if |first| == 1 {
        assert s[1..] == Flatten(runs[1..]);
        RunsAreUnique(runs[1..]);
        assert first == [s[0]];
        assert runs == [first] + runs[1..];
      } else {
        var shorter := [first[1..]] + runs[1..];
        assert shorter[1..] == runs[1..];
        assert s[1..] == Flatten(shorter);
        assert Uniform(first[1..]);
        RunsAreUnique(shorter);
        assert first == [s[0]] + first[1..];
      }
    }
  }

  /** Non-empty words of letters and digits. */
  ghost predicate AreAlnum(words: seq<string>) {
    forall i :: 0 <= i < |words| ==> words[i] != "" && IsAllAlnum(words[i])
  }

  lemma AppendRun(runs: seq<string>, run: string)
    requires AreRuns(runs) && Uniform(run)
    requires runs != [] ==> ClassOf(runs[|runs| - 1][0]) != ClassOf(run[0])
    ensures AreRuns(runs + [run])
  {
  }

  lemma AppendRuns(a: seq<string>, b: seq<string>)
    requires AreRuns(a) && AreRuns(b)
    requires a != [] && b != [] ==> ClassOf(a[|a| - 1][0]) != ClassOf(b[0][0])
    ensures AreRuns(a + b)
  {
  }

  /** The runs that are not white space. */
  function Words(runs: seq<string>): seq<string>
    requires forall i :: 0 <= i < |runs| ==> runs[i] != ""
  {
    if runs == [] then []
    else (if IsSpace(runs[0][0]) then [] else [runs[0]]) + Words(runs[1..])
  }

  lemma {:induction false} WordsSnoc(runs: seq<string>, run: string)
    requires run != "" && forall i :: 0 <= i < |runs| ==> runs[i] != ""
    ensures Words(runs + [run]) == Words(runs) + if IsSpace(run[0]) then [] else [run]
  {
    if runs == [] {
      assert runs + [run] == [run];
    } else {
      WordsSnoc(runs[1..], run);
      assert (runs + [run])[1..] == runs[1..] + [run];
    }
  }

  ghost predicate IsText(s: string) {
    forall i :: 0 <= i < |s| ==> IsAlnum(s[i]) || IsSpace(s[i])
  }

  /** Reading one past the end of a `std::string` gives the terminator. */
  function Peek(s: string, i: nat): char {
    if i < |s| then s[i] else '\0'
  }

  /** `a `, `1 `, `1a` or `a1` at position `i`. */
  predicate EndsToken(str: string, i: nat)
    requires i < |str|
  {
    var c, next := str[i], Peek(str, i + 1);
    (IsAlnum(c) && IsSpace(next)) || (IsDigit(c) && IsAlpha(next)) || (IsAlpha(c) && IsDigit(next))
  }

  /** ` a`, ` 1`, `a1` or `1a` at position `i`. */
  predicate StartsToken(str: string, i: nat)
    requires i < |str|
  {
    var c, next := str[i], Peek(str, i + 1);
    (IsSpace(c) && IsAlnum(next)) || (IsAlpha(c) && IsDigit(next)) || (IsDigit(c) && IsAlpha(next))
  }

  /** Where the text was last cut, at or before `i`: behind a place where a token ends or starts. */
  function LastCut(str: string, i: nat): (cut: nat)
    requires i <= |str|
    ensures cut <= i
    ensures forall k :: cut <= k < i ==> !EndsToken(str, k) && !StartsToken(str, k)
  {
    if i == 0 || EndsToken(str, i - 1) || StartsToken(str, i - 1) then i else LastCut(str, i - 1)
  }

  /** For each place before `i` where a token ends, the text since the last cut. */
  function Pieces(str: string, i: nat): seq<string>
    requires i <= |str|
  {
    if i == 0 then []
    else Pieces(str, i - 1) + if EndsToken(str, i - 1) then [str[LastCut(str, i - 1)..i]] else []
  }

  method GetTokens(s: string) returns (result: seq<string>)
    ensures result == Pieces(s + " ", |s| + 1)
    ensures IsText(s) ==> result == Words(Runs(s))
    ensures IsAllAlnum(s) ==> result == Runs(s)
  {
    hide EndsToken, StartsToken, ClassOf;
    var str := s + " ";
    result := [];
    var start := 0;
    for i := 0 to |str|
      invariant start == LastCut(str, i) && result == Pieces(str, i)
    {
      if EndsToken(str, i) {
        result := result + [str[start..i + 1]];
        start := i + 1;
      }
      if StartsToken(str, i) {
        start := i + 1;
      }
    }
    if IsText(s) {
      TokensOfText(s);
    }
  }

  /** In a text of letters, digits and blanks the pieces are the maximal runs that are not blank. */
  lemma TokensOfText(s: string)
    requires IsText(s)
    ensures Pieces(s + " ", |s| + 1) == Words(Runs(s))
    ensures IsAllAlnum(s) ==> Words(Runs(s)) == Runs(s)
  {
    hide Words, Runs, Pieces, Scanned, ClassOf;
    var begin, done := ScannedUpTo(s, |s| + 1);
    ScanEnd(s, LastCut(s + " ", |s| + 1), Pieces(s + " ", |s| + 1), begin, done);
    if IsAllAlnum(s) {
      AlnumWords(s);
    }
  }

  lemma {:induction false} NoCutYet(str: string, i: nat)
    requires i <= |str| && forall k :: 0 <= k < i ==> !EndsToken(str, k) && !StartsToken(str, k)
    ensures LastCut(str, i) == 0 && Pieces(str, i) == []
  {
    if i > 0 {
      NoCutYet(str, i - 1);
    }
  }

  lemma OneToken(str: string, n: nat)
    requires 0 < n && n + 1 == |str|
    requires forall k :: 0 <= k < n - 1 ==> !EndsToken(str, k) && !StartsToken(str, k)
    requires EndsToken(str, n - 1) && !EndsToken(str, n)
    ensures Pieces(str, n + 1) == [str[..n]]
  {
    NoCutYet(str, n - 1);
    CutStep(str, n - 1);
    CutStep(str, n);
    assert str[0..n] == str[..n];
  }

  /** Other characters do not cut: between runs of letters or digits they belong to the token. */
  lemma PunctuationStays(before: string, c: char, after: string)
    requires Uniform(before) && IsAlnum(before[0]) && Uniform(after) && IsAlnum(after[0])
    requires !IsAlnum(c) && !IsSpace(c)
    ensures Pieces(before + [c] + after + " ", |before| + |after| + 2) == [before + [c] + after]
  {
    var word := before + [c] + after;
    var n := |before| + 1 + |after|;
    forall k | 0 <= k < n - 1
      ensures !EndsToken(word + " ", k) && !StartsToken(word + " ", k)
    {
      NoCutInside(before, c, after, k);
    }
    hide Pieces, LastCut, EndsToken, StartsToken, Uniform, ClassOf;
    LastEnds(before + [c], after);
    OneToken(word + " ", n);
    assert (word + " ")[..n] == word;
  }

  lemma LastEnds(before: string, last: string)
    requires Uniform(last) && IsAlnum(last[0])
    ensures var (str, n) := (before + last + " ", |before| + |last|); EndsToken(str, n - 1) && !EndsToken(str, n)
  {
    var str, n := before + last + " ", |before| + |last|;
    assert str[n] == ' ' && str[n - 1] == last[|last| - 1];
  }

  lemma NoCutInside(before: string, c: char, after: string, k: nat)
    requires Uniform(before) && IsAlnum(before[0]) && Uniform(after) && IsAlnum(after[0])
    requires !IsAlnum(c) && !IsSpace(c) && k < |before| + |after|
    ensures var str := before + [c] + after + " "; !EndsToken(str, k) && !StartsToken(str, k)
  {
    var str := before + [c] + after + " ";
    InsideWord(before, c, after, k);
    InsideWord(before, c, after, k + 1);
    hide ClassOf, Uniform;
  }

  lemma InsideWord(before: string, c: char, after: string, k: nat)
    requires Uniform(before) && Uniform(after) && k <= |before| + |after|
    ensures ClassOf((before + [c] + after + " ")[k])
      == ClassOf(if k < |before| then before[0] else if k == |before| then c else after[0])
  {
    hide ClassOf;
    var s := (before + [c] + after + " ")[k];
    if k < |before| {
      assert s == before[k];
    } else if k > |before| {
      assert s == after[k - |before| - 1];
    }
  }

  lemma {:induction false} ScannedUpTo(s: string, i: nat) returns (begin: nat, done: seq<string>)
    requires IsText(s) && i <= |s| + 1
    ensures Scanned(s + " ", i, LastCut(s + " ", i), Pieces(s + " ", i), begin, done)
  {
    var str := s + " ";
    if i == 0 {
      begin, done := 0, [];
    } else {
      hide Scanned, EndsToken, StartsToken, ClassOf, IsText, LastCut, Pieces;
      begin, done := ScannedUpTo(s, i - 1);
      begin, done := ScanStep(s, i - 1, LastCut(str, i - 1), Pieces(str, i - 1), begin, done);
      CutStep(str, i - 1);
    }
  }

  lemma CutStep(str: string, i: nat)
    requires i < |str|
    ensures LastCut(str, i + 1) == if EndsToken(str, i) || StartsToken(str, i) then i + 1 else LastCut(str, i)
    ensures Pieces(str, i + 1)
      == if EndsToken(str, i) then Pieces(str, i) + [str[LastCut(str, i)..i + 1]] else Pieces(str, i)
  {
  }

  /** `done` holds the runs before `begin`, `result` those that are not blank, and the run that
      begins at `begin` covers everything read since. */
  ghost predicate Scanned(
    str: string, i: nat, start: nat, result: seq<string>, begin: nat, done: seq<string>)
  {
    && start <= i <= |str| && begin < |str|
    && IsCut(str, begin, done) && result == Words(done)
    && InRun(str, begin, if i < |str| then i else i - 1)
    && (i < |str| && !IsSpace(str[i]) ==> start == begin)
  }

  lemma ScanStep(s: string, i: nat, start: nat, result: seq<string>, begin: nat, done: seq<string>)
    returns (begin': nat, done': seq<string>)
    requires IsText(s) && i < |s + " "| && Scanned(s + " ", i, start, result, begin, done)
    ensures Scanned(s + " ", i + 1,
      if EndsToken(s + " ", i) || StartsToken(s + " ", i) then i + 1 else start,
      if EndsToken(s + " ", i) then result + [(s + " ")[start..i + 1]] else result, begin', done')
  {
    var str := s + " ";
    begin', done' := begin, done;
    if i + 1 < |str| && ClassOf(str[i + 1]) != ClassOf(str[i]) {
      CloseRun(str, begin, i, done);
      WordsSnoc(done, str[begin..i + 1]);
      begin', done' := i + 1, done + [str[begin..i + 1]];
    }
  }

  lemma ScanEnd(s: string, start: nat, result: seq<string>, begin: nat, done: seq<string>)
    requires Scanned(s + " ", |s + " "|, start, result, begin, done)
    ensures result == Words(Runs(s))
  {
    var str := s + " ";
    LastRun(str, begin, done);
    assert ClassOf(str[begin..][0]) == ClassOf(str[|str| - 1]) == Space;
    WordsSnoc(done, str[begin..]);
    TrailingSpace(s);
  }

  /** Text without blanks consists of its words. */
  lemma AlnumWords(s: string)
    requires IsAllAlnum(s)
    ensures Words(Runs(s)) == Runs(s)
  {
    RunsAreRuns(s);
    FlattenMembers(Runs(s));
    WordsOfWords(Runs(s));
  }

  /** The runs closed so far, which end where the current run begins. */
  ghost predicate IsCut(str: string, begin: nat, done: seq<string>) {
    && AreRuns(done)
    && begin <= |str| && Flatten(done) == str[..begin]
    && (done != [] && begin < |str| ==> ClassOf(done[|done| - 1][0]) != ClassOf(str[begin]))
  }

  /** All of `str[begin..i + 1]` is of one class. */
  ghost predicate InRun(str: string, begin: nat, i: nat) {
    begin <= i < |str| && forall k :: begin <= k <= i ==> ClassOf(str[k]) == ClassOf(str[begin])
  }

  lemma CloseRun(str: string, begin: nat, i: nat, done: seq<string>)
    requires IsCut(str, begin, done) && InRun(str, begin, i)
    requires i + 1 < |str| && ClassOf(str[i + 1]) != ClassOf(str[i])
    ensures IsCut(str, i + 1, done + [str[begin..i + 1]])
  {
    assert Uniform(str[begin..i + 1]);
    AppendRun(done, str[begin..i + 1]);
    FlattenSnoc(done, str[begin..i + 1]);
    assert str[..begin] + str[begin..i + 1] == str[..i + 1];
  }

  lemma LastRun(str: string, begin: nat, done: seq<string>)
    requires begin < |str| && IsCut(str, begin, done) && InRun(str, begin, |str| - 1)
    ensures Runs(str) == done + [str[begin..]]
  {
    assert Uniform(str[begin..]);
    AppendRun(done, str[begin..]);
    FlattenSnoc(done, str[begin..]);
    assert str[..begin] + str[begin..] == str;
    RunsAreUnique(done + [str[begin..]]);
  }

  /** The blank appended before scanning adds no token. */
  lemma TrailingSpace(s: string)
    ensures Words(Runs(s + " ")) == Words(Runs(s))
  {
    hide Words, AreRuns;
    var runs := Runs(s);
    RunsAreRuns(s);
    if runs != [] && IsSpace(runs[|runs| - 1][0]) {
      var init, last := runs[..|runs| - 1], runs[|runs| - 1];
      assert runs == init + [last];
      GrowLastRun(init, last);
      WordsSnoc(init, last);
      WordsSnoc(init, last + " ");
    } else {
      AppendRun(runs, " ");
      FlattenSnoc(runs, " ");
      RunsAreUnique(runs + [" "]);
      WordsSnoc(runs, " ");
    }
  }

  lemma GrowLastRun(init: seq<string>, last: string)
    requires last != "" && IsSpace(last[0]) && AreRuns(init + [last])
    ensures Runs(Flatten(init + [last]) + " ") == init + [last + " "]
  {
    assert (init + [last])[|init|] == last;
    assert forall i :: 0 <= i < |init| ==> init[i] == (init + [last])[i];
    assert init != [] ==> init[|init| - 1] == (init + [last])[|init| - 1];
    assert Uniform(last);
    assert Flatten(init) + (last + " ") == Flatten(init) + last + " ";
    AppendRun(init, last + " ");
    FlattenSnoc(init, last);
    FlattenSnoc(init, last + " ");
    RunsAreUnique(init + [last + " "]);
  }

  lemma {:induction false} FlattenMembers(parts: seq<string>)
    ensures forall i, j :: 0 <= i < |parts| && 0 <= j < |parts[i]| ==> parts[i][j] in Flatten(parts)
  {
    if parts != [] {
      FlattenMembers(parts[1..]);
      forall i, j | 0 <= i < |parts| && 0 <= j < |parts[i]|
        ensures parts[i][j] in Flatten(parts)
      {
        if i > 0 {
          assert parts[i] == parts[1..][i - 1];
        }
      }
    }
  }

  lemma {:induction false} WordsOfWords(runs: seq<string>)
    requires forall i :: 0 <= i < |runs| ==> runs[i] != "" && !IsSpace(runs[i][0])
    ensures Words(runs) == runs
  {
    if runs != [] {
      WordsOfWords(runs[1..]);
    }
  }
}
