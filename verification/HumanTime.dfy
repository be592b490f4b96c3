/** Parsing durations written by people. */
module HumanTime {
  import opened Characters
  import opened Decimals
  import opened Durations
  import opened Sequences
  import opened Tokens

  datatype Reading = Value(duration: Duration) | NullOpt | Thrown(error: Exception)

  /** Each of `units` grows by `n`, modulo 2^64. */
  function AddTo(acc: Duration, units: set<nat>, n: nat): Duration {
    seq(TIME_PARTS_COUNT, j requires 0 <= j < TIME_PARTS_COUNT =>
      if j in units then (acc[j] + n) % TWO_TO_THE_64 else acc[j])
  }

  /** The sum of the number-and-unit pairs, added to `acc`. */
  function Eval(tokens: seq<string>, acc: Duration): Reading
    requires |tokens| % 2 == 0
  {
    if tokens == [] then Value(acc)
    else if IsAllDigit(tokens[0]) && !IsAllDigit(tokens[1]) then
      match Stoull(tokens[0])
      case Num(n) => Eval(tokens[2..], AddTo(acc, UnitsNamed(tokens[1]), n))
      case NotNum(e) => Thrown(e)
    else NullOpt
  }

  function TextTokens(s: string): seq<string> {
    Runs(RemoveNonAlphanumeric(s))
  }

  function ParseText(s: string): Reading {
    if |TextTokens(s)| % 2 == 0 then Eval(TextTokens(s), ZERO) else NullOpt
  }

  lemma StrippedIsAlnum(s: string)
    ensures IsAllAlnum(RemoveNonAlphanumeric(s))
  {
    FilterKeeps(s, c => IsAlnum(c));
  }

  /** The inner loop over the units. */
  method Accumulate(values: Duration, unit: string, number: nat) returns (res: Duration)
    ensures res == AddTo(values, UnitsNamed(unit), number)
  {
    res := values;
    for j := 0 to TIME_PARTS_COUNT
      invariant forall k :: 0 <= k < 7 ==>
        res[k] == if k < j && k in UnitsNamed(unit) then (values[k] + number) % TWO_TO_THE_64 else values[k]
    {
      if unit in UNIT_NAMES[j] {
        res := res[j := (res[j] + number) % TWO_TO_THE_64];
      }
    }
    assert res == AddTo(values, UnitsNamed(unit), number);
  }

  /** The parser as its comments describe it: the tokens are taken two by two. */
  method ParseHumanTime(s: string) returns (r: Reading)
    ensures r == ParseText(s)
  {
    StrippedIsAlnum(s);
    var res: Duration := ZERO;
    var tokens := GetTokens(RemoveNonAlphanumeric(s));
    if |tokens| % 2 != 0 {
      return NullOpt;
    }
    for i := 0 to |tokens| / 2
      invariant Eval(tokens, ZERO) == Eval(tokens[2 * i..], res)
    {
      assert tokens[2 * i..][2..] == tokens[2 * (i + 1)..];
      if IsAllDigit(tokens[2 * i]) && !IsAllDigit(tokens[2 * i + 1]) {
        var number := Stoull(tokens[2 * i]);
        if number.NotNum? {
          return Thrown(number.error);
        }
        res := Accumulate(res, tokens[2 * i + 1], number.value);
      } else {
        return NullOpt;
      }
    }
    r := Value(res);
  }

  /** The parser as its code reads: even token counts are rejected, and the loop bound counts tokens
      while the loop reads pairs. `at` throws when the index is past the end. */
  method ParseHumanTimeAsWritten(s: string) returns (r: Reading)
    ensures var t := RemoveNonAlphanumeric(s);
      r == if t != "" && IsDigit(t[0]) && IsDigit(t[|t| - 1]) then Thrown(OutOfRange) else NullOpt
  {
    StrippedIsAlnum(s);
    hide Filter, Runs, IsAllDigit, IsAllAlnum, IsDigit, Stoull, DigitsValue;
    ghost var t := RemoveNonAlphanumeric(s);
    TokenShape(t);
    var res: Duration := ZERO;
    var tokens := GetTokens(RemoveNonAlphanumeric(s));
    if |tokens| % 2 == 0 {
      return NullOpt;
    }
    for i := 0 to |tokens|
      invariant 2 * i < |tokens|
    {
      if 2 * i >= |tokens| {
        return Thrown(OutOfRange);
      }
      if IsAllDigit(tokens[2 * i]) {
        if 2 * i + 1 >= |tokens| {
          return Thrown(OutOfRange);
        }
        if !IsAllDigit(tokens[2 * i + 1]) {
          var number := Stoull(tokens[2 * i]);
          if number.NotNum? {
            StoullOfDigits(tokens[2 * i]);
            return Thrown(number.error);
          }
          res := Accumulate(res, tokens[2 * i + 1], number.value);
          continue;
        }
      }
      return NullOpt;
    }
    r := Value(res);
  }

  /** Tokens of letters and digits alternate between the two. */
  lemma {:induction false} TokensAlternate(runs: seq<string>, k: nat)
    requires AreRuns(runs) && AreAlnum(runs) && k < |runs|
    ensures IsAllDigit(runs[k]) <==> IsDigit(runs[k][0])
    ensures IsAllAlpha(runs[k]) <==> !IsDigit(runs[k][0])
    ensures IsDigit(runs[k][0]) <==> IsDigit(runs[0][0]) == (k % 2 == 0)
  {
    assert Uniform(runs[k]) && IsAlnum(runs[k][0]);
    if k > 0 {
      TokensAlternate(runs, k - 1);
      assert IsAlnum(runs[k - 1][0]);
    }
  }

  lemma {:induction false} FlattenedAlnum(runs: seq<string>)
    requires AreRuns(runs) && IsAllAlnum(Flatten(runs))
    ensures AreAlnum(runs)
  {
    if runs != [] {
      var rest := Flatten(runs[1..]);
      assert Flatten(runs) == runs[0] + rest;
      assert forall i :: 0 <= i < |rest| ==> rest[i] == Flatten(runs)[|runs[0]| + i];
      assert forall i :: 0 <= i < |runs[0]| ==> runs[0][i] == Flatten(runs)[i];
      FlattenedAlnum(runs[1..]);
      assert Uniform(runs[0]);
      assert forall i :: 0 < i < |runs| ==> runs[i] == runs[1..][i - 1];
    }
  }

  /** The tokens of a text of letters and digits: what the first and the last character tell about them. */
  lemma RunEnds(t: string)
    requires IsAllAlnum(t)
    ensures var runs := Runs(t);
      && AreRuns(runs) && AreAlnum(runs) && (runs == [] <==> t == "")
      && (t != "" ==> ClassOf(runs[0][0]) == ClassOf(t[0]))
      && (t != "" ==> ClassOf(runs[|runs| - 1][0]) == ClassOf(t[|t| - 1]))
  {
    var runs := Runs(t);
    RunsAreRuns(t);
    FlattenedAlnum(runs);
    if t != "" {
      hide AreAlnum;
      FirstAndLast(runs);
    }
  }

  lemma FirstAndLast(runs: seq<string>)
    requires AreRuns(runs) && runs != []
    ensures var t := Flatten(runs);
      t != "" && t[0] == runs[0][0] && ClassOf(t[|t| - 1]) == ClassOf(runs[|runs| - 1][0])
  {
    var init, last := runs[..|runs| - 1], runs[|runs| - 1];
    assert runs == init + [last];
    FlattenSnoc(init, last);
    assert Uniform(last) && Uniform(runs[0]);
  }

  /** How the tokens of a stripped text look, told from its first and last character. */
  lemma TokenShape(t: string)
    requires IsAllAlnum(t)
    ensures var tokens := Runs(t);
      && (tokens == [] <==> t == "")
      && (t != "" ==> (|tokens| % 2 == 0 <==> IsDigit(t[0]) != IsDigit(t[|t| - 1])))
      && (forall k :: 0 <= k < |tokens| ==>
        tokens[k] != "" && (IsAllDigit(tokens[k]) <==> IsDigit(t[0]) == (k % 2 == 0)))
  {
    hide ClassOf, AreRuns, Runs, IsAllAlpha, IsAllDigit;
    var tokens := Runs(t);
    RunEnds(t);
    if t != "" {
      TokensAlternate(tokens, |tokens| - 1);
    }
    forall k | 0 <= k < |tokens|
      ensures IsAllDigit(tokens[k]) <==> IsDigit(t[0]) == (k % 2 == 0)
      ensures IsAllDigit(tokens[k]) <==> IsDigit(tokens[k][0])
    {
      TokensAlternate(tokens, k);
    }
  }

  /** The tokens are the one way to cut the stripped text into non-empty runs of alternating class;
      each of them is a number or a word. */
  lemma TokensAreTheRuns(s: string, tokens: seq<string>)
    ensures tokens == TextTokens(s) <==> AreRuns(tokens) && Flatten(tokens) == RemoveNonAlphanumeric(s)
    ensures forall i :: 0 <= i < |TextTokens(s)| ==> IsAllDigit(TextTokens(s)[i]) || IsAllAlpha(TextTokens(s)[i])
  {
    RunsAreRuns(RemoveNonAlphanumeric(s));
    if AreRuns(tokens) && Flatten(tokens) == RemoveNonAlphanumeric(s) {
      RunsAreUnique(tokens);
    }
    StrippedIsAlnum(s);
    RunEnds(RemoveNonAlphanumeric(s));
    forall i | 0 <= i < |TextTokens(s)|
      ensures IsAllDigit(TextTokens(s)[i]) || IsAllAlpha(TextTokens(s)[i])
    {
      TokensAlternate(TextTokens(s), i);
    }
  }

  // --- What is accepted ---

  lemma {:induction false} AlternatingIsAccepted(tokens: seq<string>, acc: Duration)
    requires |tokens| % 2 == 0 && forall k :: 0 <= k < |tokens| ==> (IsAllDigit(tokens[k]) <==> k % 2 == 0)
    ensures !Eval(tokens, acc).NullOpt?
    decreases |tokens|
  {
    if tokens != [] {
      assert IsAllDigit(tokens[0]) && !IsAllDigit(tokens[1]);
      match Stoull(tokens[0])
      case Num(n) =>
        assert forall k :: 0 <= k < |tokens[2..]| ==> tokens[2..][k] == tokens[k + 2];
        AlternatingIsAccepted(tokens[2..], AddTo(acc, UnitsNamed(tokens[1]), n));
      case NotNum(_) =>
    }
  }

  /** Stripped of everything but letters and digits, a duration is empty, or starts with a number
      and ends with a word; nothing else is rejected. */
  lemma RejectedTexts(s: string)
    ensures var t := RemoveNonAlphanumeric(s);
      ParseText(s) == NullOpt <==> t != "" && (IsAlpha(t[0]) || IsDigit(t[|t| - 1]))
  {
    var t := RemoveNonAlphanumeric(s);
    StrippedIsAlnum(s);
    TokenShape(t);
    if t != "" && |Runs(t)| % 2 == 0 && IsDigit(t[0]) {
      AlternatingIsAccepted(Runs(t), ZERO);
    }
  }

  // --- What the accepted texts mean ---

  /** Numbers and words in turn, a number first. */
  ghost predicate NumberWordPairs(tokens: seq<string>) {
    |tokens| % 2 == 0
    && forall k :: 0 <= k < |tokens| ==> tokens[k] != "" && (IsAllDigit(tokens[k]) <==> k % 2 == 0)
  }

  /** The sum of the numbers that stand before a name of unit `j`. */
  ghost function UnitTotal(tokens: seq<string>, j: nat): nat
    requires NumberWordPairs(tokens)
  {
    if tokens == [] then 0
    else
      RestOfPairs(tokens);
      (if j in UnitsNamed(tokens[1]) then DigitsValue(tokens[0]) else 0) + UnitTotal(tokens[2..], j)
  }

  ghost predicate NumbersFit(tokens: seq<string>)
    requires NumberWordPairs(tokens)
  {
    forall k :: 0 <= k < |tokens| && k % 2 == 0 ==> DigitsValue(tokens[k]) < TWO_TO_THE_64
  }

  ghost predicate HasTotals(d: Duration, tokens: seq<string>, acc: Duration)
    requires NumberWordPairs(tokens)
  {
    forall j: nat :: j < TIME_PARTS_COUNT ==> d[j] == (acc[j] + UnitTotal(tokens, j)) % TWO_TO_THE_64
  }

  lemma RestOfPairs(tokens: seq<string>)
    requires NumberWordPairs(tokens) && tokens != []
    ensures |tokens| >= 2 && IsAllDigit(tokens[0]) && !IsAllDigit(tokens[1]) && tokens[0] != ""
    ensures NumberWordPairs(tokens[2..])
  {
    assert forall k :: 0 <= k < |tokens[2..]| ==> tokens[2..][k] == tokens[k + 2];
  }

  lemma FirstNumberFits(tokens: seq<string>)
    requires NumberWordPairs(tokens) && tokens != []
    ensures NumberWordPairs(tokens[2..])
    ensures NumbersFit(tokens) <==> DigitsValue(tokens[0]) < TWO_TO_THE_64 && NumbersFit(tokens[2..])
  {
    hide DigitsValue;
    RestOfPairs(tokens);
    assert forall k :: 0 <= k < |tokens[2..]| ==> tokens[2..][k] == tokens[k + 2];
    assert forall k :: 2 <= k < |tokens| ==> tokens[k] == tokens[2..][k - 2];
  }

  lemma OnePairMore(d: Duration, tokens: seq<string>, acc: Duration, n: nat)
    requires NumberWordPairs(tokens) && tokens != [] && n == DigitsValue(tokens[0])
    requires NumberWordPairs(tokens[2..]) && HasTotals(d, tokens[2..], AddTo(acc, UnitsNamed(tokens[1]), n))
    ensures HasTotals(d, tokens, acc)
  {
    hide DigitsValue, UnitsNamed;
    forall j: nat | j < TIME_PARTS_COUNT
      ensures d[j] == (acc[j] + UnitTotal(tokens, j)) % TWO_TO_THE_64
    {
      if j in UnitsNamed(tokens[1]) {
        SumOfRemainder(acc[j] + n, UnitTotal(tokens[2..], j));
      }
    }
  }

  lemma SumOfRemainder(a: nat, b: nat)
    ensures (a % TWO_TO_THE_64 + b) % TWO_TO_THE_64 == (a + b) % TWO_TO_THE_64
  {
  }

  lemma NoPairs(acc: Duration)
    ensures NumberWordPairs([]) && NumbersFit([]) && HasTotals(acc, [], acc)
  {
  }

  lemma {:induction false} EvalTotals(tokens: seq<string>, acc: Duration)
    requires NumberWordPairs(tokens)
    ensures if NumbersFit(tokens)
      then Eval(tokens, acc).Value? && HasTotals(Eval(tokens, acc).duration, tokens, acc)
      else Eval(tokens, acc) == Thrown(OutOfRange)
    decreases |tokens|
  {
    hide NumberWordPairs, NumbersFit, HasTotals, DigitsValue, Stoull, UnitsNamed, AddTo;
    if tokens == [] {
      NoPairs(acc);
    } else {
      RestOfPairs(tokens);
      FirstNumberFits(tokens);
      StoullOfDigits(tokens[0]);
      if Stoull(tokens[0]).Num? {
        var n := Stoull(tokens[0]).value;
        EvalTotals(tokens[2..], AddTo(acc, UnitsNamed(tokens[1]), n));
        if NumbersFit(tokens[2..]) {
          OnePairMore(Eval(tokens, acc).duration, tokens, acc, n);
        }
      }
    }
  }

  /** An accepted text throws exactly if one of its numbers does not fit 64 bits. Otherwise each
      part is the sum of the numbers given for its unit, modulo 2^64. */
  lemma ParsedTotals(s: string)
    requires !ParseText(s).NullOpt?
    ensures NumberWordPairs(TextTokens(s))
    ensures if NumbersFit(TextTokens(s))
      then ParseText(s).Value? && HasTotals(ParseText(s).duration, TextTokens(s), ZERO)
      else ParseText(s) == Thrown(OutOfRange)
  {
    hide Eval, NumbersFit, HasTotals;
    RejectedTexts(s);
    StrippedIsAlnum(s);
    TokenShape(RemoveNonAlphanumeric(s));
    EvalTotals(TextTokens(s), ZERO);
  }

  // --- Round trip with the printer ---

  lemma {:induction false} StrippedJoin(words: seq<string>)
    requires AreAlnum(words)
    ensures RemoveNonAlphanumeric(Join(words)) == Flatten(words)
  {
    if words != [] {
      FilterAll(words[0], c => IsAlnum(c));
      if |words| == 1 {
        assert Flatten(words[1..]) == [];
      } else {
        StrippedJoin(words[1..]);
        FilterAppend(words[0] + " ", Join(words[1..]), c => IsAlnum(c));
        FilterAppend(words[0], " ", c => IsAlnum(c));
        assert Filter(" ", c => IsAlnum(c)) == "";
      }
    }
  }

  /** The printed words are numbers and names in turn. */
  lemma {:induction false} PartTokensAlternate(d: Duration, shortened: bool, n: nat)
    requires n <= TIME_PARTS_COUNT
    ensures var words := PartTokens(d, shortened, n);
      && |words| % 2 == 0 && AreRuns(words) && AreAlnum(words)
      && (words != [] ==> IsAlpha(words[|words| - 1][0]))
  {
    hide AreRuns, AreAlnum, IsAllAlpha, IsAllDigit, IsAlpha, PrintedName, UnitsNamed;
    if n == 0 {
      NoWords();
    } else {
      PartTokensAlternate(d, shortened, n - 1);
      if d[n - 1] != 0 {
        PrintedNames(n - 1, shortened);
        AppendPart(PartTokens(d, shortened, n - 1), Decimal(d[n - 1]), PrintedName(n - 1, shortened));
      }
    }
  }

  lemma NoWords()
    ensures AreRuns([]) && AreAlnum([])
  {
  }

  lemma AppendPart(words: seq<string>, number: string, name: string)
    requires AreRuns(words) && AreAlnum(words) && (words != [] ==> IsAlpha(words[|words| - 1][0]))
    requires number != "" && IsAllDigit(number) && name != "" && IsAllAlpha(name)
    ensures AreRuns(words + [number, name]) && AreAlnum(words + [number, name]) && IsAlpha(name[0])
  {
    assert IsDigit(number[0]) && IsAlpha(name[0]);
    AppendRun(words, number);
    AppendRun(words + [number], name);
    assert words + [number] + [name] == words + [number, name];
  }

  lemma {:induction false} EvalAppend(a: seq<string>, b: seq<string>, acc: Duration)
    requires |a| % 2 == 0 && |b| % 2 == 0 && Eval(a, acc).Value?
    ensures Eval(a + b, acc) == Eval(b, Eval(a, acc).duration)
    decreases |a|
  {
    if a == [] {
      assert a + b == b;
    } else {
      assert (a + b)[2..] == a[2..] + b;
      EvalAppend(a[2..], b, AddTo(acc, UnitsNamed(a[1]), Stoull(a[0]).value));
    }
  }

  /** The first `n` parts of `d`, the others zero. */
  function FirstParts(d: Duration, n: nat): Duration {
    seq(TIME_PARTS_COUNT, j requires 0 <= j < TIME_PARTS_COUNT => if j < n then d[j] else 0)
  }

  lemma {:induction false} PartTokensEval(d: Duration, shortened: bool, n: nat)
    requires n <= TIME_PARTS_COUNT
    ensures |PartTokens(d, shortened, n)| % 2 == 0
    ensures Eval(PartTokens(d, shortened, n), ZERO) == Value(FirstParts(d, n))
  {
    if n == 0 {
      assert FirstParts(d, 0) == ZERO;
    } else {
      PartTokensEval(d, shortened, n - 1);
      PartTokensStep(d, shortened, n - 1);
    }
  }

  lemma PartTokensStep(d: Duration, shortened: bool, i: nat)
    requires i < TIME_PARTS_COUNT && |PartTokens(d, shortened, i)| % 2 == 0
    requires Eval(PartTokens(d, shortened, i), ZERO) == Value(FirstParts(d, i))
    ensures Eval(PartTokens(d, shortened, i + 1), ZERO) == Value(FirstParts(d, i + 1))
  {
    if d[i] == 0 {
      assert FirstParts(d, i + 1) == FirstParts(d, i);
    } else {
      var number, name := Decimal(d[i]), PrintedName(i, shortened);
      PrintedNames(i, shortened);
      DecimalRoundTrip(d[i]);
      PartEval(PartTokens(d, shortened, i), d, i, number, name);
    }
  }

  lemma PartEval(words: seq<string>, d: Duration, i: nat, number: string, name: string)
    requires i < TIME_PARTS_COUNT && name != "" && IsAllAlpha(name) && UnitsNamed(name) == {i}
    requires number != "" && IsAllDigit(number) && DigitsValue(number) == d[i]
    requires |words| % 2 == 0 && Eval(words, ZERO) == Value(FirstParts(d, i))
    ensures Eval(words + [number, name], ZERO) == Value(FirstParts(d, i + 1))
  {
    EvalAppend(words, [number, name], ZERO);
    PairEval(number, name, FirstParts(d, i));
    FirstPartsGrow(d, i);
  }

  lemma PairEval(number: string, name: string, acc: Duration)
    requires number != "" && IsAllDigit(number) && name != "" && IsAllAlpha(name)
    requires DigitsValue(number) < TWO_TO_THE_64
    ensures Eval([number, name], acc) == Value(AddTo(acc, UnitsNamed(name), DigitsValue(number)))
  {
    StoullOfDigits(number);
    assert IsAlpha(name[0]);
    assert [number, name][2..] == [];
  }

  lemma FirstPartsGrow(d: Duration, i: nat)
    requires i < TIME_PARTS_COUNT
    ensures AddTo(FirstParts(d, i), {i}, d[i]) == FirstParts(d, i + 1)
  {
  }

  /** What the printer writes, the parser reads back, in the long and in the short form. */
  lemma PrintParseRoundTrip(d: Duration, shortened: bool)
    ensures ParseText(Text(d, shortened)) == Value(d)
  {
    var words := PartTokens(d, shortened, TIME_PARTS_COUNT);
    PartTokensAlternate(d, shortened, TIME_PARTS_COUNT);
    StrippedJoin(words);
    RunsAreUnique(words);
    PartTokensEval(d, shortened, TIME_PARTS_COUNT);
    assert FirstParts(d, TIME_PARTS_COUNT) == d;
  }

  // --- Additivity ---

  function Plus(a: Duration, b: Duration): Duration {
    seq(TIME_PARTS_COUNT, j requires 0 <= j < TIME_PARTS_COUNT => (a[j] + b[j]) % TWO_TO_THE_64)
  }

  lemma {:induction false} EvalAccumulates(tokens: seq<string>, acc: Duration)
    requires |tokens| % 2 == 0
    ensures Eval(tokens, acc) ==
      match Eval(tokens, ZERO)
      case Value(v) => Value(Plus(acc, v))
      case other => other
    decreases |tokens|
  {
    if tokens == [] {
      assert Plus(acc, ZERO) == acc;
    } else if Stoull(tokens[0]).Num? {
      var n := Stoull(tokens[0]).value;
      EvalAccumulates(tokens[2..], AddTo(acc, UnitsNamed(tokens[1]), n));
      EvalAccumulates(tokens[2..], AddTo(ZERO, UnitsNamed(tokens[1]), n));
      if Eval(tokens[2..], ZERO).Value? {
        PlusAddTo(acc, UnitsNamed(tokens[1]), n, Eval(tokens[2..], ZERO).duration);
      }
    }
  }

  lemma PlusAddTo(acc: Duration, units: set<nat>, n: nat, v: Duration)
    ensures Plus(AddTo(acc, units, n), v) == Plus(acc, Plus(AddTo(ZERO, units, n), v))
  {
    forall j: nat | j < TIME_PARTS_COUNT
      ensures Plus(AddTo(acc, units, n), v)[j] == Plus(acc, Plus(AddTo(ZERO, units, n), v))[j]
    {
      PlusAddToAt(acc, units, n, v, j);
    }
  }

  lemma PlusAddToAt(acc: Duration, units: set<nat>, n: nat, v: Duration, j: nat)
    requires j < TIME_PARTS_COUNT
    ensures Plus(AddTo(acc, units, n), v)[j] == Plus(acc, Plus(AddTo(ZERO, units, n), v))[j]
  {
    if j in units {
      ModuloAssociates(acc[j], n, v[j]);
    }
  }

  lemma ModuloAssociates(a: nat, n: nat, v: nat)
    ensures ((a + n) % TWO_TO_THE_64 + v) % TWO_TO_THE_64
      == (a + ((0 + n) % TWO_TO_THE_64 + v) % TWO_TO_THE_64) % TWO_TO_THE_64
  {
  }

  /** Text that ends in a unit and text that starts with a number are tokenized side by side. */
  lemma TokensOfConcatenation(s: string, t: string)
    requires |TextTokens(s)| % 2 == |TextTokens(t)| % 2 == 0
    requires !ParseText(s).NullOpt? && !ParseText(t).NullOpt?
    ensures TextTokens(s + t) == TextTokens(s) + TextTokens(t)
  {
    var s', t' := RemoveNonAlphanumeric(s), RemoveNonAlphanumeric(t);
    FilterAppend(s, t, c => IsAlnum(c));
    StrippedIsAlnum(s);
    StrippedIsAlnum(t);
    RejectedTexts(s);
    RejectedTexts(t);
    RunEnds(s');
    RunEnds(t');
    AppendRuns(Runs(s'), Runs(t'));
    RunsAreRuns(s');
    RunsAreRuns(t');
    FlattenAppend(Runs(s'), Runs(t'));
    RunsAreUnique(Runs(s') + Runs(t'));
  }

  /** Writing one duration after another adds them up. */
  lemma ParseConcatenation(s: string, t: string, a: Duration, b: Duration)
    requires ParseText(s) == Value(a) && ParseText(t) == Value(b)
    ensures ParseText(s + t) == Value(Plus(a, b))
  {
    TokensOfConcatenation(s, t);
    hide Eval, TextTokens, Plus;
    EvalAppend(TextTokens(s), TextTokens(t), ZERO);
    EvalAccumulates(TextTokens(t), a);
  }

  lemma PlainSum(a: Duration, b: Duration)
    requires forall j :: 0 <= j < TIME_PARTS_COUNT ==> a[j] + b[j] < TWO_TO_THE_64
    ensures forall j :: 0 <= j < TIME_PARTS_COUNT ==> Plus(a, b)[j] == a[j] + b[j]
    ensures WeightedTotal(Plus(a, b)) == WeightedTotal(a) + WeightedTotal(b)
  {
    var c := Plus(a, b);
    assert c[0] == a[0] + b[0] && c[1] == a[1] + b[1] && c[2] == a[2] + b[2] && c[3] == a[3] + b[3];
    assert c[4] == a[4] + b[4] && c[5] == a[5] + b[5] && c[6] == a[6] + b[6];
  }

  /** Below the limits the sum is the plain one, and so is the sum of the seconds. */
  lemma ParsedSecondsAdd(s: string, t: string, a: Duration, b: Duration)
    requires ParseText(s) == Value(a) && ParseText(t) == Value(b)
    requires forall j :: 0 <= j < TIME_PARTS_COUNT ==> a[j] + b[j] < TWO_TO_THE_64
    ensures ParseText(s + t).Value?
    ensures forall j :: 0 <= j < TIME_PARTS_COUNT ==> ParseText(s + t).duration[j] == a[j] + b[j]
    ensures WeightedTotal(a) + WeightedTotal(b) < TWO_TO_THE_63 ==>
      ToSeconds(ParseText(s + t).duration) == ToSeconds(a) + ToSeconds(b)
  {
    ParseConcatenation(s, t, a, b);
    PlainSum(a, b);
    ToSecondsExact(a);
    ToSecondsExact(b);
    ToSecondsExact(Plus(a, b));
  }
}
