/** Reading durations back from the database: one token per part, as in `5days 3hours`. */
module DatabaseTime {
  import opened Characters
  import opened Decimals
  import opened Durations
  import opened HumanTime
  import opened Options
  import opened Sequences
  import opened Tokens

  /** `std::views::split` at single blanks; an empty text has no words. */
  function Split(s: string): seq<string> {
    if s == "" then [] else SplitWords(s)
  }

  function SplitWords(s: string): (words: seq<string>)
    ensures words != []
  {
    if s == "" then [""]
    else
      var rest := SplitWords(s[1..]);
      if s[0] == ' ' then [""] + rest else [[s[0]] + rest[0]] + rest[1..]
  }

  /** The first unit from `from` on whose first or last name is `ending`. */
  function FindUnit(ending: string, from: nat): (r: Option<nat>)
    ensures r.Some? ==> r.value < TIME_PARTS_COUNT
    ensures r.Some? ==> ending == PrintedName(r.value, true) || ending == PrintedName(r.value, false)
    decreases TIME_PARTS_COUNT - from
  {
    if from >= TIME_PARTS_COUNT then None
    else if PrintedName(from, true) == ending || PrintedName(from, false) == ending then Some(from)
    else FindUnit(ending, from + 1)
  }

  function Assign(acc: Duration, i: nat, n: nat): Duration
    requires i < TIME_PARTS_COUNT && n < TWO_TO_THE_64
  {
    acc[i := n]
  }

  /** The effect of the tokens on `acc`: numbers are assigned, not added. */
  function ReadTokens(tokens: seq<string>, acc: Duration): Reading {
    if tokens == [] then Value(acc)
    else
      match Stoull(RemoveAlpha(tokens[0]))
      case NotNum(e) => Thrown(e)
      case Num(n) =>
        ReadTokens(tokens[1..],
          match FindUnit(RemoveNumeric(tokens[0]), 0)
          case Some(i) => Assign(acc, i, n)
          case None => acc)
  }

  function ReadText(s: string): Reading {
    ReadTokens(Split(s), ZERO)
  }

  method ReadDuration(s: string) returns (r: Reading)
    ensures r == ReadText(s)
  {
    var values: Duration := ZERO;
    var tokens := Split(s);
    for i := 0 to |tokens|
      invariant ReadTokens(tokens, ZERO) == ReadTokens(tokens[i..], values)
    {
      assert tokens[i..][1..] == tokens[i + 1..];
      var number := Stoull(RemoveAlpha(tokens[i]));
      if number.NotNum? {
        return Thrown(number.error);
      }
      var find := FindUnit(RemoveNumeric(tokens[i]), 0);
      if find.Some? {
        values := values[find.value := number.value];
      }
    }
    r := Value(values);
  }

  lemma {:induction false} SplitWordThen(word: string, rest: string)
    requires ' ' !in word
    ensures SplitWords(word + " " + rest) == [word] + SplitWords(rest)
    ensures SplitWords(word) == [word]
  {
    if word == "" {
      assert word + " " + rest == " " + rest;
      assert (" " + rest)[1..] == rest;
    } else {
      SplitWordThen(word[1..], rest);
      assert (word + " " + rest)[1..] == word[1..] + " " + rest;
      assert [word[0]] + word[1..] == word;
    }
  }

  ghost predicate NoBlanks(words: seq<string>) {
    forall i :: 0 <= i < |words| ==> ' ' !in words[i]
  }

  /** Splitting undoes joining, empty words included. */
  lemma {:induction false} SplitJoin(words: seq<string>)
    requires NoBlanks(words) && words != [""]
    ensures Split(Join(words)) == words
    ensures words != [] ==> SplitWords(Join(words)) == words
    decreases |words|
  {
    if |words| == 1 {
      SplitWordThen(words[0], "");
      assert words == [words[0]];
    } else if words != [] {
      SplitWordThen(words[0], Join(words[1..]));
      assert words == [words[0]] + words[1..];
      if words[1..] == [""] {
        SplitWordThen("", "");
      } else {
        SplitJoin(words[1..]);
      }
    }
  }

  /** And joining undoes splitting: the words have no blanks and give the text back. */
  lemma {:induction false} JoinSplit(s: string)
    ensures NoBlanks(SplitWords(s)) && Join(SplitWords(s)) == s
    ensures Join(Split(s)) == s
  {
    if s != "" {
      var rest := SplitWords(s[1..]);
      JoinSplit(s[1..]);
      assert s == [s[0]] + s[1..];
      if s[0] == ' ' {
        assert SplitWords(s)[1..] == rest;
      } else {
        assert SplitWords(s)[1..] == rest[1..];
      }
    }
  }

  /** The first token that cannot be read decides; without one, later tokens go on from the values so far. */
  lemma {:induction false} ReadInTurn(a: seq<string>, b: seq<string>, acc: Duration)
    ensures ReadTokens(a + b, acc) ==
      match ReadTokens(a, acc)
      case Value(d) => ReadTokens(b, d)
      case other => other
    decreases |a|
  {
    if a == [] {
      assert a + b == b;
    } else {
      assert (a + b)[0] == a[0] && (a + b)[1..] == a[1..] + b;
      match Stoull(RemoveAlpha(a[0]))
      case NotNum(_) =>
      case Num(n) =>
        match FindUnit(RemoveNumeric(a[0]), 0)
        case Some(i) => ReadInTurn(a[1..], b, Assign(acc, i, n));
        case None => ReadInTurn(a[1..], b, acc);
    }
  }

  // --- The printer's output is not meant for this reader ---

  /** A number in range, then a word of letters. */
  ghost predicate StartsWithPart(words: seq<string>) {
    && |words| >= 2 && words[0] != "" && IsAllDigit(words[0]) && IsAllAlpha(words[1])
    && DigitsValue(words[0]) < TWO_TO_THE_64
  }

  lemma {:induction false} FirstPrintedWords(d: Duration, shortened: bool, n: nat)
    requires n <= TIME_PARTS_COUNT
    ensures if forall j :: 0 <= j < n ==> d[j] == 0
      then PartTokens(d, shortened, n) == []
      else StartsWithPart(PartTokens(d, shortened, n))
  {
    if n > 0 {
      FirstPrintedWords(d, shortened, n - 1);
      if d[n - 1] != 0 {
        OnePrintedPart(d, shortened, n - 1);
      }
    }
  }

  lemma OnePrintedPart(d: Duration, shortened: bool, i: nat)
    requires i < TIME_PARTS_COUNT
    ensures StartsWithPart([Decimal(d[i]), PrintedName(i, shortened)])
  {
    PrintedNames(i, shortened);
    DecimalRoundTrip(d[i]);
  }

  lemma DigitToken(token: string)
    requires token != "" && IsAllDigit(token) && DigitsValue(token) < TWO_TO_THE_64
    ensures Stoull(RemoveAlpha(token)) == Num(DigitsValue(token))
  {
    FilterAll(token, c => !IsAlpha(c));
    StoullOfDigits(token);
  }

  /** `to_string` puts a blank between number and unit, so this reader throws on all it prints
      except the empty text of the zero duration. */
  lemma ReaderOnPrintedText(d: Duration, shortened: bool)
    ensures ReadText(Text(d, shortened)) == if d == ZERO then Value(ZERO) else Thrown(InvalidArgument)
  {
    var words := PartTokens(d, shortened, TIME_PARTS_COUNT);
    FirstPrintedWords(d, shortened, TIME_PARTS_COUNT);
    PartTokensAlternate(d, shortened, TIME_PARTS_COUNT);
    assert NoBlanks(words) && words != [""];
    SplitJoin(words);
    if d != ZERO {
      assert StartsWithPart(words);
      ThrowsOnSecond(words);
    }
  }

  lemma ThrowsOnSecond(words: seq<string>)
    requires StartsWithPart(words)
    ensures ReadTokens(words, ZERO) == Thrown(InvalidArgument)
  {
    DigitToken(words[0]);
    FilterNone(words[1], c => !IsAlpha(c));
    assert RemoveAlpha(words[1]) == "";
    assert words[1..][0] == words[1];
  }

  // --- Agreement of the two readers ---

  /** One compact token: a number and a word. */
  datatype Part = Part(number: string, name: string) {
    ghost predicate Valid() {
      number != "" && IsAllDigit(number) && name != "" && IsAllAlpha(name)
    }

    /** The unit that this reader takes the word for: only first and last names count. */
    function Unit(): Option<nat> {
      FindUnit(name, 0)
    }
  }

  ghost predicate AreParts(parts: seq<Part>) {
    forall i :: 0 <= i < |parts| ==> parts[i].Valid()
  }

  ghost function CompactWords(parts: seq<Part>): seq<string>
    requires AreParts(parts)
  {
    if parts == [] then [] else [parts[0].number + parts[0].name] + CompactWords(parts[1..])
  }

  ghost function Pairs(parts: seq<Part>): (tokens: seq<string>)
    requires AreParts(parts)
    ensures |tokens| == 2 * |parts|
  {
    if parts == [] then [] else [parts[0].number, parts[0].name] + Pairs(parts[1..])
  }

  lemma {:induction false} CompactWordsShape(parts: seq<Part>)
    requires AreParts(parts)
    ensures AreAlnum(CompactWords(parts))
    ensures Flatten(CompactWords(parts)) == Flatten(Pairs(parts))
  {
    if parts != [] {
      CompactWordsShape(parts[1..]);
      assert Pairs(parts)[1..][1..] == Pairs(parts[1..]);
    }
  }

  lemma {:induction false} PairsAreRuns(parts: seq<Part>)
    requires AreParts(parts)
    ensures AreRuns(Pairs(parts)) && (parts != [] ==> IsDigit(Pairs(parts)[0][0]))
  {
    if parts != [] {
      PairsAreRuns(parts[1..]);
      var pair := [parts[0].number, parts[0].name];
      assert IsDigit(pair[0][0]) && IsAlpha(pair[1][0]);
      AppendRuns(pair, Pairs(parts[1..]));
    }
  }

  lemma {:induction false} UnitIsFound(unit: nat, name: string, from: nat)
    requires from <= unit < TIME_PARTS_COUNT && (name == PrintedName(unit, true) || name == PrintedName(unit, false))
    ensures FindUnit(name, from) == Some(unit)
    decreases TIME_PARTS_COUNT - from
  {
    hide PrintedName, UnitsNamed;
    PrintedNames(unit, name == PrintedName(unit, true));
    PrintedNames(from, true);
    PrintedNames(from, false);
    if from < unit {
      UnitIsFound(unit, name, from + 1);
    }
  }

  /** A unit that is found is the only one with the name. */
  lemma FoundUnit(name: string)
    requires FindUnit(name, 0).Some?
    ensures UnitsNamed(name) == {FindUnit(name, 0).value}
  {
    hide FindUnit, PrintedName, UnitsNamed;
    var unit := FindUnit(name, 0).value;
    PrintedNames(unit, name == PrintedName(unit, true));
  }

  lemma NumberThenName(number: string, name: string)
    requires IsAllDigit(number) && IsAllAlpha(name)
    ensures RemoveAlpha(number + name) == number && RemoveNumeric(number + name) == name
  {
    FilterAppend(number, name, c => !IsAlpha(c));
    FilterAll(number, c => !IsAlpha(c));
    FilterNone(name, c => !IsAlpha(c));
    FilterAppend(number, name, c => !IsDigit(c));
    FilterNone(number, c => !IsDigit(c));
    FilterAll(name, c => !IsDigit(c));
  }

  lemma ReadOne(part: Part, rest: seq<string>, acc: Duration)
    requires part.Valid()
    ensures ReadTokens([part.number + part.name] + rest, acc) ==
      if DigitsValue(part.number) < TWO_TO_THE_64
      then ReadTokens(rest, AssignTo(acc, part, DigitsValue(part.number)))
      else Thrown(OutOfRange)
  {
    NumberThenName(part.number, part.name);
    StoullOfDigits(part.number);
    assert ([part.number + part.name] + rest)[1..] == rest;
  }

  function AssignTo(acc: Duration, part: Part, n: nat): Duration
    requires n < TWO_TO_THE_64
  {
    match part.Unit()
    case Some(i) => Assign(acc, i, n)
    case None => acc
  }

  lemma EvalOne(part: Part, rest: seq<string>, acc: Duration)
    requires part.Valid() && |rest| % 2 == 0
    ensures Eval([part.number, part.name] + rest, acc) ==
      if DigitsValue(part.number) < TWO_TO_THE_64
      then Eval(rest, AddTo(acc, UnitsNamed(part.name), DigitsValue(part.number)))
      else Thrown(OutOfRange)
  {
    hide Stoull, DigitsValue, AddTo, UnitsNamed;
    StoullOfDigits(part.number);
    assert IsAlpha(part.name[0]);
    assert ([part.number, part.name] + rest)[2..] == rest;
  }

  lemma {:induction false} NoSignInNames(sign: string, name: string, from: nat)
    requires sign == "+" || sign == "-"
    ensures FindUnit(sign + name, from) == None
    decreases TIME_PARTS_COUNT - from
  {
    hide PrintedName, UnitsNamed;
    if from < TIME_PARTS_COUNT {
      PrintedNames(from, true);
      PrintedNames(from, false);
      assert !IsAlpha((sign + name)[0]);
      NoSignInNames(sign, name, from + 1);
    }
  }

  /** A sign stays with the name and hides it: a signed token must hold a number that fits, but sets nothing. */
  lemma SignedTokenSetsNothing(sign: string, number: string, name: string, acc: Duration)
    requires (sign == "+" || sign == "-") && IsAllDigit(number) && IsAllAlpha(name)
    ensures ReadTokens([sign + (number + name)], acc) ==
      if number == "" then Thrown(InvalidArgument)
      else if DigitsValue(number) >= TWO_TO_THE_64 then Thrown(OutOfRange)
      else Value(acc)
  {
    NumberThenName(number, name);
    Removals("", sign[0], number + name);
    assert "" + ([sign[0]] + (number + name)) == sign + (number + name);
    assert "" + [sign[0]] + number == "" + (sign + (number + "")) && "" + [sign[0]] + name == sign + name;
    StoullOfNumeral("", sign, number, "");
    NoSignInNames(sign, name, 0);
    assert [sign + (number + name)][1..] == [];
  }

  // --- What each reader makes of the parts ---

  ghost predicate PartsFit(parts: seq<Part>)
    requires AreParts(parts)
  {
    forall i :: 0 <= i < |parts| ==> DigitsValue(parts[i].number) < TWO_TO_THE_64
  }

  /** The sum of the numbers before names of a unit. */
  ghost function Sum(parts: seq<Part>, unit: nat): nat
    requires AreParts(parts)
  {
    if parts == [] then 0
    else (if unit in UnitsNamed(parts[0].name) then DigitsValue(parts[0].number) else 0) + Sum(parts[1..], unit)
  }

  /** The last number before the first or last name of a unit, or `otherwise`. */
  ghost function Last(parts: seq<Part>, unit: nat, otherwise: nat): nat
    requires AreParts(parts)
  {
    if parts == [] then otherwise
    else Last(parts[1..], unit, if parts[0].Unit() == Some(unit) then DigitsValue(parts[0].number) else otherwise)
  }

  ghost predicate HasLast(d: Duration, parts: seq<Part>, acc: Duration)
    requires AreParts(parts)
  {
    forall j: nat :: j < TIME_PARTS_COUNT ==> d[j] == Last(parts, j, acc[j])
  }

  ghost predicate HasSums(d: Duration, parts: seq<Part>, acc: Duration)
    requires AreParts(parts)
  {
    forall j: nat :: j < TIME_PARTS_COUNT ==> d[j] == (acc[j] + Sum(parts, j)) % TWO_TO_THE_64
  }

  lemma FirstFits(parts: seq<Part>)
    requires AreParts(parts) && parts != []
    ensures PartsFit(parts) <==> DigitsValue(parts[0].number) < TWO_TO_THE_64 && PartsFit(parts[1..])
  {
    hide DigitsValue;
    assert parts == [parts[0]] + parts[1..];
  }

  lemma NoParts(acc: Duration)
    ensures PartsFit([]) && HasLast(acc, [], acc) && HasSums(acc, [], acc)
  {
  }

  lemma OneLastMore(d: Duration, parts: seq<Part>, acc: Duration, n: nat)
    requires AreParts(parts) && parts != [] && n == DigitsValue(parts[0].number) < TWO_TO_THE_64
    requires HasLast(d, parts[1..], AssignTo(acc, parts[0], n))
    ensures HasLast(d, parts, acc)
  {
    hide DigitsValue, FindUnit;
  }

  lemma OneSumMore(d: Duration, parts: seq<Part>, acc: Duration, n: nat)
    requires AreParts(parts) && parts != [] && n == DigitsValue(parts[0].number)
    requires HasSums(d, parts[1..], AddTo(acc, UnitsNamed(parts[0].name), n))
    ensures HasSums(d, parts, acc)
  {
    hide DigitsValue, UnitsNamed;
    forall j: nat | j < TIME_PARTS_COUNT
      ensures d[j] == (acc[j] + Sum(parts, j)) % TWO_TO_THE_64
    {
      SumOfRemainder(acc[j] + n, Sum(parts[1..], j));
    }
  }

  /** This reader ends with the last number given for each unit. */
  lemma {:induction false} ReadLast(parts: seq<Part>, acc: Duration)
    requires AreParts(parts)
    ensures var r := ReadTokens(CompactWords(parts), acc);
      if PartsFit(parts) then r.Value? && HasLast(r.duration, parts, acc) else r == Thrown(OutOfRange)
    decreases |parts|
  {
    hide Stoull, DigitsValue, FindUnit, RemoveAlpha, RemoveNumeric, PartsFit, HasLast, AssignTo;
    if parts == [] {
      NoParts(acc);
    } else {
      FirstFits(parts);
      ReadOne(parts[0], CompactWords(parts[1..]), acc);
      var n := DigitsValue(parts[0].number);
      if n < TWO_TO_THE_64 {
        ReadLast(parts[1..], AssignTo(acc, parts[0], n));
        if PartsFit(parts) {
          OneLastMore(ReadTokens(CompactWords(parts), acc).duration, parts, acc, n);
        }
      }
    }
  }

  /** The parser ends with the sums. */
  lemma {:induction false} EvalSums(parts: seq<Part>, acc: Duration)
    requires AreParts(parts)
    ensures var r := Eval(Pairs(parts), acc);
      if PartsFit(parts) then r.Value? && HasSums(r.duration, parts, acc) else r == Thrown(OutOfRange)
    decreases |parts|
  {
    hide Stoull, DigitsValue, UnitsNamed, AddTo, PartsFit, HasSums;
    if parts == [] {
      NoParts(acc);
    } else {
      FirstFits(parts);
      EvalOne(parts[0], Pairs(parts[1..]), acc);
      var n := DigitsValue(parts[0].number);
      if n < TWO_TO_THE_64 {
        EvalSums(parts[1..], AddTo(acc, UnitsNamed(parts[0].name), n));
        if PartsFit(parts) {
          OneSumMore(Eval(Pairs(parts), acc).duration, parts, acc, n);
        }
      }
    }
  }

  lemma ReadJoined(words: seq<string>)
    requires AreAlnum(words)
    ensures ReadText(Join(words)) == ReadTokens(words, ZERO)
  {
    assert NoBlanks(words) && (words != [] ==> words[0] != "");
    SplitJoin(words);
  }

  lemma ParseJoined(words: seq<string>, tokens: seq<string>)
    requires AreAlnum(words)
    requires Flatten(words) == Flatten(tokens) && AreRuns(tokens) && |tokens| % 2 == 0
    ensures ParseText(Join(words)) == Eval(tokens, ZERO)
  {
    StrippedJoin(words);
    RunsAreUnique(tokens);
  }

  /** Both readers see the same tokens in a compact text. */
  lemma CompactText(parts: seq<Part>)
    requires AreParts(parts)
    ensures ReadText(Join(CompactWords(parts))) == ReadTokens(CompactWords(parts), ZERO)
    ensures ParseText(Join(CompactWords(parts))) == Eval(Pairs(parts), ZERO)
  {
    hide *;
    CompactWordsShape(parts);
    PairsAreRuns(parts);
    ReadJoined(CompactWords(parts));
    ParseJoined(CompactWords(parts), Pairs(parts));
  }

  /** On compact text this reader ends with the last number before the first or last name of each unit, and
      the parser with the sum of the numbers before any of its names, modulo 2^64; both throw if some
      number does not fit 64 bits. */
  lemma CompactReadings(parts: seq<Part>)
    requires AreParts(parts)
    ensures var read, parsed := ReadText(Join(CompactWords(parts))), ParseText(Join(CompactWords(parts)));
      if PartsFit(parts)
      then read.Value? && HasLast(read.duration, parts, ZERO) && parsed.Value? && HasSums(parsed.duration, parts, ZERO)
      else read == parsed == Thrown(OutOfRange)
  {
    hide ReadText, ParseText, Join, CompactWords, Pairs, Eval, ReadTokens, PartsFit, HasLast, HasSums;
    CompactText(parts);
    ReadLast(parts, ZERO);
    EvalSums(parts, ZERO);
  }

  ghost predicate SumIsLast(parts: seq<Part>, unit: nat)
    requires AreParts(parts)
  {
    Sum(parts, unit) % TWO_TO_THE_64 == Last(parts, unit, 0)
  }

  /** For every unit, the sum modulo 2^64 is the last number. */
  ghost predicate SumsAreLast(parts: seq<Part>)
    requires AreParts(parts)
  {
    forall unit: nat :: unit < TIME_PARTS_COUNT ==> SumIsLast(parts, unit)
  }

  lemma SameValues(d: Duration, e: Duration, parts: seq<Part>)
    requires AreParts(parts) && HasLast(d, parts, ZERO) && HasSums(e, parts, ZERO)
    ensures d == e <==> SumsAreLast(parts)
  {
    forall j: nat | j < TIME_PARTS_COUNT
      ensures d[j] == e[j] <==> SumIsLast(parts, j)
    {
      assert ZERO[j] == 0;
    }
  }

  /** The two readers agree on a compact text exactly if some number does not fit 64 bits, or for every
      unit the numbers add up, modulo 2^64, to the last one read. */
  lemma ReadersAgreeExactly(parts: seq<Part>)
    requires AreParts(parts)
    ensures ReadText(Join(CompactWords(parts))) == ParseText(Join(CompactWords(parts)))
      <==> !PartsFit(parts) || SumsAreLast(parts)
  {
    hide ReadText, ParseText, Join, CompactWords, PartsFit, HasLast, HasSums, SumsAreLast;
    CompactReadings(parts);
    if PartsFit(parts) {
      SameValues(
        ReadText(Join(CompactWords(parts))).duration, ParseText(Join(CompactWords(parts))).duration, parts);
    }
  }

  // --- Consequences for first and last names ---

  ghost predicate AllFound(parts: seq<Part>) {
    forall i :: 0 <= i < |parts| ==> parts[i].Unit().Some?
  }

  ghost predicate DistinctUnits(parts: seq<Part>) {
    forall i, j :: 0 <= i < j < |parts| ==> parts[i].Unit() != parts[j].Unit()
  }

  lemma {:induction false} UnitNotNamed(parts: seq<Part>, unit: nat, otherwise: nat)
    requires AreParts(parts) && AllFound(parts)
    requires forall i :: 0 <= i < |parts| ==> parts[i].Unit() != Some(unit)
    ensures Sum(parts, unit) == 0 && Last(parts, unit, otherwise) == otherwise
  {
    hide FindUnit, UnitsNamed;
    if parts != [] {
      FoundUnit(parts[0].name);
      UnitNotNamed(parts[1..], unit, otherwise);
    }
  }

  lemma {:induction false} OnlyNumber(parts: seq<Part>, i: nat, otherwise: nat)
    requires AreParts(parts) && AllFound(parts) && DistinctUnits(parts) && i < |parts|
    ensures var unit := parts[i].Unit().value;
      Sum(parts, unit) == Last(parts, unit, otherwise) == DigitsValue(parts[i].number)
  {
    hide DigitsValue, FindUnit, UnitsNamed;
    FoundUnit(parts[0].name);
    if i == 0 {
      UnitNotNamed(parts[1..], parts[0].Unit().value, DigitsValue(parts[0].number));
    } else {
      OnlyNumber(parts[1..], i - 1, otherwise);
    }
  }

  lemma NamedOnce(parts: seq<Part>, unit: nat)
    requires AreParts(parts) && AllFound(parts) && DistinctUnits(parts) && PartsFit(parts)
    ensures SumIsLast(parts, unit)
  {
    hide FindUnit, UnitsNamed, DigitsValue;
    if i :| 0 <= i < |parts| && parts[i].Unit() == Some(unit) {
      hide DistinctUnits;
      OnlyNumber(parts, i, 0);
    } else {
      UnitNotNamed(parts, unit, 0);
    }
  }

  /** Both readers give the same result if each unit is named at most once, by its first or last name. */
  lemma ReadersAgree(parts: seq<Part>)
    requires AreParts(parts) && AllFound(parts) && DistinctUnits(parts)
    ensures ReadText(Join(CompactWords(parts))) == ParseText(Join(CompactWords(parts)))
  {
    hide *;
    ReadersAgreeExactly(parts);
    if PartsFit(parts) {
      OnceEach(parts);
    }
  }

  lemma OnceEach(parts: seq<Part>)
    requires AreParts(parts) && AllFound(parts) && DistinctUnits(parts) && PartsFit(parts)
    ensures SumsAreLast(parts)
  {
    hide AreParts, AllFound, DistinctUnits, PartsFit, SumIsLast;
    forall unit: nat | unit < TIME_PARTS_COUNT
      ensures SumIsLast(parts, unit)
    {
      NamedOnce(parts, unit);
    }
  }

  /** With one unit named twice they agree exactly when the first number is zero. */
  lemma ReadersOnRepeatedUnit(first: Part, second: Part)
    requires first.Valid() && second.Valid() && first.Unit() == second.Unit() && first.Unit().Some?
    requires DigitsValue(first.number) < TWO_TO_THE_64 && DigitsValue(second.number) < TWO_TO_THE_64
    ensures ReadText(Join(CompactWords([first, second]))) == ParseText(Join(CompactWords([first, second])))
      <==> DigitsValue(first.number) == 0
  {
    hide ReadText, ParseText, Join, CompactWords, DigitsValue, FindUnit, UnitsNamed;
    var parts := [first, second];
    ReadersAgreeExactly(parts);
    FoundUnit(first.name);
    FoundUnit(second.name);
    var unit, n, m := first.Unit().value, DigitsValue(first.number), DigitsValue(second.number);
    forall j: nat
      ensures SumIsLast(parts, j) <==> j != unit || (n + m) % TWO_TO_THE_64 == m
    {
      TwoParts(first, second, j);
    }
    assert (n + m) % TWO_TO_THE_64 == m <==> n == 0;
    assert SumsAreLast(parts) <==> SumIsLast(parts, unit);
  }

  lemma TwoParts(first: Part, second: Part, unit: nat)
    requires first.Valid() && second.Valid() && first.Unit() == second.Unit() && first.Unit().Some?
    requires UnitsNamed(first.name) == UnitsNamed(second.name) == {first.Unit().value}
    ensures var named := first.Unit() == Some(unit);
      && Sum([first, second], unit) == (if named then DigitsValue(first.number) + DigitsValue(second.number) else 0)
      && Last([first, second], unit, 0) == (if named then DigitsValue(second.number) else 0)
  {
    hide DigitsValue, FindUnit, UnitsNamed;
    var parts := [first, second];
    var rest := parts[1..];
    assert rest == [second] && rest[1..] == [];
    assert Sum(rest[1..], unit) == 0;
    var one := if first.Unit() == Some(unit) then DigitsValue(first.number) else 0;
    var two := if first.Unit() == Some(unit) then DigitsValue(second.number) else one;
    assert Last(parts, unit, 0) == Last(rest, unit, one) == Last(rest[1..], unit, two) == two;
  }
}
