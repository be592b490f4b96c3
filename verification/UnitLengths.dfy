/** How long the durations are that names and numbers stand for. */
module UnitLengths {
  import opened Characters
  import opened DatabaseTime
  import opened Decimals
  import opened Durations
  import opened HumanTime
  import opened Options

  /** The seconds that a name stands for when people write it; other words stand for nothing. */
  ghost function SecondsOf(name: string): nat {
    if name in ["y", "yr", "yrs", "year", "years"] then 31556952
    else if name in ["mo", "mos", "month", "months"] then 2629746
    else if name in ["w", "wk", "wks", "week", "weeks"] then 604800
    else if name in ["d", "day", "days"] then 86400
    else if name in ["h", "hr", "hrs", "hour", "hours"] then 3600
    else if name in ["m", "min", "mins", "minute", "minutes"] then 60
    else if name in ["s", "sec", "secs", "second", "seconds"] then 1
    else 0
  }

  /** The seconds that a name stands for in the database. */
  ghost function StoredSecondsOf(name: string): nat {
    if name == "y" || name == "years" then 31556952
    else if name == "mo" || name == "months" then 2629746
    else if name == "w" || name == "weeks" then 604800
    else if name == "d" || name == "days" then 86400
    else if name == "h" || name == "hours" then 3600
    else if name == "m" || name == "minutes" then 60
    else if name == "s" || name == "seconds" then 1
    else 0
  }

  /** The seconds of a text: each number times the length of its unit. */
  ghost function SecondsIn(parts: seq<Part>): nat
    requires AreParts(parts)
  {
    if parts == [] then 0 else DigitsValue(parts[0].number) * SecondsOf(parts[0].name) + SecondsIn(parts[1..])
  }

  function UnitSeconds(unit: nat): nat
    requires unit < TIME_PARTS_COUNT
  {
    [31556952, 2629746, 604800, 86400, 3600, 60, 1][unit]
  }

  /** A name belongs to the unit of its length, and to no other. */
  lemma NameHasLength(name: string, unit: nat)
    requires unit < TIME_PARTS_COUNT
    ensures unit in UnitsNamed(name) <==> SecondsOf(name) == UnitSeconds(unit)
  {
  }

  lemma StoredNameHasLength(name: string)
    ensures StoredSecondsOf(name) == match FindUnit(name, 0) case Some(unit) => UnitSeconds(unit) case None => 0
  {
  }

  ghost function WeightedSums(parts: seq<Part>): nat
    requires AreParts(parts)
  {
    31556952 * Sum(parts, 0) + 2629746 * Sum(parts, 1) + 604800 * Sum(parts, 2) + 86400 * Sum(parts, 3)
    + 3600 * Sum(parts, 4) + 60 * Sum(parts, 5) + Sum(parts, 6)
  }

  ghost function Share(n: nat, name: string, unit: nat): nat {
    if unit in UnitsNamed(name) then n else 0
  }

  lemma WeightedShares(n: nat, name: string)
    ensures 31556952 * Share(n, name, 0) + 2629746 * Share(n, name, 1) + 604800 * Share(n, name, 2)
      + 86400 * Share(n, name, 3) + 3600 * Share(n, name, 4) + 60 * Share(n, name, 5) + Share(n, name, 6)
      == n * SecondsOf(name)
  {
    forall unit: nat | unit < TIME_PARTS_COUNT
      ensures unit in UnitsNamed(name) <==> SecondsOf(name) == UnitSeconds(unit)
    {
      NameHasLength(name, unit);
    }
    hide UnitsNamed;
    assert forall unit: nat :: unit < 7 ==>
      UnitSeconds(unit) == [31556952, 2629746, 604800, 86400, 3600, 60, 1][unit];
  }

  lemma SumOfFirst(parts: seq<Part>, unit: nat)
    requires AreParts(parts) && parts != []
    ensures Sum(parts, unit) == Share(DigitsValue(parts[0].number), parts[0].name, unit) + Sum(parts[1..], unit)
  {
  }

  lemma {:induction false} SumsHaveLengths(parts: seq<Part>)
    requires AreParts(parts)
    ensures WeightedSums(parts) == SecondsIn(parts)
  {
    hide UnitsNamed, SecondsOf, DigitsValue, Share;
    if parts != [] {
      hide Sum, AreParts;
      SumsHaveLengths(parts[1..]);
      WeightedShares(DigitsValue(parts[0].number), parts[0].name);
      forall unit: nat
        ensures Sum(parts, unit)
          == Share(DigitsValue(parts[0].number), parts[0].name, unit) + Sum(parts[1..], unit)
      {
        SumOfFirst(parts, unit);
      }
    }
  }

  lemma PartIsSum(d: Duration, parts: seq<Part>, unit: nat)
    requires AreParts(parts) && HasSums(d, parts, ZERO) && unit < TIME_PARTS_COUNT
    ensures Sum(parts, unit) < TWO_TO_THE_64 ==> d[unit] == Sum(parts, unit)
  {
    hide Sum;
    assert ZERO[unit] == 0;
  }

  lemma SumsAreParts(d: Duration, parts: seq<Part>)
    requires AreParts(parts) && HasSums(d, parts, ZERO) && SecondsIn(parts) < TWO_TO_THE_64
    ensures WeightedTotal(d) == SecondsIn(parts)
  {
    SumsHaveLengths(parts);
    hide Sum, SecondsIn, HasSums, AreParts;
    PartIsSum(d, parts, 0);
    PartIsSum(d, parts, 1);
    PartIsSum(d, parts, 2);
    PartIsSum(d, parts, 3);
    PartIsSum(d, parts, 4);
    PartIsSum(d, parts, 5);
    PartIsSum(d, parts, 6);
  }

  /** A compact text that people write stands for the sum of its numbers times the lengths of their units. */
  lemma ParsedSeconds(parts: seq<Part>)
    requires AreParts(parts) && PartsFit(parts) && SecondsIn(parts) < TWO_TO_THE_63
    ensures ParseText(Join(CompactWords(parts))).Value?
    ensures ToSeconds(ParseText(Join(CompactWords(parts))).duration) == SecondsIn(parts)
  {
    hide ParseText, ReadText, Join, CompactWords, SecondsIn, HasLast, HasSums, ToSeconds, WeightedTotal;
    CompactReadings(parts);
    var d := ParseText(Join(CompactWords(parts))).duration;
    SumsAreParts(d, parts);
    ToSecondsExact(d);
  }

  /** One number with a word: the parser knows all names of the units, the database their first and last. */
  lemma NamedSeconds(n: nat, name: string)
    requires n < TWO_TO_THE_64 && name != "" && IsAllAlpha(name)
    ensures n * SecondsOf(name) < TWO_TO_THE_63 ==>
      && ParseText(Decimal(n) + name).Value?
      && ToSeconds(ParseText(Decimal(n) + name).duration) == n * SecondsOf(name)
    ensures n * StoredSecondsOf(name) < TWO_TO_THE_63 ==>
      && ReadText(Decimal(n) + name).Value?
      && ToSeconds(ReadText(Decimal(n) + name).duration) == n * StoredSecondsOf(name)
  {
    hide ParseText, ReadText, SecondsOf, StoredSecondsOf, ToSeconds, WeightedTotal, Decimal, FindUnit, DigitsValue;
    DecimalRoundTrip(n);
    var part := Part(Decimal(n), name);
    var parts := [part];
    assert parts[1..] == [];
    assert Join(CompactWords(parts)) == Decimal(n) + name;
    if n * SecondsOf(name) < TWO_TO_THE_63 {
      assert SecondsIn(parts) == n * SecondsOf(name);
      ParsedSeconds(parts);
    }
    StoredSeconds(part, n);
  }

  lemma LastOfOne(part: Part, unit: nat)
    requires part.Valid()
    ensures Last([part], unit, 0) == if part.Unit() == Some(unit) then DigitsValue(part.number) else 0
  {
    assert [part][1..] == [];
  }

  /** The only part that is not zero decides the total. */
  lemma OnePartTotal(d: Duration, unit: Option<nat>, n: nat)
    requires unit.Some? ==> unit.value < TIME_PARTS_COUNT
    requires forall j: nat :: j < TIME_PARTS_COUNT ==> d[j] == if unit == Some(j) then n else 0
    ensures WeightedTotal(d) == n * match unit case Some(i) => UnitSeconds(i) case None => 0
  {
    match unit
    case None =>
    case Some(i) =>
      assert d[i] == n && forall j: nat :: j < TIME_PARTS_COUNT && j != i ==> d[j] == 0;
      if i == 0 {
      } else if i == 1 {
      } else if i == 2 {
      } else if i == 3 {
      } else if i == 4 {
      } else if i == 5 {
      } else {
      }
  }

  lemma StoredSeconds(part: Part, n: nat)
    requires part.Valid() && n == DigitsValue(part.number) < TWO_TO_THE_64
    ensures n * StoredSecondsOf(part.name) < TWO_TO_THE_63 ==>
      && ReadText(Join(CompactWords([part]))).Value?
      && ToSeconds(ReadText(Join(CompactWords([part]))).duration) == n * StoredSecondsOf(part.name)
  {
    hide ParseText, ReadText, Join, CompactWords, StoredSecondsOf, ToSeconds, FindUnit, DigitsValue, HasSums;
    hide WeightedTotal, Last, UnitSeconds;
    CompactReadings([part]);
    var d := ReadText(Join(CompactWords([part]))).duration;
    forall j: nat | j < TIME_PARTS_COUNT
      ensures d[j] == if part.Unit() == Some(j) then n else 0
    {
      assert ZERO[j] == 0;
      LastOfOne(part, j);
    }
    StoredNameHasLength(part.name);
    OnePartTotal(d, part.Unit(), n);
    ToSecondsExact(d);
  }
}
