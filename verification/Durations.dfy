/** Durations: the printer, the two readers and the conversion to seconds. */
module Durations {
  import opened Characters
  import opened Decimals

  const TIME_PARTS_COUNT: nat := 7
  const TWO_TO_THE_63: nat := 0x8000_0000_0000_0000

  /** Years, months, weeks, days, hours, minutes and seconds, each an unsigned 64-bit number. */
  type Duration = values: seq<nat> | |values| == 7 && forall i :: 0 <= i < 7 ==> values[i] < TWO_TO_THE_64
    witness [0, 0, 0, 0, 0, 0, 0]

  const ZERO: Duration := [0, 0, 0, 0, 0, 0, 0]

  const UNIT_NAMES: seq<seq<string>> := [
    ["y", "yr", "yrs", "year", "years"],
    ["mo", "mos", "month", "months"],
    ["w", "wk", "wks", "week", "weeks"],
    ["d", "day", "days"],
    ["h", "hr", "hrs", "hour", "hours"],
    ["m", "min", "mins", "minute", "minutes"],
    ["s", "sec", "secs", "second", "seconds"]
  ]

  /** The units that have `name` among their names. */
  function UnitsNamed(name: string): set<nat> {
    set unit: nat | unit < TIME_PARTS_COUNT && name in UNIT_NAMES[unit]
  }

  /** The short form of a unit is the first of its names, the long form the last. */
  function PrintedName(unit: nat, shortened: bool): string
    requires unit < TIME_PARTS_COUNT
  {
    var names := UNIT_NAMES[unit];
    if shortened then names[0] else names[|names| - 1]
  }

  /** No two units share a name, so a printed name stands for its unit alone. */
  lemma PrintedNames(unit: nat, shortened: bool)
    requires unit < TIME_PARTS_COUNT
    ensures PrintedName(unit, shortened) != "" && IsAllAlpha(PrintedName(unit, shortened))
    ensures UnitsNamed(PrintedName(unit, shortened)) == {unit}
  {
    var names := UNIT_NAMES[unit];
    var name := PrintedName(unit, shortened);
    assert name in names;
    forall other: nat | other < TIME_PARTS_COUNT && name in UNIT_NAMES[other]
      ensures other == unit
    {
      UnitNamesDisjoint(unit, other, name);
    }
  }

  lemma UnitNamesDisjoint(i: nat, j: nat, name: string)
    requires i < TIME_PARTS_COUNT && j < TIME_PARTS_COUNT
    requires name in UNIT_NAMES[i] && name in UNIT_NAMES[j]
    ensures i == j
  {
  }

  // --- Printing ---

  /** The words printed for the first `n` units: a number and a name for each non-zero part. */
  function PartTokens(d: Duration, shortened: bool, n: nat): seq<string>
    requires n <= TIME_PARTS_COUNT
  {
    if n == 0 then []
    else if d[n - 1] == 0 then PartTokens(d, shortened, n - 1)
    else PartTokens(d, shortened, n - 1) + [Decimal(d[n - 1]), PrintedName(n - 1, shortened)]
  }

  /** Words separated by single blanks. */
  function Join(words: seq<string>): string {
    if words == [] then ""
    else if |words| == 1 then words[0]
    else words[0] + " " + Join(words[1..])
  }

  function Text(d: Duration, shortened: bool): string {
    Join(PartTokens(d, shortened, TIME_PARTS_COUNT))
  }

  method ToString(d: Duration, shortened: bool) returns (res: string)
    ensures res == Text(d, shortened)
  {
    res := "";
    for i := 0 to TIME_PARTS_COUNT
      invariant res == Join(PartTokens(d, shortened, i))
      invariant res == "" <==> PartTokens(d, shortened, i) == []
    {
      if d[i] == 0 {
        continue;
      }
      ghost var words := PartTokens(d, shortened, i);
      JoinSnoc(words, Decimal(d[i]));
      JoinSnoc(words + [Decimal(d[i])], PrintedName(i, shortened));
      assert words + [Decimal(d[i])] + [PrintedName(i, shortened)] == PartTokens(d, shortened, i + 1);
      if res != "" {
        res := res + " ";
      }
      res := res + Decimal(d[i]) + " " + PrintedName(i, shortened);
    }
  }

  lemma {:induction false} JoinSnoc(words: seq<string>, word: string)
    ensures Join(words + [word]) == (if words == [] then "" else Join(words) + " ") + word
  {
    if words == [] {
      assert words + [word] == [word];
    } else {
      assert (words + [word])[1..] == words[1..] + [word];
      JoinSnoc(words[1..], word);
      if |words| == 1 {
        assert words[1..] == [];
      }
    }
  }

  /** What is printed for one part, with a blank before it; nothing for zero. */
  ghost function Row(n: nat, name: string): string {
    if n == 0 then "" else " " + Decimal(n) + " " + name
  }

  ghost function Rows(d: Duration, shortened: bool, n: nat): string
    requires n <= TIME_PARTS_COUNT
  {
    if n == 0 then "" else Rows(d, shortened, n - 1) + Row(d[n - 1], PrintedName(n - 1, shortened))
  }

  lemma {:induction false} RowsArePrinted(d: Duration, shortened: bool, n: nat)
    requires n <= TIME_PARTS_COUNT
    ensures PartTokens(d, shortened, n) == [] <==> forall j :: 0 <= j < n ==> d[j] == 0
    ensures Rows(d, shortened, n) == Spaced(PartTokens(d, shortened, n))
  {
    hide Join, PrintedName, Decimal, Spaced, Row;
    if n == 0 {
      NothingSpaced();
    } else {
      RowsArePrinted(d, shortened, n - 1);
      OneRowMore(PartTokens(d, shortened, n - 1), d[n - 1], PrintedName(n - 1, shortened));
    }
  }

  /** The words with a blank before each. */
  ghost function Spaced(words: seq<string>): string {
    if words == [] then "" else " " + Join(words)
  }

  lemma NothingSpaced()
    ensures Spaced([]) == ""
  {
  }

  lemma OneRowMore(words: seq<string>, n: nat, name: string)
    ensures Spaced(if n == 0 then words else words + [Decimal(n), name]) == Spaced(words) + Row(n, name)
  {
    hide Join, Decimal;
    if n != 0 {
      var number := Decimal(n);
      JoinSnoc(words, number);
      JoinSnoc(words + [number], name);
      assert words + [number] + [name] == words + [number, name];
      Regroup(Join(words), number, name);
    }
  }

  lemma Regroup(text: string, number: string, name: string)
    ensures " " + (text + " " + number + " " + name) == " " + text + (" " + number + " " + name)
    ensures " " + ("" + number + " " + name) == "" + (" " + number + " " + name)
  {
  }

  lemma TextIsRows(d: Duration, shortened: bool)
    ensures if d == ZERO then Text(d, shortened) == "" else " " + Text(d, shortened) == Rows(d, shortened, 7)
  {
    hide Rows;
    RowsArePrinted(d, shortened, 7);
    if forall j :: 0 <= j < 7 ==> d[j] == 0 {
      assert d == ZERO;
    }
  }

  /** The printed text, part by part: years first, short or long names, nothing for zero parts. */
  lemma PrintedText(d: Duration)
    ensures d == ZERO ==> Text(d, true) == Text(d, false) == ""
    ensures d != ZERO ==>
      " " + Text(d, true)
      == Row(d[0], "y") + Row(d[1], "mo") + Row(d[2], "w") + Row(d[3], "d") + Row(d[4], "h") + Row(d[5], "m")
        + Row(d[6], "s")
    ensures d != ZERO ==>
      " " + Text(d, false)
      == Row(d[0], "years") + Row(d[1], "months") + Row(d[2], "weeks") + Row(d[3], "days") + Row(d[4], "hours")
        + Row(d[5], "minutes") + Row(d[6], "seconds")
  {
    hide Text, Rows, Row;
    TextIsRows(d, true);
    TextIsRows(d, false);
    SevenRows(d, true);
    SevenRows(d, false);
  }

  lemma SevenRows(d: Duration, shortened: bool)
    ensures Rows(d, shortened, 7) ==
      Row(d[0], PrintedName(0, shortened)) + Row(d[1], PrintedName(1, shortened))
      + Row(d[2], PrintedName(2, shortened)) + Row(d[3], PrintedName(3, shortened))
      + Row(d[4], PrintedName(4, shortened)) + Row(d[5], PrintedName(5, shortened))
      + Row(d[6], PrintedName(6, shortened))
  {
    hide Row, PrintedName;
    assert Rows(d, shortened, 1) == Row(d[0], PrintedName(0, shortened));
    assert Rows(d, shortened, 3) == Rows(d, shortened, 2) + Row(d[2], PrintedName(2, shortened));
    assert Rows(d, shortened, 5) == Rows(d, shortened, 4) + Row(d[4], PrintedName(4, shortened));
  }

  // --- Conversion to seconds ---

  /** The exact number of seconds, by the lengths that section 27.2 of ISO/IEC 14882:2020 gives the units. */
  function WeightedTotal(d: Duration): nat {
    31556952 * d[0] + 2629746 * d[1] + 604800 * d[2] + 86400 * d[3] + 3600 * d[4] + 60 * d[5] + d[6]
  }

  /** Scaling into the common period of two operands: the left one by COUNT_SCALE, the right one by
      VALUE_SCALE. The periods are a year, a month, then 378, 54, 18, 6 and 1 seconds. */
  const COUNT_SCALE: seq<nat> := [1, 12, 6957, 7, 3, 3, 6]
  const VALUE_SCALE: seq<nat> := [1, 1, 1600, 1600, 200, 10, 1]

  /** The sum of the first `i + 1` terms as unsigned arithmetic computes it. */
  function PartialCount(d: Duration, i: nat): (count: nat)
    requires i < TIME_PARTS_COUNT
    ensures count < TWO_TO_THE_64
  {
    if i == 0 then d[0]
    else
      (PartialCount(d, i - 1) * COUNT_SCALE[i] % TWO_TO_THE_64 + d[i] * VALUE_SCALE[i] % TWO_TO_THE_64)
      % TWO_TO_THE_64
  }

  /** The same sum over the unbounded numbers. */
  function ExactCount(d: Duration, i: nat): nat
    requires i < TIME_PARTS_COUNT
  {
    if i == 0 then d[0] else ExactCount(d, i - 1) * COUNT_SCALE[i] + d[i] * VALUE_SCALE[i]
  }

  function ToInt64(count: nat): int
    requires count < TWO_TO_THE_64
  {
    if count < TWO_TO_THE_63 then count else count - TWO_TO_THE_64
  }

  function ToSeconds(d: Duration): int {
    ToInt64(PartialCount(d, 6))
  }

  lemma ModuloSum(a: nat, b: nat)
    ensures (a % TWO_TO_THE_64 + b % TWO_TO_THE_64) % TWO_TO_THE_64 == (a + b) % TWO_TO_THE_64
  {
  }

  lemma ModuloProduct(a: nat, k: nat)
    ensures a % TWO_TO_THE_64 * k % TWO_TO_THE_64 == a * k % TWO_TO_THE_64
  {
    var q, m := a / TWO_TO_THE_64, a % TWO_TO_THE_64;
    assert a * k == m * k + (q * k) * TWO_TO_THE_64 by {
      assert a == m + q * TWO_TO_THE_64;
    }
    MultipleAdded(m * k, q * k);
  }

  lemma {:induction false} MultipleAdded(a: nat, k: nat)
    ensures (a + k * TWO_TO_THE_64) % TWO_TO_THE_64 == a % TWO_TO_THE_64
  {
  }

  /** Whatever wraps on the way, every partial count is the exact one modulo 2^64. */
  lemma {:induction false} PartialCountModulo(d: Duration, i: nat)
    requires i < TIME_PARTS_COUNT
    ensures PartialCount(d, i) == ExactCount(d, i) % TWO_TO_THE_64
  {
    if i > 0 {
      PartialCountModulo(d, i - 1);
      var exact := ExactCount(d, i - 1);
      ModuloProduct(exact, COUNT_SCALE[i]);
      ModuloSum(exact * COUNT_SCALE[i], d[i] * VALUE_SCALE[i]);
    }
  }

  lemma ExactTotal(d: Duration)
    ensures ExactCount(d, 6) == WeightedTotal(d)
  {
    assert ExactCount(d, 1) == d[0] * 12 + d[1];
    assert ExactCount(d, 2) == ExactCount(d, 1) * 6957 + d[2] * 1600;
    assert ExactCount(d, 3) == ExactCount(d, 2) * 7 + d[3] * 1600;
    assert ExactCount(d, 4) == ExactCount(d, 3) * 3 + d[4] * 200;
    assert ExactCount(d, 5) == ExactCount(d, 4) * 3 + d[5] * 10;
  }

  /** Counts only grow as the periods get finer. */
  lemma {:induction false} ExactCountsGrow(d: Duration, i: nat)
    requires i < TIME_PARTS_COUNT
    ensures ExactCount(d, i) <= WeightedTotal(d)
    decreases TIME_PARTS_COUNT - i
  {
    if i == 6 {
      ExactTotal(d);
    } else {
      ExactCountsGrow(d, i + 1);
      Scaled(ExactCount(d, i), COUNT_SCALE[i + 1]);
    }
  }

  lemma Scaled(a: nat, k: nat)
    requires k > 0
    ensures a <= a * k
  {
  }

  /** The conversion is right exactly when the total fits the signed result. */
  lemma ToSecondsExact(d: Duration)
    ensures ToSeconds(d) == WeightedTotal(d) <==> WeightedTotal(d) < TWO_TO_THE_63
  {
    PartialCountModulo(d, 6);
    ExactTotal(d);
  }

  /** Below 2^64 nothing wraps: each partial count is the exact one and none exceeds the total. */
  lemma PartialCountsExact(d: Duration, i: nat)
    requires i < TIME_PARTS_COUNT && WeightedTotal(d) < TWO_TO_THE_64
    ensures PartialCount(d, i) == ExactCount(d, i) <= WeightedTotal(d)
  {
    PartialCountModulo(d, i);
    ExactCountsGrow(d, i);
  }

  /** Whatever the parts, the result is the total wrapped into 64 signed bits. */
  lemma ToSecondsWraps(d: Duration)
    ensures -0x8000_0000_0000_0000 <= ToSeconds(d) < 0x8000_0000_0000_0000
    ensures (WeightedTotal(d) - ToSeconds(d)) % 0x1_0000_0000_0000_0000 == 0
  {
    hide PartialCount, ExactCount, WeightedTotal;
    PartialCountModulo(d, 6);
    ExactTotal(d);
    Wrapped(WeightedTotal(d));
  }

  lemma Wrapped(total: nat)
    ensures (total - ToInt64(total % TWO_TO_THE_64)) % TWO_TO_THE_64 == 0
  {
    var q, count := total / TWO_TO_THE_64, total % TWO_TO_THE_64;
    assert total - count == q * TWO_TO_THE_64;
  }

  /** The length of a unit and the period of the count up to it, in seconds. */
  const LENGTHS: seq<nat> := [31556952, 2629746, 604800, 86400, 3600, 60, 1]
  const PERIODS: seq<nat> := [31556952, 2629746, 378, 54, 18, 6, 1]

  /** Each count is of the greatest common period of the count before and the unit added to it. */
  lemma CommonPeriods(i: nat, k: nat)
    requires 0 < i < TIME_PARTS_COUNT && k > 0
    ensures COUNT_SCALE[i] * PERIODS[i] == PERIODS[i - 1] && VALUE_SCALE[i] * PERIODS[i] == LENGTHS[i]
    ensures PERIODS[i - 1] % k == 0 && LENGTHS[i] % k == 0 ==> k <= PERIODS[i]
  {
    if PERIODS[i - 1] % k == 0 && LENGTHS[i] % k == 0 {
      var left, right := Coefficients(i);
      GreatestDivisor(PERIODS[i - 1], LENGTHS[i], PERIODS[i], left, right, k);
    }
  }

  /** Each period is a combination of the two, so every common divisor divides it. */
  lemma Coefficients(i: nat) returns (left: int, right: int)
    requires 0 < i < TIME_PARTS_COUNT
    ensures left * PERIODS[i - 1] + right * LENGTHS[i] == PERIODS[i]
  {
    if i == 1 {
      left, right := 0, 1;
    } else if i == 2 {
      left, right := 293, -1274;
    } else if i == 3 {
      left, right := -457, 2;
    } else if i == 4 {
      left, right := 67, -1;
    } else if i == 5 {
      left, right := -3, 1;
    } else {
      left, right := 0, 1;
    }
  }

  lemma GreatestDivisor(x: nat, y: nat, g: nat, a: int, b: int, k: nat)
    requires k > 0 && x % k == 0 && y % k == 0 && a * x + b * y == g > 0
    ensures k <= g
  {
    var p, q := x / k, y / k;
    assert x == k * p && y == k * q;
    Combined(k, p, q, a, b);
    DivisorAtMost(k, a * p + b * q);
  }

  lemma Combined(k: int, p: int, q: int, a: int, b: int)
    ensures a * (k * p) + b * (k * q) == k * (a * p + b * q)
  {
  }

  lemma DivisorAtMost(k: nat, m: int)
    requires k * m > 0
    ensures k <= k * m
  {
  }
}
