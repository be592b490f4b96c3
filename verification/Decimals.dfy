/** Unsigned 64-bit numbers in decimal: `std::to_string` and `std::stoull`. */
module Decimals {
  import opened Characters

  const TWO_TO_THE_64: nat := 0x1_0000_0000_0000_0000

  function DigitChar(d: nat): (c: char)
    requires d < 10
    ensures IsDigit(c) && DigitValue(c) == d
  {
    '0' + d as char
  }

  function DigitValue(c: char): (d: nat)
    requires IsDigit(c)
    ensures d < 10
  {
    (c - '0') as nat
  }

  function Decimal(n: nat): (s: string)
    ensures s != "" && IsAllDigit(s)
  {
    (if n < 10 then "" else Decimal(n / 10)) + [DigitChar(n % 10)]
  }

  function DigitsValue(s: string): nat
    requires IsAllDigit(s)
  {
    if s == "" then 0
    else
      assert IsDigit(s[|s| - 1]);
      10 * DigitsValue(s[..|s| - 1]) + DigitValue(s[|s| - 1])
  }

  lemma {:induction false} DecimalRoundTrip(n: nat)
    ensures DigitsValue(Decimal(n)) == n
  {
    var s := Decimal(n);
    if n < 10 {
      assert s[..|s| - 1] == "";
    } else {
      assert s[..|s| - 1] == Decimal(n / 10);
      DecimalRoundTrip(n / 10);
    }
  }

  lemma {:induction false} NoLeadingZero(n: nat)
    ensures n > 0 ==> Decimal(n)[0] != '0'
    ensures n == 0 ==> Decimal(n) == "0"
    ensures n < 10 <==> |Decimal(n)| == 1
  {
    if n >= 10 {
      NoLeadingZero(n / 10);
      assert Decimal(n)[0] == Decimal(n / 10)[0];
    }
  }

  /** The printed number is the only text of digits with its value that does not start with a superfluous zero. */
  lemma DecimalIsUnique(s: string, n: nat)
    ensures s == Decimal(n) <==>
      s != "" && IsAllDigit(s) && DigitsValue(s) == n && (|s| > 1 ==> s[0] != '0')
  {
    DecimalRoundTrip(n);
    NoLeadingZero(n);
    if s != "" && IsAllDigit(s) && (|s| > 1 ==> s[0] != '0') {
      DigitsArePrinted(s);
    }
  }

  lemma {:induction false} DigitsArePrinted(s: string)
    requires s != "" && IsAllDigit(s) && (|s| > 1 ==> s[0] != '0')
    ensures Decimal(DigitsValue(s)) == s
  {
    var init, last := s[..|s| - 1], s[|s| - 1];
    assert s == init + [last] && IsDigit(last);
    if init == "" {
      OneDigit(last);
    } else {
      hide Decimal;
      DigitsArePrinted(init);
      NoLeadingZero(DigitsValue(init));
      assert init[0] == s[0];
      DecimalSnoc(DigitsValue(init), last);
    }
  }

  lemma OneDigit(c: char)
    requires IsDigit(c)
    ensures DigitsValue([c]) == DigitValue(c) && Decimal(DigitValue(c)) == [c]
  {
    assert [c][..0] == "";
  }

  lemma DecimalSnoc(n: nat, c: char)
    requires n > 0 && IsDigit(c)
    ensures Decimal(10 * n + DigitValue(c)) == Decimal(n) + [c]
  {
    assert (10 * n + DigitValue(c)) / 10 == n && (10 * n + DigitValue(c)) % 10 == DigitValue(c);
  }

  datatype Exception = InvalidArgument | OutOfRange

  datatype Number = Num(value: nat) | NotNum(error: Exception)

  function SkipSpace(s: string): string {
    if s != "" && IsSpace(s[0]) then SkipSpace(s[1..]) else s
  }

  function LeadingDigits(s: string): (digits: string)
    ensures IsAllDigit(digits)
  {
    if s != "" && IsDigit(s[0]) then [s[0]] + LeadingDigits(s[1..]) else ""
  }

  /** Blanks, an optional sign, then as many digits as follow; a minus sign negates modulo 2^64. */
  function Stoull(s: string): (r: Number)
    ensures r.Num? ==> r.value < TWO_TO_THE_64
  {
    var t := SkipSpace(s);
    var signed := t != "" && (t[0] == '-' || t[0] == '+');
    var digits := LeadingDigits(if signed then t[1..] else t);
    if digits == "" then NotNum(InvalidArgument)
    else if DigitsValue(digits) >= TWO_TO_THE_64 then NotNum(OutOfRange)
    else if signed && t[0] == '-' then Num((TWO_TO_THE_64 - DigitsValue(digits)) % TWO_TO_THE_64)
    else Num(DigitsValue(digits))
  }

  lemma {:induction false} LeadingDigitsAll(s: string)
    requires IsAllDigit(s)
    ensures LeadingDigits(s) == s
  {
    if s != "" {
      LeadingDigitsAll(s[1..]);
    }
  }

  lemma StoullOfDigits(s: string)
    requires s != "" && IsAllDigit(s)
    ensures Stoull(s) == if DigitsValue(s) < TWO_TO_THE_64 then Num(DigitsValue(s)) else NotNum(OutOfRange)
  {
    LeadingDigitsAll(s);
    assert IsDigit(s[0]);
  }

  /** Blanks, a sign or none, digits, and a rest that continues neither. */
  ghost predicate IsNumeral(blanks: string, sign: string, digits: string, rest: string) {
    && (forall i :: 0 <= i < |blanks| ==> IsSpace(blanks[i])) && (sign == "" || sign == "+" || sign == "-")
    && IsAllDigit(digits) && (rest != "" ==> !IsDigit(rest[0]))
    && (sign == "" && digits == "" && rest != "" ==> !IsSpace(rest[0]) && rest[0] != '+' && rest[0] != '-')
  }

  lemma {:induction false} SkipBlanks(blanks: string, rest: string)
    requires forall i :: 0 <= i < |blanks| ==> IsSpace(blanks[i])
    requires rest != "" ==> !IsSpace(rest[0])
    ensures SkipSpace(blanks + rest) == rest
  {
    if blanks == "" {
      assert blanks + rest == rest;
    } else {
      SkipBlanks(blanks[1..], rest);
      assert (blanks + rest)[0] == blanks[0] && (blanks + rest)[1..] == blanks[1..] + rest;
    }
  }

  lemma {:induction false} LeadingDigitsThen(digits: string, rest: string)
    requires IsAllDigit(digits) && (rest != "" ==> !IsDigit(rest[0]))
    ensures LeadingDigits(digits + rest) == digits
  {
    if digits == "" {
      assert digits + rest == rest;
    } else {
      LeadingDigitsThen(digits[1..], rest);
      assert (digits + rest)[0] == digits[0] && (digits + rest)[1..] == digits[1..] + rest;
    }
  }

  /** Every text is such a numeral, and its parts decide what is read. */
  lemma StoullOfNumeral(blanks: string, sign: string, digits: string, rest: string)
    requires IsNumeral(blanks, sign, digits, rest)
    ensures Stoull(blanks + (sign + (digits + rest))) ==
      if digits == "" then NotNum(InvalidArgument)
      else if DigitsValue(digits) >= 0x1_0000_0000_0000_0000 then NotNum(OutOfRange)
      else if sign == "-" && DigitsValue(digits) > 0 then Num(0x1_0000_0000_0000_0000 - DigitsValue(digits))
      else Num(DigitsValue(digits))
  {
    hide DigitsValue, LeadingDigits, SkipSpace;
    var tail := digits + rest;
    assert digits != "" ==> tail[0] == digits[0] && IsDigit(digits[0]);
    assert digits == "" ==> tail == rest;
    assert sign == "" ==> sign + tail == tail;
    assert sign != "" ==> (sign + tail)[0] == sign[0] && (sign + tail)[1..] == tail;
    LeadingDigitsThen(digits, rest);
    SkipBlanks(blanks, sign + tail);
  }

  lemma {:induction false} EveryNumeral(s: string) returns (blanks: string, sign: string, digits: string, rest: string)
    ensures s == blanks + (sign + (digits + rest)) && IsNumeral(blanks, sign, digits, rest)
  {
    blanks, sign, digits, rest := "", "", "", s;
    if s != "" {
      if IsSpace(s[0]) {
        blanks, sign, digits, rest := EveryNumeral(s[1..]);
        blanks := [s[0]] + blanks;
      } else {
        if s[0] == '+' || s[0] == '-' {
          sign, rest := [s[0]], s[1..];
        }
        digits := LeadingDigits(rest);
        LeadingDigitsEnd(rest);
        rest := rest[|digits|..];
      }
    }
  }

  lemma {:induction false} LeadingDigitsEnd(s: string)
    ensures var n := |LeadingDigits(s)|;
      n <= |s| && s[..n] == LeadingDigits(s) && (n < |s| ==> !IsDigit(s[n]))
  {
    if s != "" && IsDigit(s[0]) {
      LeadingDigitsEnd(s[1..]);
    }
  }
}
