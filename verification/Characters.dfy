/** Character classes of the C locale and the string filters built on them. */
module Characters {

  datatype Class = Digit | Letter | Space | Other

  function ClassOf(c: char): Class {
    if '0' <= c <= '9' then Digit
    else if 'a' <= c <= 'z' || 'A' <= c <= 'Z' then Letter
    else if c == ' ' || '\t' <= c <= '\r' then Space
    else Other
  }

  predicate IsDigit(c: char) { ClassOf(c) == Digit }

  predicate IsAlpha(c: char) { ClassOf(c) == Letter }

  predicate IsAlnum(c: char) { IsDigit(c) || IsAlpha(c) }

  predicate IsSpace(c: char) { ClassOf(c) == Space }

  predicate IsAllDigit(s: string) {
    forall i :: 0 <= i < |s| ==> IsDigit(s[i])
  }

  predicate IsAllAlpha(s: string) {
    forall i :: 0 <= i < |s| ==> IsAlpha(s[i])
  }

  predicate IsAllAlnum(s: string) {
    forall i :: 0 <= i < |s| ==> IsAlnum(s[i])
  }

  const LOWER: string := "abcdefghijklmnopqrstuvwxyz"
  const UPPER: string := "ABCDEFGHIJKLMNOPQRSTUVWXYZ"

  /** The classes, character by character. */
  lemma Classes(c: char)
    ensures IsDigit(c) <==> c in "0123456789"
    ensures IsAlpha(c) <==> c in LOWER || c in UPPER
    ensures IsSpace(c) <==> c in " \t\n\U{B}\U{C}\r"
  {
    hide LOWER, UPPER;
    LowerCase(c);
    UpperCase(c);
  }

  lemma LowerCase(c: char)
    ensures c in LOWER <==> 'a' <= c <= 'z'
  {
    InOrder(LOWER, 'a', c);
  }

  lemma UpperCase(c: char)
    ensures c in UPPER <==> 'A' <= c <= 'Z'
  {
    InOrder(UPPER, 'A', c);
  }

  lemma InOrder(alphabet: string, first: char, c: char)
    requires forall i :: 0 <= i < |alphabet| ==> alphabet[i] as int == first as int + i
    ensures c in alphabet <==> 0 <= c as int - first as int < |alphabet|
  {
    if 0 <= c as int - first as int < |alphabet| {
      assert alphabet[c as int - first as int] == c;
    }
  }

  /** The characters of `s` that satisfy `keep`, in order. */
  function Filter(s: string, keep: char -> bool): string {
    if s == "" then ""
    else if keep(s[0]) then [s[0]] + Filter(s[1..], keep)
    else Filter(s[1..], keep)
  }

  function RemoveNonAlphanumeric(s: string): string {
    Filter(s, c => IsAlnum(c))
  }

  function RemoveAlpha(s: string): string {
    Filter(s, c => !IsAlpha(c))
  }

  function RemoveNumeric(s: string): string {
    Filter(s, c => !IsDigit(c))
  }

  lemma {:induction false} FilterAppend(a: string, b: string, keep: char -> bool)
    ensures Filter(a + b, keep) == Filter(a, keep) + Filter(b, keep)
  {
    if a == "" {
      assert a + b == b;
    } else {
      FilterAppend(a[1..], b, keep);
      assert (a + b)[0] == a[0] && (a + b)[1..] == a[1..] + b;
    }
  }

  lemma {:induction false} FilterAll(s: string, keep: char -> bool)
    requires forall i :: 0 <= i < |s| ==> keep(s[i])
    ensures Filter(s, keep) == s
  {
    if s != "" {
      FilterAll(s[1..], keep);
    }
  }

  lemma {:induction false} FilterNone(s: string, keep: char -> bool)
    requires forall i :: 0 <= i < |s| ==> !keep(s[i])
    ensures Filter(s, keep) == ""
  {
    if s != "" {
      FilterNone(s[1..], keep);
    }
  }

  lemma {:induction false} FilterKeeps(s: string, keep: char -> bool)
    ensures forall i :: 0 <= i < |Filter(s, keep)| ==> keep(Filter(s, keep)[i])
  {
    if s != "" {
      FilterKeeps(s[1..], keep);
    }
  }

  /** The filters take a text character by character, dropping what is no letter or digit, letters, and digits. */
  lemma Removals(a: string, c: char, b: string)
    ensures RemoveNonAlphanumeric(a + ([c] + b))
      == RemoveNonAlphanumeric(a) + (if IsAlpha(c) || IsDigit(c) then [c] else "") + RemoveNonAlphanumeric(b)
    ensures RemoveAlpha(a + ([c] + b)) == RemoveAlpha(a) + (if IsAlpha(c) then "" else [c]) + RemoveAlpha(b)
    ensures RemoveNumeric(a + ([c] + b)) == RemoveNumeric(a) + (if IsDigit(c) then "" else [c]) + RemoveNumeric(b)
    ensures RemoveNonAlphanumeric("") == RemoveAlpha("") == RemoveNumeric("") == ""
  {
    FilterAround(a, c, b, c => IsAlnum(c));
    FilterAround(a, c, b, c => !IsAlpha(c));
    FilterAround(a, c, b, c => !IsDigit(c));
  }

  lemma FilterAround(a: string, c: char, b: string, keep: char -> bool)
    ensures Filter(a + ([c] + b), keep) == Filter(a, keep) + (if keep(c) then [c] else "") + Filter(b, keep)
  {
    FilterAppend(a, [c] + b, keep);
    FilterAppend([c], b, keep);
    assert [c][1..] == "";
  }
}
