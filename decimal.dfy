/**
 * Decimal numerals over ASCII digits: the parse that Python's `int(s)` performs
 * on a string of digits, and the rendering `str(n)` of a natural number.
 */
module Decimal {
  import opened Wrappers

  predicate IsDigit(c: char) {
    '0' <= c <= '9'
  }

  /** True of the non-empty strings of ASCII digits. */
  predicate IsNumeral(s: string) {
    |s| > 0 && AllDigits(s)
  }

  predicate AllDigits(s: string) {
    forall i :: 0 <= i < |s| ==> IsDigit(s[i])
  }

  /** A numeral in the form `str` produces: no leading zero unless it is "0" itself. */
  predicate IsCanonical(s: string) {
    IsNumeral(s) && (|s| == 1 || s[0] != '0')
  }

  function DigitValue(c: char): (d: nat)
    requires IsDigit(c)
    ensures d < 10
  {
    (c as int) - ('0' as int)
  }

  function DigitChar(d: nat): (c: char)
    requires d < 10
    ensures IsDigit(c) && DigitValue(c) == d
  {
    ('0' as int + d) as char
  }

  /** The number a string of digits denotes, most significant digit first. */
  function Value(s: string): nat
    requires AllDigits(s)
  {
    if |s| == 0 then 0 else Value(s[..|s| - 1]) * 10 + DigitValue(s[|s| - 1])
  }

  /** A string of k digits denotes a number below ten to the power k. */
  lemma {:induction false} ValueBound(s: string)
    requires AllDigits(s)
    ensures Value(s) < Pow10(|s|)
    decreases |s|
  {
    if |s| > 0 {
      ValueBound(s[..|s| - 1]);
    }
  }

  /** Ten to the power k. */
  function Pow10(k: nat): nat {
    if k == 0 then 1 else 10 * Pow10(k - 1)
  }

  /** `str(n)`: the shortest decimal numeral of n. */
  function Render(n: nat): (r: string)
    ensures IsCanonical(r)
    ensures Value(r) == n
    ensures |r| > 1 <==> n >= 10
  {
    if n < 10 then [DigitChar(n)]
    else
      var front := Render(n / 10);
      var r := front + [DigitChar(n % 10)];
      assert r[..|r| - 1] == front;
      r
  }

  /** `int(s)` restricted to ASCII digit strings: None stands for the ValueError. */
  function ParseInt(s: string): (r: Option<nat>)
    ensures r.Some? <==> IsNumeral(s)
  {
    if IsNumeral(s) then Some(Value(s)) else None
  }

  /** Parsing then rendering keeps a numeral's digits and drops its leading zeros: "007" becomes "7". */
  lemma ParseRender(s: string)
    requires IsNumeral(s)
    ensures ParseInt(s).Some? && Render(ParseInt(s).value) == CanonicalForm(s)
  {
    CanonicalFormValue(s);
    RenderValue(CanonicalForm(s));
  }

  /** The numeral with its leading zeros removed ("007" becomes "7", "000" becomes "0"). */
  function CanonicalForm(s: string): (r: string)
    requires IsNumeral(s)
    ensures IsCanonical(r)
    ensures |r| <= |s| && r == s[|s| - |r|..]
  {
    if |s| == 1 || s[0] != '0' then s else CanonicalForm(s[1..])
  }

  /** Leading zeros do not change the value of a numeral. */
  lemma {:induction false} CanonicalFormValue(s: string)
    requires IsNumeral(s)
    ensures Value(CanonicalForm(s)) == Value(s)
    decreases |s|
  {
    if !(|s| == 1 || s[0] != '0') {
      CanonicalFormValue(s[1..]);
      LeadingZero(s);
    }
  }

  /** Removing one leading '0' keeps the value. */
  lemma {:induction false} LeadingZero(s: string)
    requires AllDigits(s) && |s| > 0 && s[0] == '0'
    ensures Value(s[1..]) == Value(s)
    decreases |s|
  {
    if |s| > 1 {
      var t := s[..|s| - 1];
      assert s[1..][..|s| - 2] == t[1..];
      LeadingZero(t);
    } else {
      assert Value(s[..0]) == 0;
    }
  }

  /** A numeral whose first digit is not zero denotes a positive number. */
  lemma {:induction false} LeadingDigitPositive(s: string)
    requires IsNumeral(s) && s[0] != '0'
    ensures Value(s) >= 1
    ensures |s| > 1 ==> Value(s) >= 10
    decreases |s|
  {
    if |s| > 1 {
      LeadingDigitPositive(s[..|s| - 1]);
    }
  }

  /** Rendering the value of a canonical numeral gives back the numeral: `str(int(s)) == s`. */
  lemma {:induction false} RenderValue(s: string)
    requires IsCanonical(s)
    ensures Render(Value(s)) == s
    decreases |s|
  {
    if |s| == 1 {
      assert [DigitChar(DigitValue(s[0]))] == s;
    } else {
      var front, c := s[..|s| - 1], s[|s| - 1];
      assert front[0] == s[0];
      LeadingDigitPositive(s);
      RenderValue(front);
      ShiftDigit(Value(front), DigitValue(c));
      assert DigitChar(DigitValue(c)) == c;
      assert front + [c] == s;
    }
  }

  /** Appending digit d to the numeral of a is undone by division and remainder by ten. */
  lemma ShiftDigit(a: nat, d: nat)
    requires d < 10
    ensures (a * 10 + d) / 10 == a && (a * 10 + d) % 10 == d
  {
  }
}
