/**
 Decimal text of natural numbers: Python's `str(n)` for `n >= 0` and `int(s)` for a
 string of ASCII digits, with the round trips between the two.
 */
module Decimal {

  predicate IsDigit(c: char) {
    '0' <= c <= '9'
  }

  predicate AllDigits(s: string) {
    forall i | 0 <= i < |s| :: IsDigit(s[i])
  }

  /** The text a count segment of a provenance identifier must have: `[1-9][0-9]*`. */
  predicate IsCountText(s: string) {
    |s| > 0 && '1' <= s[0] <= '9' && AllDigits(s)
  }

  function DigitChar(d: nat): (c: char)
    requires d < 10
    ensures IsDigit(c)
  {
    ('0' as int + d) as char
  }

  function DigitValue(c: char): (d: nat)
    requires IsDigit(c)
    ensures d < 10
    ensures DigitChar(d) == c
  {
    c as int - '0' as int
  }

  /** `str(n)`: most significant digit first, no leading zero. */
  function ToText(n: nat): (s: string)
    ensures |s| > 0
    ensures AllDigits(s)
  {
    if n < 10 then [DigitChar(n)] else ToText(n / 10) + [DigitChar(n % 10)]
  }

  /** `int(s)` on a string of ASCII digits. */
  function ValueOf(s: string): nat
    requires AllDigits(s)
  {
    if |s| == 0 then 0 else ValueOf(s[..|s| - 1]) * 10 + DigitValue(s[|s| - 1])
  }

  /** `int(str(n)) == n`. */
  lemma {:induction false} ValueOfToText(n: nat)
    ensures ValueOf(ToText(n)) == n
  {
    if n >= 10 {
      var s := ToText(n);
      assert s[..|s| - 1] == ToText(n / 10);
      ValueOfToText(n / 10);
    }
  }

  /** `str(n)` of a positive number is a valid count segment (no leading zero). */
  lemma {:induction false} ToTextIsCountText(n: nat)
    requires n >= 1
    ensures IsCountText(ToText(n))
  {
    if n >= 10 {
      ToTextIsCountText(n / 10);
      assert ToText(n)[0] == ToText(n / 10)[0];
    }
  }

  lemma {:induction false} ValueOfCountTextPositive(s: string)
    requires IsCountText(s)
    ensures ValueOf(s) >= 1
  {
    if |s| > 1 {
      var p := s[..|s| - 1];
      assert p[0] == s[0];
      ValueOfCountTextPositive(p);
    }
  }

  /** `str(int(s)) == s` for every canonical count text. */
  lemma {:induction false} ToTextOfValueOf(s: string)
    requires IsCountText(s)
    ensures ToText(ValueOf(s)) == s
  {
    if |s| > 1 {
      var p := s[..|s| - 1];
      assert p[0] == s[0];
      ToTextOfValueOf(p);
      ValueOfCountTextPositive(p);
      var n := ValueOf(s);
      var d := DigitValue(s[|s| - 1]);
      assert n == ValueOf(p) * 10 + d;
      assert n / 10 == ValueOf(p) && n % 10 == d;
      assert s == p + [s[|s| - 1]];
    }
  }

  /** Distinct numbers have distinct texts. */
  lemma ToTextInjective(m: nat, n: nat)
    requires ToText(m) == ToText(n)
    ensures m == n
  {
    ValueOfToText(m);
    ValueOfToText(n);
  }
}
