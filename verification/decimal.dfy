/** Decimal numerals: the text JavaScript's `toString()` gives a whole number
    (item ids are `Date.now().toString()`), the digit fields of an ISO date,
    and JavaScript's `<` on strings. */
module Decimal {

  predicate IsDigit(c: char) {
    '0' <= c <= '9'
  }

  predicate AllDigits(s: string) {
    forall i :: 0 <= i < |s| ==> IsDigit(s[i])
  }

  function DigitValue(c: char): (d: nat)
    requires IsDigit(c)
    ensures d < 10
  {
    c as int - '0' as int
  }

  function DigitChar(d: nat): (c: char)
    requires d < 10
    ensures IsDigit(c) && DigitValue(c) == d
  {
    ('0' as int + d) as char
  }

  /** The value of a string of decimal digits, most significant digit first. */
  function DigitsValue(s: string): nat
    requires AllDigits(s)
  {
    if s == [] then 0 else DigitsValue(s[..|s| - 1]) * 10 + DigitValue(s[|s| - 1])
  }

  /** The value of a two-digit numeral, digit by digit. */
  lemma TwoDigits(s: string)
    requires |s| == 2 && AllDigits(s)
    ensures DigitsValue(s) == DigitValue(s[0]) * 10 + DigitValue(s[1])
  {
    var p := s[..1];
    assert p[..0] == [];
    assert DigitsValue(p) == DigitValue(s[0]);
  }

  /** The value of a four-digit numeral, digit by digit. */
  lemma FourDigits(s: string)
    requires |s| == 4 && AllDigits(s)
    ensures DigitsValue(s) ==
      ((DigitValue(s[0]) * 10 + DigitValue(s[1])) * 10 + DigitValue(s[2])) * 10 + DigitValue(s[3])
  {
    assert s[..3][..2] == s[..2];
    TwoDigits(s[..2]);
  }

  /** The shortest decimal numeral of `n`: at least one digit, and a leading
      zero only for zero itself. */
  function NatToString(n: nat): (s: string)
    ensures AllDigits(s) && |s| > 0
    ensures s[0] == '0' <==> n == 0
  {
    if n < 10 then [DigitChar(n)] else NatToString(n / 10) + [DigitChar(n % 10)]
  }

  /** `Number.prototype.toString()` on a whole number of magnitude below
      10^21 (from there on JavaScript switches to exponent form, far beyond
      any `Date.now()`, which stays below 8.64 * 10^15): a minus sign, then the
      numeral of the magnitude. */
  function IntToString(n: int): (s: string)
    ensures |s| > 0
    ensures s[0] == '-' <==> n < 0
  {
    if n < 0 then "-" + NatToString(-n) else NatToString(n)
  }

  /** Reading back the numeral gives the number. */
  lemma {:induction false} NatToStringRoundTrip(n: nat)
    ensures DigitsValue(NatToString(n)) == n
  {
    var s := NatToString(n);
    if n >= 10 {
      NatToStringRoundTrip(n / 10);
      assert s[..|s| - 1] == NatToString(n / 10);
    }
  }

  /** Different whole numbers have different numerals. */
  lemma {:induction false} IntToStringInjective(m: int, n: int)
    requires IntToString(m) == IntToString(n)
    ensures m == n
  {
    var s := IntToString(m);
    if m < 0 {
      assert n < 0;
      assert NatToString(-m) == s[1..] == NatToString(-n);
      NatToStringRoundTrip(-m);
      NatToStringRoundTrip(-n);
    } else {
      assert 0 <= n;
      NatToStringRoundTrip(m);
      NatToStringRoundTrip(n);
    }
  }

  /** Two digit strings of one length are equal exactly when their values are. */
  lemma {:induction false} DigitsValueInjective(a: string, b: string)
    requires AllDigits(a) && AllDigits(b) && |a| == |b|
    ensures DigitsValue(a) == DigitsValue(b) <==> a == b
  {
    if a != [] {
      var n := |a| - 1;
      DigitsValueInjective(a[..n], b[..n]);
      if a[..n] == b[..n] && a[n] == b[n] {
        assert a == a[..n] + [a[n]] && b == b[..n] + [b[n]];
      }
    }
  }

  /** JavaScript's `<` on strings: lexicographic order of the characters. */
  predicate StrLess(s: string, t: string) {
    if s == [] then t != []
    else if t == [] then false
    else if s[0] != t[0] then s[0] < t[0]
    else StrLess(s[1..], t[1..])
  }

  /** Comparing two concatenations whose first parts have one length compares
      the first parts, and the second parts only on a tie. */
  lemma {:induction false} StrLessConcat(p: string, r: string, q: string, w: string)
    requires |p| == |q|
    ensures StrLess(p + r, q + w) <==> StrLess(p, q) || (p == q && StrLess(r, w))
  {
    if p != [] {
      assert (p + r)[1..] == p[1..] + r && (q + w)[1..] == q[1..] + w;
      StrLessConcat(p[1..], r, q[1..], w);
      if p[0] == q[0] && p[1..] == q[1..] {
        assert p == [p[0]] + p[1..] && q == [q[0]] + q[1..];
      }
    } else {
      assert p + r == r && q + w == w;
    }
  }

  /** On digit strings of one length, string order is numeric order. */
  lemma {:induction false} StrLessDigits(a: string, b: string)
    requires AllDigits(a) && AllDigits(b) && |a| == |b|
    ensures StrLess(a, b) <==> DigitsValue(a) < DigitsValue(b)
  {
    if a != [] {
      var n := |a| - 1;
      assert a == a[..n] + [a[n]] && b == b[..n] + [b[n]];
      StrLessConcat(a[..n], [a[n]], b[..n], [b[n]]);
      StrLessDigits(a[..n], b[..n]);
      DigitsValueInjective(a[..n], b[..n]);
      assert StrLess([a[n]], [b[n]]) <==> a[n] < b[n] by {
        assert [a[n]][1..] == [] && [b[n]][1..] == [];
      }
    }
  }
}
