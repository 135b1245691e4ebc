// Decimal numerals: the value of a digit string, and `std::to_string` of an
// unsigned value, proved inverse to each other.

module Numerals {

  predicate IsDigit(c: char) { '0' <= c <= '9' }

  predicate AllDigits(s: string) { forall k :: 0 <= k < |s| ==> IsDigit(s[k]) }

  function DigitValue(c: char): nat
    requires IsDigit(c)
  {
    (c as int) - ('0' as int)
  }

  function DigitChar(d: nat): (c: char)
    requires d < 10
    ensures IsDigit(c) && DigitValue(c) == d
  {
    (('0' as int) + d) as char
  }

  /** The value of a digit string, most significant digit first. */
  function DecimalValue(s: string): nat
    requires AllDigits(s)
    decreases |s|
  {
    if s == [] then 0 else 10 * DecimalValue(s[..|s| - 1]) + DigitValue(s[|s| - 1])
  }

  /** No leading zero, unless the numeral is "0" itself. */
  predicate Canonical(s: string)
  {
    |s| >= 1 && AllDigits(s) && (s[0] == '0' ==> |s| == 1)
  }

  /** `std::to_string` of an unsigned value: its canonical decimal numeral. */
  function NatToString(n: nat): (s: string)
    ensures Canonical(s) && DecimalValue(s) == n
    decreases n
  {
    if n < 10 then [DigitChar(n)]
    else
      var p := NatToString(n / 10);
      var s := p + [DigitChar(n % 10)];
      assert s[..|s| - 1] == p;
      s
  }

  lemma DecimalValueBound(s: string)
    requires Canonical(s) && |s| >= 2
    ensures DecimalValue(s) >= 10
    decreases |s|
  {
    var p := s[..|s| - 1];
    if |p| >= 2 {
      DecimalValueBound(p);
    } else {
      assert p[0] == s[0] != '0';
    }
  }

  /** Reading a canonical numeral and writing its value gives the numeral back. */
  lemma {:induction false} NatToStringOfValue(s: string)
    requires Canonical(s)
    ensures NatToString(DecimalValue(s)) == s
    decreases |s|
  {
    var n := DecimalValue(s);
    if |s| == 1 {
      assert s[..|s| - 1] == [];
      assert DecimalValue(s) == 10 * DecimalValue([]) + DigitValue(s[0]);
      assert n == DigitValue(s[0]) < 10;
      assert [DigitChar(n)] == s;
    } else {
      var p := s[..|s| - 1];
      assert p[0] == s[0];
      DecimalValueBound(s);
      NatToStringOfValue(p);
      assert n / 10 == DecimalValue(p) && n % 10 == DigitValue(s[|s| - 1]);
      assert p + [s[|s| - 1]] == s;
    }
  }

  /** Appending a digit to the numeral of a positive value writes ten times
      the value plus the digit. */
  lemma NatToStringAppend(p: string, d: char, n: nat)
    requires NatToString(n) == p && n > 0 && IsDigit(d)
    ensures NatToString(10 * n + DigitValue(d)) == p + [d]
  {
    var m := 10 * n + DigitValue(d);
    assert m / 10 == n && m % 10 == DigitValue(d);
    assert DigitChar(DigitValue(d)) == d;
  }

  /** Decimal writing is injective. */
  lemma NatToStringInjective(m: nat, n: nat)
    requires NatToString(m) == NatToString(n)
    ensures m == n
  {
  }
}
