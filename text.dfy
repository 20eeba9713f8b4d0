/**
 * Character classes and the two JavaScript string conversions that the timer
 * text relies on: `String(x)` of a non-negative integer and `parseInt` of a
 * string of decimal digits, plus the `('00' + x).slice(-2)` padding idiom.
 */
module Text {

  /** The class `\d` of a JavaScript regular expression. */
  predicate IsDigit(c: char) {
    '0' <= c <= '9'
  }

  /** The class `[0-9a-zA-Z]`. */
  predicate IsAlnum(c: char) {
    IsDigit(c) || 'a' <= c <= 'z' || 'A' <= c <= 'Z'
  }

  predicate AllDigits(s: string) {
    forall i :: 0 <= i < |s| ==> IsDigit(s[i])
  }

  function DigitValue(c: char): (d: nat)
    requires IsDigit(c)
    ensures d < 10
  {
    c as int - '0' as int
  }

  function DigitChar(d: nat): (c: char)
    requires d < 10
    ensures IsDigit(c) && DigitValue(c) == d
  {
    ('0' as int + d) as char
  }

  /** `parseInt` of a string made of decimal digits only. */
  function DecimalValue(s: string): nat
    requires AllDigits(s)
  {
    if s == [] then 0 else DecimalValue(s[..|s| - 1]) * 10 + DigitValue(s[|s| - 1])
  }

  /** `String(x)` for a non-negative integer: its decimal digits, without leading zeros. */
  function Decimal(x: nat): (s: string)
    ensures 0 < |s| && AllDigits(s)
    ensures s[|s| - 1] == DigitChar(x % 10)
    ensures 1 < |s| ==> s[0] != '0'
  {
    if x < 10 then [DigitChar(x)]
    else
      var s := Decimal(x / 10) + [DigitChar(x % 10)];
      assert s[..|s| - 1] == Decimal(x / 10);
      s
  }

  /** `parseInt(String(x)) == x` */
  lemma {:induction false} DecimalRoundTrip(x: nat)
    ensures DecimalValue(Decimal(x)) == x
  {
    if 10 <= x {
      var s := Decimal(x);
      DecimalRoundTrip(x / 10);
      assert s[..|s| - 1] == Decimal(x / 10);
    }
  }

  /** `('00' + x).slice(-2)`: the last two characters of x's decimal text after two zeros. */
  function TwoDigits(x: nat): (r: string)
    ensures r == [DigitChar(x / 10 % 10), DigitChar(x % 10)]
  {
    var s := "00" + Decimal(x);
    if x < 10 then
      s[|s| - 2..]
    else
      var d := Decimal(x / 10);
      assert Decimal(x) == d + [DigitChar(x % 10)];
      assert s[|s| - 2] == d[|d| - 1];
      s[|s| - 2..]
  }

  /** Reading the two padded digits back gives the number modulo 100. */
  lemma TwoDigitsValue(x: nat)
    ensures AllDigits(TwoDigits(x)) && DecimalValue(TwoDigits(x)) == x % 100
  {
    PairValue(x / 10 % 10, x % 10);
    LastTwoDigits(x);
  }

  /** A two-digit text reads as ten times its first digit plus its second. */
  lemma PairValue(a: nat, b: nat)
    requires a < 10 && b < 10
    ensures AllDigits([DigitChar(a), DigitChar(b)]) && DecimalValue([DigitChar(a), DigitChar(b)]) == 10 * a + b
  {
    var r := [DigitChar(a), DigitChar(b)];
    assert r[..1][..0] == [] && r[..1][0] == DigitChar(a);
    assert DecimalValue(r[..1]) == a;
    assert r[1] == DigitChar(b);
  }

  lemma LastTwoDigits(x: nat)
    ensures x % 100 == 10 * (x / 10 % 10) + x % 10
  {
    var q, r := x / 100, x % 100;
    assert x == 100 * q + r;
    assert x / 10 == 10 * q + r / 10;
    assert x % 10 == r % 10;
  }
}
