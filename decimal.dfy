/**
 * Decimal rendering of integers, as a JavaScript template literal renders an
 * integral number (`${id}`): an optional minus sign, then the digits with no
 * leading zero.
 */
module Decimal {

  predicate IsDigit(c: char) {
    '0' <= c <= '9'
  }

  predicate AllDigits(s: string) {
    forall i | 0 <= i < |s| :: IsDigit(s[i])
  }

  function DigitValue(c: char): (d: nat)
    requires IsDigit(c)
    ensures d < 10
  {
    c as int - '0' as int
  }

  function DigitChar(d: nat): (c: char)
    requires d < 10
    ensures IsDigit(c) && DigitValue(c) == d
  {
    ('0' as int + d) as char
  }

  /** The digits of `n`, most significant first, with no leading zero. */
  function NatToString(n: nat): (s: string)
    ensures |s| > 0 && AllDigits(s)
    ensures s[0] == '0' ==> n == 0 && s == "0"
  {
    if n < 10 then [DigitChar(n)] else NatToString(n / 10) + [DigitChar(n % 10)]
  }

  /** The number a string of digits denotes, most significant first. */
  function ValueOf(s: string): nat
    requires AllDigits(s)
  {
    if s == [] then 0 else ValueOf(s[..|s| - 1]) * 10 + DigitValue(s[|s| - 1])
  }

  /** Reading back the digits of `n` gives `n`: the rendering loses nothing. */
  lemma {:induction false} ValueOfNatToString(n: nat)
    ensures ValueOf(NatToString(n)) == n
  {
    if n >= 10 {
      var s := NatToString(n);
      var prefix := NatToString(n / 10);
      assert s[..|s| - 1] == prefix;
      ValueOfNatToString(n / 10);
    }
  }

  /**
   * `i` in decimal: a minus sign exactly when `i` is negative, then the digits
   * of its magnitude with no leading zero.
   */
  function IntToString(i: int): (s: string)
    ensures |s| > 0 && (s[0] == '-' <==> i < 0)
    ensures var digits := if i < 0 then s[1..] else s;
      && |digits| > 0 && AllDigits(digits)
      && (digits[0] == '0' ==> i == 0 && digits == "0")
      && ValueOf(digits) == (if i < 0 then -i else i)
  {
    var magnitude := if i < 0 then -i else i;
    ValueOfNatToString(magnitude);
    if i < 0 then "-" + NatToString(magnitude) else NatToString(magnitude)
  }

  /** Different integers are rendered as different strings. */
  lemma IntToStringInjective(a: int, b: int)
    requires IntToString(a) == IntToString(b)
    ensures a == b
  {
  }
}
