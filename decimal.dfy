/**
  Decimal formatting of integers, as Go's `fmt.Sprintf("%d", n)` writes them:
  an optional minus sign followed by the digits, without leading zeros.
*/
module Decimal {

  predicate IsDigit(c: char) {
    '0' <= c <= '9'
  }

  predicate AllDigits(s: string) {
    forall i :: 0 <= i < |s| ==> IsDigit(s[i])
  }

  function Digit(d: nat): (c: char)
    requires d < 10
    ensures IsDigit(c) && (c as int) - ('0' as int) == d
  {
    (d + '0' as int) as char
  }

  function DigitValue(c: char): nat
    requires IsDigit(c)
  {
    (c as int) - ('0' as int)
  }

  /** The decimal digits of `n`. */
  function FromNat(n: nat): (s: string)
    ensures |s| > 0 && AllDigits(s)
    ensures |s| > 1 ==> s[0] != '0'
    decreases n
  {
    if n < 10 then [Digit(n)] else FromNat(n / 10) + [Digit(n % 10)]
  }

  /** The value of a string of decimal digits; the inverse of `FromNat`. */
  function ToNat(s: string): nat
    requires AllDigits(s)
    decreases |s|
  {
    if s == [] then 0 else ToNat(s[..|s| - 1]) * 10 + DigitValue(s[|s| - 1])
  }

  lemma {:induction false} RoundTrip(n: nat)
    ensures ToNat(FromNat(n)) == n
    decreases n
  {
    var s := FromNat(n);
    if n >= 10 {
      RoundTrip(n / 10);
      assert s[..|s| - 1] == FromNat(n / 10);
    }
  }

  /** `fmt.Sprintf("%d", n)`. */
  function FromInt(n: int): (s: string)
    ensures |s| > 0
    ensures n >= 0 ==> AllDigits(s) && ToNat(s) == n
    ensures n < 0 ==> s[0] == '-' && AllDigits(s[1..]) && ToNat(s[1..]) == -n
    ensures n >= 0 && |s| > 1 ==> s[0] != '0'
    ensures n < 0 ==> |s| > 1 && s[1] != '0'
  {
    if n < 0 then
      RoundTrip(-n);
      assert ("-" + FromNat(-n))[1..] == FromNat(-n);
      "-" + FromNat(-n)
    else
      RoundTrip(n);
      FromNat(n)
  }

  /** Different integers are written differently. */
  lemma FromIntInjective(a: int, b: int)
    requires FromInt(a) == FromInt(b)
    ensures a == b
  {
    if a < 0 && b < 0 {
      assert FromNat(-a) == FromInt(a)[1..] == FromInt(b)[1..] == FromNat(-b);
      RoundTrip(-a);
      RoundTrip(-b);
    } else if a >= 0 && b >= 0 {
      RoundTrip(a);
      RoundTrip(b);
    }
  }
}
