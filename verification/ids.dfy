/** Transaction identifiers: the counter value rendered in decimal, as
    `int.ToString()` does for a non-negative number. */
module Ids {

  predicate IsDigit(c: char) {
    '0' <= c <= '9'
  }

  function DigitValue(c: char): nat
    requires IsDigit(c)
  {
    c as int - '0' as int
  }

  function Digit(d: nat): (c: char)
    requires d < 10
    ensures IsDigit(c) && DigitValue(c) == d
  {
    ('0' as int + d) as char
  }

  predicate AllDigits(s: string) {
    forall i :: 0 <= i < |s| ==> IsDigit(s[i])
  }

  /** Decimal rendering: only digits, never empty, a single digit exactly for
      numbers below ten, and no leading zero except for zero itself. */
  function DecimalString(n: nat): (s: string)
    ensures AllDigits(s)
    ensures 1 <= |s|
    ensures |s| == 1 <==> n < 10
    ensures s[0] == '0' ==> n == 0
  {
    if n < 10 then [Digit(n)] else DecimalString(n / 10) + [Digit(n % 10)]
  }

  /** The number a string of decimal digits denotes. */
  function DigitsValue(s: string): nat
    requires AllDigits(s)
  {
    if s == [] then 0 else DigitsValue(s[..|s| - 1]) * 10 + DigitValue(s[|s| - 1])
  }

  /** Reading an identifier back gives the counter value it was made from. */
  lemma {:induction false} DecimalRoundTrip(n: nat)
    ensures DigitsValue(DecimalString(n)) == n
  {
    if n >= 10 {
      var s := DecimalString(n);
      assert s[..|s| - 1] == DecimalString(n / 10);
      DecimalRoundTrip(n / 10);
    }
  }

  /** Different counter values give different identifiers. */
  lemma DecimalStringInjective(a: nat, b: nat)
    ensures DecimalString(a) == DecimalString(b) ==> a == b
  {
    DecimalRoundTrip(a);
    DecimalRoundTrip(b);
  }

  /** No counter value from one up renders as the notification id "0". */
  lemma IdNeverSentinel(n: nat)
    requires 1 <= n
    ensures DecimalString(n) != "0"
  {
    DecimalStringInjective(n, 0);
  }

  /** Ids read back as the counter values they were rendered from, so a
      later command's id names a larger number than an earlier one's. */
  lemma IdsIncrease(a: nat, b: nat)
    requires a < b
    ensures DigitsValue(DecimalString(a)) < DigitsValue(DecimalString(b))
    ensures DecimalString(a) != DecimalString(b)
  {
    DecimalRoundTrip(a);
    DecimalRoundTrip(b);
  }
}
