/**
 * Decimal rendering of integers, as C# string interpolation (`$"{i}"`) produces
 * it under the invariant culture, and the digit-string value it inverts.
 */
module Decimal {

  predicate IsDigit(c: char) {
    '0' <= c <= '9'
  }

  predicate AllDigits(s: string)
    decreases |s|
  {
    s == [] || (AllDigits(s[..|s| - 1]) && IsDigit(s[|s| - 1]))
  }

  function DigitChar(d: nat): (c: char)
    requires d < 10
    ensures IsDigit(c) && c as int - '0' as int == d
  {
    ('0' as int + d) as char
  }

  function DigitValue(c: char): (d: nat)
    requires IsDigit(c)
    ensures d < 10
  {
    c as int - '0' as int
  }

  /** The shortest decimal numeral of `n`: only digits, and no leading zero unless `n` is zero. */
  function DecimalString(n: nat): (s: string)
    ensures |s| > 0 && AllDigits(s) && IsDigit(s[0]) && IsDigit(s[|s| - 1])
    ensures s[0] == '0' <==> n == 0
    decreases n
  {
    if n < 10 then [DigitChar(n)]
    else
      var front := DecimalString(n / 10);
      assert (front + [DigitChar(n % 10)])[..|front|] == front;
      front + [DigitChar(n % 10)]
  }

  /** The value of a string of decimal digits, most significant first; leading zeros are allowed. */
  function DecimalValue(s: string): nat
    requires AllDigits(s)
    decreases |s|
  {
    if s == [] then 0 else DecimalValue(s[..|s| - 1]) * 10 + DigitValue(s[|s| - 1])
  }

  lemma {:induction false} DecimalRoundTrip(n: nat)
    ensures DecimalValue(DecimalString(n)) == n
    decreases n
  {
    if n >= 10 {
      var s := DecimalString(n);
      assert s[..|s| - 1] == DecimalString(n / 10);
      DecimalRoundTrip(n / 10);
    }
  }

  /** `$"{i}"` for any int: a minus sign in front of the magnitude when `i` is negative. */
  function IntString(i: int): (s: string)
    ensures |s| > 0
    ensures s[0] == '-' <==> i < 0
  {
    if i < 0 then "-" + DecimalString(-i) else DecimalString(i)
  }

  /** Reads back a numeral produced by IntString. */
  function IntValue(s: string): (i: int)
    requires |s| > 0
    requires if s[0] == '-' then AllDigits(s[1..]) else AllDigits(s)
  {
    if s[0] == '-' then 0 - DecimalValue(s[1..]) else DecimalValue(s)
  }

  lemma IntStringRoundTrip(i: int)
    ensures var s := IntString(i);
      (if s[0] == '-' then AllDigits(s[1..]) else AllDigits(s)) && IntValue(s) == i
  {
    var s := IntString(i);
    if i < 0 {
      assert s[1..] == DecimalString(-i);
      DecimalRoundTrip(-i);
    } else {
      DecimalRoundTrip(i);
    }
  }

  /** Different integers never render to the same numeral. */
  lemma IntStringInjective(i: int, j: int)
    ensures IntString(i) == IntString(j) <==> i == j
  {
    IntStringRoundTrip(i);
    IntStringRoundTrip(j);
  }
}
