/**
 * Decimal text of natural numbers, as Python's `str` and the `{:02d}` format
 * specification write them, and the reading of such text back into a number.
 */
module Digits {

  predicate IsDigit(c: char) {
    '0' <= c <= '9'
  }

  predicate AllDigits(s: string) {
    forall i :: 0 <= i < |s| ==> IsDigit(s[i])
  }

  function DigitValue(c: char): (d: nat)
    requires IsDigit(c)
    ensures d < 10
  {
    c as int - '0' as int
  }

  function DigitChar(d: nat): (c: char)
    requires d < 10
    ensures IsDigit(c) && DigitValue(c) == d
  {
    ('0' as int + d) as char
  }

  /** The number a string of decimal digits denotes (most significant digit first). */
  function ValueOf(s: string): nat
    requires AllDigits(s)
  {
    if s == [] then 0 else ValueOf(s[..|s| - 1]) * 10 + DigitValue(s[|s| - 1])
  }

  /** The shortest decimal text of `n`: digits only, no leading zero except for 0 itself. */
  function DecimalDigits(n: nat): (s: string)
    ensures 1 <= |s| && AllDigits(s) && ValueOf(s) == n
    ensures s[0] == '0' ==> n == 0
    ensures |s| == 1 <==> n < 10
    ensures n < 100 ==> |s| <= 2
  {
    if n < 10 then
      [DigitChar(n)]
    else
      var s := DecimalDigits(n / 10) + [DigitChar(n % 10)];
      assert s[..|s| - 1] == DecimalDigits(n / 10);
      s
  }

  /**
   * The `{:02d}` format: the decimal text of `n` left-padded with zeros to at
   * least two characters. Never truncated: a value of 100 or more keeps all its
   * digits, and no zero is added to a text that is already two long.
   */
  function Pad2(n: nat): (s: string)
    ensures AllDigits(s) && ValueOf(s) == n
    ensures |s| >= 2
    ensures n < 100 ==> |s| == 2
    ensures |s| > 2 ==> s[0] != '0'
  {
    var d := DecimalDigits(n);
    if |d| < 2 then
      var s := "0" + d;
      assert s[..1] == "0";
      s
    else
      d
  }
}
