/** Decimal text for non-negative integers, as Python's `str` writes it. */
module Decimal {

  /** The character of one decimal digit. */
  function DigitChar(d: nat): char
    requires d < 10
  {
    ('0' as int + d) as char
  }

  /** The value of a decimal digit character. */
  function DigitValue(c: char): int {
    c as int - '0' as int
  }

  /** The decimal text of `n`: digits only, no leading zero. */
  function DecimalString(n: nat): (s: string)
    ensures |s| >= 1
    ensures forall i :: 0 <= i < |s| ==> '0' <= s[i] <= '9'
    ensures s[0] == '0' ==> n == 0
    decreases n
  {
    if n < 10 then [DigitChar(n)]
    else DecimalString(n / 10) + [DigitChar(n % 10)]
  }

  /** Reads decimal text back into a number. */
  function ParseDecimal(s: string): int
    decreases |s|
  {
    if s == [] then 0
    else 10 * ParseDecimal(s[..|s| - 1]) + DigitValue(s[|s| - 1])
  }

  /** Reading the text back gives the number: the text names `n` alone. */
  lemma {:induction false} ParseDecimalString(n: nat)
    ensures ParseDecimal(DecimalString(n)) == n
    decreases n
  {
    if n >= 10 {
      ParseDecimalString(n / 10);
      var s := DecimalString(n);
      assert s[..|s| - 1] == DecimalString(n / 10);
      assert DigitValue(s[|s| - 1]) == n % 10;
    }
  }

  /** Four-digit numbers are written with four characters. */
  lemma FourDigits(n: nat)
    requires 1000 <= n < 10000
    ensures |DecimalString(n)| == 4
  {
    var a := n / 10;
    assert 100 <= a < 1000;
    var b := a / 10;
    assert 10 <= b < 100;
    assert 1 <= b / 10 < 10;
    assert |DecimalString(b)| == 2;
    assert |DecimalString(a)| == 3;
  }
}
