/** Python's `str(n)` for a non-negative integer (as used inside an
    f-string such as `f'{i}_{file}.jpg'`), with its inverse. */
module Decimal {

  predicate IsDigit(c: char) {
    '0' <= c <= '9'
  }

  predicate AllDigits(s: string) {
    forall i :: 0 <= i < |s| ==> IsDigit(s[i])
  }

  /** The numeric value of a decimal digit character. */
  function DigitValue(c: char): (d: nat)
    requires IsDigit(c)
    ensures d < 10
  {
    c as int - '0' as int
  }

  /** The character for a digit value; the inverse of `DigitValue`. */
  function DigitChar(d: nat): (c: char)
    requires d < 10
    ensures IsDigit(c)
    ensures DigitValue(c) == d
  {
    (d + '0' as int) as char
  }

  /** The decimal spelling of `n`: at least one digit, and no leading zero
      unless `n` is zero itself. */
  function Str(n: nat): (s: string)
    ensures |s| >= 1
    ensures AllDigits(s)
    ensures s[0] == '0' <==> n == 0
    ensures n == 0 ==> s == "0"
    decreases n
  {
    if n < 10 then [DigitChar(n)] else Str(n / 10) + [DigitChar(n % 10)]
  }

  /** Reads a string of decimal digits back as a number (most significant
      digit first). */
  function Parse(s: string): nat
    requires AllDigits(s)
    decreases |s|
  {
    if s == [] then 0 else Parse(s[..|s| - 1]) * 10 + DigitValue(s[|s| - 1])
  }

  /** Reading back the spelling of `n` gives `n`. */
  lemma {:induction false} ParseStr(n: nat)
    ensures Parse(Str(n)) == n
    decreases n
  {
    if n >= 10 {
      var s := Str(n);
      ParseStr(n / 10);
      assert s[..|s| - 1] == Str(n / 10);
      assert s[|s| - 1] == DigitChar(n % 10);
    }
  }

  /** Two numbers with the same spelling are equal. */
  lemma StrInjective(m: nat, n: nat)
    requires Str(m) == Str(n)
    ensures m == n
  {
    ParseStr(m);
    ParseStr(n);
  }
}
