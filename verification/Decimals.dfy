/** Decimal digits and the integers that they write. */
module Decimals {
  predicate IsDigit(ch: char) {
    '0' <= ch <= '9'
  }

  predicate AllDigits(s: string) {
    forall i :: 0 <= i < |s| ==> IsDigit(s[i])
  }

  predicate DigitsIn(text: string, begin: nat, end: nat) {
    end <= |text| && forall i :: begin <= i < end ==> IsDigit(text[i])
  }

  function Digit(ch: char): (d: nat)
    requires IsDigit(ch)
    ensures d < 10
  {
    ch as int - '0' as int
  }

  function DigitChar(d: nat): (ch: char)
    requires d < 10
    ensures IsDigit(ch) && Digit(ch) == d
  {
    '0' + d as char
  }

  function Value(s: string): nat
    requires AllDigits(s)
  {
    if s == [] then 0 else 10 * Value(s[..|s| - 1]) + Digit(s[|s| - 1])
  }

  function Pow10(n: nat): nat {
    if n == 0 then 1 else 10 * Pow10(n - 1)
  }

  lemma DigitIsItsChar(ch: char)
    requires IsDigit(ch)
    ensures DigitChar(Digit(ch)) == ch
  {
  }
}
