/** Decimal digits. */
module Decimals {
  const Digits := "0123456789"

  function Digit(n: int): char
    requires 0 <= n < 10
  {
    Digits[n]
  }

  function Decimal(n: nat): string {
    if n < 10 then [Digit(n)] else Decimal(n / 10) + [Digit(n % 10)]
  }

  function DigitValue(c: char): int {
    if '0' <= c <= '9' then c as int - '0' as int else -1
  }

  lemma DigitValues(n: int)
    requires 0 <= n < 10
    ensures DigitValue(Digit(n)) == n && Digit(n) != '+' && Digit(n) != '-'
  {}

  lemma DigitInverse(c: char)
    requires DigitValue(c) >= 0
    ensures DigitValue(c) < 10 && Digit(DigitValue(c)) == c
  {}
}
