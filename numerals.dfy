/** Decimal numerals of natural numbers, as JavaScript's `toString()` and
    template literals write them. */
module Numerals {
  predicate IsDigit(c: char)
  {
    c in "0123456789"
  }

  predicate DigitsOnly(s: string)
  {
    forall i | 0 <= i < |s| :: IsDigit(s[i])
  }

  /** The decimal numeral of `n`, as `toString()` writes it. */
  function DecimalString(n: nat): string
  {
    if n < 10 then ["0123456789"[n]] else DecimalString(n / 10) + ["0123456789"[n % 10]]
  }

  function Pow10(k: nat): nat
  {
    if k == 0 then 1 else 10 * Pow10(k - 1)
  }

  /** A number with `k + 1` digits is written with `k + 1` digit characters. */
  lemma {:induction false} DecimalStringShape(n: nat, k: nat)
    requires Pow10(k) <= n < Pow10(k + 1) || (k == 0 && n < 10)
    ensures DigitsOnly(DecimalString(n)) && |DecimalString(n)| == k + 1
  {
    if n >= 10 {
      assert k > 0;
      assert Pow10(k - 1) <= n / 10 < Pow10(k);
      DecimalStringShape(n / 10, k - 1);
    }
  }

  /** Every numeral is a non-empty run of digits. */
  lemma {:induction false} DecimalStringDigits(n: nat)
    ensures |DecimalString(n)| >= 1 && DigitsOnly(DecimalString(n))
  {
    if n >= 10 {
      DecimalStringDigits(n / 10);
    }
  }
}
