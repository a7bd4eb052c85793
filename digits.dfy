/** Decimal digits and the "prime digits only" rule that the digit filter decides. */
module Digits {

  /** The decimal digits that are themselves prime. */
  const PrimeDigitSet: set<nat> := {2, 3, 5, 7}

  /** Decimal digits of v, most significant first; zero has none. */
  function DecimalDigits(v: nat): (ds: seq<nat>)
    ensures forall i :: 0 <= i < |ds| ==> ds[i] < 10
    ensures v > 0 ==> |ds| > 0 && ds[0] > 0
    decreases v
  {
    if v == 0 then [] else DecimalDigits(v / 10) + [v % 10]
  }

  /** The number a most-significant-first digit sequence denotes. */
  function FromDigits(ds: seq<nat>): nat
    decreases |ds|
  {
    if ds == [] then 0 else FromDigits(ds[..|ds| - 1]) * 10 + ds[|ds| - 1]
  }

  /** Reading back the digits of v gives v. */
  lemma {:induction false} DigitsRoundTrip(v: nat)
    ensures FromDigits(DecimalDigits(v)) == v
    decreases v
  {
    if v > 0 {
      DigitsRoundTrip(v / 10);
      var ds := DecimalDigits(v);
      assert ds[..|ds| - 1] == DecimalDigits(v / 10);
    }
  }

  /** Every decimal digit of v is prime; vacuously true of zero, which has no digits. */
  predicate PrimeDigitsOnly(v: nat) {
    forall i :: 0 <= i < |DecimalDigits(v)| ==> DecimalDigits(v)[i] in PrimeDigitSet
  }

  /** The rule peels off the last digit: zero passes, otherwise the last digit must be
      prime and the remaining digits must pass. */
  lemma PrimeDigitsOnlyStep(v: nat)
    ensures PrimeDigitsOnly(v) <==> v == 0 || (v % 10 in PrimeDigitSet && PrimeDigitsOnly(v / 10))
  {
    if v > 0 {
      var ds, rest := DecimalDigits(v), DecimalDigits(v / 10);
      assert ds == rest + [v % 10];
      if v % 10 in PrimeDigitSet && PrimeDigitsOnly(v / 10) {
        forall i | 0 <= i < |ds|
          ensures ds[i] in PrimeDigitSet
        {
          if i < |rest| {
            assert ds[i] == rest[i];
          }
        }
      }
      if PrimeDigitsOnly(v) {
        assert ds[|ds| - 1] == v % 10;
        forall i | 0 <= i < |rest|
          ensures rest[i] in PrimeDigitSet
        {
          assert rest[i] == ds[i];
        }
      }
    }
  }

  function Pow10(k: nat): (r: nat)
    ensures r >= 1
  {
    if k == 0 then 1 else 10 * Pow10(k - 1)
  }

  /** A number whose leading digit is 4 fails the rule. */
  lemma {:induction false} LeadingFourFails(v: nat, k: nat)
    requires 4 * Pow10(k) <= v < 5 * Pow10(k)
    ensures !PrimeDigitsOnly(v)
  {
    PrimeDigitsOnlyStep(v);
    if k > 0 {
      LeadingFourFails(v / 10, k - 1);
    }
  }

  /** Every number in [4 * 10^9, 5 * 10^9), in particular every 32-bit value from 2^32 - 2^16
      upwards, fails the rule. */
  lemma FourBillionsFail(v: nat)
    requires 4_000_000_000 <= v < 5_000_000_000
    ensures !PrimeDigitsOnly(v)
  {
    assert Pow10(9) == 1_000_000_000;
    LeadingFourFails(v, 9);
  }
}
