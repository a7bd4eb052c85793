/** Primes, divisibility and the integer square root used to bound the base sieve. */
module Primality {

  /** n is prime: at least 2, and no d with 2 <= d < n divides it. */
  predicate IsPrime(n: nat) {
    n >= 2 && forall d :: 2 <= d < n ==> n % d != 0
  }

  /** Quotient and remainder are determined by any decomposition a == c * q + r with 0 <= r < c. */
  lemma DivModUnique(a: int, c: int, q: int, r: int)
    requires c > 0 && 0 <= r < c && a == c * q + r
    ensures a / c == q && a % c == r
  {
    var q0, r0 := a / c, a % c;
    assert c * (q - q0) == r0 - r;
    if q > q0 {
      MulAtLeast(c, q - q0);
    } else if q < q0 {
      MulAtLeast(c, q0 - q);
    }
  }

  lemma MulAtLeast(c: int, t: int)
    requires c > 0 && t >= 1
    ensures c * t >= c
  {
  }

  /** A multiple of c leaves no remainder. */
  lemma MulMod(c: nat, k: nat)
    requires c > 0
    ensures (c * k) % c == 0 && (c * k) / c == k
  {
    DivModUnique(c * k, c, k, 0);
  }

  /** Adding c keeps a multiple of c a multiple of c. */
  lemma MultipleStep(a: nat, c: nat)
    requires c > 0 && a % c == 0
    ensures (a + c) % c == 0
  {
    DivModUnique(a + c, c, a / c + 1, 0);
  }

  /** Two multiples of c less than c apart are equal. */
  lemma MultiplesApart(a: nat, b: nat, c: nat)
    requires c > 0 && a % c == 0 && b % c == 0 && a <= b < a + c
    ensures a == b
  {
    DivModUnique(b - a, c, b / c - a / c, 0);
    DivModUnique(b - a, c, 0, b - a);
  }

  /** Divisibility is transitive. */
  lemma DividesTransitive(a: nat, b: nat, c: nat)
    requires b > 0 && c > 0 && a % b == 0 && b % c == 0
    ensures a % c == 0
  {
    var x, y := a / b, b / c;
    assert a == b * x;
    assert b == c * y;
    assert a == c * (y * x) by {
      assert b * x == (c * y) * x;
    }
    MulMod(c, y * x);
  }

  /** The least d >= lo dividing n, when none in [2, lo) does. */
  lemma {:induction false} LeastDivisorFrom(n: nat, lo: nat) returns (d: nat)
    requires 2 <= lo <= n
    requires forall e :: 2 <= e < lo ==> n % e != 0
    ensures lo <= d <= n && n % d == 0
    ensures forall e :: 2 <= e < d ==> n % e != 0
    decreases n - lo
  {
    if n % lo == 0 {
      d := lo;
    } else {
      assert lo < n by {
        assert n % n == 0;
      }
      d := LeastDivisorFrom(n, lo + 1);
    }
  }

  /** Every n >= 2 that is not prime has a prime factor p with p * p <= n. */
  lemma CompositeHasSmallPrimeFactor(n: nat) returns (p: nat)
    requires n >= 2 && !IsPrime(n)
    ensures IsPrime(p) && p * p <= n && n % p == 0
  {
    p := LeastDivisorFrom(n, 2);
    LeastDivisorIsPrime(n, p);
    assert p < n;
    LeastProperDivisorSquare(n, p);
  }

  /** The least divisor d >= 2 of n is prime. */
  lemma LeastDivisorIsPrime(n: nat, d: nat)
    requires 2 <= d <= n && n % d == 0
    requires forall e :: 2 <= e < d ==> n % e != 0
    ensures IsPrime(d)
  {
    forall e | 2 <= e < d
      ensures d % e != 0
    {
      if d % e == 0 {
        DividesTransitive(n, d, e);
      }
    }
  }

  /** The least divisor of n, when below n, is at most the square root of n. */
  lemma LeastProperDivisorSquare(n: nat, d: nat)
    requires 2 <= d < n && n % d == 0
    requires forall e :: 2 <= e < d ==> n % e != 0
    ensures d * d <= n
  {
    var m := n / d;
    assert n == d * m;
    if m < 2 {
      MulSmall(d, m);
    }
    assert n % m == 0 by {
      MulMod(m, d);
    }
    assert m >= d;
    MulMonotone(d, d, m);
  }

  lemma MulSmall(d: nat, m: nat)
    requires m < 2
    ensures d * m <= d
  {
  }

  /** Multiplying by a positive factor can be cancelled from an inequality. */
  lemma MulCancel(c: nat, a: nat, b: nat)
    requires c > 0 && c * a <= c * b
    ensures a <= b
  {
    if a > b {
      assert c * (b + 1) == c * b + c;
      MulMonotone(c, b + 1, a);
    }
  }

  lemma MulMonotone(c: nat, a: nat, b: nat)
    requires a <= b
    ensures c * a <= c * b
  {
  }

  /** A prime has no factor p >= 2 with p * p <= it. */
  lemma PrimeHasNoSmallFactor(x: nat, p: nat)
    requires IsPrime(x) && 2 <= p && p * p <= x
    ensures x % p != 0
  {
    assert p < p * p;
  }

  /** Integer floor square root: stands for the double-precision square root truncated to an
      unsigned 32-bit integer, which is exact for every 32-bit argument. */
  function FloorSqrt(n: nat): (r: nat)
    ensures r * r <= n < (r + 1) * (r + 1)
    decreases n
  {
    if n < 4 then
      (if n == 0 then 0 else 1)
    else
      var s := FloorSqrt(n / 4);
      SqrtStep(n, s);
      if (2 * s + 1) * (2 * s + 1) <= n then 2 * s + 1 else 2 * s
  }

  /** Doubling the floor square root of n / 4 brackets the floor square root of n. */
  lemma SqrtStep(n: nat, s: nat)
    requires s * s <= n / 4 < (s + 1) * (s + 1)
    ensures (2 * s) * (2 * s) <= n < (2 * s + 2) * (2 * s + 2)
  {
    assert (2 * s) * (2 * s) == 4 * (s * s);
    assert (2 * s + 2) * (2 * s + 2) == 4 * ((s + 1) * (s + 1));
  }
}
