/** What the two sieves of the generator mark: the base sieve over [2, limit] and the
    per-block marking of the segmented sieve, including the source's 32-bit computation of
    where a prime's progression enters a block. */
module Sieve {
  import opened Primality
  import opened Digits
  import opened Ranges

  /** 2^32: bounds, block starts and the first-offset arithmetic are unsigned 32-bit values. */
  const U32: nat := 0x1_0000_0000

  function Max(a: nat, b: nat): nat { if a >= b then a else b }

  function Min(a: nat, b: nat): nat { if a <= b then a else b }

  // ---------------------------------------------------------------------------------------
  // Base sieve

  /** k is a multiple of some p of ps with p * p <= k: the entries the base sieve has set
      after crossing out the multiples of ps. */
  predicate SieveMarked(ps: seq<nat>, k: nat) {
    exists p :: p in ps && 2 <= p && p * p <= k && k % p == 0
  }

  /** Crossing out the multiples of one more prime q adds exactly q's multiples from q * q on. */
  lemma SieveMarkedExtend(ps: seq<nat>, q: nat, k: nat)
    ensures SieveMarked(ps + [q], k) <==> SieveMarked(ps, k) || (2 <= q && q * q <= k && k % q == 0)
  {
    if 2 <= q && q * q <= k && k % q == 0 {
      assert q in ps + [q];
    }
    if SieveMarked(ps, k) {
      var p :| p in ps && 2 <= p && p * p <= k && k % p == 0;
      assert p in ps + [q];
    }
  }

  /** Once every prime below i has been crossed out, entry i is set exactly when i is composite:
      the reason the base sieve may read the entry to decide whether i is prime. */
  lemma SieveMarkedIffComposite(i: nat)
    requires i >= 2
    ensures SieveMarked(PrimesIn(2, i), i) <==> !IsPrime(i)
  {
    BetweenMembers(2, i, IsPrime);
    if !IsPrime(i) {
      var p := CompositeHasSmallPrimeFactor(i);
      assert p < i by {
        assert p < p * p;
      }
      assert p in PrimesIn(2, i);
    }
    if SieveMarked(PrimesIn(2, i), i) {
      var p :| p in PrimesIn(2, i) && 2 <= p && p * p <= i && i % p == 0;
      assert 2 <= p < i;
    }
  }

  // ---------------------------------------------------------------------------------------
  // Block marking

  /** The offset at which prime p starts marking a block that starts at start, computed as the
      source does in unsigned 32-bit arithmetic: the smallest multiple of p at or after start,
      raised to at least p * p, minus start. Every intermediate value wraps modulo 2^32. */
  function FirstOffset(p: nat, start: nat): nat
    requires p > 0
  {
    var startMultiple := ((start + p - 1) % U32) / p;
    var firstMultiple := Max(startMultiple, p) * p;
    (firstMultiple % U32 - start) % U32
  }

  /** Offset o of the block at start lies on the progression that prime p marks: start + o is a
      multiple of p no smaller than p * p, and p's first-offset computation did not wrap. */
  predicate OnProgression(p: nat, start: nat, o: nat) {
    2 <= p && start + p - 1 < U32 && p * p <= start + o && (start + o) % p == 0
  }

  /** Without wrap-around, the offsets p marks are exactly the multiples of p from p * p on. */
  lemma FirstOffsetExact(p: nat, start: nat, o: nat)
    requires 2 <= p && p * p + p <= U32 && start + p - 1 < U32
    ensures var first := FirstOffset(p, start);
      o >= first && (o - first) % p == 0 <==> (start + o) % p == 0 && p * p <= start + o
  {
    var c := (start + p - 1) / p;
    CeilDivBounds(start, p);
    var m := Max(c, p);
    FirstOffsetNoWrap(p, start, c);
    if o >= p * m - start && (o - (p * m - start)) % p == 0 {
      OnProgressionFromFirst(p, m, start, o);
    }
    if (start + o) % p == 0 && p * p <= start + o {
      FirstFromOnProgression(p, c, start, o);
    }
  }

  /** The rounded-up quotient c of start by p gives the least multiple p * c at or after start. */
  lemma CeilDivBounds(start: nat, p: nat)
    requires p > 0
    ensures start <= p * ((start + p - 1) / p) < start + p
  {
    var c, r := (start + p - 1) / p, (start + p - 1) % p;
    assert start + p - 1 == p * c + r;
  }

  /** Without wrap-around the 32-bit computation of the first offset is exact. */
  lemma FirstOffsetNoWrap(p: nat, start: nat, c: nat)
    requires 2 <= p && p * p + p <= U32 && start + p - 1 < U32
    requires c == (start + p - 1) / p && start <= p * c < start + p
    ensures FirstOffset(p, start) == p * Max(c, p) - start
  {
    DivModUnique(start + p - 1, U32, 0, start + p - 1);
    assert ((start + p - 1) % U32) / p == c;
    var m := Max(c, p);
    if m == p {
      MulMonotone(p, c, p);
    }
    var prod := m * p;
    assert prod == p * m;
    assert prod < U32 && start <= prod;
    DivModUnique(prod, U32, 0, prod);
    DivModUnique(prod - start, U32, 0, prod - start);
    assert FirstOffset(p, start) == (prod % U32 - start) % U32;
  }

  lemma OnProgressionFromFirst(p: nat, m: nat, start: nat, o: nat)
    requires 2 <= p <= m && start <= p * m
    requires o >= p * m - start && (o - (p * m - start)) % p == 0
    ensures (start + o) % p == 0 && p * p <= start + o
  {
    var t := (o - (p * m - start)) / p;
    assert o - (p * m - start) == p * t;
    assert start + o == p * (m + t);
    MulMod(p, m + t);
    MulMonotone(p, p, m + t);
  }

  lemma FirstFromOnProgression(p: nat, c: nat, start: nat, o: nat)
    requires 2 <= p && start <= p * c < start + p
    requires (start + o) % p == 0 && p * p <= start + o
    ensures var m := Max(c, p);
      o >= p * m - start && (o - (p * m - start)) % p == 0
  {
    var x := start + o;
    var k := x / p;
    assert x == p * k;
    MulCancel(p, p, k);
    if k < c {
      assert p * (k + 1) == p * k + p;
      MulMonotone(p, k + 1, c);
    }
    var m := Max(c, p);
    assert k >= m;
    assert o - (p * m - start) == p * (k - m);
    MulMod(p, k - m);
  }

  /** With wrap-around, p's first offset lies beyond the end of every block that ends below 2^32,
      so p marks nothing there. */
  lemma FirstOffsetWraps(p: nat, start: nat)
    requires 2 <= p && p * p + p <= U32 && start < U32 <= start + p - 1
    ensures FirstOffset(p, start) >= U32 - start
  {
    DivModUnique(start + p - 1, U32, 1, start + p - 1 - U32);
    DivModUnique(start + p - 1 - U32, p, 0, start + p - 1 - U32);
    DivModUnique(p * p, U32, 0, p * p);
    DivModUnique(p * p - start, U32, -1, p * p - start + U32);
  }

  /** A prime below 2^16 has p * p + p below 2^32. */
  lemma SquareBelow32Bits(p: nat)
    requires p < 65536
    ensures p * p + p <= U32
  {
    MulMonotone(p, p + 1, 65536);
    MulMonotone(65536, p, 65535);
  }

  /** The floor square root of a 32-bit value is below 2^16, and its successor squared exceeds
      the value. */
  lemma SqrtBelow16Bits(b: nat)
    requires b < U32
    ensures FloorSqrt(b) < 65536 && b < (FloorSqrt(b) + 1) * (FloorSqrt(b) + 1)
  {
    var r := FloorSqrt(b);
    if r >= 65536 {
      MulMonotone(r, 65536, r);
    }
  }

  /** Flags after one prime p has marked the first size offsets of the block at start. */
  function MarkOne(flags: seq<bool>, p: nat, start: nat, size: nat): seq<bool> {
    seq(|flags|, o requires 0 <= o < |flags| => flags[o] || (o < size && OnProgression(p, start, o)))
  }

  /** Flags after the primes of ps have marked the block one after the other, in list order. */
  function MarkAll(flags: seq<bool>, ps: seq<nat>, start: nat, size: nat): seq<bool>
    decreases |ps|
  {
    if ps == [] then flags
    else MarkOne(MarkAll(flags, ps[..|ps| - 1], start, size), ps[|ps| - 1], start, size)
  }

  /** Marking by a list of primes sets exactly the offsets on some prime's progression. */
  lemma {:induction false} MarkAllAt(flags: seq<bool>, ps: seq<nat>, start: nat, size: nat)
    ensures |MarkAll(flags, ps, start, size)| == |flags|
    ensures forall o :: 0 <= o < |flags| ==>
      MarkAll(flags, ps, start, size)[o] ==
        (flags[o] || (o < size && exists p :: p in ps && OnProgression(p, start, o)))
    decreases |ps|
  {
    if ps != [] {
      var init, last := ps[..|ps| - 1], ps[|ps| - 1];
      MarkAllAt(flags, init, start, size);
      assert ps == init + [last];
      forall o | 0 <= o < |flags|
        ensures MarkAll(flags, ps, start, size)[o] ==
          (flags[o] || (o < size && exists p :: p in ps && OnProgression(p, start, o)))
      {
        if o < size && exists p :: p in ps && OnProgression(p, start, o) {
          var p :| p in ps && OnProgression(p, start, o);
          if p != last {
            assert p in init;
          }
        }
      }
    }
  }

  /** The marked flags do not depend on the order in which the primes mark, nor on repeats:
      any two lists with the same primes give the same flags. */
  lemma MarkingOrderIndependent(flags: seq<bool>, ps: seq<nat>, qs: seq<nat>, start: nat, size: nat)
    requires forall p :: p in ps <==> p in qs
    ensures MarkAll(flags, ps, start, size) == MarkAll(flags, qs, start, size)
  {
    MarkAllAt(flags, ps, start, size);
    MarkAllAt(flags, qs, start, size);
  }

  /** Offset o of the block at start is flagged once marking is done: on a base prime's
      progression, or 0 or 1 in the first block. */
  predicate FlaggedInBlock(basePrimes: seq<nat>, start: nat, firstBlock: bool, o: nat) {
    (firstBlock && o < 2) || exists p :: p in basePrimes && OnProgression(p, start, o)
  }

  /** An offset of a block survives marking and passes the digit filter exactly when its value is
      a megaprime. A composite missed because its smallest prime factor's offset wrapped lies in
      [2^32 - 2^16, 2^32), where every value begins with the digit 4. */
  lemma SurvivorExact(basePrimes: seq<nat>, sieveBound: nat, start: nat, firstBlock: bool, o: nat)
    requires basePrimes == PrimesIn(2, sieveBound) && sieveBound <= 65536
    requires start + o < sieveBound * sieveBound && start + o < U32
    requires firstBlock <==> start == 0
    ensures !FlaggedInBlock(basePrimes, start, firstBlock, o) && PrimeDigitsOnly(start + o)
      <==> Megaprime(start + o)
  {
    var x := start + o;
    BetweenMembers(2, sieveBound, IsPrime);
    if Megaprime(x) {
      forall p | p in basePrimes
        ensures !OnProgression(p, start, o)
      {
        if p * p <= x {
          PrimeHasNoSmallFactor(x, p);
        }
      }
    }
    if !FlaggedInBlock(basePrimes, start, firstBlock, o) && PrimeDigitsOnly(x) {
      assert x != 1 by {
        PrimeDigitsOnlyStep(1);
      }
      if !IsPrime(x) {
        var p := CompositeHasSmallPrimeFactor(x);
        assert p < sieveBound by {
          if p >= sieveBound {
            MulMonotone(p, sieveBound, p);
            MulMonotone(sieveBound, sieveBound, p);
          }
        }
        assert p in basePrimes;
        assert p * p + p <= U32 by {
          MulMonotone(p, p, 65535);
        }
        if start + p - 1 >= U32 {
          FourBillionsFail(x);
        }
        assert false;
      }
    }
  }
}
