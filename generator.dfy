/** The megaprime generator: dispatch on the bound, the seed-table fast path, the block size,
    the segmented Sieve of Eratosthenes with its fused digit filter, and the digit filter itself.
    Each producer returns its whole output at once instead of yielding it lazily. */
module MegaprimeGenerator {
  import opened Primality
  import opened Digits
  import opened Ranges
  import opened Sieve

  /** The megaprimes below 23, in order; their set doubles as the alphabet of prime digits. */
  const KnownMegaprimes: seq<nat> := [2, 3, 5, 7]

  /** Bounds from here on are sieved; smaller ones are served from KnownMegaprimes. */
  const SieveThreshold: nat := 23

  // ---------------------------------------------------------------------------------------
  // Digit filter

  /** Decides the digit rule: while the last decimal digit is a prime digit, drop it; the value
      passes when nothing is left. Zero passes at once, having no digits. */
  method IsMegaprime(value: nat) returns (passes: bool)
    ensures passes == PrimeDigitsOnly(value)
  {
    var v := value;
    while v % 10 in KnownMegaprimes
      invariant PrimeDigitsOnly(v) == PrimeDigitsOnly(value)
      decreases v
    {
      PrimeDigitsOnlyStep(v);
      v := v / 10;
    }
    PrimeDigitsOnlyStep(v);
    passes := v == 0;
  }

  // ---------------------------------------------------------------------------------------
  // Seed-table fast path

  /** What the seed-table loop yields from seed i on, when prev is the value yielded last
      (0 before the first): the next seed, as long as prev is below the bound b. */
  function SeedsFrom(b: nat, i: nat, prev: nat): seq<nat>
    requires i <= |KnownMegaprimes|
    decreases |KnownMegaprimes| - i
  {
    if b > prev && i < |KnownMegaprimes| then
      [KnownMegaprimes[i]] + SeedsFrom(b, i + 1, KnownMegaprimes[i])
    else
      []
  }

  /** The seeds yielded for the bound b. */
  function SeedPrefix(b: nat): seq<nat> {
    SeedsFrom(b, 0, 0)
  }

  /** The seeds yielded from i on are consecutive seeds; none when prev has reached b; all but
      the last are below b; and unless the table ran out, the last is at or above b. */
  lemma {:induction false} SeedsFromShape(b: nat, i: nat, prev: nat)
    requires i <= |KnownMegaprimes|
    ensures var r := SeedsFrom(b, i, prev);
      && i + |r| <= |KnownMegaprimes| && r == KnownMegaprimes[i..i + |r|]
      && (r == [] <==> b <= prev || i == |KnownMegaprimes|)
      && (forall j :: 0 <= j < |r| - 1 ==> r[j] < b)
      && (0 < |r| && i + |r| < |KnownMegaprimes| ==> r[|r| - 1] >= b)
    decreases |KnownMegaprimes| - i
  {
    if b > prev && i < |KnownMegaprimes| {
      SeedsFromShape(b, i + 1, KnownMegaprimes[i]);
    }
  }

  /** The seed-table loop: yields seeds in order while the value yielded last is below b, so it
      also yields the first seed at or above b. */
  method KnownMegaprimesUpTo(b: nat) returns (out: seq<nat>)
    ensures out == SeedPrefix(b)
  {
    var value := 0;
    var i := 0;
    out := [];
    while b > value && i < |KnownMegaprimes|
      invariant i <= |KnownMegaprimes|
      invariant out + SeedsFrom(b, i, value) == SeedPrefix(b)
      decreases |KnownMegaprimes| - i
    {
      value := KnownMegaprimes[i];
      out := out + [value];
      i := i + 1;
    }
  }

  // ---------------------------------------------------------------------------------------
  // Block size

  /** A block-size bound derived from a cache size in KB: KB * 1000 bytes, multiplied in
      unsigned 32-bit arithmetic, divided by the 4-byte unit. */
  function BlockSizeBound(cacheKB: nat): (r: nat)
    requires cacheKB < U32
    ensures r < U32 / 4
    ensures cacheKB * 1000 < U32 ==> r == cacheKB * 250
  {
    ((cacheKB * 1000) % U32) / 4
  }

  /** The fallback cache sizes, 32 KB and 2000 KB, give block sizes 8000 and 500000. */
  lemma DefaultBlockSizes()
    ensures BlockSizeBound(32) == 8000 && BlockSizeBound(2000) == 500000
  {
  }

  /** The bound shared out over half the logical processors, clamped into
      [minBlock, maxBlock]; the upper clamp wins when the two bounds cross. */
  function GetBlockSizeFor(b: nat, cores: nat, minBlock: nat, maxBlock: nat): (r: nat)
    requires cores >= 2
    ensures r <= maxBlock
    ensures minBlock <= maxBlock ==> minBlock <= r
    ensures maxBlock < minBlock ==> r == maxBlock
    ensures minBlock <= b / (cores / 2) <= maxBlock ==> r == b / (cores / 2)
    ensures r == b / (cores / 2) || r == minBlock || r == maxBlock
  {
    Min(Max(b / (cores / 2), minBlock), maxBlock)
  }

  // ---------------------------------------------------------------------------------------
  // Block plan

  /** A half-open range [start, start + size) of the values below the bound. */
  datatype Block = Block(start: nat, size: nat)

  /** Block k of the walk over [0, b) in blocks of blockSize: it starts at k * blockSize and is
      cut short at b. */
  function BlockAt(b: nat, blockSize: nat, k: nat): Block
    requires k * blockSize <= b
  {
    Block(k * blockSize, Min(blockSize, b - k * blockSize))
  }

  /** The walk continues while k * blockSize <= b, that is for the b / blockSize + 1 indices
      k <= b / blockSize. Each block ends where the next begins; the last ends at b and holds
      b % blockSize values, none when blockSize divides b. The running total reaches at most
      b + blockSize, so it never overflows 64 bits. */
  lemma BlockPlan(b: nat, blockSize: nat, k: nat)
    requires blockSize >= 1
    ensures k * blockSize <= b <==> k <= b / blockSize
    ensures k < b / blockSize ==>
      BlockAt(b, blockSize, k).start + BlockAt(b, blockSize, k).size == (k + 1) * blockSize
    ensures k == b / blockSize ==>
      BlockAt(b, blockSize, k).start + BlockAt(b, blockSize, k).size == b &&
      BlockAt(b, blockSize, k).size == b % blockSize
    ensures k <= b / blockSize ==> (k + 1) * blockSize <= b + blockSize
  {
    var q := b / blockSize;
    assert b == q * blockSize + b % blockSize;
    if k <= q {
      MulMonotone(blockSize, k, q);
      assert (k + 1) * blockSize == k * blockSize + blockSize;
    } else {
      MulMonotone(blockSize, q + 1, k);
      assert (q + 1) * blockSize == q * blockSize + blockSize;
    }
  }

  /** Each value below b lies in exactly one block of the walk: block x / blockSize. */
  lemma BlockCovers(b: nat, blockSize: nat, x: nat, k: nat)
    requires blockSize >= 1 && x < b && k * blockSize <= b
    ensures var blk := BlockAt(b, blockSize, k);
      blk.start <= x < blk.start + blk.size <==> k == x / blockSize
  {
    var blk := BlockAt(b, blockSize, k);
    if blk.start <= x < blk.start + blk.size {
      DivModUnique(x, blockSize, k, x - k * blockSize);
    }
    if k == x / blockSize {
      assert x == k * blockSize + x % blockSize;
    }
  }

  /** One step of the walk: block k starts at 0 only for k == 0, the running total after it is
      where it ends (or b, for the last block), and its megaprimes extend those before it. */
  lemma BlockStep(b: nat, blockSize: nat, k: nat)
    requires blockSize >= 1 && k * blockSize <= b
    ensures var blk := BlockAt(b, blockSize, k);
      (k == 0 <==> blk.start == 0) &&
      blk.start + blk.size <= b &&
      (k + 1) * blockSize <= b + blockSize &&
      Min((k + 1) * blockSize, b) == blk.start + blk.size &&
      MegaprimesIn(0, blk.start + blk.size) ==
        MegaprimesIn(0, blk.start) + MegaprimesIn(blk.start, blk.start + blk.size)
  {
    var blk := BlockAt(b, blockSize, k);
    BlockPlan(b, blockSize, k);
    if k > 0 {
      MulAtLeast(blockSize, k);
      assert k * blockSize >= blockSize;
    } else {
      assert k * blockSize == 0;
    }
    assert (k + 1) * blockSize == k * blockSize + blockSize;
    BetweenSplit(0, blk.start, blk.start + blk.size, Megaprime);
  }

  // ---------------------------------------------------------------------------------------
  // Segmented sieve

  /** The base sieve: a flag array of limit + 2 entries; each index from 2 to limit still clear
      when reached is a prime, recorded, and its multiples from its square on are set. */
  method SieveBasePrimes(limit: nat) returns (primes: seq<nat>)
    requires limit < 65536
    ensures primes == PrimesIn(2, limit + 1)
  {
    var nonPrime := new bool[limit + 2](_ => false);
    primes := [];
    var i := 2;
    while i <= limit
      invariant 2 <= i <= Max(limit + 1, 2)
      invariant primes == PrimesIn(2, i)
      invariant forall k :: 2 <= k <= limit ==> (nonPrime[k] <==> SieveMarked(primes, k))
    {
      SieveMarkedIffComposite(i);
      if !nonPrime[i] {
        ghost var before := primes;
        primes := primes + [i];
        var j := i * i;
        MulMod(i, i);
        while j <= limit
          invariant i * i <= j && j % i == 0
          invariant forall k :: 2 <= k <= limit ==>
            (nonPrime[k] <==> SieveMarked(before, k) || (i * i <= k < j && k % i == 0))
          decreases limit - j
        {
          nonPrime[j] := true;
          forall k | j < k < j + i && k % i == 0
            ensures false
          {
            MultiplesApart(j, k, i);
          }
          MultipleStep(j, i);
          j := j + i;
        }
        forall k | 2 <= k <= limit
          ensures nonPrime[k] <==> SieveMarked(primes, k)
        {
          SieveMarkedExtend(before, i, k);
        }
      }
      i := i + 1;
    }
  }

  /** One base prime's share of the marking, run in parallel in the source: from the first
      offset (computed in 32-bit arithmetic), set every p-th flag of the block. */
  method MarkMultiples(nonPrime: array<bool>, p: nat, start: nat, size: nat)
    requires 2 <= p < 65536 && start + size < U32 && size <= nonPrime.Length
    modifies nonPrime
    ensures nonPrime[..] == MarkOne(old(nonPrime[..]), p, start, size)
  {
    var startMultiple := ((start + p - 1) % U32) / p;
    var i := ((Max(startMultiple, p) * p) % U32 - start) % U32;
    ghost var first := i;
    assert first == FirstOffset(p, start);
    while i < size
      invariant first <= i && (i - first) % p == 0
      invariant forall o :: 0 <= o < nonPrime.Length ==>
        nonPrime[o] == (old(nonPrime[o]) || (first <= o < i && o < size && (o - first) % p == 0))
      decreases size - i
    {
      nonPrime[i] := true;
      forall o | 0 <= o < nonPrime.Length
        ensures nonPrime[o] ==
          (old(nonPrime[o]) || (first <= o < i + p && o < size && (o - first) % p == 0))
      {
        if i < o < i + p && (o - first) % p == 0 {
          MultiplesApart(i - first, o - first, p);
        }
      }
      MultipleStep(i - first, p);
      i := i + p;
    }
    SquareBelow32Bits(p);
    forall o | 0 <= o < nonPrime.Length
      ensures nonPrime[o] == MarkOne(old(nonPrime[..]), p, start, size)[o]
    {
      if start + p - 1 < U32 {
        FirstOffsetExact(p, start, o);
      } else {
        FirstOffsetWraps(p, start);
      }
    }
  }

  /** Every base prime marks its multiples in the block; in the source the primes run in
      parallel, each on its own flags, so the order is immaterial (MarkingOrderIndependent). */
  method MarkBlock(nonPrime: array<bool>, basePrimes: seq<nat>, start: nat, size: nat)
    requires forall p :: p in basePrimes ==> 2 <= p < 65536
    requires start + size < U32 && size <= nonPrime.Length
    modifies nonPrime
    ensures nonPrime[..] == MarkAll(old(nonPrime[..]), basePrimes, start, size)
  {
    var k := 0;
    while k < |basePrimes|
      invariant k <= |basePrimes|
      invariant nonPrime[..] == MarkAll(old(nonPrime[..]), basePrimes[..k], start, size)
    {
      var p := basePrimes[k];
      assert p in basePrimes;
      assert basePrimes[..k + 1][..k] == basePrimes[..k];
      MarkMultiples(nonPrime, p, start, size);
      k := k + 1;
    }
    assert basePrimes[..k] == basePrimes;
  }

  /** Sieves one block [start, start + size) with the base primes and emits, in ascending
      order, its unmarked values that pass the digit filter. The first block also marks
      offsets 0 and 1. sieveBound is a proof-only bound: the base primes are all primes below
      it and its square exceeds every value of the block. */
  method MegaprimesInBlock(blockIndex: nat, basePrimes: seq<nat>, start: nat, size: nat,
                           ghost sieveBound: nat)
    returns (found: seq<nat>)
    requires basePrimes == PrimesIn(2, sieveBound) && sieveBound <= 65536
    requires start + size <= sieveBound * sieveBound && start + size < U32
    requires blockIndex == 0 <==> start == 0
    ensures found == MegaprimesIn(start, start + size)
  {
    // A pooled buffer is at least as long as requested and comes back cleared.
    var nonPrime := new bool[Max(size, 2)](_ => false);
    ghost var cleared := nonPrime[..];
    BetweenMembers(2, sieveBound, IsPrime);
    MarkBlock(nonPrime, basePrimes, start, size);
    MarkAllAt(cleared, basePrimes, start, size);
    if blockIndex == 0 {
      nonPrime[0] := true;
      nonPrime[1] := true;
    }
    forall o | 0 <= o < size
      ensures !nonPrime[o] && PrimeDigitsOnly(start + o) <==> Megaprime(start + o)
    {
      assert nonPrime[o] == FlaggedInBlock(basePrimes, start, blockIndex == 0, o);
      SurvivorExact(basePrimes, sieveBound, start, blockIndex == 0, o);
    }
    found := EmitSurvivors(nonPrime, start, size);
  }

  /** The emitting pass over a sieved block: each unmarked offset whose value passes the digit
      filter is yielded, in order. When unmarked-and-passing coincides with being a megaprime,
      that is exactly the megaprimes of the block. */
  method EmitSurvivors(nonPrime: array<bool>, start: nat, size: nat) returns (found: seq<nat>)
    requires size <= nonPrime.Length
    requires forall o :: 0 <= o < size ==>
      (!nonPrime[o] && PrimeDigitsOnly(start + o) <==> Megaprime(start + o))
    ensures found == MegaprimesIn(start, start + size)
  {
    found := [];
    var value := start;
    var o := 0;
    while o < size
      invariant o <= size && value == start + o
      invariant found == MegaprimesIn(start, value)
    {
      if !nonPrime[o] {
        var passes := IsMegaprime(value);
        if passes {
          found := found + [value];
        }
      }
      value := value + 1;
      o := o + 1;
    }
  }

  /** The walk over [0, b) in blocks of blockSize, in order of block index, concatenating what
      each block yields. */
  method MegaprimesInBlocks(b: nat, basePrimes: seq<nat>, limit: nat, blockSize: nat)
    returns (out: seq<nat>)
    requires basePrimes == PrimesIn(2, limit + 1) && limit < 65536
    requires b < (limit + 1) * (limit + 1) && b < U32 && blockSize >= 1
    ensures out == MegaprimesIn(0, b)
  {
    var processed := 0;
    var i := 0;
    out := [];
    while processed <= b
      invariant processed == i * blockSize && processed <= b + blockSize
      invariant out == MegaprimesIn(0, Min(processed, b))
      decreases b + blockSize - processed
    {
      var blk := BlockAt(b, blockSize, i);
      BlockStep(b, blockSize, i);
      var found := MegaprimesInBlock(i, basePrimes, blk.start, blk.size, limit + 1);
      out := out + found;
      i := i + 1;
      processed := i * blockSize;
    }
  }

  /** The sieve path: base primes up to the floor square root of b, then the blocks of the
      walk over [0, b) in order, then b itself whenever its digits pass, with no primality
      check on b. */
  method UnknownMegaprimesUpTo(b: nat, cores: nat, minBlock: nat, maxBlock: nat)
    returns (out: seq<nat>)
    requires SieveThreshold <= b < U32
    requires cores >= 2 && maxBlock < 0x8000_0000
    requires GetBlockSizeFor(b, cores, minBlock, maxBlock) >= 1
    ensures out == MegaprimesIn(0, b) + (if PrimeDigitsOnly(b) then [b] else [])
  {
    var limit := FloorSqrt(b);
    SqrtBelow16Bits(b);
    var basePrimes := SieveBasePrimes(limit);
    var blockSize := GetBlockSizeFor(b, cores, minBlock, maxBlock);
    out := MegaprimesInBlocks(b, basePrimes, limit, blockSize);
    var last := IsMegaprime(b);
    if last {
      out := out + [b];
    }
  }

  // ---------------------------------------------------------------------------------------
  // Dispatch

  /** What the generator yields for the bound b: nothing below 2, the seed prefix below 23,
      and otherwise the megaprimes below b followed by b itself when its digits pass. */
  ghost function Generated(b: nat): seq<nat> {
    if b < 2 then []
    else if b < SieveThreshold then SeedPrefix(b)
    else MegaprimesIn(0, b) + (if PrimeDigitsOnly(b) then [b] else [])
  }

  /** All megaprimes up to the bound b, ascending. The tuning values only matter on the
      sieve path, where they choose the block size and never the output. */
  method UpTo(b: nat, cores: nat, minBlock: nat, maxBlock: nat) returns (out: seq<nat>)
    requires b < U32
    requires b >= SieveThreshold ==>
      (cores >= 2 && maxBlock < 0x8000_0000 && GetBlockSizeFor(b, cores, minBlock, maxBlock) >= 1)
    ensures out == Generated(b)
    ensures b < 2 ==> out == []
    ensures StrictlyIncreasing(out)
    ensures forall x :: x in out && x < b ==> Megaprime(x)
    ensures forall x: nat :: x <= b && Megaprime(x) ==> x in out
  {
    if b < 2 {
      out := [];
    } else if b < SieveThreshold {
      out := KnownMegaprimesUpTo(b);
    } else {
      out := UnknownMegaprimesUpTo(b, cores, minBlock, maxBlock);
    }
    GeneratedAscending(b);
    GeneratedSound(b);
    GeneratedComplete(b);
  }

  // ---------------------------------------------------------------------------------------
  // Properties of the output

  /** The seeds are megaprimes, in increasing order. */
  lemma SeedsAreMegaprimes()
    ensures StrictlyIncreasing(KnownMegaprimes)
    ensures forall i :: 0 <= i < |KnownMegaprimes| ==> Megaprime(KnownMegaprimes[i])
  {
    forall d | d in KnownMegaprimes
      ensures Megaprime(d)
    {
      assert forall e :: 2 <= e < d ==> d % e != 0;
      PrimeDigitsOnlyStep(d);
      PrimeDigitsOnlyStep(0);
    }
  }

  /** The only megaprimes below 23 are the seeds. */
  lemma SmallMegaprimes(x: nat)
    requires x < SieveThreshold && Megaprime(x)
    ensures x in KnownMegaprimes
  {
    PrimeDigitsOnlyStep(x);
    PrimeDigitsOnlyStep(x / 10);
    if x < 10 {
      assert x == x % 10;
    } else {
      assert x == 22;
      TwentyTwoComposite();
    }
  }

  lemma TwentyTwoComposite()
    ensures !IsPrime(22)
  {
    assert 22 % 2 == 0;
  }

  /** The output is strictly increasing for every bound. */
  lemma GeneratedAscending(b: nat)
    ensures StrictlyIncreasing(Generated(b))
  {
    if b >= SieveThreshold {
      BetweenMembers(0, b, Megaprime);
      var m := MegaprimesIn(0, b);
      if PrimeDigitsOnly(b) {
        forall i, j | 0 <= i < j < |m| + 1
          ensures (m + [b])[i] < (m + [b])[j]
        {
          assert m[i] in m;
        }
      }
    } else if b >= 2 {
      SeedsAreMegaprimes();
      var r := SeedPrefix(b);
      assert r == KnownMegaprimes[..|r|];
    }
  }

  /** Every output value below the bound is a megaprime. On the sieve path no value exceeds the
      bound, and the bound itself is emitted exactly when its digits pass. */
  lemma GeneratedSound(b: nat)
    ensures forall x :: x in Generated(b) && x < b ==> Megaprime(x)
    ensures b >= SieveThreshold ==> forall x :: x in Generated(b) ==> x <= b
    ensures b >= SieveThreshold ==> (b in Generated(b) <==> PrimeDigitsOnly(b))
  {
    if b >= SieveThreshold {
      BetweenMembers(0, b, Megaprime);
    } else if b >= 2 {
      SeedsAreMegaprimes();
      var r := SeedPrefix(b);
      forall x | x in r
        ensures Megaprime(x)
      {
        var i :| 0 <= i < |r| && r[i] == x;
        assert x == KnownMegaprimes[i];
      }
    }
  }

  /** Every megaprime below the bound is in the output. */
  lemma GeneratedComplete(b: nat)
    ensures forall x: nat :: x <= b && Megaprime(x) ==> x in Generated(b)
  {
    if b >= SieveThreshold {
      BetweenMembers(0, b, Megaprime);
    } else {
      forall x: nat | x <= b && Megaprime(x)
        ensures x in Generated(b)
      {
        SeedYielded(b, x);
      }
    }
  }

  /** On the fast path a megaprime up to the bound, the bound included, is among the seeds
      yielded. */
  lemma SeedYielded(b: nat, x: nat)
    requires b < SieveThreshold && x <= b && Megaprime(x)
    ensures x in SeedPrefix(b)
  {
    SeedsFromShape(b, 0, 0);
    SeedsAreMegaprimes();
    SmallMegaprimes(x);
    var r := SeedPrefix(b);
    var j :| 0 <= j < |KnownMegaprimes| && KnownMegaprimes[j] == x;
    if j >= |r| {
      assert false;
    }
    assert r[j] == x;
  }

  /** The seed-table path overshoots: it includes the first seed at or above the bound. */
  lemma FastPathExamples()
    ensures Generated(0) == [] && Generated(1) == []
    ensures Generated(4) == [2, 3, 5]
    ensures Generated(6) == [2, 3, 5, 7]
    ensures Generated(10) == [2, 3, 5, 7]
  {
  }

  /** The megaprimes below 37 are 2, 3, 5, 7 and 23. */
  lemma MegaprimesBelow37(x: nat)
    requires x < 37
    ensures Megaprime(x) <==> x in [2, 3, 5, 7, 23]
  {
    if x in [2, 3, 5, 7, 23] {
      forall e | 2 <= e < x
        ensures x % e != 0
      {
      }
      PrimeDigitsOnlyStep(x);
      PrimeDigitsOnlyStep(x / 10);
      PrimeDigitsOnlyStep(0);
    } else if PrimeDigitsOnly(x) && x >= 2 {
      PrimeDigitsOnlyStep(x);
      PrimeDigitsOnlyStep(x / 10);
      var hi, lo := x / 10, x % 10;
      assert x == 10 * hi + lo && hi % 10 == hi;
      assert hi in {2, 3} && lo in PrimeDigitSet;
      if lo == 2 {
        ProperFactor(x, 2);
      } else if lo == 5 {
        ProperFactor(x, 5);
      } else {
        ProperFactor(x, 3);
      }
    }
  }

  /** A value with a factor strictly between 1 and itself is not prime. */
  lemma ProperFactor(x: nat, d: nat)
    requires 2 <= d < x && x % d == 0
    ensures !IsPrime(x)
  {
  }

  /** The bound 37 yields 2, 3, 5, 7, 23 and 37. */
  lemma GeneratedAt37()
    ensures Generated(37) == [2, 3, 5, 7, 23, 37]
  {
    MegaprimesUpTo37(37);
    ThirtySevenPasses();
    BoundEmittedOnDigits(37);
  }

  lemma ThirtySevenPasses()
    ensures PrimeDigitsOnly(37)
  {
    PrimeDigitsOnlyStep(37);
    PrimeDigitsOnlyStep(3);
    PrimeDigitsOnlyStep(0);
  }

  /** Every bound from 24 to 37 has 2, 3, 5, 7 and 23 as the megaprimes below it. */
  lemma MegaprimesUpTo37(n: nat)
    requires 23 < n <= 37
    ensures MegaprimesIn(0, n) == [2, 3, 5, 7, 23]
  {
    var m := MegaprimesIn(0, n);
    BetweenMembers(0, n, Megaprime);
    forall x
      ensures x in m <==> x in [2, 3, 5, 7, 23]
    {
      if x < 37 {
        MegaprimesBelow37(x);
      }
    }
    SortedByMembers(m, [2, 3, 5, 7, 23]);
  }

  /** On the sieve path a bound whose digits pass is yielded last, prime or not. */
  lemma BoundEmittedOnDigits(b: nat)
    requires b >= SieveThreshold && PrimeDigitsOnly(b)
    ensures Generated(b) == MegaprimesIn(0, b) + [b]
    ensures |Generated(b)| > 0 && Generated(b)[|Generated(b)| - 1] == b
  {
  }

  /** The bound is emitted on its digits alone: 25 is not prime, yet the bound 25 yields it last. */
  lemma BoundEmittedWithoutPrimalityCheck()
    ensures |Generated(25)| > 0 && Generated(25)[|Generated(25)| - 1] == 25
    ensures !IsPrime(25)
  {
    PrimeDigitsOnlyStep(25);
    PrimeDigitsOnlyStep(2);
    PrimeDigitsOnlyStep(0);
    BoundEmittedOnDigits(25);
    assert 25 % 5 == 0;
  }

  /** Because of that, a larger bound can yield less: the output for 25 is not a prefix of the
      output for 26. */
  lemma NotMonotone()
    ensures !(Generated(25) <= Generated(26))
  {
    BoundEmittedWithoutPrimalityCheck();
    PrimeDigitsOnlyStep(26);
    assert !Megaprime(25);
    assert MegaprimesIn(0, 26) == MegaprimesIn(0, 25);
    assert |Generated(26)| < |Generated(25)|;
  }
}
