# Megaprime generator, modelled in Dafny

A megaprime is a prime all of whose decimal digits are prime (2, 3, 5 or 7). The
`MegaprimeGenerator` class of MegaprimesLib takes an unsigned 32-bit bound and returns megaprimes
in ascending order. This project models that class and proves what its output is.

- **Dispatch** (`UpTo`). Below 2 the output is empty. Below 23 it comes from the seed table
  `[2, 3, 5, 7]`. From 23 on it comes from a segmented Sieve of Eratosthenes.
- **Seed-table fast path** (`KnownMegaprimesUpTo`). It yields seeds while the value yielded last is
  below the bound, so it also yields the first seed at or above the bound.
- **Block size** (`GetBlockSizeFor`). The bound is divided by half the logical processor count and
  clamped into `[minBlock, maxBlock]`. The cache-derived bounds are parameters; `BlockSizeBound`
  is the cache-size formula.
- **Segmented sieve** (`UnknownMegaprimesUpTo`).
  - A plain sieve finds the base primes up to the floor square root of the bound (`SieveBasePrimes`).
  - The values `[0, b)` are walked in blocks (`MegaprimesInBlocks`).
  - In each block, every base prime marks its multiples from its square on (`MarkMultiples`,
    `MarkBlock`). The first multiple is computed in 32-bit unsigned arithmetic, wrap-around
    included (`FirstOffset`).
  - The unmarked values that pass the digit filter are emitted (`EmitSurvivors`).
  - Finally the bound itself is emitted when its digits pass.
- **Digit filter** (`IsMegaprime`). It drops trailing prime digits and passes when nothing is left.

The specification side is made of functions:

- `IsPrime`, `PrimeDigitsOnly` (over `DecimalDigits`) and `Megaprime`;
- `Between`, `PrimesIn` and `MegaprimesIn`, the ascending enumerations of a range;
- `MarkOne` and `MarkAll`, the flags after marking;
- `Generated`, what `UpTo` yields for a bound.

Each method is proved against these functions. The lemmas then state what the functions mean:

- the output is strictly increasing;
- every value below the bound is a megaprime;
- no megaprime up to and including the bound is missed;
- a flag is set exactly when its value lies on some base prime's progression;
- marking order does not matter;
- when a prime's first multiple wraps past 2^32, every affected value starts with the digit 4,
  so the digit filter rejects it anyway and the output is unchanged.

The model follows the code as written, including two behaviours that depart from the
generator's stated contract ("all megaprimes up to the bound"):

- The fast path overshoots the bound: `UpTo(4)` is `[2, 3, 5]`.
- The sieve path emits the bound on its digits alone, without checking that it is prime:
  `UpTo(25)` ends with 25, which is not prime.

A consequence is that a larger bound can yield less: the output for 25 is not a prefix of the
output for 26 (`NotMonotone`).

The private digit filter `IsMegaprime` also returns true for 0, which has no digits
(MegaprimeGenerator.cs:178-181). This quirk never reaches the output. On the sieve path, block 0
always flags offset 0, and the bound checked last is at least 23. The fast path yields seeds only.

Files:

- `primality.dfy`: primes, divisibility and the integer square root.
- `digits.dfy`: decimal digits and the prime-digit rule.
- `ranges.dfy`: ascending enumerations of a range.
- `sieve.dfy`: the marking specification and the 32-bit first-offset computation.
- `generator.dfy`: the generator itself and the properties of its output.

## Model

| member | source | states |
|---|---|---|
| MegaprimeGenerator.UpTo | MegaprimesLib/MegaprimeGenerator.cs:60-79 | Output equals `Generated(b)`: empty below 2, strictly increasing, every value below the bound a megaprime, and every megaprime from 0 to the bound inclusive present |
| MegaprimeGenerator.GeneratedAscending | MegaprimesLib/MegaprimeGenerator.cs:70-79 | For every bound the output is strictly increasing, on both paths |
| MegaprimeGenerator.GeneratedSound | MegaprimesLib/MegaprimeGenerator.cs:70-79 | Each output value below the bound is a megaprime; on the sieve path nothing exceeds the bound, and the bound is in the output iff its digits are all prime |
| MegaprimeGenerator.GeneratedComplete | MegaprimesLib/MegaprimeGenerator.cs:60-79 | Every megaprime up to and including the bound is in the output, on both paths |
| MegaprimeGenerator.SeedYielded | MegaprimesLib/MegaprimeGenerator.cs:88-97 | On the fast path, every megaprime up to the bound, the bound included, is among the seeds yielded |
| MegaprimeGenerator.KnownMegaprimesUpTo | MegaprimesLib/MegaprimeGenerator.cs:88-97 | The loop yields exactly the seed sequence `SeedPrefix(b)` |
| MegaprimeGenerator.SeedsFromShape | MegaprimesLib/MegaprimeGenerator.cs:88-97 | The seeds yielded are a prefix of the table; none iff the last value reached the bound or the table ran out; all but the last are below the bound; the last is at or above it unless the table ran out |
| MegaprimeGenerator.SeedsAreMegaprimes | MegaprimesLib/MegaprimeGenerator.cs:21-27 | The seed table is strictly increasing and each seed is a megaprime |
| MegaprimeGenerator.SmallMegaprimes | MegaprimesLib/MegaprimeGenerator.cs:75-76 | Every megaprime below 23 is one of the seeds, so the fast path misses none |
| MegaprimeGenerator.FastPathExamples | MegaprimesLib.Tests/GeneratorTestCase/UpTo/When_GivenNonPrime_GreaterThanOne.cs:15-35 | Bounds 0 and 1 give nothing; 4 gives [2, 3, 5] (overshoot); 6 and 10 give [2, 3, 5, 7] |
| MegaprimeGenerator.BlockSizeBound | MegaprimesLib/MegaprimeGenerator.cs:55-56 | The cache-derived bound is below 2^30, and equals 250 per KB when the 32-bit product does not wrap |
| MegaprimeGenerator.DefaultBlockSizes | MegaprimesLib/MegaprimeGenerator.cs:35-56 | The fallback cache sizes 32 KB and 2000 KB give block bounds 8000 and 500000 |
| MegaprimeGenerator.GetBlockSizeFor | MegaprimesLib/MegaprimeGenerator.cs:100-101 | Result at most maxBlock; at least minBlock when minBlock <= maxBlock; exactly maxBlock when the bounds cross (maxBlock < minBlock); equal to the per-core share when that share is within the bounds; always one of the three candidates |
| MegaprimeGenerator.BlockPlan | MegaprimesLib/MegaprimeGenerator.cs:131-139 | The walk continues exactly for indices k <= b / B, that is b / B + 1 blocks; blocks are contiguous; the last ends at b with b % B values; the running total stays within b + B |
| MegaprimeGenerator.BlockCovers | MegaprimesLib/MegaprimeGenerator.cs:131-139 | Each value below the bound lies in exactly one block, the one with index x / B |
| MegaprimeGenerator.BlockStep | MegaprimesLib/MegaprimeGenerator.cs:131-139 | Only block 0 starts at 0; the new running total clamped to b is where the block ends; its megaprimes extend those below it |
| MegaprimeGenerator.MegaprimesInBlocks | MegaprimesLib/MegaprimeGenerator.cs:131-139 | Concatenating the blocks' outputs in index order gives exactly the megaprimes below the bound |
| MegaprimeGenerator.UnknownMegaprimesUpTo | MegaprimesLib/MegaprimeGenerator.cs:111-143 | Output is the megaprimes below b followed by b itself whenever its digits pass, with no primality check on b |
| MegaprimeGenerator.SieveBasePrimes | MegaprimesLib/MegaprimeGenerator.cs:113-129 | The base sieve returns exactly the primes in [2, limit], ascending; every flag write stays in the array of limit + 2 entries |
| Sieve.SieveMarkedIffComposite | MegaprimesLib/MegaprimeGenerator.cs:119-128 | When the sieve reaches i, i is marked by a smaller prime's multiples from its square on iff i is not prime |
| Primality.CompositeHasSmallPrimeFactor | MegaprimesLib/MegaprimeGenerator.cs:119-128 | Every non-prime n >= 2 has a prime factor p with p * p <= n, so sieving by primes up to the square root suffices |
| Primality.FloorSqrt | MegaprimesLib/MegaprimeGenerator.cs:113 | r * r <= n < (r + 1) * (r + 1) |
| Sieve.SqrtBelow16Bits | MegaprimesLib/MegaprimeGenerator.cs:113-114 | For a 32-bit bound the square root is below 2^16 and its successor squared exceeds the bound |
| MegaprimeGenerator.MarkMultiples | MegaprimesLib/MegaprimeGenerator.cs:151-157 | One base prime's marking loop sets exactly the flags `MarkOne` describes, starting from the offset computed in 32-bit arithmetic |
| Sieve.FirstOffsetExact | MegaprimesLib/MegaprimeGenerator.cs:153-155 | Without wrap-around, offset o is reached by the loop (at or after the first offset, in steps of p) iff start + o is a multiple of p at or above p * p |
| Sieve.FirstOffsetWraps | MegaprimesLib/MegaprimeGenerator.cs:153-155 | When start + p - 1 wraps past 2^32, the first offset is at least 2^32 - start, beyond any block, so the prime marks nothing |
| Digits.FourBillionsFail | MegaprimesLib/MegaprimeGenerator.cs:153-155 | Every value in [4 * 10^9, 5 * 10^9), which includes every value whose first-offset computation wraps, fails the digit rule |
| MegaprimeGenerator.MarkBlock | MegaprimesLib/MegaprimeGenerator.cs:151-157 | Marking with every base prime in turn gives `MarkAll` of the base primes |
| Sieve.MarkAllAt | MegaprimesLib/MegaprimeGenerator.cs:151-157 | Marking keeps the buffer length; a flag is set afterwards iff it was set before or its offset is in the block and on some base prime's progression |
| Sieve.MarkingOrderIndependent | MegaprimesLib/MegaprimeGenerator.cs:151-157 | Two orders of the same base primes leave identical flags, so the parallel marking has one outcome |
| Sieve.SurvivorExact | MegaprimesLib/MegaprimeGenerator.cs:151-168 | An offset is unmarked and passes the digit rule iff its value is a megaprime, given the base primes below a bound whose square exceeds the block (block 0 also marks 0 and 1) |
| MegaprimeGenerator.MegaprimesInBlock | MegaprimesLib/MegaprimeGenerator.cs:145-174 | The block's output is exactly the megaprimes of [start, start + size), ascending |
| MegaprimeGenerator.EmitSurvivors | MegaprimesLib/MegaprimeGenerator.cs:161-167 | The emitting pass yields, in order, exactly the megaprimes of the block when unmarked-and-passing coincides with being a megaprime |
| MegaprimeGenerator.IsMegaprime | MegaprimesLib/MegaprimeGenerator.cs:176-182 | Returns true iff every decimal digit of the value is 2, 3, 5 or 7; true for 0, which has no digits |
| Digits.PrimeDigitsOnlyStep | MegaprimesLib/MegaprimeGenerator.cs:178-181 | The digit rule holds iff the value is 0, or its last digit is prime and the rule holds for the value divided by ten |
| Digits.DigitsRoundTrip | MegaprimesLib/MegaprimeGenerator.cs:178-181 | Reading back the decimal digits of a value gives the value |
| MegaprimeGenerator.BoundEmittedOnDigits | MegaprimesLib/MegaprimeGenerator.cs:141-142 | On the sieve path, a bound whose digits pass is emitted last, after the megaprimes below it |
| MegaprimeGenerator.BoundEmittedWithoutPrimalityCheck | MegaprimesLib/MegaprimeGenerator.cs:141-142 | The output for 25 ends with 25, which is not prime |
| MegaprimeGenerator.NotMonotone | MegaprimesLib/MegaprimeGenerator.cs:141-142 | The output for 25 is not a prefix of the output for 26 |
| MegaprimeGenerator.MegaprimesBelow37 | MegaprimesLib.Tests/GeneratorTestCase/UpTo/When_GivenPrime.cs:15-24 | Below 37 the megaprimes are exactly 2, 3, 5, 7 and 23 |
| MegaprimeGenerator.MegaprimesUpTo37 | MegaprimesLib.Tests/GeneratorTestCase/UpTo/When_GivenPrime.cs:15-24 | For every bound from 24 to 37, the megaprimes below it are [2, 3, 5, 7, 23] |
| MegaprimeGenerator.GeneratedAt37 | MegaprimesLib.Tests/GeneratorTestCase/UpTo/When_GivenPrime.cs:15-37 | The output for 37 is [2, 3, 5, 7, 23, 37]: six values, the bound included |

## Left out

- The cache-size query through WMI (`CPUInfo`, MegaprimeGenerator.cs:38-52) is OS I/O. The block bounds are parameters; `BlockSizeBound` gives their formula and `DefaultBlockSizes` their fallback values.
- `Environment.ProcessorCount` is a parameter `cores`.
- GetBlockSizeFor: requires `cores >= 2`. With one processor the source divides by zero.
- UnknownMegaprimesUpTo: requires the block size `GetBlockSizeFor(b, cores, minBlock, maxBlock)` to be at least 1, and so does `UpTo` on the sieve path. With a block size of 0 the first block is empty, the pooled buffer can be empty, and the source's write of offsets 0 and 1 (MegaprimeGenerator.cs:160) fails with an index error.
- UnknownMegaprimesUpTo: requires `maxBlock < 2^31`, so the cast of the block size to a 32-bit signed length cannot go negative. The cache-derived bound is always below 2^30 (`BlockSizeBound`).
- MarkBlock: `Parallel.ForEach` is modelled as a sequential loop over the base primes. The concurrency itself is not modelled; `MarkingOrderIndependent` shows that the order of marking does not matter.
- MegaprimesInBlock: the pooled buffer (`ArrayPool` rent and return, try/finally) is a fresh all-false array of at least two entries. A pooled array is at least as long as requested and is returned cleared.
- Lazy enumeration (`yield return`) is not modelled. Each producer returns its whole output as a sequence.
- `Math.Sqrt` on doubles is the integer floor square root `FloorSqrt`. For 32-bit arguments the truncated double result equals it.
- UpTo: the tuning parameters are only required on the sieve path, where they choose the block size. The output does not depend on them.
