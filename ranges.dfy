/** Ascending enumerations of the values in a range that pass a test: the shape of everything
    the generator emits. */
module Ranges {
  import opened Primality
  import opened Digits

  /** A megaprime: a prime all of whose decimal digits are prime. */
  predicate Megaprime(n: nat) {
    IsPrime(n) && PrimeDigitsOnly(n)
  }

  predicate StrictlyIncreasing(s: seq<nat>) {
    forall i, j :: 0 <= i < j < |s| ==> s[i] < s[j]
  }

  /** The values in [lo, hi) that satisfy keep, in ascending order. */
  function Between(lo: nat, hi: nat, keep: nat -> bool): seq<nat>
    decreases hi
  {
    if hi <= lo then [] else Between(lo, hi - 1, keep) + (if keep(hi - 1) then [hi - 1] else [])
  }

  /** The primes in [lo, hi), ascending. */
  function PrimesIn(lo: nat, hi: nat): seq<nat> {
    Between(lo, hi, IsPrime)
  }

  /** The megaprimes in [lo, hi), ascending. */
  function MegaprimesIn(lo: nat, hi: nat): seq<nat> {
    Between(lo, hi, Megaprime)
  }

  /** Between yields exactly the values of the range that pass, strictly ascending. */
  lemma {:induction false} BetweenMembers(lo: nat, hi: nat, keep: nat -> bool)
    ensures StrictlyIncreasing(Between(lo, hi, keep))
    ensures forall x :: x in Between(lo, hi, keep) <==> lo <= x < hi && keep(x)
    decreases hi
  {
    if hi > lo {
      BetweenMembers(lo, hi - 1, keep);
      var prev := Between(lo, hi - 1, keep);
      if keep(hi - 1) {
        var all := prev + [hi - 1];
        forall i, j | 0 <= i < j < |all|
          ensures all[i] < all[j]
        {
          if j == |prev| {
            assert prev[i] in prev;
          }
        }
      }
    }
  }

  /** Enumerating two adjacent ranges one after the other enumerates their union. */
  lemma {:induction false} BetweenSplit(lo: nat, mid: nat, hi: nat, keep: nat -> bool)
    requires lo <= mid <= hi
    ensures Between(lo, hi, keep) == Between(lo, mid, keep) + Between(mid, hi, keep)
    decreases hi
  {
    if hi > mid {
      BetweenSplit(lo, mid, hi - 1, keep);
    }
  }

  /** Two strictly ascending sequences with the same elements are equal. */
  lemma {:induction false} SortedByMembers(s: seq<nat>, t: seq<nat>)
    requires StrictlyIncreasing(s) && StrictlyIncreasing(t)
    requires forall x :: x in s <==> x in t
    ensures s == t
    decreases |s|
  {
    if s == [] {
      NonEmptyHasHead(t);
    } else {
      assert s[0] in t;
      HeadSplit(s);
      HeadSplit(t);
      assert s[0] == t[0] by {
        assert t[0] in s;
      }
      SortedByMembers(s[1..], t[1..]);
      assert s == [s[0]] + s[1..] && t == [t[0]] + t[1..];
    }
  }

  lemma NonEmptyHasHead(t: seq<nat>)
    ensures t != [] ==> t[0] in t
  {
  }

  /** The head of a strictly ascending sequence is its least element, and its tail holds the rest. */
  lemma HeadSplit(s: seq<nat>)
    requires StrictlyIncreasing(s) && s != []
    ensures StrictlyIncreasing(s[1..])
    ensures forall x :: x in s ==> s[0] <= x
    ensures forall x :: x in s[1..] <==> x in s && x != s[0]
  {
    forall x | x in s
      ensures s[0] <= x && (x in s[1..] <==> x != s[0])
    {
      var k :| 0 <= k < |s| && s[k] == x;
      if k > 0 {
        assert s[1..][k - 1] == x;
      }
    }
  }
}
