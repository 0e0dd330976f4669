/**
 * `Tpa.N.Primes` of lib/tpa.js: the same ascending prime generator as the
 * one of lib/N.js, but its shared cache is created on first use, holds at
 * most 2^22 primes (a 2^24-byte buffer of 32-bit entries), and the search
 * for the next prime has no upper bound.
 */
module TpaPrimes {
  import opened Primality

  /** The number of entries the cache buffer holds. */
  const LIMIT := 4194304

  /** The shared cache: `init` fills it with 2 and 3. */
  class Cache {
    var primes: seq<int>

    constructor ()
      ensures primes == [2, 3] && PrimeList(primes)
    {
      primes := [2, 3];
    }
  }

  class Primes {
    /** The `iterator` field of the source (a reserved word here). */
    var cursor: int
    const cache: Cache

    constructor (cache: Cache)
      ensures this.cache == cache && cursor == 0
    {
      this.cache := cache;
      cursor := 0;
    }

    /**
     * `next`: the cached prime under the cursor when there is one; 0 when
     * the cursor is past a full cache; otherwise the next prime after the
     * last cached one, which is appended to the cache and returned.
     */
    method Next() returns (p: int)
      requires PrimeList(cache.primes) && |cache.primes| <= LIMIT && 0 <= cursor <= |cache.primes|
      modifies this, cache
      ensures PrimeList(cache.primes) && |cache.primes| <= LIMIT && 0 <= cursor <= |cache.primes|
      ensures old(cursor) < |old(cache.primes)| ==>
        p == old(cache.primes)[old(cursor)] && cursor == old(cursor) + 1 && cache.primes == old(cache.primes)
      ensures old(cursor) == |old(cache.primes)| == LIMIT ==>
        p == 0 && cursor == old(cursor) && cache.primes == old(cache.primes)
      ensures old(cursor) == |old(cache.primes)| < LIMIT ==>
        cursor == old(cursor) + 1 && cache.primes == old(cache.primes) + [p]
        && IsPrime(p) && p > old(cache.primes)[|old(cache.primes)| - 1]
        && NoPrimeBetween(old(cache.primes)[|old(cache.primes)| - 1], p)
    {
      if cursor < |cache.primes| {
        p := cache.primes[cursor];
        cursor := cursor + 1;
        return;
      }
      if |cache.primes| == LIMIT {
        return 0;
      }
      p := Search(cache.primes);
      ghost var ps := cache.primes;
      cache.primes := cache.primes + [p];
      Extend(ps, p);
      cursor := cursor + 1;
    }
  }

  /**
   * The search of `next`: odd numbers after the last cached prime are tried
   * until one passes the trial test.  It always ends, as there is a prime
   * beyond any number.
   */
  method Search(ps: seq<int>) returns (next: int)
    requires PrimeList(ps)
    ensures ps[|ps| - 1] < next && IsPrime(next) && next % 2 == 1 && NoPrimeBetween(ps[|ps| - 1], next)
  {
    var last := ps[|ps| - 1];
    assert ps[1] <= last;
    ghost var beyond := PrimeBeyond(last);
    OddPrime(beyond);
    next := last;
    var prime := false;
    while !prime
      invariant last <= next <= beyond && next % 2 == 1
      invariant prime ==> next > last && IsPrime(next)
      invariant NoPrimeBetween(last, next)
      invariant !prime ==> next == last || !IsPrime(next)
      decreases beyond - next
    {
      if next > last {
        GapGrows(last, next);
      } else {
        assert Divides(2, next + 1);
      }
      next := next + 2;
      prime := Trial(ps, next);
      TrialDecides(ps, next);
    }
  }

  lemma OddPrime(p: int)
    requires IsPrime(p) && p > 3
    ensures p % 2 == 1
  {
    assert !Divides(2, p);
  }
}
