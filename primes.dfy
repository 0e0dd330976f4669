/**
 * `N.Primes` of lib/N.js: a generator of ascending primes.  All generators
 * share one cache of the primes found so far (a module-level array in the
 * source); each generator has its own cursor into it.
 */
module PrimeGenerator {
  import opened Primality
  import BigInt

  /** The shared cache, `[2, 3]` when the module loads. */
  class Cache {
    var primes: seq<int>

    constructor ()
      ensures primes == [2, 3] && PrimeList(primes)
    {
      primes := [2, 3];
    }
  }

  class Primes {
    /** The `iterator` field of the source (a reserved word here). */
    var cursor: int
    const cache: Cache

    /** `new N.Primes()`: a cursor at the first prime. */
    constructor (cache: Cache)
      ensures this.cache == cache && cursor == 0
    {
      this.cache := cache;
      cursor := 0;
    }

    /**
     * `next`: the cached prime under the cursor when there is one; otherwise
     * the next odd number after the last cached prime that passes the trial
     * test is appended to the cache and returned, unless the search reaches
     * BASE first, in which case 0 is returned and nothing changes.
     */
    method Next() returns (p: int)
      requires PrimeList(cache.primes) && 0 <= cursor <= |cache.primes|
      modifies this, cache
      ensures PrimeList(cache.primes) && 0 <= cursor <= |cache.primes|
      ensures old(cursor) < |old(cache.primes)| ==>
        p == old(cache.primes)[old(cursor)] && cursor == old(cursor) + 1 && cache.primes == old(cache.primes)
      ensures old(cursor) == |old(cache.primes)| && p == 0 ==>
        cursor == old(cursor) && cache.primes == old(cache.primes)
        && NoPrimeBetween(old(cache.primes)[|old(cache.primes)| - 1], BigInt.BASE)
      ensures old(cursor) == |old(cache.primes)| && p != 0 ==>
        cursor == old(cursor) + 1 && cache.primes == old(cache.primes) + [p]
        && IsPrime(p) && p < BigInt.BASE
        && NoPrimeBetween(old(cache.primes)[|old(cache.primes)| - 1], p)
    {
      if cursor < |cache.primes| {
        p := cache.primes[cursor];
        cursor := cursor + 1;
        return;
      }
      var next := Search(cache.primes);
      if next == 0 {
        return 0;
      }
      ghost var ps := cache.primes;
      cache.primes := cache.primes + [next];
      Extend(ps, next);
      cursor := cursor + 1;
      return next;
    }
  }

  /**
   * The search loop of `next`: odd numbers after the last cached prime are
   * tried until one passes the trial test; 0 when the candidate reaches BASE.
   */
  method Search(ps: seq<int>) returns (next: int)
    requires PrimeList(ps)
    ensures next == 0 ==> NoPrimeBetween(ps[|ps| - 1], BigInt.BASE)
    ensures next != 0 ==>
      ps[|ps| - 1] < next < BigInt.BASE && IsPrime(next) && next % 2 == 1 && NoPrimeBetween(ps[|ps| - 1], next)
  {
    var last := ps[|ps| - 1];
    assert ps[1] <= last;
    next := last;
    var prime := false;
    while !prime
      invariant next >= last && next % 2 == 1
      invariant prime ==> next > last && IsPrime(next) && next < BigInt.BASE
      invariant NoPrimeBetween(last, next)
      invariant !prime ==> next == last || !IsPrime(next)
      decreases BigInt.BASE - next, if prime then 0 else 1
    {
      if next > last {
        GapGrows(last, next);
      } else {
        assert Divides(2, next + 1);
      }
      next := next + 2;
      if next >= BigInt.BASE {
        return 0;
      }
      prime := Trial(ps, next);
      TrialDecides(ps, next);
    }
  }
}
