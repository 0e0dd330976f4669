/**
 * `Tpa.prototype.simplify` of lib/tpa.js: the remainder of a fractional
 * value is reduced by trial division over the primes up to a bound, within a
 * time budget.  The numerator is divided by each prime as often as it goes;
 * the denominator loses the prime when it can, and a separate factor
 * collects the prime otherwise.  At the end the denominator is divided by
 * what is left of the numerator: when that goes exactly the fraction becomes
 * factor/quotient, otherwise numerator*factor over the denominator.
 *
 * The bound `roughSqrt` computes from the numerator is a parameter here, and
 * so is the clock: `clock(k)` is the time elapsed since the start when the
 * k-th prime (from 0) has been dealt with.
 */
module TpaSimplify {
  import opened Arith
  import opened Words
  import opened Primality
  import opened TpaKernel
  import opened TpaPrimes
  import opened TpaRational
  import opened Wrappers

  /**
   * No prime up to the bound divides both a and b.  Primes of 2^32 and above
   * are excluded: the model's sweep stops below 2^32 (a modelling bound, not
   * a stop the source makes), because the digit division and multiplication
   * it calls are modelled only for one-long divisors.
   */
  ghost predicate NoCommonPrime(a: int, b: int, limit: int)
  {
    forall q :: IsPrime(q) && q <= limit && q < FULL ==> !(Divides(q, a) && Divides(q, b))
  }

  /** a and b have no common divisor above 1: the fraction a/b is in lowest terms. */
  ghost predicate Coprime(a: int, b: int)
  {
    forall k :: k >= 2 ==> !(Divides(k, a) && Divides(k, b))
  }

  /**
   * The state of the sweep before the prime `bound`: no smaller prime is
   * left in the numerator n, and none the factor f gained divides the
   * denominator d.
   */
  ghost predicate Sieved(n: int, d: int, f: int, bound: int)
  {
    forall q :: IsPrime(q) && q < bound ==> !Divides(q, n) && (Divides(q, f) ==> !Divides(q, d))
  }

  /** The factor holds only primes below the bound. */
  ghost predicate FactorBelow(f: int, bound: int)
  {
    forall q :: IsPrime(q) && Divides(q, f) ==> q < bound
  }

  /** Every prime of f other than p is one of f0. */
  ghost predicate OnlyGains(f0: int, f: int, p: int)
  {
    forall q :: IsPrime(q) && q != p && Divides(q, f) ==> Divides(q, f0)
  }

  /** The budget in milliseconds: 100 when none is given. */
  function Budget(milliseconds: Option<int>): (b: int)
    ensures milliseconds.None? ==> b == 100
    ensures milliseconds.Some? ==> b == milliseconds.value
  {
    if milliseconds.None? then 100 else milliseconds.value
  }

  /**
   * The inner loop of `simplify` for one prime: while the prime divides the
   * numerator, the numerator is divided by it, and so is the denominator
   * when it can be; otherwise the factor is multiplied by it.  The fraction
   * numerator*factor/denominator keeps its value, the prime no longer
   * divides the numerator, and the factor gains no other prime.
   */
  method Sieve(numerator: N, denominator: N, factor: N, prime: int)
    requires numerator.Valid() && denominator.Valid() && factor.Valid()
    requires numerator != denominator && numerator != factor && denominator != factor
    requires IsPrime(prime) && prime < FULL
    requires 0 < numerator.Val() && 0 < denominator.Val() && 0 < factor.Val()
    modifies numerator, denominator, factor
    ensures numerator.Valid() && denominator.Valid() && factor.Valid()
    ensures numerator.sign == old(numerator.sign) && denominator.sign == old(denominator.sign)
    ensures factor.sign == old(factor.sign)
    ensures 0 < numerator.Val() && 0 < denominator.Val() && 0 < factor.Val()
    ensures (numerator.Val() * factor.Val()) * old(denominator.Val())
         == (old(numerator.Val()) * old(factor.Val())) * denominator.Val()
    ensures !Divides(prime, numerator.Val())
    ensures Divides(numerator.Val(), old(numerator.Val())) && Divides(denominator.Val(), old(denominator.Val()))
    ensures OnlyGains(old(factor.Val()), factor.Val(), prime)
    ensures Divides(prime, factor.Val()) ==> !Divides(prime, denominator.Val()) || Divides(prime, old(factor.Val()))
  {
    ghost var n0, d0, f0 := numerator.Val(), denominator.Val(), factor.Val();
    ghost var signs := (numerator.sign, denominator.sign, factor.sign);
    DividesSelf(n0);
    DividesSelf(d0);
    var b := numerator.IsDivisibleBy(prime);
    while b
      invariant Sieving(numerator, denominator, factor, prime, n0, d0, f0, signs)
      invariant b <==> Divides(prime, numerator.Val())
      decreases numerator.Val()
    {
      SieveOnce(numerator, denominator, factor, prime, n0, d0, f0, signs);
      b := numerator.IsDivisibleBy(prime);
    }
  }

  /**
   * What the inner loop keeps, from the start values n0/d0/f0 and signs:
   * well-formed, separate and positive numbers with their signs, the value
   * of numerator*factor/denominator, a numerator and denominator that divide
   * their start values, and a factor that gained only the prime, and only
   * where the denominator no longer holds it.
   */
  ghost predicate Sieving(numerator: N, denominator: N, factor: N, prime: int, n0: int, d0: int, f0: int,
                          signs: (int, int, int))
    reads numerator, denominator, factor
  {
    && numerator.Valid() && denominator.Valid() && factor.Valid()
    && numerator != denominator && numerator != factor && denominator != factor
    && IsPrime(prime) && prime < FULL
    && (numerator.sign, denominator.sign, factor.sign) == signs
    && 0 < numerator.Val() && 0 < denominator.Val() && 0 < factor.Val() && 0 < n0 && 0 < d0
    && (numerator.Val() * factor.Val()) * d0 == (n0 * f0) * denominator.Val()
    && Divides(numerator.Val(), n0) && Divides(denominator.Val(), d0)
    && OnlyGains(f0, factor.Val(), prime)
    && (Divides(prime, factor.Val()) ==> !Divides(prime, denominator.Val()) || Divides(prime, f0))
  }

  /** One turn of the inner loop: the prime comes out of the numerator, and out of the denominator or into the factor. */
  method SieveOnce(numerator: N, denominator: N, factor: N, prime: int, ghost n0: int, ghost d0: int, ghost f0: int,
                   ghost signs: (int, int, int))
    requires Sieving(numerator, denominator, factor, prime, n0, d0, f0, signs)
    requires Divides(prime, numerator.Val())
    modifies numerator, denominator, factor
    ensures Sieving(numerator, denominator, factor, prime, n0, d0, f0, signs)
    ensures numerator.Val() < old(numerator.Val())
  {
    ghost var n, d, f := numerator.Val(), denominator.Val(), factor.Val();
    var overflow := numerator.DigitDivide(prime);
    DivModUnique(n, prime, numerator.Val(), overflow);
    Smaller(n, prime, numerator.Val(), n0);
    var c := denominator.IsDivisibleBy(prime);
    if c {
      var rest := denominator.DigitDivide(prime);
      DivModUnique(d, prime, denominator.Val(), rest);
      Smaller(d, prime, denominator.Val(), d0);
      CancelBoth(numerator.Val(), f, denominator.Val(), prime, d0, n0 * f0);
    } else {
      factor.DigitMultiply(prime, 0);
      MoveFactor(numerator.Val(), f, prime, d0, n0 * f0, d);
      Gains(f0, f, prime);
    }
  }

  /** Every positive number divides itself. */
  lemma DividesSelf(n: int)
    requires n > 0
    ensures Divides(n, n)
  {
    DivModUnique(n, n, 1, 0);
  }

  /** Dividing n by p >= 2 exactly leaves a smaller positive divisor of whatever n divides. */
  lemma Smaller(n: int, p: int, m: int, n0: int)
    requires 0 < n && 2 <= p && n == m * p + 0 && Divides(n, n0) && n0 > 0
    ensures 0 < m < n && Divides(m, n0)
  {
    MulMonotone(m, 1, p);
    assert m > 0 by {
      if m <= 0 {
        MulMonotone(p, m, 0);
      }
    }
    assert Divides(m, n) by {
      ModMultiple(0, p, m);
    }
    DividesTransitive(m, n, n0);
  }

  /** Taking p out of both the numerator and the denominator keeps the cross product equation. */
  lemma CancelBoth(m: int, f: int, e: int, p: int, d0: int, c: int)
    requires p > 0 && ((m * p) * f) * d0 == c * (e * p)
    ensures (m * f) * d0 == c * e
  {
    assert ((m * p) * f) * d0 == ((m * f) * d0) * p;
    assert c * (e * p) == (c * e) * p;
    if (m * f) * d0 < c * e {
      MulMonotone(p, (m * f) * d0 + 1, c * e);
    } else if (m * f) * d0 > c * e {
      MulMonotone(p, c * e + 1, (m * f) * d0);
    }
  }

  /** Two equal ratios in a row: a/d1 == b/d and b/d0 == n0/d give a/d1 == n0/d0. */
  lemma RatioChain(a: int, b: int, d: int, d1: int, d0: int, n0: int)
    requires d > 0 && a * d == b * d1 && b * d0 == n0 * d
    ensures a * d0 == n0 * d1
  {
    assert (a * d0) * d == (n0 * d1) * d by {
      calc {
        (a * d0) * d;
        (a * d) * d0;
        (b * d1) * d0;
        (b * d0) * d1;
        (n0 * d) * d1;
        (n0 * d1) * d;
      }
    }
    if a * d0 < n0 * d1 {
      MulMonotone(d, a * d0 + 1, n0 * d1);
    } else if a * d0 > n0 * d1 {
      MulMonotone(d, n0 * d1 + 1, a * d0);
    }
  }

  /** Moving p from the numerator to the factor keeps their product. */
  lemma MoveFactor(m: int, f: int, p: int, d0: int, c: int, d: int)
    requires ((m * p) * f) * d0 == c * d
    ensures (m * (f * p)) * d0 == c * d
  {
    assert m * (f * p) == (m * p) * f;
  }

  /** Multiplying the factor by the prime p adds no other prime to it. */
  lemma Gains(f0: int, f: int, p: int)
    requires IsPrime(p) && f > 0 && OnlyGains(f0, f, p)
    ensures OnlyGains(f0, f * p, p)
  {
    forall q | IsPrime(q) && q != p && Divides(q, f * p)
      ensures Divides(q, f0)
    {
      PrimeDividesProduct(q, f, p);
      PrimesApart(q, p);
    }
  }

  /** Two different primes do not divide one another. */
  lemma PrimesApart(q: int, p: int)
    requires IsPrime(q) && IsPrime(p) && q != p
    ensures !Divides(q, p)
  {
    if q > p {
      DivModUnique(p, q, 0, p);
    }
  }

  /** Before the first prime, 2, nothing has been sieved and the factor is 1. */
  lemma SieveStart(n: int, d: int)
    ensures Sieved(n, d, 1, 2) && FactorBelow(1, 2)
  {
    forall q | IsPrime(q)
      ensures !Divides(q, 1)
    {
      DivModUnique(1, q, 0, 1);
    }
  }

  /**
   * After the prime p is dealt with, every prime up to p is: p has left the
   * numerator, and whatever of p the factor gained is not in the
   * denominator.
   */
  lemma SievePast(n: int, d: int, f: int, p: int, n1: int, d1: int, f1: int)
    requires n > 0 && d > 0 && n1 > 0 && d1 > 0 && IsPrime(p)
    requires Progress(n, d, f, p)
    requires Divides(n1, n) && Divides(d1, d) && OnlyGains(f, f1, p) && !Divides(p, n1)
    requires Divides(p, f1) ==> !Divides(p, d1) || Divides(p, f)
    ensures Progress(n1, d1, f1, p + 1)
  {
    forall q | IsPrime(q) && q < p
      ensures !Divides(q, n1) && (Divides(q, f1) ==> !Divides(q, d1))
    {
      if Divides(q, n1) {
        DividesTransitive(q, n1, n);
      }
      if Divides(q, d1) {
        DividesTransitive(q, d1, d);
      }
    }
  }

  /** With no prime between p and p2, dealing with every prime up to p deals with every prime below p2. */
  lemma SieveGap(n: int, d: int, f: int, p: int, p2: int)
    requires p < p2 && NoPrimeBetween(p, p2) && Progress(n, d, f, p + 1)
    ensures Progress(n, d, f, p2)
  {
    forall q | IsPrime(q) && q < p2
      ensures q < p + 1
    {
      if q > p {
        assert false;
      }
    }
  }

  /**
   * The next prime of the sweep: the generator's next prime, which follows
   * the previous one with no prime in between, or 0 once its cache is full.
   */
  method Advance(primes: Primes, cache: Cache, ghost prev: int, ghost n: int, ghost d: int, ghost f: int) returns (p: int)
    requires Generating(primes, cache, prev) && prev > 0 && Progress(n, d, f, prev + 1)
    modifies primes, cache
    ensures Generating(primes, cache, p)
    ensures p > 0 ==> prev < p && Progress(n, d, f, p)
  {
    ghost var ps, c := cache.primes, primes.cursor;
    p := primes.Next();
    if p > 0 {
      if c < |ps| {
        Consecutive(ps, c - 1);
        assert prev == ps[c - 1] < ps[c] == p;
      } else {
        assert prev == ps[|ps| - 1];
      }
      SieveGap(n, d, f, prev, p);
    }
  }

  /**
   * One prime of the sweep: `Sieve`, after which every prime up to this one
   * has been dealt with and the numbers still hold the start value.
   */
  method Treat(numerator: N, denominator: N, factor: N, prime: int, ghost n0: int, ghost d0: int, ghost signs: (int, int, int))
    requires Sweeping(numerator, denominator, factor, n0, d0, signs)
    requires IsPrime(prime) && prime < FULL
    requires Progress(numerator.Val(), denominator.Val(), factor.Val(), prime)
    modifies numerator, denominator, factor
    ensures Sweeping(numerator, denominator, factor, n0, d0, signs)
    ensures Progress(numerator.Val(), denominator.Val(), factor.Val(), prime + 1)
  {
    ghost var n, d, f := numerator.Val(), denominator.Val(), factor.Val();
    Sieve(numerator, denominator, factor, prime);
    RatioChain(numerator.Val() * factor.Val(), n * f, d, denominator.Val(), d0, n0 * 1);
    DividesTransitive(numerator.Val(), n, n0);
    DividesTransitive(denominator.Val(), d, d0);
    SievePast(n, d, f, prime, numerator.Val(), denominator.Val(), factor.Val());
  }

  /**
   * The prime sweep of `simplify`: the primes from 2 while they do not pass
   * the bound (nor 2^32), each taken out of the numerator by `Sieve`, the
   * clock read after each.  The result is the factor and the prime the
   * sweep stopped at: one above the bound when it ran to the end, 0 when it
   * ran out of time or the generator's cache is full.
   */
  method Sweep(numerator: N, denominator: N, cache: Cache, budget: int, clock: nat -> int, limit: int)
    returns (factor: N, prime: int, ghost timedOut: bool)
    requires numerator.Valid() && denominator.Valid() && numerator != denominator
    requires 0 < numerator.Val() && 0 < denominator.Val()
    requires CacheReady(cache)
    modifies numerator, denominator, cache
    ensures fresh(factor) && factor.Valid() && factor.sign == 1
    ensures numerator.Valid() && denominator.Valid()
    ensures numerator.sign == old(numerator.sign) && denominator.sign == old(denominator.sign)
    ensures CacheReady(cache)
    ensures 0 < numerator.Val() && 0 < denominator.Val() && 0 < factor.Val()
    ensures (numerator.Val() * factor.Val()) * old(denominator.Val()) == (old(numerator.Val()) * 1) * denominator.Val()
    ensures Divides(numerator.Val(), old(numerator.Val()))
    ensures prime > 0 ==> (limit < prime || FULL <= prime)
    ensures prime > 0 ==> Progress(numerator.Val(), denominator.Val(), factor.Val(), prime)
    ensures prime <= 0 ==> (timedOut && 0 < budget && exists k :: budget < clock(k)) || |cache.primes| == LIMIT
  {
    ghost var n0, d0 := numerator.Val(), denominator.Val();
    ghost var signs := (numerator.sign, denominator.sign, 1);
    DividesSelf(n0);
    DividesSelf(d0);
    factor := One();
    var primes;
    primes, prime := Start(cache);
    SieveStart(n0, d0);
    timedOut := false;
    var k := 0;
    // `prime < FULL` is the modelling bound on the sweep (see NoCommonPrime).
    while 0 < prime <= limit && prime < FULL
      invariant fresh(factor) && fresh(primes)
      invariant Sweeping(numerator, denominator, factor, n0, d0, signs)
      invariant Generating(primes, cache, prime)
      invariant prime > 0 ==> Progress(numerator.Val(), denominator.Val(), factor.Val(), prime)
      decreases if prime > 0 then limit - prime + 1 else 0
    {
      var stop;
      prime, stop := Round(numerator, denominator, factor, primes, cache, prime, budget, clock(k), n0, d0, signs);
      if stop {
        timedOut := true;
        prime := 0;
        break;
      }
      k := k + 1;
    }
  }

  /**
   * One turn of the sweep: the prime is dealt with, the clock is read, and
   * unless the time is up the generator gives the next prime.
   */
  method Round(numerator: N, denominator: N, factor: N, primes: Primes, cache: Cache, prime: int, budget: int, now: int,
               ghost n0: int, ghost d0: int, ghost signs: (int, int, int))
    returns (next: int, stop: bool)
    requires Sweeping(numerator, denominator, factor, n0, d0, signs)
    requires Generating(primes, cache, prime) && 0 < prime < FULL
    requires Progress(numerator.Val(), denominator.Val(), factor.Val(), prime)
    modifies numerator, denominator, factor, primes, cache
    ensures Sweeping(numerator, denominator, factor, n0, d0, signs)
    ensures stop <==> now > budget && budget > 0
    ensures !stop ==> Generating(primes, cache, next)
    ensures !stop && next > 0 ==> prime < next && Progress(numerator.Val(), denominator.Val(), factor.Val(), next)
    ensures stop ==> CacheReady(cache)
  {
    Treat(numerator, denominator, factor, prime, n0, d0, signs);
    stop := now > budget && budget > 0;
    next := 0;
    if !stop {
      next := Advance(primes, cache, prime, numerator.Val(), denominator.Val(), factor.Val());
    }
  }

  /** `new Tpa.N().set(1)`. */
  method One() returns (one: N)
    ensures fresh(one) && one.Valid() && one.Val() == 1 && one.sign == 1
  {
    one := new N();
    one.Set(1);
  }

  /** A new generator over the shared cache, and its first prime, 2. */
  method Start(cache: Cache) returns (primes: Primes, prime: int)
    requires CacheReady(cache)
    modifies cache
    ensures fresh(primes) && Generating(primes, cache, prime) && prime == 2
  {
    primes := new Primes(cache);
    prime := primes.Next();
  }

  /** The numbers of the sweep: well-formed and separate, with their signs, positive, and holding the start value. */
  ghost predicate Sweeping(numerator: N, denominator: N, factor: N, n0: int, d0: int, signs: (int, int, int))
    reads numerator, denominator, factor
  {
    && numerator.Valid() && denominator.Valid() && factor.Valid()
    && numerator != denominator && numerator != factor && denominator != factor
    && (numerator.sign, denominator.sign, factor.sign) == signs
    && 0 < numerator.Val() && 0 < denominator.Val() && 0 < factor.Val() && 0 < n0 && 0 < d0
    && (numerator.Val() * factor.Val()) * d0 == (n0 * 1) * denominator.Val()
    && Divides(numerator.Val(), n0) && Divides(denominator.Val(), d0)
  }

  /** The generator: its cache complete, and the current prime the one under its cursor, or 0 with a full cache. */
  ghost predicate Generating(primes: Primes, cache: Cache, prime: int)
    reads primes, cache
  {
    && primes.cache == cache && CacheReady(cache)
    && 0 <= primes.cursor <= |cache.primes|
    && (prime <= 0 ==> |cache.primes| == LIMIT)
    && (prime > 0 ==> 1 <= primes.cursor && prime == cache.primes[primes.cursor - 1] && IsPrime(prime))
  }

  /** The shared cache of the prime generator in the state `next` keeps. */
  ghost predicate CacheReady(cache: Cache)
    reads cache
  {
    PrimeList(cache.primes) && |cache.primes| <= LIMIT
  }

  /** Every prime below the current one has been dealt with. */
  ghost predicate Progress(n: int, d: int, f: int, prime: int)
  {
    Sieved(n, d, f, prime) && FactorBelow(f, prime)
  }
  /**
   * `simplify`: a fractional value with a nonzero remainder has its
   * remainder reduced by the prime sweep; the value stays the same.  The
   * result is true when the value is an integer or has no remainder, when
   * the denominator is a multiple of what the sweep left of the numerator,
   * or when the sweep ran to the end; false when it ran out of time or the
   * generator's cache is full.  A sweep that ran to the end leaves no prime
   * up to the bound common to numerator and denominator, and when the bound
   * is at least the square root of the numerator the fraction is in lowest
   * terms.
   */
  method Simplify(t: Tpa, cache: Cache, milliseconds: Option<int>, clock: nat -> int, limit: int)
    returns (done: bool, ghost swept: bool)
    requires t.Valid() && CacheReady(cache)
    modifies t, t.numerator, t.denominator, cache
    ensures t.Valid() && t.Value() == old(t.Value())
    ensures t.sign == old(t.sign) && t.integer == old(t.integer) && t.number == old(t.number)
    ensures CacheReady(cache)
    ensures old(t.integer) || old(t.numerator.Val()) == 0 ==>
      done && !swept && t.numerator == old(t.numerator) && t.denominator == old(t.denominator)
      && unchanged(old(t.numerator), old(t.denominator))
    ensures swept ==> done && NoCommonPrime(t.numerator.Val(), t.denominator.Val(), limit)
    ensures swept && 0 <= limit < FULL && old(t.numerator.Val()) <= limit * limit ==>
      Coprime(t.numerator.Val(), t.denominator.Val())
    ensures !done ==> (0 < Budget(milliseconds) && exists k :: Budget(milliseconds) < clock(k)) || |cache.primes| == LIMIT
  {
    swept := false;
    if t.integer {
      return true, false;
    }
    var z := t.numerator.IsZero();
    if z {
      return true, false;
    }
    NonNegative(t.numerator);
    var num, den;
    num, den, done, swept := Reduce(t.numerator, t.denominator, cache, Budget(milliseconds), clock, limit);
    RatioEq(num.Val(), den.Val(), old(t.numerator.Val()), old(t.denominator.Val()));
    t.numerator, t.denominator := num, den;
  }

  /**
   * The sweep and the final division of `simplify` on a proper fraction
   * n/d: the fraction it ends with has the same value and is proper, and the
   * result says whether the sweep ran to the end or the division went
   * exactly.
   */
  method Reduce(numerator: N, denominator: N, cache: Cache, budget: int, clock: nat -> int, limit: int)
    returns (num: N, den: N, done: bool, ghost swept: bool)
    requires numerator.Valid() && denominator.Valid() && numerator != denominator
    requires 0 < numerator.Val() < denominator.Val() && denominator.sign == 1
    requires CacheReady(cache)
    modifies numerator, denominator, cache
    ensures num.Valid() && den.Valid() && num != den && den.sign == 1
    ensures num == numerator || fresh(num)
    ensures den == denominator || fresh(den)
    ensures 0 <= num.Val() < den.Val() && num.Val() * old(denominator.Val()) == old(numerator.Val()) * den.Val()
    ensures CacheReady(cache)
    ensures swept ==> done && NoCommonPrime(num.Val(), den.Val(), limit)
    ensures swept && 0 <= limit < FULL && old(numerator.Val()) <= limit * limit ==> Coprime(num.Val(), den.Val())
    ensures !done ==> (0 < budget && exists k :: budget < clock(k)) || |cache.primes| == LIMIT
  {
    ghost var n0, d0 := numerator.Val(), denominator.Val();
    var factor, prime, timedOut := Sweep(numerator, denominator, cache, budget, clock, limit);
    ghost var n, d, f := numerator.Val(), denominator.Val(), factor.Val();
    var exact;
    num, den, exact := Lowest(numerator, denominator, factor);
    swept := prime > 0;
    done := exact || prime > 0;
    FinalRatio(n, d, f, n0, d0, num.Val(), den.Val());
    if swept {
      SweptCommon(n, d, f, prime, limit, num.Val(), den.Val());
      if 0 <= limit < FULL && n0 <= limit * limit {
        DivisorBelow(n, n0);
        SweptCoprime(n, d, f, prime, limit, num.Val(), den.Val());
      }
    }
  }

  /**
   * The end of `simplify` as the source has it: a copy of the denominator
   * is divided by what the sweep left of the numerator.  When that goes
   * exactly, the quotient becomes the denominator and the factor the
   * numerator; otherwise the numerator is multiplied by the factor.  The
   * quotient carries the product of the two signs, so a numerator with the
   * working sign -1 leaves a negative denominator.
   */
  method LowestAsWritten(numerator: N, denominator: N, factor: N) returns (num: N, den: N, exact: bool)
    requires numerator.Valid() && denominator.Valid() && factor.Valid()
    requires numerator != denominator && numerator != factor && denominator != factor
    requires 0 < numerator.Val() && 0 < denominator.Val() && 0 < factor.Val() && factor.sign == 1
    modifies numerator
    ensures num.Valid() && den.Valid() && num != den
    ensures exact <==> denominator.Val() % old(numerator.Val()) == 0
    ensures exact ==> num == factor && fresh(den) && den.Val() == denominator.Val() / old(numerator.Val())
    ensures exact ==> den.sign == denominator.sign * old(numerator.sign)
    ensures !exact ==> num == numerator && den == denominator
    ensures !exact ==> num.Val() == old(numerator.Val()) * factor.Val() && num.sign == old(numerator.sign)
  {
    den, exact := Quotient(numerator, denominator);
    if exact {
      num := factor;
    } else {
      numerator.Multiply(factor);
      num, den := numerator, denominator;
    }
  }

  /**
   * The division of a copy of the denominator by the numerator: exact when
   * the numerator divides the denominator, and then the quotient carries
   * the product of the signs.
   */
  method Quotient(numerator: N, denominator: N) returns (den: N, exact: bool)
    requires numerator.Valid() && denominator.Valid() && numerator != denominator
    requires 0 < numerator.Val() && 0 < denominator.Val()
    ensures fresh(den) && den.Valid()
    ensures exact <==> denominator.Val() % numerator.Val() == 0
    ensures exact ==> den.Val() == denominator.Val() / numerator.Val() && den.sign == denominator.sign * numerator.sign
  {
    ghost var dv, nv := denominator.Val(), numerator.Val();
    den := denominator.Copy();
    assert den.Val() == dv;
    var r := den.Divide(numerator);
    var remainder := r.value;
    ghost var qv, rv := den.Val(), remainder.Val();
    NonNegative(remainder);
    DivModUnique(dv, nv, qv, rv);
    exact := remainder.IsZero();
    if exact {
      DivisorBelow(nv, dv);
    }
  }

  /** The end of `simplify` with a positive denominator: the quotient's sign is set to 1. */
  method Lowest(numerator: N, denominator: N, factor: N) returns (num: N, den: N, exact: bool)
    requires numerator.Valid() && denominator.Valid() && factor.Valid()
    requires numerator != denominator && numerator != factor && denominator != factor
    requires 0 < numerator.Val() && 0 < denominator.Val() && 0 < factor.Val() && factor.sign == 1
    modifies numerator
    ensures num.Valid() && den.Valid() && num != den
    ensures exact <==> denominator.Val() % old(numerator.Val()) == 0
    ensures exact ==> num == factor && fresh(den) && den.Val() == denominator.Val() / old(numerator.Val()) && den.sign == 1
    ensures !exact ==> num == numerator && den == denominator
    ensures !exact ==> num.Val() == old(numerator.Val()) * factor.Val() && num.sign == old(numerator.sign)
  {
    num, den, exact := LowestAsWritten(numerator, denominator, factor);
    if exact {
      den.SetSign(1);
    }
  }

  /**
   * `Tpa('-1 1/2').add(0).simplify()`: `addorsubtract` leaves the numerator 1
   * with the sign -1 of the value, and the end of `simplify` as written then
   * makes the denominator 2 negative, which the other operations do not
   * expect of a denominator.
   */
  method NegativeDenominator() returns (sign: int)
    ensures sign == -1
  {
    var numerator := new N();
    numerator.Set(-1);
    var denominator := new N();
    denominator.Set(2);
    var factor := One();
    var num, den, exact := LowestAsWritten(numerator, denominator, factor);
    DivModUnique(2, 1, 2, 0);
    sign := den.sign;
  }

  /** A positive divisor of a positive number is at most that number. */
  lemma DivisorBelow(n: int, n0: int)
    requires n0 > 0 && Divides(n, n0) && n > 0
    ensures n <= n0
  {
    var q := n0 / n;
    assert n0 == n * q;
    if q <= 0 {
      MulMonotone(n, q, 0);
    } else {
      MulMonotone(n, 1, q);
    }
  }

  /**
   * The fraction `simplify` ends with has the start value n0/d0 and stays
   * proper: factor/(d/n) when n divides d, (n*factor)/d otherwise.
   */
  lemma FinalRatio(n: int, d: int, f: int, n0: int, d0: int, num: int, den: int)
    requires n > 0 && d > 0 && f > 0 && 0 < n0 < d0 && (n * f) * d0 == (n0 * 1) * d
    requires d % n == 0 ==> num == f && den == d / n
    requires d % n != 0 ==> num == n * f && den == d
    ensures den > 0 && num * d0 == n0 * den && 0 <= num < den
  {
    if d % n == 0 {
      var q := d / n;
      assert d == n * q;
      DivisorQuotient(d, n);
      ExactRatio(n, q, f, n0, d0);
      ProperBelow(f, q, n0, d0);
    } else {
      assert n * f > 0 by {
        MulMonotone(n, 1, f);
      }
      ProperBelow(n * f, d, n0, d0);
    }
  }

  /** Cancelling n from (n*f)/(n*q). */
  lemma ExactRatio(n: int, q: int, f: int, n0: int, d0: int)
    requires n > 0 && (n * f) * d0 == (n0 * 1) * (n * q)
    ensures f * d0 == n0 * q
  {
    calc {
      n * (f * d0);
      (n * f) * d0;
      n0 * (n * q);
      n * (n0 * q);
    }
    Cancel(n, f * d0, n0 * q);
  }

  /** a/b == n0/d0 with n0 < d0 makes a < b. */
  lemma ProperBelow(a: int, b: int, n0: int, d0: int)
    requires b > 0 && 0 < n0 < d0 && a * d0 == n0 * b
    ensures a < b
  {
    if a >= b {
      MulMonotone(d0, b, a);
      MulMonotone(b, n0 + 1, d0);
      assert false;
    }
  }

  /** A positive common factor cancels. */
  lemma Cancel(n: int, x: int, y: int)
    requires n > 0 && n * x == n * y
    ensures x == y
  {
    if x < y {
      MulMonotone(n, x + 1, y);
    } else if x > y {
      MulMonotone(n, y + 1, x);
    }
  }

  /** An exact quotient of positive numbers is positive. */
  lemma DivisorQuotient(d: int, n: int)
    requires d > 0 && n > 0 && d % n == 0
    ensures d / n > 0
  {
    var q := d / n;
    assert d == n * q;
    if q <= 0 {
      MulMonotone(n, q, 0);
    }
  }

  /** After a sweep that ran past the bound, no prime up to the bound divides both parts of the fraction. */
  lemma SweptCommon(n: int, d: int, f: int, bound: int, limit: int, num: int, den: int)
    requires n > 0 && d > 0 && f > 0 && Progress(n, d, f, bound) && (limit < bound || FULL <= bound)
    requires d % n == 0 ==> num == f && den == d / n
    requires d % n != 0 ==> num == n * f && den == d
    ensures NoCommonPrime(num, den, limit)
  {
    forall q | IsPrime(q) && q <= limit && q < FULL
      ensures !(Divides(q, num) && Divides(q, den))
    {
      Common(n, d, f, bound, num, den, q);
    }
  }

  /** No prime below the bound divides both parts of the fraction. */
  lemma Common(n: int, d: int, f: int, bound: int, num: int, den: int, q: int)
    requires n > 0 && d > 0 && f > 0 && Progress(n, d, f, bound)
    requires d % n == 0 ==> num == f && den == d / n
    requires d % n != 0 ==> num == n * f && den == d
    requires IsPrime(q) && q < bound
    ensures !(Divides(q, num) && Divides(q, den))
  {
    if Divides(q, num) && Divides(q, den) {
      if d % n == 0 {
        DivisorQuotient(d, n);
        DividesFactor(q, d, n);
        assert false;
      } else {
        PrimeDividesProduct(q, n, f);
        assert false;
      }
    }
  }

  /**
   * When the bound is above the square root of the numerator, what the
   * sweep leaves of the numerator is 1 or a prime, and the fraction is in
   * lowest terms.
   */
  lemma SweptCoprime(n: int, d: int, f: int, bound: int, limit: int, num: int, den: int)
    requires n > 0 && d > 0 && f > 0 && Progress(n, d, f, bound) && 0 <= limit < bound && n <= limit * limit
    requires d % n == 0 ==> num == f && den == d / n
    requires d % n != 0 ==> num == n * f && den == d
    ensures Coprime(num, den)
  {
    assert num > 0 && den > 0 by {
      if d % n == 0 {
        DivisorQuotient(d, n);
      } else {
        MulMonotone(n, 1, f);
      }
    }
    forall k | k >= 2
      ensures !(Divides(k, num) && Divides(k, den))
    {
      if Divides(k, num) && Divides(k, den) {
        LeastDivisorPrime(k);
        var q := LeastDivisorFrom(k, 2);
        DividesTransitive(q, k, num);
        DividesTransitive(q, k, den);
        if q < bound {
          Common(n, d, f, bound, num, den, q);
          assert false;
        } else if d % n == 0 {
          assert false;
        } else {
          PrimeDividesProduct(q, n, f);
          if Divides(q, f) {
            assert false;
          } else {
            DivisorBelow(q, n);
            LeftPrime(n, bound, limit);
            if q != n {
              PrimesApart(q, n);
              assert false;
            } else {
              assert false;
            }
          }
        }
      }
    }
  }

  /** A number of at least 2 with no prime factor below b, and at most (b-1)*(b-1), is prime. */
  lemma LeftPrime(n: int, bound: int, limit: int)
    requires n >= 2 && 0 <= limit < bound && n <= limit * limit
    requires forall q :: IsPrime(q) && q < bound ==> !Divides(q, n)
    ensures IsPrime(n)
  {
    if !IsPrime(n) {
      LeastDivisorPrime(n);
      var r := LeastDivisorFrom(n, 2);
      SquareBelow(r, limit, n);
      assert false;
    }
  }

  /** r*r <= n <= m*m makes r <= m. */
  lemma SquareBelow(r: int, m: int, n: int)
    requires r >= 0 && m >= 0 && r * r <= n <= m * m
    ensures r <= m
  {
    if r > m {
      MulMonotone(r, m + 1, r);
      MulMonotone(m, m, r);
      assert false;
    }
  }
}
