/**
 * Primes for the prime generators of both kernels: what a prime is, the
 * trial-division test the generators run against their cache, and why that
 * test decides primality when the cache holds every prime up to its last
 * entry and no prime lies between that entry and the candidate.
 */
module Primality {
  import opened Arith

  predicate Divides(k: int, n: int)
  {
    k != 0 && n % k == 0
  }

  ghost predicate IsPrime(n: int)
  {
    n >= 2 && forall k :: 2 <= k < n ==> !Divides(k, n)
  }

  /** No prime strictly between lo and hi. */
  ghost predicate NoPrimeBetween(lo: int, hi: int)
  {
    forall n :: lo < n < hi ==> !IsPrime(n)
  }

  /**
   * A cache in the state both generators keep: 2 and 3 first, then primes in
   * strictly increasing order, every prime up to the last entry present, and
   * the last entry odd.
   */
  ghost predicate PrimeList(ps: seq<int>)
  {
    && |ps| >= 2 && ps[0] == 2 && ps[1] == 3
    && (forall i :: 0 <= i < |ps| ==> IsPrime(ps[i]))
    && (forall i, j :: 0 <= i < j < |ps| ==> ps[i] < ps[j])
    && (forall n :: 2 <= n <= ps[|ps| - 1] && IsPrime(n) ==> n in ps)
    && ps[|ps| - 1] % 2 == 1
  }

  /**
   * The generators' trial test: no cached prime whose square is at most the
   * candidate divides it (`primes[i] <= Math.sqrt(next)`, which for these
   * integers is `primes[i] * primes[i] <= next`).
   */
  ghost predicate PassesTrial(ps: seq<int>, c: int)
  {
    forall i :: 0 <= i < |ps| && ps[i] * ps[i] <= c ==> !Divides(ps[i], c)
  }

  /**
   * The trial loop of `Primes.prototype.next`: cached primes are tried in
   * order while their square does not pass the candidate, stopping at the
   * first that divides it.
   */
  method Trial(ps: seq<int>, c: int) returns (prime: bool)
    requires forall i :: 0 <= i < |ps| ==> ps[i] > 0
    requires forall i, j :: 0 <= i < j < |ps| ==> ps[i] < ps[j]
    ensures prime <==> PassesTrial(ps, c)
  {
    prime := true;
    var i := 0;
    while i < |ps| && ps[i] * ps[i] <= c
      invariant 0 <= i <= |ps|
      invariant prime && forall j :: 0 <= j < i ==> !Divides(ps[j], c)
    {
      if c % ps[i] == 0 {
        prime := false;
        return;
      }
      i := i + 1;
    }
    forall j | i <= j < |ps|
      ensures ps[j] * ps[j] > c
    {
      if i < j {
        MulMonotone(ps[i], ps[i], ps[j]);
        MulMonotone(ps[j], ps[i], ps[j]);
      }
    }
  }

  /** The least divisor of n that is at least d, when none lies in [2, d). */
  ghost function LeastDivisorFrom(n: int, d: int): (r: int)
    requires 2 <= d <= n && forall k :: 2 <= k < d ==> !Divides(k, n)
    ensures d <= r <= n && Divides(r, n)
    ensures forall k :: 2 <= k < r ==> !Divides(k, n)
    decreases n - d
  {
    if n % d == 0 then d else LeastDivisorFrom(n, d + 1)
  }

  lemma DividesTransitive(k: int, r: int, n: int)
    requires k > 0 && r > 0 && Divides(k, r) && Divides(r, n)
    ensures Divides(k, n)
  {
    var a, b := r / k, n / r;
    assert n == b * r;
    assert r == a * k;
    MulAssoc(b, a, k);
    ModMultiple(0, b * a, k);
  }

  /** The least divisor of a number of at least 2 is prime, and when the number is composite its square does not exceed it. */
  lemma LeastDivisorPrime(n: int)
    requires n >= 2
    ensures var q := LeastDivisorFrom(n, 2);
      IsPrime(q) && Divides(q, n) && (!IsPrime(n) ==> q * q <= n)
  {
    var q := LeastDivisorFrom(n, 2);
    forall k | 2 <= k < q
      ensures !Divides(k, q)
    {
      if Divides(k, q) {
        DividesTransitive(k, q, n);
      }
    }
    if !IsPrime(n) {
      var e := n / q;
      assert n == e * q;
      if e < q {
        assert e >= 2 by {
          if e <= 1 {
            MulMonotone(q, e, 1);
          }
        }
        assert Divides(e, n) by {
          ModMultiple(0, q, e);
        }
      }
      MulMonotone(q, q, e);
    }
  }

  /**
   * With the cache complete up to its last entry and no prime between that
   * entry and the candidate, the trial test decides primality exactly.
   */
  lemma TrialDecides(ps: seq<int>, c: int)
    requires PrimeList(ps) && c > ps[|ps| - 1] && NoPrimeBetween(ps[|ps| - 1], c)
    ensures PassesTrial(ps, c) <==> IsPrime(c)
  {
    var last := ps[|ps| - 1];
    if IsPrime(c) {
      forall i | 0 <= i < |ps| && ps[i] * ps[i] <= c
        ensures !Divides(ps[i], c)
      {
        assert ps[i] <= last;
      }
    } else if PassesTrial(ps, c) {
      assert ps[1] <= last;
      LeastDivisorPrime(c);
      assert false;
    }
  }

  /** Every number from 1 to m divides m factorial. */
  ghost function Factorial(m: nat): (f: int)
    ensures f >= 1
  {
    if m == 0 then 1 else m * Factorial(m - 1)
  }

  lemma {:induction false} FactorialDivisible(m: nat, k: int)
    requires 1 <= k <= m
    ensures Divides(k, Factorial(m))
  {
    if k == m {
      ModMultiple(0, Factorial(m - 1), m);
    } else {
      FactorialDivisible(m - 1, k);
      var a := Factorial(m - 1) / k;
      assert Factorial(m - 1) == a * k;
      MulAssoc(m, a, k);
      ModMultiple(0, m * a, k);
    }
  }

  /** Euclid: some prime lies beyond m, namely the least divisor of m! + 1. */
  lemma PrimeBeyond(m: nat) returns (p: int)
    ensures IsPrime(p) && p > m
  {
    var f := Factorial(m) + 1;
    LeastDivisorPrime(f);
    p := LeastDivisorFrom(f, 2);
    if p <= m {
      FactorialDivisible(m, p);
      NeighboursCoprime(Factorial(m), p);
      assert false;
    }
  }

  /** A number of at least 2 never divides two neighbouring integers. */
  lemma NeighboursCoprime(a: int, p: int)
    requires p >= 2
    ensures !(Divides(p, a) && Divides(p, a + 1))
  {
    if Divides(p, a) && Divides(p, a + 1) {
      var x, y := a / p, (a + 1) / p;
      assert a == x * p && a + 1 == y * p;
      assert (y - x) * p == 1 by {
        MulDistrib(p, y, -x);
      }
      if y - x >= 1 {
        MulMonotone(p, 1, y - x);
      } else {
        MulMonotone(p, y - x, 0);
      }
    }
  }

  /**
   * No prime is skipped: between two neighbouring cache entries there is no
   * prime, and nothing below the first entry, 2, is prime.
   */
  lemma Consecutive(ps: seq<int>, i: int)
    requires PrimeList(ps) && 0 <= i < |ps| - 1
    ensures NoPrimeBetween(ps[i], ps[i + 1]) && NoPrimeBetween(1, ps[0])
  {
    forall n | ps[i] < n < ps[i + 1] && IsPrime(n)
      ensures false
    {
      assert false;
    }
  }

  /**
   * One step of the search in `next`: when no prime lies between the last
   * cached prime and the odd candidate c, a composite c extends that gap to
   * c + 2, the even c + 1 being composite.
   */
  lemma GapGrows(last: int, c: int)
    requires last >= 3 && c > last && c % 2 == 1 && NoPrimeBetween(last, c) && !IsPrime(c)
    ensures NoPrimeBetween(last, c + 2)
  {
    assert Divides(2, c + 1);
  }

  /** Appending the next prime keeps a cache complete. */
  lemma Extend(ps: seq<int>, p: int)
    requires PrimeList(ps) && p > ps[|ps| - 1] && IsPrime(p) && p % 2 == 1
    requires NoPrimeBetween(ps[|ps| - 1], p)
    ensures PrimeList(ps + [p])
  {
    var qs := ps + [p];
    forall n | 2 <= n <= p && IsPrime(n)
      ensures n in qs
    {
      if n < p {
        assert n <= ps[|ps| - 1];
        assert n in ps;
      }
    }
  }
  /** Euclid's lemma: a prime that divides a product divides one of its factors. */
  lemma {:induction false} PrimeDividesProduct(p: int, a: int, b: int)
    requires IsPrime(p) && a >= 0 && Divides(p, a * b)
    ensures Divides(p, a) || Divides(p, b)
    decreases a
  {
    if a >= p {
      ShiftDown(p, a, b);
      PrimeDividesProduct(p, a - p, b);
      if Divides(p, a - p) {
        ModMultiple(a - p, 1, p);
      }
    } else if a >= 2 {
      assert !Divides(a, p);
      var r := ReduceBelow(p, a, b);
      PrimeDividesProduct(p, r, b);
      DivModUnique(r, p, 0, r);
    } else if a == 1 {
      assert a * b == b;
    } else {
      DivModUnique(0, p, 0, 0);
    }
  }

  /** Taking p off a factor keeps a product a multiple of p. */
  lemma ShiftDown(p: int, a: int, b: int)
    requires p > 0 && (a * b) % p == 0
    ensures ((a - p) * b) % p == 0
  {
    assert (a - p) * b == a * b + (-b) * p by { MulDistrib(b, a, -p); }
    ModMultiple(a * b, -b, p);
  }

  /** The step of Euclid's lemma: with 0 < a < p, r = p mod a is below a and r*b is still a multiple of p. */
  lemma ReduceBelow(p: int, a: int, b: int) returns (r: int)
    requires 0 < a < p && p % a != 0 && (a * b) % p == 0
    ensures 0 < r < a && (r * b) % p == 0
  {
    var q := p / a;
    r := p % a;
    var k := (a * b) / p;
    assert p == q * a + r && a * b == k * p;
    EuclidStep(p, a, b, q, r, k);
    ModMultiple(0, b - q * k, p);
  }

  /** With p = q*a + r and a*b = k*p, r*b is (b - q*k) multiples of p. */
  lemma EuclidStep(p: int, a: int, b: int, q: int, r: int, k: int)
    requires p == q * a + r && a * b == k * p
    ensures r * b == 0 + (b - q * k) * p
  {
    calc {
      r * b;
      (p - q * a) * b;
      { MulDistrib(b, p, -(q * a)); }
      p * b - (q * a) * b;
      { MulAssoc(q, a, b); }
      p * b - q * (k * p);
      { MulAssoc(q, k, p); }
      (b - q * k) * p;
    }
  }

  /** A number whose divisor is not a multiple of k is not one either, read the other way round. */
  lemma DividesFactor(k: int, n: int, m: int)
    requires k > 0 && m > 0 && n % m == 0 && n / m > 0 && Divides(k, n / m)
    ensures Divides(k, n)
  {
    assert Divides(n / m, n) by {
      assert n == (n / m) * m;
      ModMultiple(0, m, n / m);
    }
    DividesTransitive(k, n / m, n);
  }
}
