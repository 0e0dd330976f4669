/**
 * The storage of `Tpa.N`: one buffer seen both as 16-bit shorts and as
 * 32-bit longs, long i being shorts 2i (low half) and 2i+1 (high half).
 * The model keeps the shorts and derives the longs from them; a number's
 * value is its shorts read in base 2^16, or equally its longs in base 2^32.
 */
module Words {
  import opened Arith
  import opened Digits

  const HALF := 65536
  const FULL := 4294967296

  /** Long i of a buffer of shorts (0 past the end). */
  function LongAt(s: seq<int>, i: nat): int
  {
    At(s, 2 * i) + HALF * At(s, 2 * i + 1)
  }

  /** The first k longs of a buffer of shorts. */
  function Longs(s: seq<int>, k: nat): (r: seq<int>)
    ensures |r| == k && forall j :: 0 <= j < k ==> r[j] == LongAt(s, j)
  {
    seq(k, j requires 0 <= j < k => LongAt(s, j))
  }

  /** A store into a `Uint32Array` element: the value modulo 2^32. */
  function Store32(x: int): (r: int)
    ensures 0 <= r < FULL
    ensures 0 <= x < FULL ==> r == x
  {
    x % FULL
  }

  /** A value splits into what a `Uint32Array` element keeps and the carry above it. */
  lemma Store32Split(t: int)
    ensures Store32(t) + FULL * (t / FULL) == t
  {
  }

  /** A store into a `Uint16Array` element: the value modulo 2^16. */
  function Store16(x: int): (r: int)
    ensures 0 <= r < HALF
    ensures 0 <= x < HALF ==> r == x
  {
    x % HALF
  }

  /** Writing long i: its low half into short 2i, its high half into short 2i+1. */
  function PutLong(s: seq<int>, i: nat, x: int): seq<int>
  {
    Put(Put(s, 2 * i, x % HALF), 2 * i + 1, x / HALF)
  }

  /** Every short from position n on is zero. */
  ghost predicate Clean(s: seq<int>, n: nat)
  {
    forall k: nat :: n <= k ==> At(s, k) == 0
  }

  lemma PowFull(i: nat)
    ensures Pow(FULL, i) == Pow(HALF, 2 * i)
  {
    assert FULL == HALF * HALF;
    PowMul(HALF, 2, i);
    assert Pow(HALF, 2) == HALF * HALF;
  }

  lemma LongRange(s: seq<int>, i: nat)
    requires InRange(s, HALF)
    ensures 0 <= LongAt(s, i) < FULL
    ensures LongAt(s, i) == 0 <==> At(s, 2 * i) == 0 && At(s, 2 * i + 1) == 0
  {
  }

  /** A long store changes the shorts of that long only. */
  lemma PutLongFrame(s: seq<int>, i: nat, x: int)
    requires InRange(s, HALF) && 0 <= x < FULL
    ensures var r := PutLong(s, i, x);
      && InRange(r, HALF)
      && LongAt(r, i) == x
      && (forall k: nat :: k != 2 * i && k != 2 * i + 1 ==> At(r, k) == At(s, k))
      && (forall j: nat :: j != i ==> LongAt(r, j) == LongAt(s, j))
  {
    var r := PutLong(s, i, x);
    assert At(r, 2 * i) == x % HALF;
    forall k: nat | k != 2 * i && k != 2 * i + 1
      ensures At(r, k) == At(s, k)
    {
    }
    forall j: nat | j != i
      ensures LongAt(r, j) == LongAt(s, j)
    {
      assert At(r, 2 * j) == At(s, 2 * j) && At(r, 2 * j + 1) == At(s, 2 * j + 1);
    }
  }

  /** A long store changes the shorts of that long only, and the value by the difference times 2^(32i). */
  lemma PutLongFacts(s: seq<int>, i: nat, x: int)
    requires InRange(s, HALF) && 0 <= x < FULL
    ensures var r := PutLong(s, i, x);
      && InRange(r, HALF)
      && LongAt(r, i) == x
      && (forall k: nat :: k != 2 * i && k != 2 * i + 1 ==> At(r, k) == At(s, k))
      && (forall j: nat :: j != i ==> LongAt(r, j) == LongAt(s, j))
      && Value(r, HALF) == Value(s, HALF) + (x - LongAt(s, i)) * Pow(FULL, i)
  {
    PutLongFrame(s, i, x);
    var s1 := Put(s, 2 * i, x % HALF);
    ValuePut(s, 2 * i, x % HALF, HALF);
    ValuePut(s1, 2 * i + 1, x / HALF, HALF);
    assert At(s1, 2 * i + 1) == At(s, 2 * i + 1);
    PowFull(i);
    PutLongArith(x, At(s, 2 * i), At(s, 2 * i + 1), Pow(HALF, 2 * i));
  }

  lemma PutLongArith(x: int, lo: int, hi: int, p: int)
    requires 0 <= x
    ensures (x % HALF - lo) * p + (x / HALF - hi) * (HALF * p) == (x - (lo + HALF * hi)) * p
  {
    assert x == x % HALF + HALF * (x / HALF);
    MulAssoc(x / HALF - hi, HALF, p);
    MulDistrib(p, x % HALF - lo, HALF * (x / HALF - hi));
  }

  lemma LongsRange(s: seq<int>, k: nat)
    requires InRange(s, HALF)
    ensures InRange(Longs(s, k), FULL)
  {
    forall j | 0 <= j < k
      ensures 0 <= LongAt(s, j) < FULL
    {
      LongRange(s, j);
    }
  }

  /** One more long adds that long times 2^(32k). */
  lemma LongsSnoc(s: seq<int>, k: nat)
    ensures Value(Longs(s, k + 1), FULL) == Value(Longs(s, k), FULL) + LongAt(s, k) * Pow(FULL, k)
  {
    assert Longs(s, k + 1) == Longs(s, k) + [LongAt(s, k)];
    ValueSnoc(Longs(s, k), LongAt(s, k), FULL);
  }

  /** The first k longs of a buffer whose shorts vanish from 2k on denote the buffer's value. */
  lemma {:induction false} LongsValue(s: seq<int>, k: nat)
    requires Clean(s, 2 * k)
    ensures Value(Longs(s, k), FULL) == Value(s, HALF)
    decreases k
  {
    if k == 0 {
      forall j | 0 <= j < |s|
        ensures s[j] == 0
      {
        assert At(s, j) == 0;
      }
      ValueAllZero(s, HALF);
    } else {
      var t := if |s| >= 2 then s[2..] else [];
      forall m: nat | 2 * (k - 1) <= m
        ensures At(t, m) == 0
      {
        assert At(t, m) == At(s, m + 2);
      }
      LongsValue(t, k - 1);
      assert Longs(s, k) == [LongAt(s, 0)] + Longs(t, k - 1) by {
        forall j | 0 < j < k
          ensures LongAt(t, j - 1) == LongAt(s, j)
        {
          assert At(t, 2 * (j - 1)) == At(s, 2 * j);
          assert At(t, 2 * (j - 1) + 1) == At(s, 2 * j + 1);
        }
      }
      ValueCons(LongAt(s, 0), Longs(t, k - 1), FULL);
      ValueTwo(s, t);
      MulAssoc(HALF, HALF, Value(t, HALF));
    }
  }

  /** The value of a buffer of shorts peels off its first long. */
  lemma ValueTwo(s: seq<int>, t: seq<int>)
    requires t == if |s| >= 2 then s[2..] else []
    ensures Value(s, HALF) == At(s, 0) + HALF * At(s, 1) + HALF * (HALF * Value(t, HALF))
  {
    if |s| >= 2 {
      assert s[1..][1..] == t;
    } else if |s| == 1 {
      assert s[1..] == [];
    }
  }

  /** k longs in range denote a value below 2^(32k). */
  lemma LongsBound(s: seq<int>, k: nat)
    requires InRange(s, HALF)
    ensures 0 <= Value(Longs(s, k), FULL) < Pow(FULL, k)
  {
    LongsRange(s, k);
    ValueInRangeBounds(Longs(s, k), FULL);
  }

  /** An in-range digit sequence is worth at least any one of its digits in place. */
  lemma ValueAtLeastDigit(s: seq<int>, j: nat, b: int)
    requires b > 1 && InRange(s, b) && j < |s|
    ensures Value(s, b) >= s[j] * Pow(b, j)
  {
    ValueSplit(s, j, b);
    assert s[j..] == [s[j]] + s[j + 1..];
    ValueCons(s[j], s[j + 1..], b);
    assert InRange(s[..j], b) && InRange(s[j + 1..], b);
    ValueInRangeBounds(s[..j], b);
    ValueInRangeBounds(s[j + 1..], b);
    PowPositive(b, j);
    MulNonNeg(b, Value(s[j + 1..], b));
    MulDistrib(Pow(b, j), s[j], b * Value(s[j + 1..], b));
    MulNonNeg(Pow(b, j), b * Value(s[j + 1..], b));
  }

  /** Shorts that vanish from position n on denote less than 2^(16n). */
  lemma CleanBound(s: seq<int>, n: nat)
    requires InRange(s, HALF) && Clean(s, n)
    ensures 0 <= Value(s, HALF) < Pow(HALF, n)
  {
    if n >= |s| {
      ValueInRangeBounds(s, HALF);
      PowMonotone(HALF, |s|, n);
    } else {
      forall k | n <= k < |s|
        ensures s[k] == 0
      {
        assert At(s, k) == 0;
      }
      ValueZeroTail(s, n, HALF);
      assert InRange(s[..n], HALF);
      ValueInRangeBounds(s[..n], HALF);
    }
  }

  /** Conversely, shorts worth less than 2^(16n) vanish from position n on. */
  lemma CleanBelow(s: seq<int>, n: nat)
    requires InRange(s, HALF) && Value(s, HALF) < Pow(HALF, n)
    ensures Clean(s, n)
  {
    forall k: nat | n <= k
      ensures At(s, k) == 0
    {
      if k < |s| && s[k] != 0 {
        ValueAtLeastDigit(s, k, HALF);
        PowMonotone(HALF, n, k);
        PowPositive(HALF, k);
        MulMonotone(Pow(HALF, k), 1, s[k]);
      }
    }
  }

  /** Shorts with a non-zero short at position n-1 denote at least 2^(16(n-1)). */
  lemma TopLowerBound(s: seq<int>, n: nat)
    requires InRange(s, HALF) && n >= 1 && At(s, n - 1) != 0
    ensures Value(s, HALF) >= Pow(HALF, n - 1)
  {
    ValueAtLeastDigit(s, n - 1, HALF);
    PowPositive(HALF, n - 1);
    MulMonotone(Pow(HALF, n - 1), 1, s[n - 1]);
  }

  /** A long store seen through the longs is a sequence update. */
  lemma LongsPut(s: seq<int>, lc: nat, i: nat, x: int)
    requires InRange(s, HALF) && 0 <= x < FULL && i < lc
    ensures Longs(PutLong(s, i, x), lc) == Longs(s, lc)[i := x]
  {
    PutLongFacts(s, i, x);
    var r := PutLong(s, i, x);
    forall j | 0 <= j < lc && j != i
      ensures LongAt(r, j) == LongAt(s, j)
    {
      assert At(r, 2 * j) == At(s, 2 * j) && At(r, 2 * j + 1) == At(s, 2 * j + 1);
    }
  }

  /** Sequences that read alike at every position denote the same value. */
  lemma {:induction false} ValueAtEqual(r: seq<int>, t: seq<int>, b: int)
    requires forall k: nat :: At(r, k) == At(t, k)
    ensures Value(r, b) == Value(t, b)
    decreases |r| + |t|
  {
    if r == [] && t == [] {
    } else {
      var r1 := if r == [] then [] else r[1..];
      var t1 := if t == [] then [] else t[1..];
      forall k: nat
        ensures At(r1, k) == At(t1, k)
      {
        assert At(r1, k) == At(r, k + 1) && At(t1, k) == At(t, k + 1);
      }
      ValueAtEqual(r1, t1, b);
      assert Value(r, b) == At(r, 0) + b * Value(r1, b);
      assert Value(t, b) == At(t, 0) + b * Value(t1, b);
    }
  }

  lemma AtPut(ds: seq<int>, i: nat, v: int)
    ensures forall k: nat :: At(Put(ds, i, v), k) == if k == i then v else At(ds, k)
  {
  }

  /** The shorts below a clean position carry the whole value. */
  lemma CleanPrefix(s: seq<int>, n: nat, b: int)
    requires Clean(s, n) && n <= |s|
    ensures Value(s[..n], b) == Value(s, b)
  {
    forall k | n <= k < |s|
      ensures s[k] == 0
    {
      assert At(s, k) == 0;
    }
    ValueZeroTail(s, n, b);
  }

  /** The low (offset 0) or high (offset 1) shorts of the first k longs, as digits in base 2^32. */
  function Halves(s: seq<int>, k: nat, offset: nat): (r: seq<int>)
    ensures |r| == k && forall j :: 0 <= j < k ==> r[j] == At(s, 2 * j + offset)
  {
    seq(k, j requires 0 <= j < k => At(s, 2 * j + offset))
  }

  lemma HalvesRange(s: seq<int>, k: nat, offset: nat)
    requires InRange(s, HALF)
    ensures InRange(Halves(s, k, offset), FULL) && 0 <= Value(Halves(s, k, offset), FULL)
  {
    ValueInRangeBounds(Halves(s, k, offset), FULL);
  }

  /** The longs split into their low shorts plus 2^16 times their high shorts. */
  lemma {:induction false} LongsHalves(s: seq<int>, k: nat)
    ensures Value(Longs(s, k), FULL) == Value(Halves(s, k, 0), FULL) + HALF * Value(Halves(s, k, 1), FULL)
    decreases k
  {
    if k > 0 {
      var lo, hi := At(s, 2 * (k - 1)), At(s, 2 * (k - 1) + 1);
      LongsHalves(s, k - 1);
      LongsSnoc(s, k - 1);
      assert Halves(s, k, 0) == Halves(s, k - 1, 0) + [lo];
      assert Halves(s, k, 1) == Halves(s, k - 1, 1) + [hi];
      ValueSnoc(Halves(s, k - 1, 0), lo, FULL);
      ValueSnoc(Halves(s, k - 1, 1), hi, FULL);
      var p := Pow(FULL, k - 1);
      MulDistrib(HALF, Value(Halves(s, k - 1, 1), FULL), p * hi);
      MulDistrib(p, lo, HALF * hi);
    }
  }

  lemma {:induction false} PowAbove(n: nat)
    ensures Pow(FULL, n) > n
  {
    if n > 0 {
      PowAbove(n - 1);
    }
  }

  /** The digits from position k on (none when k is past the end). */
  function Drop(s: seq<int>, k: nat): (r: seq<int>)
    ensures forall m: nat :: At(r, m) == At(s, k + m)
  {
    if k < |s| then s[k..] else []
  }

  /** The digits below position k (all of them when k is past the end). */
  function Take(s: seq<int>, k: nat): (r: seq<int>)
    ensures |r| <= k && forall m: nat :: m < k ==> At(r, m) == At(s, m)
  {
    if k < |s| then s[..k] else s
  }

  lemma ValueHead(u: seq<int>, b: int)
    ensures Value(u, b) == At(u, 0) + b * Value(Drop(u, 1), b)
  {
  }

  /** A value splits at position k into the digits below and the digits from k on. */
  lemma ValueSplitAt(s: seq<int>, k: nat, b: int)
    requires b > 1 && InRange(s, b)
    ensures Value(s, b) == Value(Take(s, k), b) + Pow(b, k) * Value(Drop(s, k), b)
    ensures 0 <= Value(Take(s, k), b) < Pow(b, k) && 0 <= Value(Drop(s, k), b)
  {
    if k < |s| {
      ValueSplit(s, k, b);
      assert InRange(s[..k], b) && InRange(s[k..], b);
      ValueInRangeBounds(s[..k], b);
      ValueInRangeBounds(s[k..], b);
    } else {
      ValueInRangeBounds(s, b);
      PowMonotone(b, |s|, k);
    }
  }

  /** In-range digits are worth at least their lowest three. */
  lemma ThreeDigits(u: seq<int>, b: int)
    requires b > 1 && InRange(u, b)
    ensures Value(u, b) >= At(u, 0) + b * At(u, 1) + b * (b * At(u, 2))
  {
    var u1 := Drop(u, 1);
    var u2 := Drop(u1, 1);
    var u3 := Drop(u2, 1);
    assert InRange(u1, b) && InRange(u2, b) && InRange(u3, b);
    ValueHead(u, b);
    ValueHead(u1, b);
    ValueHead(u2, b);
    ValueInRangeBounds(u3, b);
    MulNonNeg(b, Value(u3, b));
    MulMonotone(b, At(u2, 0), Value(u2, b));
    MulDistrib(b, At(u1, 0), b * At(u2, 0));
    MulMonotone(b, At(u1, 0) + b * At(u2, 0), Value(u1, b));
  }

  /** Shorts that vanish from position 2 on are worth their lowest two. */
  lemma TwoDigits(u: seq<int>)
    requires InRange(u, HALF) && Clean(u, 2)
    ensures Value(u, HALF) == At(u, 0) + HALF * At(u, 1)
  {
    var u2 := Drop(Drop(u, 1), 1);
    assert InRange(u2, HALF) && Clean(u2, 0);
    CleanBound(u2, 0);
    ValueHead(u, HALF);
    ValueHead(Drop(u, 1), HALF);
  }

  /** The shorts from a clean position on are worth nothing. */
  lemma CleanTail(s: seq<int>, n: nat)
    requires InRange(s, HALF) && Clean(s, n) && n <= |s|
    ensures Value(s[n..], HALF) == 0
  {
    var t := Drop(s, n);
    assert InRange(t, HALF) && Clean(t, 0);
    CleanBound(t, 0);
    assert n == |s| ==> s[n..] == [];
  }
}
