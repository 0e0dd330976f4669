/**
 * The integer kernel embedded in lib/tpa.js (`Tpa.N`): a sign and a
 * magnitude held in one buffer seen as 16-bit shorts and 32-bit longs.
 * `shortcount` counts the shorts in use and `longcount` the longs; every
 * short from `shortcount` on is zero and the top short in use is not.
 * Magnitudes are Value(shorts, 2^16).  Zero may carry either sign.
 */
module TpaKernel {
  import opened Arith
  import opened Digits
  import opened Words
  import opened TpaLoops
  import opened Wrappers

  /** The counts invariant of a buffer of shorts. */
  ghost predicate Counted(s: seq<int>, sc: int, lc: int)
  {
    && InRange(s, HALF)
    && 0 <= sc
    && Clean(s, sc)
    && (sc == 0 || At(s, sc - 1) != 0)
    && lc == (sc + 1) / 2
  }

  /** Facts every counted buffer has: its value in shorts and in longs, and its bounds. */
  lemma CountedFacts(s: seq<int>, sc: int, lc: int)
    requires Counted(s, sc, lc)
    ensures Clean(s, 2 * lc) && sc <= 2 * lc && (sc > 0 ==> sc - 1 < |s|)
    ensures Value(Longs(s, lc), FULL) == Value(s, HALF)
    ensures 0 <= Value(s, HALF) < Pow(HALF, sc)
    ensures sc > 0 ==> Value(s, HALF) >= Pow(HALF, sc - 1)
    ensures Value(s, HALF) == 0 <==> sc == 0
  {
    LongsValue(s, lc);
    CleanBound(s, sc);
    if sc > 0 {
      TopLowerBound(s, sc);
      PowPositive(HALF, sc - 1);
    }
  }

  /** A buffer using more shorts is the larger. */
  lemma CountedOrder(s: seq<int>, sc: int, lc: int, t: seq<int>, tc: int, tl: int)
    requires Counted(s, sc, lc) && Counted(t, tc, tl) && sc > tc
    ensures Value(s, HALF) > Value(t, HALF)
  {
    CountedFacts(s, sc, lc);
    CountedFacts(t, tc, tl);
    PowMonotone(HALF, tc, sc - 1);
  }

  /** A buffer worth at most a multiple of another has no more longs in use. */
  lemma NoLongerThan(s: seq<int>, sc: int, lc: int, t: seq<int>, tc: int, tl: int, d: int)
    requires Counted(s, sc, lc) && Counted(t, tc, tl) && d >= 1 && Value(s, HALF) >= d * Value(t, HALF)
    ensures Clean(t, 2 * lc) && Value(s, HALF) - d * Value(t, HALF) <= Value(s, HALF)
  {
    var v := Value(t, HALF);
    ValueInRangeBounds(t, HALF);
    MulNonNeg(d, v);
    assert v <= d * v by { MulMonotone(v, 1, d); }
    if tc > sc {
      CountedOrder(t, tc, tl, s, sc, lc);
      assert false;
    }
    assert Clean(t, 2 * lc) by {
      forall k: nat | 2 * lc <= k
        ensures At(t, k) == 0
      {
        assert tc <= k;
      }
    }
  }

  lemma ShiftBound(v: int, sc: nat, x: int)
    requires 0 <= v < Pow(HALF, sc) && 0 <= x < FULL
    ensures v * FULL + x < Pow(HALF, sc + 2)
  {
    PowAdd(HALF, sc, 2);
    MulMonotone(FULL, v, Pow(HALF, sc) - 1);
  }

  /** Long-by-long comparison from position k-1 down, as `compare` does. */
  lemma {:induction false} CompareLongs(xs: seq<int>, ys: seq<int>, k: nat)
    requires k <= |xs| == |ys| && InRange(xs, FULL) && InRange(ys, FULL)
    requires xs[k..] == ys[k..]
    ensures k > 0 && xs[k - 1] > ys[k - 1] ==> Value(xs, FULL) > Value(ys, FULL)
    ensures xs[..k] == ys[..k] ==> Value(xs, FULL) == Value(ys, FULL)
  {
    if k > 0 && xs[k - 1] > ys[k - 1] {
      FirstDifferenceDecides(xs, ys, k - 1, FULL);
    }
    if xs[..k] == ys[..k] {
      assert xs == xs[..k] + xs[k..] && ys == ys[..k] + ys[k..];
    }
  }

  /** Two equally counted buffers agreeing above long i are ordered by long i, and equal when they agree everywhere. */
  lemma LongsDecide(s: seq<int>, t: seq<int>, sc: int, lc: int, i: int)
    requires Counted(s, sc, lc) && Counted(t, sc, lc) && -1 <= i < lc
    requires Longs(s, lc)[i + 1..] == Longs(t, lc)[i + 1..]
    ensures i >= 0 && LongAt(s, i) > LongAt(t, i) ==> Value(s, HALF) > Value(t, HALF)
    ensures i == -1 ==> Value(s, HALF) == Value(t, HALF)
  {
    CountedFacts(s, sc, lc);
    CountedFacts(t, sc, lc);
    LongsRange(s, lc);
    LongsRange(t, lc);
    CompareLongs(Longs(s, lc), Longs(t, lc), i + 1);
  }

  lemma LongsAgree(s: seq<int>, t: seq<int>, lc: nat, i: nat)
    requires i < lc && Longs(s, lc)[i + 1..] == Longs(t, lc)[i + 1..] && LongAt(s, i) == LongAt(t, i)
    ensures Longs(s, lc)[i..] == Longs(t, lc)[i..]
  {
    assert Longs(s, lc)[i..] == [LongAt(s, i)] + Longs(s, lc)[i + 1..];
    assert Longs(t, lc)[i..] == [LongAt(t, i)] + Longs(t, lc)[i + 1..];
  }

  /** The two halves of a multiplication as `multiply` splits it, and the bound on the product. */
  lemma ProductBounds(a: seq<int>, sc: int, lc: int, b: seq<int>, tc: int, tl: int)
    requires Counted(a, sc, lc) && Counted(b, tc, tl)
    ensures var x, h0, h1 := Value(a, HALF), Value(Halves(b, tl, 0), FULL), Value(Halves(b, tl, 1), FULL);
      && 0 <= x * h0 && 0 <= x * h1 <= (x * h1) * HALF
      && (x * h1) * HALF + x * h0 == x * Value(b, HALF)
      && x * Value(b, HALF) < Pow(FULL, lc + tl)
  {
    CountedFacts(a, sc, lc);
    CountedFacts(b, tc, tl);
    LongsHalves(b, tl);
    HalvesRange(b, tl, 0);
    HalvesRange(b, tl, 1);
    PowMonotone(HALF, sc, 2 * lc);
    PowFull(lc);
    PowMonotone(HALF, tc, 2 * tl);
    PowFull(tl);
    PowAdd(FULL, lc, tl);
    ProductArith(Value(a, HALF), Value(Halves(b, tl, 0), FULL), Value(Halves(b, tl, 1), FULL), Value(b, HALF),
      Pow(FULL, lc), Pow(FULL, tl));
  }

  lemma ProductArith(x: int, h0: int, h1: int, y: int, p: int, q: int)
    requires 0 <= x < p && 0 <= y < q && 0 <= h0 && 0 <= h1 && y == h0 + HALF * h1
    ensures 0 <= x * h0 && 0 <= x * h1 <= (x * h1) * HALF
    ensures (x * h1) * HALF + x * h0 == x * y && x * y < p * q
  {
    MulNonNeg(x, h0);
    MulNonNeg(x, h1);
    MulMonotone(x * h1, 1, HALF);
    MulDistrib(x, h0, HALF * h1);
    MulAssoc(x, HALF, h1);
    MulMonotone(y, x, p - 1);
    MulMonotone(p - 1, y, q - 1);
    MulMonotone(p, 1, q);
  }

  /**
   * The quotient-digit estimate of `divide` for a divisor of nc >= 3 shorts:
   * the remainder's shorts nc, nc-1, nc-2 over the divisor's top two shorts
   * plus one, rounded down, and at least 1.
   */
  function Estimate(r: seq<int>, n: seq<int>, nc: int): (e: int)
    requires nc >= 2 && InRange(n, HALF)
    ensures e >= 1
  {
    var q := (At(r, nc) * FULL + At(r, nc - 1) * HALF + At(r, nc - 2)) / (At(n, nc - 1) * HALF + At(n, nc - 2) + 1);
    if q > 1 then q else 1
  }

  /** The estimate never takes away more than the remainder holds. */
  lemma EstimateSound(r: seq<int>, rc: int, rl: int, n: seq<int>, nc: int, nl: int)
    requires Counted(r, rc, rl) && Counted(n, nc, nl) && nc >= 3 && Value(r, HALF) >= Value(n, HALF)
    ensures Estimate(r, n, nc) * Value(n, HALF) <= Value(r, HALF)
  {
    var rlow, rtop := RemainderTop(r, nc - 2);
    var nlow := DivisorTop(n, nc);
    EstimateArith(Value(r, HALF), Value(n, HALF), At(r, nc) * FULL + At(r, nc - 1) * HALF + At(r, nc - 2),
      At(n, nc - 1) * HALF + At(n, nc - 2) + 1, Pow(HALF, nc - 2), rlow, rtop, nlow, Estimate(r, n, nc));
  }

  /** A remainder split at short k: the part from k on is worth at least its lowest three shorts. */
  lemma RemainderTop(r: seq<int>, k: nat) returns (rlow: int, rtop: int)
    requires InRange(r, HALF)
    ensures Value(r, HALF) == rlow + Pow(HALF, k) * rtop && 0 <= rlow
    ensures At(r, k + 2) * FULL + At(r, k + 1) * HALF + At(r, k) <= rtop
  {
    var top := Drop(r, k);
    assert InRange(top, HALF);
    ValueSplitAt(r, k, HALF);
    ThreeDigits(top, HALF);
    rlow, rtop := Value(Take(r, k), HALF), Value(top, HALF);
  }

  /** A divisor of nc shorts split below its top two shorts. */
  lemma DivisorTop(n: seq<int>, nc: int) returns (nlow: int)
    requires InRange(n, HALF) && nc >= 2 && Clean(n, nc)
    ensures Value(n, HALF) == nlow + Pow(HALF, nc - 2) * (At(n, nc - 1) * HALF + At(n, nc - 2))
    ensures 0 <= nlow < Pow(HALF, nc - 2)
  {
    var low := Drop(n, nc - 2);
    assert InRange(low, HALF) && Clean(low, 2);
    ValueSplitAt(n, nc - 2, HALF);
    TwoDigits(low);
    nlow := Value(Take(n, nc - 2), HALF);
  }

  lemma EstimateArith(vr: int, vn: int, a: int, t: int, p: int, rlow: int, rtop: int, nlow: int, e: int)
    requires t >= 1 && p >= 1 && 0 <= a <= rtop && 0 <= rlow && 0 <= nlow < p
    requires vr == rlow + p * rtop && vn == nlow + p * (t - 1) && vr >= vn
    requires e == if a / t > 1 then a / t else 1
    ensures e * vn <= vr
  {
    if a / t > 1 {
      assert e * t <= a;
      assert vn <= p * t by { MulDistrib(p, t - 1, 1); }
      MulMonotone(e, vn, p * t);
      MulAssoc(e, p, t);
      MulMonotone(p, e * t, a);
      MulMonotone(p, a, rtop);
    }
  }

  /**
   * The shape of the buffer during the long division in `divide`: the
   * dividend d is still in place below short j, and nothing is stored from
   * the count sc on.
   */
  ghost predicate Shape(s: seq<int>, d: seq<int>, sc: int, j: int)
  {
    && |s| == |d| && 0 <= j <= sc <= |d|
    && InRange(s, HALF) && InRange(d, HALF) && Clean(s, sc)
    && (forall k :: 0 <= k < j ==> s[k] == d[k])
  }

  lemma ShapeUpdate(s: seq<int>, d: seq<int>, sc: int, i: int, v: int)
    requires Shape(s, d, sc, i) && 0 <= i < sc && 0 <= v < HALF
    ensures Shape(s[i := v], d, sc, i) && s[i := v][i + 1..] == s[i + 1..] && s[i := v][i] == v
  {
    var s1 := s[i := v];
    forall k: nat | sc <= k
      ensures At(s1, k) == 0
    {
      assert At(s1, k) == At(s, k);
    }
  }

  /** The quotient invariant of the long division: the shorts above i hold the quotient of the dividend's shorts above i, and r is the remainder. */
  ghost predicate QuotientInv(s: seq<int>, d: seq<int>, sc: int, i: int, r: int, nv: int)
  {
    && Shape(s, d, sc, i + 1) && -1 <= i < sc
    && 0 <= r < nv
    && Value(s[i + 1..], HALF) * nv + r == Value(d[i + 1..], HALF)
  }

  /** The invariant while quotient short i is being found: s[i] copies of the divisor have come off the shifted remainder. */
  ghost predicate DigitInv(s: seq<int>, d: seq<int>, sc: int, i: int, r: int, nv: int, r0: int)
  {
    && Shape(s, d, sc, i) && 0 <= i < sc
    && 0 <= r0 < nv && 0 <= r
    && Value(s[i + 1..], HALF) * nv + r0 == Value(d[i + 1..], HALF)
    && r + s[i] * nv == r0 * HALF + d[i]
  }

  /** Before the first place, the whole dividend is still to be divided and the remainder is 0. */
  lemma QuotientStart(s: seq<int>, sc: int, lc: int, nv: int)
    requires Counted(s, sc, lc) && nv > 0
    ensures QuotientInv(s, s, sc, sc - 1, 0, nv)
  {
    CountedFacts(s, sc, lc);
    CleanTail(s, sc);
  }

  /** After the last place, the shorts hold the whole quotient. */
  lemma QuotientEnd(s: seq<int>, d: seq<int>, sc: int, r: int, nv: int)
    requires QuotientInv(s, d, sc, -1, r, nv)
    ensures InRange(s, HALF) && Clean(s, sc) && 0 <= sc
    ensures Value(s, HALF) * nv + r == Value(d, HALF) && 0 <= r < nv
  {
    assert s[0..] == s && d[0..] == d;
  }

  lemma DigitStart(s: seq<int>, d: seq<int>, sc: int, i: int, r0: int, nv: int)
    requires QuotientInv(s, d, sc, i, r0, nv) && 0 <= i
    ensures DigitInv(s[i := 0], d, sc, i, r0 * HALF + d[i], nv, r0)
  {
    ShapeUpdate(s, d, sc, i, 0);
    assert 0 <= d[i];
    MulNonNeg(r0, HALF);
  }

  lemma DigitStep(s: seq<int>, d: seq<int>, sc: int, i: int, r: int, nv: int, r0: int, e: int)
    requires DigitInv(s, d, sc, i, r, nv, r0) && e >= 1 && e * nv <= r
    ensures s[i] + e < HALF && DigitInv(s[i := Store16(s[i] + e)], d, sc, i, r - e * nv, nv, r0)
  {
    assert 0 <= s[i] && 0 <= d[i] < HALF;
    var v := s[i] + e;
    DigitFits(s[i], e, nv, r, r0, d[i]);
    assert Store16(v) == v;
    ShapeUpdate(s, d, sc, i, v);
    TakeArith(r, e, nv, s[i], v);
  }

  /** Taking e more copies of the divisor moves e*nv from the remainder into the quotient digit. */
  lemma TakeArith(r: int, e: int, nv: int, q: int, v: int)
    requires v == q + e
    ensures (r - e * nv) + v * nv == r + q * nv
  {
    MulDistrib(nv, q, e);
  }

  lemma DigitFits(q: int, e: int, nv: int, r: int, r0: int, di: int)
    requires 0 <= q && e >= 1 && 0 <= r0 < nv && 0 <= di < HALF && e * nv <= r && r + q * nv == r0 * HALF + di
    ensures q + e < HALF
  {
    MulDistrib(nv, q, e);
    MulMonotone(HALF, r0, nv - 1);
    if q + e >= HALF {
      MulMonotone(nv, HALF, q + e);
    }
  }

  lemma DigitDone(s: seq<int>, d: seq<int>, sc: int, i: int, r: int, nv: int, r0: int)
    requires DigitInv(s, d, sc, i, r, nv, r0) && r < nv
    ensures QuotientInv(s, d, sc, i - 1, r, nv)
  {
    assert s[i..] == [s[i]] + s[i + 1..];
    assert d[i..] == [d[i]] + d[i + 1..];
    ValueCons(s[i], s[i + 1..], HALF);
    ValueCons(d[i], d[i + 1..], HALF);
    DoneArith(s[i], Value(s[i + 1..], HALF), d[i], Value(d[i + 1..], HALF), r, r0, nv);
  }

  lemma DoneArith(x: int, q: int, di: int, vd: int, r: int, r0: int, nv: int)
    requires q * nv + r0 == vd && r + x * nv == r0 * HALF + di
    ensures (x + HALF * q) * nv + r == di + HALF * vd
  {
    MulDistrib(nv, x, HALF * q);
    MulAssoc(nv, HALF, q);
    MulDistrib(HALF, q * nv, r0);
  }

  class N {
    /** 1 for zero or positive, -1 for negative. */
    var sign: int
    /** The storage, as shorts; reads past the end give 0. */
    var shorts: seq<int>
    var shortcount: int
    var longcount: int

    ghost predicate Valid()
      reads this
    {
      Counted(shorts, shortcount, longcount) && (sign == 1 || sign == -1)
    }

    /** The magnitude. */
    ghost function Val(): int
      reads this
    {
      Value(shorts, HALF)
    }

    /** The signed integer this number denotes. */
    ghost function SignedVal(): int
      reads this
    {
      sign * Val()
    }

    /** `new N()`: zero with a positive sign and an all-zero buffer. */
    constructor ()
      ensures Valid() && Val() == 0 && sign == 1 && shortcount == 0
    {
      sign := 1;
      shorts := [];
      shortcount := 0;
      longcount := 0;
    }

    /** `copy`: a new number with the same sign, storage and counts. */
    method Copy() returns (r: N)
      requires Valid()
      ensures fresh(r) && r.Valid()
      ensures r.sign == sign && r.shorts == shorts && r.shortcount == shortcount && r.longcount == longcount
    {
      r := new N();
      r.shorts := shorts;
      r.sign := sign;
      r.longcount := longcount;
      r.shortcount := shortcount;
    }

    /** `overwrite`: this takes the sign, storage and counts of another number. */
    method Overwrite(number: N)
      requires number.Valid()
      modifies this
      ensures Valid() && sign == number.sign && shorts == number.shorts
      ensures shortcount == number.shortcount && longcount == number.longcount
    {
      shorts := number.shorts;
      sign := number.sign;
      longcount := number.longcount;
      shortcount := number.shortcount;
    }

    method SetSign(s: int)
      requires Valid() && (s == 1 || s == -1)
      modifies this
      ensures Valid() && sign == s && Val() == old(Val())
    {
      sign := s;
    }

    /** `isZero`: no shorts in use, which is exactly a zero magnitude. */
    method IsZero() returns (z: bool)
      requires Valid()
      ensures z <==> Val() == 0
    {
      CountedFacts(shorts, shortcount, longcount);
      z := shortcount == 0;
    }

    /**
     * `setCount`: shortcount becomes count less the zero shorts at its top,
     * and longcount the longs those shorts occupy.
     */
    method SetCount(count: int)
      requires 0 <= count && InRange(shorts, HALF) && Clean(shorts, count) && (sign == 1 || sign == -1)
      modifies this
      ensures Valid() && shorts == old(shorts) && sign == old(sign) && shortcount <= count
    {
      shortcount := count;
      while shortcount > 0 && At(shorts, shortcount - 1) == 0
        invariant 0 <= shortcount <= count && Clean(shorts, shortcount)
        invariant shorts == old(shorts) && sign == old(sign)
      {
        shortcount := shortcount - 1;
      }
      longcount := (shortcount + 1) / 2;
    }

    /** `reset`: every long in use is zeroed; the number becomes a positive zero. */
    method Reset()
      requires Valid()
      modifies this
      ensures Valid() && Val() == 0 && sign == 1 && shortcount == 0
    {
      CountedFacts(shorts, shortcount, longcount);
      var i := 0;
      while i < longcount
        invariant 0 <= i <= longcount && InRange(shorts, HALF) && Clean(shorts, 2 * longcount)
        invariant sign == old(sign)
        invariant forall k: nat :: k < 2 * i ==> At(shorts, k) == 0
      {
        PutLongFacts(shorts, i, 0);
        shorts := PutLong(shorts, i, 0);
        i := i + 1;
      }
      sign := 1;
      SetCount(0);
      LongsValue(shorts, 0);
    }

    /** `set(n)`: the sign of n, and its magnitude stored a long at a time. */
    method Set(n: int)
      requires Valid()
      modifies this
      ensures Valid() && Val() == Abs(n) && sign == (if n < 0 then -1 else 1)
    {
      Reset();
      sign := if n < 0 then -1 else 1;
      var m: int := Abs(n);
      var i := 0;
      while m != 0
        invariant 0 <= i && 0 <= m && InRange(shorts, HALF) && Clean(shorts, 2 * i)
        invariant sign == (if n < 0 then -1 else 1)
        invariant Value(shorts, HALF) + m * Pow(FULL, i) == Abs(n)
        decreases m
      {
        var x := Store32(m);
        PutLongFacts(shorts, i, x);
        assert LongAt(shorts, i) == 0;
        shorts := PutLong(shorts, i, x);
        assert m == x + FULL * (m / FULL);
        StepArith(x, m / FULL, 0, m, Pow(FULL, i));
        m := m / FULL;
        longcount := longcount + 1;
        i := i + 1;
      }
      SetCount(2 * i);
    }

    /** `compare`: the order of the magnitudes, as -1, 0 or 1; signs play no part. */
    method Compare(number: N) returns (r: int)
      requires Valid() && number.Valid()
      ensures r == Sign(Val() - number.Val())
    {
      if shortcount > number.shortcount {
        CountedOrder(shorts, shortcount, longcount, number.shorts, number.shortcount, number.longcount);
        return 1;
      }
      if shortcount < number.shortcount {
        CountedOrder(number.shorts, number.shortcount, number.longcount, shorts, shortcount, longcount);
        return -1;
      }
      var i := longcount - 1;
      while i >= 0
        invariant -1 <= i < longcount
        invariant Longs(shorts, longcount)[i + 1..] == Longs(number.shorts, longcount)[i + 1..]
      {
        if LongAt(shorts, i) > LongAt(number.shorts, i) {
          LongsDecide(shorts, number.shorts, shortcount, longcount, i);
          return 1;
        }
        if LongAt(shorts, i) < LongAt(number.shorts, i) {
          LongsDecide(number.shorts, shorts, shortcount, longcount, i);
          return -1;
        }
        LongsAgree(shorts, number.shorts, longcount, i);
        i := i - 1;
      }
      LongsDecide(shorts, number.shorts, shortcount, longcount, -1);
      return 0;
    }

    /**
     * `add`: the magnitude of number is added to this magnitude, long by long
     * with a carry; the sign is left alone.
     */
    method Add(number: N)
      requires Valid() && number.Valid() && number != this
      modifies this
      ensures Valid() && sign == old(sign) && Val() == old(Val()) + number.Val()
    {
      CountedFacts(shorts, shortcount, longcount);
      CountedFacts(number.shorts, number.shortcount, number.longcount);
      var i;
      shorts, i := AddLongs(shorts, longcount, number.shorts, number.longcount);
      if i >= longcount {
        SetCount(i * 2);
      }
    }

    /**
     * `subtract`: the magnitude of number, which must not exceed this one, is
     * taken from this magnitude long by long with a borrow; the sign is left
     * alone.  The borrow is carried on past the longs of number for as long
     * as it lasts (see the findings for the loop as written).
     */
    method Subtract(number: N)
      requires Valid() && number.Valid() && number != this && Val() >= number.Val()
      modifies this
      ensures Valid() && sign == old(sign) && Val() == old(Val()) - number.Val()
    {
      CountedFacts(shorts, shortcount, longcount);
      CountedFacts(number.shorts, number.shortcount, number.longcount);
      if number.shortcount > shortcount {
        CountedOrder(number.shorts, number.shortcount, number.longcount, shorts, shortcount, longcount);
      }
      shorts := SubtractLongs(shorts, longcount, number.shorts, number.longcount);
      CleanBelow(shorts, shortcount);
      SetCount(shortcount);
    }

    /**
     * `subtractMultiple`: digit times the magnitude of number is taken from
     * this magnitude, which must be worth at least that much.
     */
    method SubtractMultiple(number: N, digit: int)
      requires Valid() && number.Valid() && number != this
      requires digit >= 1 && Val() >= digit * number.Val()
      modifies this
      ensures Valid() && sign == old(sign) && Val() == old(Val()) - digit * number.Val()
    {
      CountedFacts(shorts, shortcount, longcount);
      NoLongerThan(shorts, shortcount, longcount, number.shorts, number.shortcount, number.longcount, digit);
      shorts := SubtractMultipleLongs(shorts, longcount, number.shorts, digit);
      CleanBelow(shorts, shortcount);
      SetCount(shortcount);
    }

    /** `digitmultiply`: the magnitude becomes magnitude * multiplier + digit. */
    method DigitMultiply(multiplier: int, digit: int)
      requires Valid() && 0 <= multiplier < FULL && 0 <= digit < FULL
      modifies this
      ensures Valid() && sign == old(sign) && Val() == old(Val()) * multiplier + digit
    {
      CountedFacts(shorts, shortcount, longcount);
      shorts := MultiplyLongs(shorts, longcount, multiplier, digit);
      SetCount((longcount + 1) * 2);
    }

    /**
     * `digitdivide`: the magnitude is divided by a divisor below 2^32, a long
     * at a time when the divisor is below 2^16 and a short at a time
     * otherwise; the remainder is returned.
     */
    method DigitDivide(digit: int) returns (overflow: int)
      requires Valid() && 0 < digit < FULL
      modifies this
      ensures Valid() && sign == old(sign)
      ensures old(Val()) == Val() * digit + overflow && 0 <= overflow < digit
    {
      CountedFacts(shorts, shortcount, longcount);
      ghost var v0 := Val();
      if digit < HALF {
        shorts, overflow := DivideLongs(shorts, longcount, digit);
      } else {
        shorts, overflow := DivideShorts(shorts, shortcount, digit);
      }
      ValueInRangeBounds(shorts, HALF);
      MulMonotone(Val(), 1, digit);
      CleanBelow(shorts, shortcount);
      SetCount(shortcount);
    }

    /**
     * `isDivisibleBy`: whether a factor below 2^32 divides the magnitude,
     * from running remainders over the longs (factors below 2^16) or the
     * shorts.
     */
    method IsDivisibleBy(factor: int) returns (b: bool)
      requires Valid() && 0 < factor < FULL
      ensures b <==> Val() % factor == 0
    {
      CountedFacts(shorts, shortcount, longcount);
      var temp;
      if factor < HALF {
        LongsRange(shorts, longcount);
        temp := RemainderLoop(Longs(shorts, longcount), FULL, factor);
      } else {
        CleanPrefix(shorts, shortcount, HALF);
        temp := RemainderLoop(shorts[..shortcount], HALF, factor);
      }
      b := temp % factor == 0;
    }

    /** `halfshift`: the magnitude moves up one short and the digit enters at the bottom. */
    method HalfShift(digit: int)
      requires Valid()
      modifies this
      ensures Valid() && sign == old(sign) && Val() == old(Val()) * HALF + Store16(digit)
    {
      shorts := ShiftShorts(shorts, shortcount, digit);
      SetCount(shortcount + 1);
    }

    /** `fullshift`: the magnitude moves up one long and the digit enters at the bottom. */
    method FullShift(digit: int)
      requires Valid()
      modifies this
      ensures Valid() && sign == old(sign) && Val() == old(Val()) * FULL + Store32(digit)
    {
      CountedFacts(shorts, shortcount, longcount);
      ghost var v0 := Val();
      shorts := ShiftLongs(shorts, longcount, digit);
      ShiftBound(v0, shortcount, Store32(digit));
      CleanBelow(shorts, shortcount + 2);
      SetCount(shortcount + 2);
    }
    /**
     * `accumulate`: the magnitude gains a times the low (offset 0) or high
     * (offset 1) shorts of b's longs read as digits in base 2^32, row by row
     * over a's longs, each row's last carry carried on up (see the findings
     * for the row as written).  The count is then taken over the longs of a
     * and b together, which the sum must fit in; a must have a long in use,
     * as the count reads the row index the inner loop leaves behind.
     */
    method Accumulate(a: N, b: N, offset: int)
      requires Valid() && a.Valid() && b.Valid() && a != this && b != this
      requires (offset == 0 || offset == 1) && a.longcount >= 1
      requires Val() + a.Val() * Value(Halves(b.shorts, b.longcount, offset), FULL) < Pow(FULL, a.longcount + b.longcount)
      modifies this
      ensures Valid() && sign == old(sign)
      ensures Val() == old(Val()) + a.Val() * Value(Halves(b.shorts, b.longcount, offset), FULL)
    {
      CountedFacts(a.shorts, a.shortcount, a.longcount);
      HalvesRange(b.shorts, b.longcount, offset);
      shorts := AccumulateLongs(shorts, a.shorts, a.longcount, Halves(b.shorts, b.longcount, offset));
      PowFull(a.longcount + b.longcount);
      CleanBelow(shorts, 2 * (a.longcount + b.longcount));
      SetCount(2 * (a.longcount + b.longcount));
    }

    /**
     * `multiply`: a zero is left alone; otherwise the magnitude becomes the
     * product, formed as (this * high shorts of number) * 2^16 + this * low
     * shorts, and the sign the product of the signs.
     */
    method Multiply(number: N)
      requires Valid() && number.Valid() && number != this
      modifies this
      ensures Valid() && Val() == old(Val()) * number.Val()
      ensures sign == if old(Val()) == 0 then old(sign) else old(sign) * number.sign
    {
      CountedFacts(shorts, shortcount, longcount);
      if shortcount == 0 {
        return;
      }
      var operand := Copy();
      ProductBounds(operand.shorts, operand.shortcount, operand.longcount, number.shorts, number.shortcount, number.longcount);
      Reset();
      sign := operand.sign * number.sign;
      Accumulate(operand, number, 1);
      DigitMultiply(HALF, 0);
      Accumulate(operand, number, 0);
    }
    /**
     * The inner loop of the long division: while the remainder is not below
     * the divisor, the estimate is added into quotient short i and that many
     * divisors are taken off the remainder.
     */
    method QuotientDigit(number: N, remainder: N, i: int, ghost d: seq<int>, ghost r0: int)
      requires number.Valid() && remainder.Valid() && number.shortcount >= 3
      requires number != this && remainder != this && remainder != number && remainder.sign == 1
      requires DigitInv(shorts, d, shortcount, i, remainder.Val(), number.Val(), r0)
      modifies this, remainder
      ensures remainder.Valid() && remainder.sign == 1
      ensures sign == old(sign) && shortcount == old(shortcount) && longcount == old(longcount)
      ensures DigitInv(shorts, d, shortcount, i, remainder.Val(), number.Val(), r0) && remainder.Val() < number.Val()
    {
      var c := remainder.Compare(number);
      while c >= 0
        invariant remainder.Valid() && remainder.sign == 1
        invariant sign == old(sign) && shortcount == old(shortcount) && longcount == old(longcount)
        invariant DigitInv(shorts, d, shortcount, i, remainder.Val(), number.Val(), r0)
        invariant c == Sign(remainder.Val() - number.Val())
        decreases remainder.Val()
      {
        var difference := Estimate(remainder.shorts, number.shorts, number.shortcount);
        EstimateSound(remainder.shorts, remainder.shortcount, remainder.longcount,
          number.shorts, number.shortcount, number.longcount);
        DigitStep(shorts, d, shortcount, i, remainder.Val(), number.Val(), r0, difference);
        MulMonotone(number.Val(), 1, difference);
        shorts := shorts[i := Store16(shorts[i] + difference)];
        remainder.SubtractMultiple(number, difference);
        c := remainder.Compare(number);
      }
    }

    /**
     * The long division of `divide` for a divisor of two or more longs: the
     * dividend's shorts are shifted into the remainder from the top, and
     * each quotient short is built up by estimates, each taking that many
     * divisors off the remainder, while the remainder is not below the
     * divisor.
     */
    method LongDivide(number: N) returns (remainder: N)
      requires Valid() && number.Valid() && number != this && number.longcount >= 2
      modifies this
      ensures fresh(remainder) && remainder.Valid() && remainder.sign == 1
      ensures Valid() && sign == old(sign)
      ensures old(Val()) == Val() * number.Val() + remainder.Val() && remainder.Val() < number.Val()
    {
      CountedFacts(number.shorts, number.shortcount, number.longcount);
      ghost var d := shorts;
      ghost var nv := number.Val();
      remainder := new N();
      QuotientStart(shorts, shortcount, longcount, nv);
      QuotientPlaces(number, remainder, d);
      QuotientEnd(shorts, d, shortcount, remainder.Val(), nv);
      SetCount(shortcount);
    }

    /** The places of the long division, from the top short down to short 0. */
    method QuotientPlaces(number: N, remainder: N, ghost d: seq<int>)
      requires number.Valid() && remainder.Valid() && number.shortcount >= 3
      requires number != this && remainder != this && remainder != number && remainder.sign == 1
      requires QuotientInv(shorts, d, shortcount, shortcount - 1, remainder.Val(), number.Val())
      modifies this, remainder
      ensures remainder.Valid() && remainder.sign == 1
      ensures sign == old(sign) && shortcount == old(shortcount)
      ensures QuotientInv(shorts, d, shortcount, -1, remainder.Val(), number.Val())
    {
      var i := shortcount - 1;
      while i >= 0
        invariant remainder.Valid() && remainder.sign == 1
        invariant sign == old(sign) && shortcount == old(shortcount)
        invariant QuotientInv(shorts, d, shortcount, i, remainder.Val(), number.Val())
      {
        QuotientPlace(number, remainder, i, d);
        i := i - 1;
      }
    }

    /**
     * One place of the long division: dividend short i is shifted into the
     * remainder and cleared, then quotient short i is built up.
     */
    method QuotientPlace(number: N, remainder: N, i: int, ghost d: seq<int>)
      requires number.Valid() && remainder.Valid() && number.shortcount >= 3 && 0 <= i
      requires number != this && remainder != this && remainder != number && remainder.sign == 1
      requires QuotientInv(shorts, d, shortcount, i, remainder.Val(), number.Val())
      modifies this, remainder
      ensures remainder.Valid() && remainder.sign == 1
      ensures sign == old(sign) && shortcount == old(shortcount) && longcount == old(longcount)
      ensures QuotientInv(shorts, d, shortcount, i - 1, remainder.Val(), number.Val())
    {
      ghost var r0 := remainder.Val();
      DigitStart(shorts, d, shortcount, i, r0, number.Val());
      remainder.HalfShift(shorts[i]);
      shorts := shorts[i := 0];
      QuotientDigit(number, remainder, i, d, r0);
      DigitDone(shorts, d, shortcount, i, remainder.Val(), number.Val(), r0);
    }

    /**
     * `divide` past its zero-divisor check, for a non-zero dividend: the
     * dividend takes the product of the signs and is compared with the
     * divisor.  Smaller, it becomes the remainder, sign and all, and the
     * quotient is a positive zero; equal, the quotient is 1 with the sign
     * product (see the findings for the equal case as written); larger, a
     * one-long divisor goes through `digitdivide` with a positive remainder,
     * a longer one through the long division.
     */
    method DivideNonZero(number: N) returns (remainder: N)
      requires Valid() && number.Valid() && number != this && 0 < Val() && 0 < number.Val()
      modifies this
      ensures Valid() && fresh(remainder) && remainder.Valid()
      ensures old(Val()) == Val() * number.Val() + remainder.Val() && remainder.Val() < number.Val()
      ensures remainder.sign == if old(Val()) < number.Val() then old(sign) * number.sign else 1
      ensures sign == if old(Val()) < number.Val() then 1 else old(sign) * number.sign
      ensures old(Val()) < number.Val() ==> Val() == 0
    {
      sign := sign * number.sign;
      var c := Compare(number);
      if c == -1 {
        remainder := Copy();
        Reset();
      } else if c == 0 {
        var s := sign;
        remainder := new N();
        Set(1);
        sign := s;
      } else {
        remainder := DivideLarger(number);
      }
    }

    /**
     * The branches of `divide` for a dividend larger than the divisor: a
     * one-long divisor divides digit by digit, a longer one by long division.
     */
    method DivideLarger(number: N) returns (remainder: N)
      requires Valid() && number.Valid() && number != this && 0 < number.Val() < Val()
      modifies this
      ensures Valid() && sign == old(sign) && fresh(remainder) && remainder.Valid() && remainder.sign == 1
      ensures old(Val()) == Val() * number.Val() + remainder.Val() && remainder.Val() < number.Val()
    {
      if number.longcount == 1 {
        CountedFacts(number.shorts, number.shortcount, number.longcount);
        assert Longs(number.shorts, 1) == [LongAt(number.shorts, 0)];
        var overflow := DigitDivide(LongAt(number.shorts, 0));
        remainder := new N();
        remainder.Set(overflow);
      } else {
        assert number.longcount >= 2 by {
          CountedFacts(number.shorts, number.shortcount, number.longcount);
        }
        remainder := LongDivide(number);
      }
    }

    /**
     * `divide`: the magnitude becomes the quotient of the magnitudes,
     * rounded down, and the remainder is returned as a new number; None
     * when the divisor is zero (the source throws).  A zero dividend is left
     * alone with a positive zero remainder.
     */
    method Divide(number: N) returns (result: Option<N>)
      requires Valid() && number.Valid() && number != this
      modifies this
      ensures Valid()
      ensures number.Val() == 0 <==> result.None?
      ensures result.None? ==> Val() == old(Val()) && sign == old(sign)
      ensures result.Some? ==> (fresh(result.value) && result.value.Valid()
        && old(Val()) == Val() * number.Val() + result.value.Val() && result.value.Val() < number.Val()
        && result.value.sign == (if 0 < old(Val()) < number.Val() then old(sign) * number.sign else 1))
      ensures result.Some? ==> SignedVal() == TDiv(old(SignedVal()), number.SignedVal())
      ensures result.Some? && old(Val()) >= number.Val() ==> sign == old(sign) * number.sign
    {
      CountedFacts(shorts, shortcount, longcount);
      CountedFacts(number.shorts, number.shortcount, number.longcount);
      var z := number.IsZero();
      if z {
        return None;
      }
      var zero := IsZero();
      var remainder;
      ghost var v0, s0 := Val(), sign;
      if zero {
        remainder := new N();
        assert Val() * number.Val() == 0;
      } else {
        remainder := DivideNonZero(number);
      }
      CountedFacts(remainder.shorts, remainder.shortcount, remainder.longcount);
      SignedQuotient(s0, v0, number.sign, number.Val(), Val(), remainder.Val());
      assert sign * Val() == (s0 * number.sign) * Val();
      return Some(remainder);
    }
  }

  /**
   * `N.combine`: a becomes a + b as signed numbers.  When a has the larger
   * magnitude it keeps its sign and gains or loses b's magnitude; otherwise
   * a copy of b gains or loses a's magnitude and a takes it over, sign and
   * all, so equal magnitudes of opposite signs leave a zero with b's sign.
   */
  method Combine(a: N, b: N)
    requires a.Valid() && b.Valid()
    modifies a
    ensures a.Valid() && a.SignedVal() == old(a.SignedVal()) + old(b.SignedVal())
    ensures a.sign == if old(a.Val()) > old(b.Val()) then old(a.sign) else old(b.sign)
  {
    var c := a.Compare(b);
    if c == 1 {
      if a.sign != b.sign {
        a.Subtract(b);
      } else {
        a.Add(b);
      }
    } else {
      var t := b.Copy();
      if a.sign != b.sign {
        t.Subtract(a);
      } else {
        t.Add(a);
      }
      a.Overwrite(t);
    }
  }

  /** A valid number's magnitude is never negative. */
  lemma NonNegative(n: N)
    requires n.Valid()
    ensures 0 <= n.Val()
  {
    CountedFacts(n.shorts, n.shortcount, n.longcount);
  }
}
