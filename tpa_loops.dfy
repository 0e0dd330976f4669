/**
 * The loops of `Tpa.N` in lib/tpa.js that walk a number's storage, as
 * methods on the buffer of shorts: each takes the buffer and returns the
 * buffer the loop leaves behind.  The class in tpa_kernel.dfy calls them and
 * keeps the counts.
 */
module TpaLoops {
  import opened Arith
  import opened Digits
  import opened Words

  /** The step of a carry or borrow loop over longs: x is kept, c moves up one long. */
  lemma StepArith(x: int, c: int, li: int, t: int, p: int)
    requires x + FULL * c == li + t
    ensures (x - li) * p + c * (FULL * p) == t * p
  {
    MulAssoc(c, FULL, p);
    MulDistrib(p, x - li, c * FULL);
  }

  /** The value invariant of a carry loop over longs survives one step. */
  lemma CarryLoopStep(v: int, v1: int, x: int, c: int, c1: int, li: int, m: int, p: int, low: int, low1: int, v0: int)
    requires v1 == v + (x - li) * p && x + FULL * c1 == li + (c + m)
    requires low1 == low + m * p && v + c * p == v0 + low
    ensures v1 + c1 * (FULL * p) == v0 + low1
  {
    StepArith(x, c1, li, c + m, p);
    MulDistrib(p, c, m);
  }

  /** The value invariant of a borrow loop over longs survives one step. */
  lemma BorrowLoopStep(v: int, v1: int, x: int, c: int, c1: int, li: int, m: int, p: int, low: int, low1: int, v0: int)
    requires v1 == v + (x - li) * p && x - FULL * c1 == li - (c + m)
    requires low1 == low + m * p && v - c * p == v0 - low
    ensures v1 - c1 * (FULL * p) == v0 - low1
  {
    StepArith(x, -c1, li, -(c + m), p);
    MulDistrib(p, c, m);
  }

  /** The invariant of the carry loop of `add`: longs below i hold the sum so far, the rest are untouched. */
  ghost predicate AddInv(s: seq<int>, orig: seq<int>, ns: seq<int>, i: nat, digit: int, v0: int)
  {
    && InRange(s, HALF) && InRange(ns, HALF) && 0 <= digit <= 1
    && (forall k: nat :: 2 * i <= k ==> At(s, k) == At(orig, k))
    && Value(s, HALF) + digit * Pow(FULL, i) == v0 + Value(Longs(ns, i), FULL)
  }

  lemma AddStep(s: seq<int>, orig: seq<int>, ns: seq<int>, i: nat, digit: int, v0: int)
    requires AddInv(s, orig, ns, i, digit, v0)
    ensures var sum := digit + LongAt(s, i) + LongAt(ns, i);
      AddInv(PutLong(s, i, Store32(sum)), orig, ns, i + 1, sum / FULL, v0)
  {
    LongRange(s, i);
    LongRange(ns, i);
    var sum := digit + LongAt(s, i) + LongAt(ns, i);
    var x := Store32(sum);
    PutLongFacts(s, i, x);
    LongsSnoc(ns, i);
    CarryLoopStep(Value(s, HALF), Value(PutLong(s, i, x), HALF), x, digit, sum / FULL,
      LongAt(s, i), LongAt(ns, i), Pow(FULL, i),
      Value(Longs(ns, i), FULL), Value(Longs(ns, i + 1), FULL), v0);
  }

  /**
   * The carry loop of `add` on a buffer s of lc longs: the longs of ns are
   * added in while there are any or a carry remains.  Returns the buffer and
   * the number of longs written.
   */
  method AddLongs(s: seq<int>, lc: nat, ns: seq<int>, nlc: nat) returns (r: seq<int>, i: nat)
    requires InRange(s, HALF) && InRange(ns, HALF) && Clean(s, 2 * lc) && Clean(ns, 2 * nlc)
    ensures InRange(r, HALF) && nlc <= i && (lc < i ==> Clean(r, 2 * i))
    ensures forall k: nat :: 2 * i <= k ==> At(r, k) == At(s, k)
    ensures Value(r, HALF) == Value(s, HALF) + Value(ns, HALF)
  {
    var top := if lc < nlc then nlc else lc;
    var digit := 0;
    r, i := s, 0;
    while i < nlc || digit != 0
      invariant 0 <= i <= top + 1 && (i == top + 1 ==> digit == 0)
      invariant AddInv(r, s, ns, i, digit, Value(s, HALF))
      decreases top + 1 - i
    {
      var sum := digit + LongAt(r, i) + LongAt(ns, i);
      AddStep(r, s, ns, i, digit, Value(s, HALF));
      if i == top {
        assert LongAt(r, i) == LongAt(s, i) == 0 && LongAt(ns, i) == 0;
      }
      r := PutLong(r, i, Store32(sum));
      digit := sum / FULL;
      i := i + 1;
    }
    LongsValue(ns, i);
  }

  /** The invariant of the borrow loop of `subtract`. */
  ghost predicate SubInv(s: seq<int>, orig: seq<int>, ns: seq<int>, i: nat, carry: int, v0: int)
  {
    && InRange(s, HALF) && InRange(ns, HALF) && 0 <= carry <= 1
    && (forall k: nat :: 2 * i <= k ==> At(s, k) == At(orig, k))
    && Value(s, HALF) - carry * Pow(FULL, i) == v0 - Value(Longs(ns, i), FULL)
  }

  /** One long of the borrow loop: the difference, plus 2^32 when it is negative, with a borrow of 1 then. */
  function BorrowDigit(digit: int): (int, int)
  {
    if digit < 0 then (digit + FULL, 1) else (digit, 0)
  }

  lemma SubStep(s: seq<int>, orig: seq<int>, ns: seq<int>, i: nat, carry: int, v0: int)
    requires SubInv(s, orig, ns, i, carry, v0)
    ensures var d := BorrowDigit(LongAt(s, i) - LongAt(ns, i) - carry);
      SubInv(PutLong(s, i, d.0), orig, ns, i + 1, d.1, v0)
  {
    LongRange(s, i);
    LongRange(ns, i);
    var d := BorrowDigit(LongAt(s, i) - LongAt(ns, i) - carry);
    PutLongFacts(s, i, d.0);
    LongsSnoc(ns, i);
    BorrowLoopStep(Value(s, HALF), Value(PutLong(s, i, d.0), HALF), d.0, carry, d.1,
      LongAt(s, i), LongAt(ns, i), Pow(FULL, i),
      Value(Longs(ns, i), FULL), Value(Longs(ns, i + 1), FULL), v0);
  }

  /**
   * The borrow loop of `subtract` on a buffer s of lc longs, worth at least
   * ns: the longs of ns are taken away while there are any or a borrow
   * remains (see the findings for the loop as written).
   */
  method SubtractLongs(s: seq<int>, lc: nat, ns: seq<int>, nlc: nat) returns (r: seq<int>)
    requires InRange(s, HALF) && InRange(ns, HALF) && Clean(s, 2 * lc) && Clean(ns, 2 * nlc)
    requires nlc <= lc && Value(s, HALF) >= Value(ns, HALF)
    ensures InRange(r, HALF) && Clean(r, 2 * lc)
    ensures Value(r, HALF) == Value(s, HALF) - Value(ns, HALF)
  {
    var i, carry := 0, 0;
    r := s;
    while i < nlc || carry != 0
      invariant 0 <= i <= lc
      invariant SubInv(r, s, ns, i, carry, Value(s, HALF))
      decreases lc - i
    {
      if i == lc {
        LongsValue(ns, i);
        CleanBound(r, 2 * i);
        PowFull(i);
        assert false;
      }
      var d := BorrowDigit(LongAt(r, i) - LongAt(ns, i) - carry);
      SubStep(r, s, ns, i, carry, Value(s, HALF));
      r := PutLong(r, i, d.0);
      carry := d.1;
      i := i + 1;
    }
    LongsValue(ns, i);
  }


  /** Long i of the modulus step of `subtractMultiple`: t is taken from l, borrowing 2^32 when the low part of t exceeds l. */
  function SubMulDigit(l: int, t: int): (int, int)
  {
    var modulus := t % FULL;
    if modulus > l then (l + (FULL - modulus), t / FULL + 1) else (l - modulus, t / FULL)
  }

  /** The invariant of the loop of `subtractMultiple`. */
  ghost predicate SubMulInv(s: seq<int>, orig: seq<int>, ns: seq<int>, d: int, i: nat, rem: int, v0: int)
  {
    && InRange(s, HALF) && InRange(ns, HALF) && 0 <= rem
    && (forall k: nat :: 2 * i <= k ==> At(s, k) == At(orig, k))
    && Value(s, HALF) - rem * Pow(FULL, i) == v0 - d * Value(Longs(ns, i), FULL)
  }

  lemma SubMulStep(s: seq<int>, orig: seq<int>, ns: seq<int>, d: int, i: nat, rem: int, v0: int)
    requires SubMulInv(s, orig, ns, d, i, rem, v0) && d >= 0
    ensures var m := SubMulDigit(LongAt(s, i), rem + LongAt(ns, i) * d);
      SubMulInv(PutLong(s, i, m.0), orig, ns, d, i + 1, m.1, v0)
  {
    LongRange(s, i);
    LongRange(ns, i);
    var t := rem + LongAt(ns, i) * d;
    MulNonNeg(LongAt(ns, i), d);
    var m := SubMulDigit(LongAt(s, i), t);
    PutLongFacts(s, i, m.0);
    LongsSnoc(ns, i);
    var p := Pow(FULL, i);
    var low := Value(Longs(ns, i), FULL);
    assert d * (low + LongAt(ns, i) * p) == d * low + (LongAt(ns, i) * d) * p by {
      MulDistrib(d, low, LongAt(ns, i) * p);
      MulAssoc(d, LongAt(ns, i), p);
    }
    BorrowLoopStep(Value(s, HALF), Value(PutLong(s, i, m.0), HALF), m.0, rem, m.1,
      LongAt(s, i), LongAt(ns, i) * d, p, d * low, d * Value(Longs(ns, i + 1), FULL), v0);
  }

  /**
   * The loop of `subtractMultiple`: d times ns is taken from the lc longs of
   * s, long by long with a running remainder.  When s is worth at least d
   * times ns and ns has no more longs than s, the remainder left at the top
   * is 0 and the buffer holds the difference.
   */
  method SubtractMultipleLongs(s: seq<int>, lc: nat, ns: seq<int>, d: int) returns (r: seq<int>)
    requires InRange(s, HALF) && InRange(ns, HALF) && Clean(s, 2 * lc) && Clean(ns, 2 * lc)
    requires d >= 0 && Value(s, HALF) >= d * Value(ns, HALF)
    ensures InRange(r, HALF) && Clean(r, 2 * lc)
    ensures Value(r, HALF) == Value(s, HALF) - d * Value(ns, HALF)
  {
    var rem := 0;
    var i := 0;
    r := s;
    while i < lc
      invariant 0 <= i <= lc
      invariant SubMulInv(r, s, ns, d, i, rem, Value(s, HALF))
    {
      var m := SubMulDigit(LongAt(r, i), rem + LongAt(ns, i) * d);
      SubMulStep(r, s, ns, d, i, rem, Value(s, HALF));
      r := PutLong(r, i, m.0);
      rem := m.1;
      i := i + 1;
    }
    SubMulFinish(r, s, ns, d, lc, rem);
  }

  /** At the top of `subtractMultiple` no remainder can be left when the difference is not negative. */
  lemma SubMulFinish(r: seq<int>, s: seq<int>, ns: seq<int>, d: int, lc: nat, rem: int)
    requires SubMulInv(r, s, ns, d, lc, rem, Value(s, HALF)) && Clean(s, 2 * lc) && Clean(ns, 2 * lc)
    requires Value(s, HALF) >= d * Value(ns, HALF)
    ensures Clean(r, 2 * lc) && Value(r, HALF) == Value(s, HALF) - d * Value(ns, HALF)
  {
    LongsValue(ns, lc);
    assert Clean(r, 2 * lc) by {
      forall k: nat | 2 * lc <= k
        ensures At(r, k) == 0
      {
        assert At(r, k) == At(s, k);
      }
    }
    CleanBound(r, 2 * lc);
    PowFull(lc);
    NoTopRemainder(Value(r, HALF), rem, Pow(FULL, lc), Value(s, HALF) - d * Value(ns, HALF));
  }

  lemma NoTopRemainder(v: int, rem: int, p: int, w: int)
    requires 0 <= v < p && 0 <= rem && v - rem * p == w && 0 <= w
    ensures rem == 0 && v == w
  {
    if rem > 0 {
      MulMonotone(p, 1, rem);
    }
  }

  /** The invariant of the loop of `digitmultiply`. */
  ghost predicate MulInv(s: seq<int>, orig: seq<int>, m: int, i: nat, digit: int, v0: int)
  {
    && InRange(s, HALF) && 0 <= digit < FULL
    && (forall k: nat :: 2 * i <= k ==> At(s, k) == At(orig, k))
    && Value(s, HALF) + digit * Pow(FULL, i) == v0 + (m - 1) * Value(Longs(orig, i), FULL)
  }

  lemma MulDigitBound(digit: int, l: int, m: int)
    requires 0 <= digit < FULL && 0 <= l < FULL && 0 <= m < FULL
    ensures 0 <= digit + l * m && (digit + l * m) / FULL < FULL
  {
    MulMonotone(l, m, FULL - 1);
    MulMonotone(FULL - 1, l, FULL - 1);
    MulNonNeg(l, m);
  }

  lemma MulStep(s: seq<int>, orig: seq<int>, m: int, i: nat, digit: int, v0: int)
    requires MulInv(s, orig, m, i, digit, v0) && 0 <= m < FULL && InRange(orig, HALF)
    requires LongAt(s, i) == LongAt(orig, i)
    ensures var t := digit + LongAt(s, i) * m;
      MulInv(PutLong(s, i, Store32(t)), orig, m, i + 1, t / FULL, v0)
  {
    LongRange(s, i);
    var l := LongAt(s, i);
    var t := digit + l * m;
    MulDigitBound(digit, l, m);
    var x := Store32(t);
    PutLongFacts(s, i, x);
    LongsSnoc(orig, i);
    MulStepArith(Value(s, HALF), Value(PutLong(s, i, x), HALF), x, digit, t / FULL, l, m, Pow(FULL, i),
      Value(Longs(orig, i), FULL), Value(Longs(orig, i + 1), FULL), v0);
  }

  lemma MulStepArith(v: int, v1: int, x: int, c: int, c1: int, l: int, m: int, p: int, low: int, low1: int, v0: int)
    requires v1 == v + (x - l) * p && x + FULL * c1 == c + l * m
    requires low1 == low + l * p && v + c * p == v0 + (m - 1) * low
    ensures v1 + c1 * (FULL * p) == v0 + (m - 1) * low1
  {
    assert (m - 1) * low1 == (m - 1) * low + (l * (m - 1)) * p by {
      MulDistrib(m - 1, low, l * p);
      MulAssoc(m - 1, l, p);
    }
    assert c + l * m == l + (c + l * (m - 1)) by { MulDistrib(l, m, -1); }
    CarryLoopStep(v, v1, x, c, c1, l, l * (m - 1), p, (m - 1) * low, (m - 1) * low1, v0);
  }

  /**
   * The loop of `digitmultiply`: each of the lc longs of s is multiplied by
   * m and the running carry added; the carry left over is stored in long lc
   * when it is not zero.  The buffer then holds s*m + d.
   */
  method MultiplyLongs(s: seq<int>, lc: nat, m: int, d: int) returns (r: seq<int>)
    requires InRange(s, HALF) && Clean(s, 2 * lc) && 0 <= m < FULL && 0 <= d < FULL
    ensures InRange(r, HALF) && Clean(r, 2 * lc + 2)
    ensures Value(r, HALF) == Value(s, HALF) * m + d
  {
    var digit := d;
    var i := 0;
    r := s;
    while i < lc
      invariant 0 <= i <= lc
      invariant MulInv(r, s, m, i, digit, Value(s, HALF) + d)
    {
      var t := digit + LongAt(r, i) * m;
      assert LongAt(r, i) == LongAt(s, i);
      MulStep(r, s, m, i, digit, Value(s, HALF) + d);
      r := PutLong(r, i, Store32(t));
      digit := t / FULL;
      i := i + 1;
    }
    LongsValue(s, lc);
    assert Value(s, HALF) + (m - 1) * Value(s, HALF) == Value(s, HALF) * m by {
      MulDistrib(Value(s, HALF), m, -1);
    }
    if digit != 0 {
      assert LongAt(r, lc) == LongAt(s, lc) == 0;
      PutLongFacts(r, lc, digit);
      r := PutLong(r, lc, digit);
    }
  }

  /** The invariant of the long loop of `digitdivide`: longs above i hold quotient longs, the rest are untouched. */
  ghost predicate DivLongsInv(r: seq<int>, s: seq<int>, lc: nat, i: int, ov: int, dv: int)
  {
    && -1 <= i < lc && 0 <= ov < dv && InRange(r, HALF) && Clean(r, 2 * lc)
    && Longs(r, lc)[..i + 1] == Longs(s, lc)[..i + 1]
    && Value(Longs(s, lc)[i + 1..], FULL) == Value(Longs(r, lc)[i + 1..], FULL) * dv + ov
  }

  lemma DivLongsStep(r: seq<int>, s: seq<int>, lc: nat, i: int, ov: int, dv: int)
    requires DivLongsInv(r, s, lc, i, ov, dv) && 0 <= i && dv < FULL
    ensures var t := ov * FULL + LongAt(r, i);
      0 <= t && DivLongsInv(PutLong(r, i, t / dv), s, lc, i - 1, t % dv, dv)
  {
    LongRange(r, i);
    var t := ov * FULL + LongAt(r, i);
    MulNonNeg(ov, FULL);
    var q := t / dv;
    assert TDiv(t, dv) == q && TMod(t, dv) == t % dv by { TDivNonNeg(t, dv); }
    QuotientBelow(ov, LongAt(r, i), dv, FULL);
    DivLoopValue(Longs(r, lc), Longs(s, lc), i, ov, dv, FULL);
    LongsPut(r, lc, i, q);
    PutLongFacts(r, i, q);
  }

  /** A quotient digit of a division from the top fits the radix when the overflow is below the divisor. */
  lemma QuotientBelow(ov: int, x: int, dv: int, b: int)
    requires 0 <= ov < dv && 0 <= x < b
    ensures 0 <= (ov * b + x) / dv < b
  {
    var t := ov * b + x;
    MulNonNeg(ov, b);
    MulMonotone(b, ov + 1, dv);
    var q := t / dv;
    if q >= b {
      MulMonotone(dv, b, q);
    }
  }

  /**
   * The long loop of `digitdivide`: from the top long down, the running
   * overflow and the long make a numerator whose quotient by dv replaces the
   * long and whose remainder is the next overflow.
   */
  method DivideLongs(s: seq<int>, lc: nat, dv: int) returns (r: seq<int>, ov: int)
    requires InRange(s, HALF) && Clean(s, 2 * lc) && 0 < dv < FULL
    ensures InRange(r, HALF) && Clean(r, 2 * lc)
    ensures Value(s, HALF) == Value(r, HALF) * dv + ov && 0 <= ov < dv
  {
    r, ov := s, 0;
    var i: int := lc - 1;
    while i >= 0
      invariant DivLongsInv(r, s, lc, i, ov, dv)
    {
      var t := ov * FULL + LongAt(r, i);
      DivLongsStep(r, s, lc, i, ov, dv);
      r := PutLong(r, i, t / dv);
      ov := t % dv;
      i := i - 1;
    }
    LongsValue(s, lc);
    LongsValue(r, lc);
  }

  /** The invariant of the short loop of `digitdivide`. */
  ghost predicate DivShortsInv(r: seq<int>, s: seq<int>, sc: nat, i: int, ov: int, dv: int)
  {
    && -1 <= i < sc && sc <= |s| && 0 <= ov < dv && |r| == |s| && InRange(r, HALF) && Clean(r, sc)
    && r[..i + 1] == s[..i + 1]
    && Value(s[i + 1..], HALF) == Value(r[i + 1..], HALF) * dv + ov
  }

  lemma DivShortsStep(r: seq<int>, s: seq<int>, sc: nat, i: int, ov: int, dv: int)
    requires DivShortsInv(r, s, sc, i, ov, dv) && 0 <= i && sc <= |s|
    ensures var t := ov * HALF + r[i];
      0 <= t && DivShortsInv(r[i := t / dv], s, sc, i - 1, t % dv, dv)
  {
    var t := ov * HALF + r[i];
    MulNonNeg(ov, HALF);
    var q := t / dv;
    assert TDiv(t, dv) == q && TMod(t, dv) == t % dv by { TDivNonNeg(t, dv); }
    QuotientBelow(ov, r[i], dv, HALF);
    DivLoopValue(r, s, i, ov, dv, HALF);
    var r1 := r[i := q];
    assert r1[..i] == s[..i];
    assert Clean(r1, sc) by {
      forall k: nat | sc <= k
        ensures At(r1, k) == 0
      {
        assert At(r1, k) == At(r, k);
      }
    }
  }

  /** The short loop of `digitdivide`, used for divisors of 2^16 or more: the same, a short at a time. */
  method DivideShorts(s: seq<int>, sc: nat, dv: int) returns (r: seq<int>, ov: int)
    requires InRange(s, HALF) && Clean(s, sc) && sc <= |s| && 0 < dv < FULL
    ensures InRange(r, HALF) && Clean(r, sc)
    ensures Value(s, HALF) == Value(r, HALF) * dv + ov && 0 <= ov < dv
  {
    r, ov := s, 0;
    var i: int := sc - 1;
    assert Value(s[sc..], HALF) == 0 by {
      forall k | 0 <= k < |s[sc..]|
        ensures s[sc..][k] == 0
      {
        assert At(s, sc + k) == 0;
      }
      ValueAllZero(s[sc..], HALF);
    }
    while i >= 0
      invariant DivShortsInv(r, s, sc, i, ov, dv)
    {
      var t := ov * HALF + r[i];
      DivShortsStep(r, s, sc, i, ov, dv);
      r := r[i := t / dv];
      ov := t % dv;
      i := i - 1;
    }
  }

  /** Adding multiples of f to what is scaled does not change a remainder modulo f. */
  lemma ModStep(a: int, b: int, x: int, y: int, f: int)
    requires f > 0 && x % f == y % f
    ensures (a + b * x) % f == (a + b * y) % f
  {
    var k := x / f - y / f;
    assert x == y + k * f by { MulDistrib(f, x / f, -(y / f)); }
    MulDistrib(b, y, k * f);
    MulAssoc(b, k, f);
    ModMultiple(a + b * y, b * k, f);
  }

  /**
   * The loops of `isDivisibleBy`: from the top digit down, the running
   * remainder scaled by the radix plus the digit.  The last value has the
   * remainder modulo f of the whole.
   */
  method RemainderLoop(ds: seq<int>, b: int, f: int) returns (temp: int)
    requires f > 0 && b > 0 && forall k :: 0 <= k < |ds| ==> ds[k] >= 0
    ensures temp >= 0 && temp % f == Value(ds, b) % f
  {
    temp := 0;
    var i := |ds| - 1;
    while i >= 0
      invariant -1 <= i < |ds| && temp >= 0
      invariant temp % f == Value(ds[i + 1..], b) % f
    {
      assert ds[i..] == [ds[i]] + ds[i + 1..];
      ValueCons(ds[i], ds[i + 1..], b);
      ModStep(ds[i], b, temp % f, Value(ds[i + 1..], b), f);
      MulNonNeg(temp % f, b);
      assert (temp % f) * b == b * (temp % f);
      temp := (temp % f) * b + ds[i];
      i := i - 1;
    }
  }

  /**
   * The loop of `halfshift`: shorts 0 to sc move up one place, and short 0
   * receives the new digit (as a 16-bit store).
   */
  method ShiftShorts(s: seq<int>, sc: nat, digit: int) returns (r: seq<int>)
    requires InRange(s, HALF) && Clean(s, sc)
    ensures InRange(r, HALF) && Clean(r, sc + 1)
    ensures Value(r, HALF) == Value(s, HALF) * HALF + Store16(digit)
  {
    r := s;
    var j: int := sc;
    while j >= 0
      invariant -1 <= j <= sc && InRange(r, HALF)
      invariant forall k: nat :: k <= j ==> At(r, k) == At(s, k)
      invariant forall k: nat :: j + 1 < k <= sc + 1 ==> At(r, k) == At(s, k - 1)
      invariant forall k: nat :: sc + 1 < k ==> At(r, k) == At(s, k)
    {
      AtPut(r, j + 1, At(r, j));
      r := Put(r, j + 1, At(r, j));
      j := j - 1;
    }
    AtPut(r, 0, Store16(digit));
    r := Put(r, 0, Store16(digit));
    var t := [Store16(digit)] + s;
    forall k: nat
      ensures At(r, k) == At(t, k)
    {
      if k > 0 {
        assert At(t, k) == At(s, k - 1);
      }
    }
    ValueAtEqual(r, t, HALF);
    ValueCons(Store16(digit), s, HALF);
  }

  /**
   * The loop of `fullshift`: longs 0 to lc move up one place, and long 0
   * receives the new digit (as a 32-bit store).
   */
  method ShiftLongs(s: seq<int>, lc: nat, digit: int) returns (r: seq<int>)
    requires InRange(s, HALF) && Clean(s, 2 * lc)
    ensures InRange(r, HALF) && Clean(r, 2 * lc + 2)
    ensures Value(r, HALF) == Value(s, HALF) * FULL + Store32(digit)
  {
    r := s;
    var j: int := lc;
    while j >= 0
      invariant -1 <= j <= lc && InRange(r, HALF)
      invariant forall k: nat :: k <= j ==> LongAt(r, k) == LongAt(s, k)
      invariant forall k: nat :: j + 1 < k <= lc + 1 ==> LongAt(r, k) == LongAt(s, k - 1)
      invariant forall k: nat :: 2 * lc + 4 <= k ==> At(r, k) == At(s, k)
    {
      LongRange(r, j);
      PutLongFrame(r, j + 1, LongAt(r, j));
      r := PutLong(r, j + 1, LongAt(r, j));
      j := j - 1;
    }
    PutLongFacts(r, 0, Store32(digit));
    r := PutLong(r, 0, Store32(digit));
    ShiftLongsValue(r, s, lc, Store32(digit));
  }

  lemma ShiftLongsValue(r: seq<int>, s: seq<int>, lc: nat, x: int)
    requires InRange(r, HALF) && InRange(s, HALF) && Clean(s, 2 * lc)
    requires LongAt(r, 0) == x
    requires forall k: nat :: 0 < k <= lc + 1 ==> LongAt(r, k) == LongAt(s, k - 1)
    requires forall k: nat :: 2 * lc + 4 <= k ==> At(r, k) == At(s, k)
    ensures Clean(r, 2 * lc + 2)
    ensures Value(r, HALF) == Value(s, HALF) * FULL + x
  {
    ShiftLongsClean(r, s, lc);
    LongsValue(r, lc + 1);
    LongsValue(s, lc);
    assert Longs(r, lc + 1) == [x] + Longs(s, lc);
    ValueCons(x, Longs(s, lc), FULL);
  }

  /** After the shift the shorts past the moved longs are still zero. */
  lemma ShiftLongsClean(r: seq<int>, s: seq<int>, lc: nat)
    requires InRange(r, HALF) && Clean(s, 2 * lc)
    requires forall k: nat :: 0 < k <= lc + 1 ==> LongAt(r, k) == LongAt(s, k - 1)
    requires forall k: nat :: 2 * lc + 4 <= k ==> At(r, k) == At(s, k)
    ensures Clean(r, 2 * lc + 2)
  {
    forall k: nat | 2 * lc + 2 <= k
      ensures At(r, k) == 0
    {
      if k < 2 * lc + 4 {
        var j := k / 2;
        assert LongAt(r, j) == LongAt(s, j - 1) == 0 by {
          assert At(s, 2 * (j - 1)) == 0 && At(s, 2 * (j - 1) + 1) == 0;
        }
        LongRange(r, j);
      }
    }
  }

  /** The invariant of the inner loop of `accumulate` for row i: x times the first j digits of hs, moved up i longs, is added in. */
  ghost predicate RowInv(r: seq<int>, v0: int, i: nat, x: int, hs: seq<int>, j: nat, digit: int)
  {
    && InRange(r, HALF) && 0 <= digit < FULL && j <= |hs|
    && Value(r, HALF) + digit * Pow(FULL, i + j) == v0 + x * Value(hs[..j], FULL) * Pow(FULL, i)
  }

  lemma RowDigitBound(digit: int, x: int, h: int, l: int)
    requires 0 <= digit < FULL && 0 <= x < FULL && 0 <= h < FULL && 0 <= l < FULL
    ensures 0 <= digit + x * h + l && (digit + x * h + l) / FULL < FULL
  {
    MulMonotone(x, h, FULL - 1);
    MulMonotone(FULL - 1, x, FULL - 1);
    MulNonNeg(x, h);
  }

  lemma RowArith(x: int, w: int, h: int, pi: int, pj: int)
    ensures x * (w + pj * h) * pi == x * w * pi + (x * h) * (pi * pj)
  {
    MulDistrib(x, w, pj * h);
    MulDistrib(pi, x * w, x * (pj * h));
  }

  lemma RowStep(r: seq<int>, v0: int, i: nat, x: int, hs: seq<int>, j: nat, digit: int)
    requires RowInv(r, v0, i, x, hs, j, digit) && j < |hs| && 0 <= x < FULL && InRange(hs, FULL)
    ensures var t := digit + x * hs[j] + LongAt(r, i + j);
      RowInv(PutLong(r, i + j, Store32(t)), v0, i, x, hs, j + 1, t / FULL)
  {
    var l := LongAt(r, i + j);
    LongRange(r, i + j);
    var t := digit + x * hs[j] + l;
    RowDigitBound(digit, x, hs[j], l);
    var st := Store32(t);
    PutLongFacts(r, i + j, st);
    Store32Split(t);
    RowLow(hs, j, x, i);
    CarryLoopStep(Value(r, HALF), Value(PutLong(r, i + j, st), HALF), st, digit, t / FULL, l, x * hs[j],
      Pow(FULL, i + j), x * Value(hs[..j], FULL) * Pow(FULL, i), x * Value(hs[..j + 1], FULL) * Pow(FULL, i), v0);
  }

  /** One more long of hs in a row: the row's part grows by x*hs[j] at long i + j. */
  lemma RowLow(hs: seq<int>, j: nat, x: int, i: nat)
    requires j < |hs|
    ensures x * Value(hs[..j + 1], FULL) * Pow(FULL, i)
      == x * Value(hs[..j], FULL) * Pow(FULL, i) + (x * hs[j]) * Pow(FULL, i + j)
  {
    assert hs[..j + 1] == hs[..j] + [hs[j]];
    ValueSnoc(hs[..j], hs[j], FULL);
    PowAdd(FULL, i, j);
    RowArith(x, Value(hs[..j], FULL), hs[j], Pow(FULL, i), Pow(FULL, j));
  }

  /** The invariant of the carry loop that ends a row of `accumulate` (see the findings for the row as written). */
  ghost predicate TailInv(r: seq<int>, target: int, k: nat, digit: int)
  {
    InRange(r, HALF) && 0 <= digit < FULL && Value(r, HALF) + digit * Pow(FULL, k) == target
  }

  lemma TailStep(r: seq<int>, target: int, k: nat, digit: int)
    requires TailInv(r, target, k, digit)
    ensures var t := digit + LongAt(r, k);
      TailInv(PutLong(r, k, Store32(t)), target, k + 1, t / FULL)
  {
    LongRange(r, k);
    var t := digit + LongAt(r, k);
    PutLongFacts(r, k, Store32(t));
    CarryLoopStep(Value(r, HALF), Value(PutLong(r, k, Store32(t)), HALF), Store32(t), digit, t / FULL,
      LongAt(r, k), 0, Pow(FULL, k), 0, 0, target);
  }

  /** While a carry is left, the carry position is below the target. */
  lemma TailBound(r: seq<int>, target: int, k: nat, digit: int)
    requires TailInv(r, target, k, digit) && digit != 0
    ensures k < target
  {
    ValueInRangeBounds(r, HALF);
    PowAbove(k);
    MulMonotone(Pow(FULL, k), 1, digit);
  }

  /**
   * One row of `accumulate`: x times the digits hs (base 2^32) is added into
   * the buffer from long i up, with a running carry; the carry left at the
   * end of the row is carried on up the buffer until none remains.
   */
  method AccumulateRow(s: seq<int>, i: nat, x: int, hs: seq<int>) returns (r: seq<int>)
    requires InRange(s, HALF) && 0 <= x < FULL && InRange(hs, FULL)
    ensures InRange(r, HALF)
    ensures Value(r, HALF) == Value(s, HALF) + x * Value(hs, FULL) * Pow(FULL, i)
  {
    var digit := 0;
    var j := 0;
    r := s;
    while j < |hs|
      invariant RowInv(r, Value(s, HALF), i, x, hs, j, digit)
    {
      var t := digit + x * hs[j] + LongAt(r, i + j);
      RowStep(r, Value(s, HALF), i, x, hs, j, digit);
      r := PutLong(r, i + j, Store32(t));
      digit := t / FULL;
      j := j + 1;
    }
    assert hs[..j] == hs;
    r := CarryOut(r, Value(s, HALF) + x * Value(hs, FULL) * Pow(FULL, i), i + j, digit);
  }

  /** The carry loop of `accumulate`: the last carry is added in from long k0 upwards until none is left. */
  method CarryOut(s: seq<int>, ghost target: int, k0: nat, d0: int) returns (r: seq<int>)
    requires TailInv(s, target, k0, d0)
    ensures InRange(r, HALF) && Value(r, HALF) == target
  {
    r := s;
    var k, digit := k0, d0;
    while digit != 0
      invariant TailInv(r, target, k, digit)
      decreases target - k
    {
      TailBound(r, target, k, digit);
      var t := digit + LongAt(r, k);
      TailStep(r, target, k, digit);
      r := PutLong(r, k, Store32(t));
      digit := t / FULL;
      k := k + 1;
    }
  }

  /**
   * The loop of `accumulate`: for each of the first xlc longs of xs, a row
   * adds that long times hs, moved up to its position.  The buffer gains
   * the product of the longs and hs.
   */
  method AccumulateLongs(s: seq<int>, xs: seq<int>, xlc: nat, hs: seq<int>) returns (r: seq<int>)
    requires InRange(s, HALF) && InRange(xs, HALF) && InRange(hs, FULL)
    ensures InRange(r, HALF)
    ensures Value(r, HALF) == Value(s, HALF) + Value(Longs(xs, xlc), FULL) * Value(hs, FULL)
  {
    r := s;
    var i := 0;
    while i < xlc
      invariant 0 <= i <= xlc && InRange(r, HALF)
      invariant Value(r, HALF) == Value(s, HALF) + Value(Longs(xs, i), FULL) * Value(hs, FULL)
    {
      LongRange(xs, i);
      r := AccumulateRow(r, i, LongAt(xs, i), hs);
      LongsSnoc(xs, i);
      AccumulateArith(Value(Longs(xs, i), FULL), LongAt(xs, i), Pow(FULL, i), Value(hs, FULL));
      i := i + 1;
    }
  }

  lemma AccumulateArith(low: int, x: int, p: int, h: int)
    ensures (low + x * p) * h == low * h + x * h * p
  {
    MulDistrib(h, low, x * p);
  }
}
