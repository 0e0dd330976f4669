/**
 * Little-endian digit sequences in an arbitrary radix and the integer they
 * denote, Value(ds, b) = ds[0] + ds[1]*b + ds[2]*b^2 + ...  Digits may be
 * negative or larger than the radix: both kernels let digits drift out of
 * range between carry passes.
 */
module Digits {
  import opened Arith

  function Value(ds: seq<int>, b: int): int
  {
    if ds == [] then 0 else ds[0] + b * Value(ds[1..], b)
  }

  /** Digit i, or 0 past the end (reading beyond the used part of a buffer). */
  function At(ds: seq<int>, i: nat): int
  {
    if i < |ds| then ds[i] else 0
  }

  function Zeros(n: nat): (z: seq<int>)
    ensures |z| == n && forall i :: 0 <= i < n ==> z[i] == 0
  {
    if n == 0 then [] else Zeros(n - 1) + [0]
  }

  /** Writes digit i, first growing the sequence with zero digits if it is too short. */
  function Put(ds: seq<int>, i: nat, v: int): (r: seq<int>)
    ensures |r| == if i < |ds| then |ds| else i + 1
    ensures r[i] == v
    ensures forall k :: 0 <= k < |r| && k != i ==> r[k] == At(ds, k)
  {
    (if i < |ds| then ds else ds + Zeros(i + 1 - |ds|))[i := v]
  }

  /** Every digit strictly inside (-b, b). */
  ghost predicate Normalised(ds: seq<int>, b: int)
  {
    forall i :: 0 <= i < |ds| ==> -b < ds[i] < b
  }

  /** Every digit in [0, b). */
  ghost predicate InRange(ds: seq<int>, b: int)
  {
    forall i :: 0 <= i < |ds| ==> 0 <= ds[i] < b
  }

  /** No most-significant zero digit. */
  ghost predicate NoTopZero(ds: seq<int>)
  {
    ds == [] || ds[|ds| - 1] != 0
  }

  ghost predicate Canonical(ds: seq<int>, b: int)
  {
    InRange(ds, b) && NoTopZero(ds)
  }

  /** The sequence with its most-significant zero digits removed. */
  function Trim(ds: seq<int>): (r: seq<int>)
    ensures |r| <= |ds| && r == ds[..|r|]
    ensures NoTopZero(r)
    ensures forall i :: |r| <= i < |ds| ==> ds[i] == 0
  {
    if ds == [] || ds[|ds| - 1] != 0 then ds else Trim(ds[..|ds| - 1])
  }

  lemma {:induction false} ValueAppend(xs: seq<int>, ys: seq<int>, b: int)
    ensures Value(xs + ys, b) == Value(xs, b) + Pow(b, |xs|) * Value(ys, b)
  {
    if xs != [] {
      assert (xs + ys)[1..] == xs[1..] + ys;
      ValueAppend(xs[1..], ys, b);
      var p := Pow(b, |xs| - 1);
      var u, w := Value(xs[1..], b), Value(ys, b);
      assert Pow(b, |xs|) == b * p;
      calc {
        Value(xs + ys, b);
        xs[0] + b * Value(xs[1..] + ys, b);
        xs[0] + b * (u + p * w);
        { MulDistrib(b, u, p * w); }
        xs[0] + b * u + b * (p * w);
        { MulAssoc(b, p, w); }
        xs[0] + b * u + (b * p) * w;
      }
    } else {
      assert xs + ys == ys;
    }
  }

  lemma ValueSplit(ds: seq<int>, i: nat, b: int)
    requires i <= |ds|
    ensures Value(ds, b) == Value(ds[..i], b) + Pow(b, i) * Value(ds[i..], b)
  {
    assert ds == ds[..i] + ds[i..];
    ValueAppend(ds[..i], ds[i..], b);
  }

  lemma ValueSnoc(ds: seq<int>, x: int, b: int)
    ensures Value(ds + [x], b) == Value(ds, b) + Pow(b, |ds|) * x
  {
    ValueAppend(ds, [x], b);
    assert Value([x], b) == x + b * Value([], b);
  }

  lemma ValueCons(x: int, ds: seq<int>, b: int)
    ensures Value([x] + ds, b) == x + b * Value(ds, b)
  {
    assert ([x] + ds)[1..] == ds;
  }

  lemma {:induction false} ValueAllZero(ds: seq<int>, b: int)
    requires forall i :: 0 <= i < |ds| ==> ds[i] == 0
    ensures Value(ds, b) == 0
  {
    if ds != [] {
      ValueAllZero(ds[1..], b);
    }
  }

  /** Zero digits above position k do not contribute. */
  lemma ValueZeroTail(ds: seq<int>, k: nat, b: int)
    requires k <= |ds|
    requires forall i :: k <= i < |ds| ==> ds[i] == 0
    ensures Value(ds, b) == Value(ds[..k], b)
  {
    ValueSplit(ds, k, b);
    ValueAllZero(ds[k..], b);
  }

  lemma ValueTrim(ds: seq<int>, b: int)
    ensures Value(Trim(ds), b) == Value(ds, b)
  {
    ValueZeroTail(ds, |Trim(ds)|, b);
  }

  lemma ValueZerosAppended(ds: seq<int>, n: nat, b: int)
    ensures Value(ds + Zeros(n), b) == Value(ds, b)
  {
    ValueZeroTail(ds + Zeros(n), |ds|, b);
    assert (ds + Zeros(n))[..|ds|] == ds;
  }

  /** Changing digit i changes the value by the difference times b^i. */
  lemma ValueUpdate(ds: seq<int>, i: nat, v: int, b: int)
    requires i < |ds|
    ensures Value(ds[i := v], b) == Value(ds, b) + (v - ds[i]) * Pow(b, i)
  {
    var es := ds[i := v];
    ValueSplit(ds, i, b);
    ValueSplit(es, i, b);
    assert es[..i] == ds[..i];
    assert es[i..] == [v] + ds[i + 1..];
    assert ds[i..] == [ds[i]] + ds[i + 1..];
    ValueCons(v, ds[i + 1..], b);
    ValueCons(ds[i], ds[i + 1..], b);
  }

  lemma ValuePut(ds: seq<int>, i: nat, v: int, b: int)
    ensures Value(Put(ds, i, v), b) == Value(ds, b) + (v - At(ds, i)) * Pow(b, i)
  {
    var es := if i < |ds| then ds else ds + Zeros(i + 1 - |ds|);
    if i >= |ds| {
      ValueZerosAppended(ds, i + 1 - |ds|, b);
    }
    assert es[i] == At(ds, i);
    ValueUpdate(es, i, v, b);
  }

  lemma {:induction false} ValueInRangeBounds(ds: seq<int>, b: int)
    requires b > 1 && InRange(ds, b)
    ensures 0 <= Value(ds, b) < Pow(b, |ds|)
  {
    if ds != [] {
      assert InRange(ds[1..], b);
      ValueInRangeBounds(ds[1..], b);
      var v, p := Value(ds[1..], b), Pow(b, |ds| - 1);
      assert Value(ds, b) == ds[0] + b * v;
      assert Pow(b, |ds|) == b * p;
      MulMonotone(b, v, p - 1);
      MulNonNeg(b, v);
      MulDistrib(b, p, -1);
    }
  }

  /** Digits that all lie on one side of zero give a value on that side. */
  lemma {:induction false} SameSignValue(ds: seq<int>, b: int)
    requires b > 0
    ensures (forall i :: 0 <= i < |ds| ==> ds[i] >= 0) ==> Value(ds, b) >= 0
    ensures (forall i :: 0 <= i < |ds| ==> ds[i] <= 0) ==> Value(ds, b) <= 0
  {
    if ds != [] {
      SameSignValue(ds[1..], b);
      var v := Value(ds[1..], b);
      assert Value(ds, b) == ds[0] + b * v;
      if v >= 0 {
        MulNonNeg(b, v);
      } else {
        MulMonotone(b, v, 0);
      }
    }
  }

  /** A non-empty canonical sequence has exactly |ds| digits' worth of value. */
  lemma CanonicalLowerBound(ds: seq<int>, b: int)
    requires b > 1 && Canonical(ds, b) && ds != []
    ensures Pow(b, |ds| - 1) <= Value(ds, b)
  {
    var n := |ds| - 1;
    ValueSplit(ds, n, b);
    assert ds[n..] == [ds[n]];
    assert Value(ds[n..], b) == ds[n] + b * Value([], b);
    assert InRange(ds[..n], b);
    ValueInRangeBounds(ds[..n], b);
    PowPositive(b, n);
    MulMonotone(Pow(b, n), 1, ds[n]);
  }

  lemma {:induction false} ValueNormalisedBound(ds: seq<int>, b: int)
    requires b > 1 && Normalised(ds, b)
    ensures -Pow(b, |ds|) < Value(ds, b) < Pow(b, |ds|)
  {
    if ds != [] {
      assert Normalised(ds[1..], b);
      ValueNormalisedBound(ds[1..], b);
      var v, p := Value(ds[1..], b), Pow(b, |ds| - 1);
      assert Value(ds, b) == ds[0] + b * v;
      assert Pow(b, |ds|) == b * p;
      MulMonotone(b, v, p - 1);
      MulMonotone(b, 1 - p, v);
      assert b * (p - 1) == b * p - b by { MulDistrib(b, p, -1); }
      assert b * (1 - p) == b - b * p by { MulDistrib(b, 1, -p); }
    }
  }

  /**
   * With every digit inside (-b, b), the sign of a sequence's value is the
   * sign of its most-significant digit.
   */
  lemma NormalisedSign(ds: seq<int>, b: int)
    requires b > 1 && Normalised(ds, b) && NoTopZero(ds) && ds != []
    ensures Sign(Value(ds, b)) == Sign(ds[|ds| - 1])
  {
    var n := |ds| - 1;
    var top := ds[n];
    ValueSplit(ds, n, b);
    assert ds[n..] == [top];
    assert Value([top], b) == top + b * Value([], b);
    assert Normalised(ds[..n], b);
    ValueNormalisedBound(ds[..n], b);
    var low, p := Value(ds[..n], b), Pow(b, n);
    assert Value(ds, b) == low + p * top;
    PowPositive(b, n);
    if top > 0 {
      MulMonotone(p, 1, top);
      assert Value(ds, b) > 0;
    } else if top < 0 {
      MulMonotone(p, top, -1);
      assert Value(ds, b) < 0;
    }
  }

  /** Canonical sequences of different length: the longer is larger. */
  lemma CanonicalLongerIsLarger(xs: seq<int>, ys: seq<int>, b: int)
    requires b > 1 && Canonical(xs, b) && Canonical(ys, b) && |xs| > |ys|
    ensures Value(xs, b) > Value(ys, b)
  {
    CanonicalLowerBound(xs, b);
    ValueInRangeBounds(ys, b);
    PowMonotone(b, |ys|, |xs| - 1);
  }

  /**
   * Equal-length in-range sequences that agree above position i and differ
   * at i are ordered as their digits at i.
   */
  lemma FirstDifferenceDecides(xs: seq<int>, ys: seq<int>, i: nat, b: int)
    requires b > 1 && InRange(xs, b) && InRange(ys, b)
    requires |xs| == |ys| && i < |xs| && xs[i + 1..] == ys[i + 1..]
    requires xs[i] > ys[i]
    ensures Value(xs, b) > Value(ys, b)
  {
    DigitSplit(xs, i, b);
    DigitSplit(ys, i, b);
    PowPositive(b, i);
    FirstDifferenceArith(Value(xs, b), Value(ys, b), Value(xs[..i], b), Value(ys[..i], b), Pow(b, i),
      xs[i], ys[i], Value(xs[i + 1..], b), b);
  }

  /** A digit sequence read around digit i: the digits below, digit i, and the digits above. */
  lemma DigitSplit(xs: seq<int>, i: nat, b: int)
    requires b > 1 && InRange(xs, b) && i < |xs|
    ensures Value(xs, b) == Value(xs[..i], b) + Pow(b, i) * (xs[i] + b * Value(xs[i + 1..], b))
    ensures 0 <= Value(xs[..i], b) < Pow(b, i)
  {
    ValueSplit(xs, i, b);
    assert xs[i..] == [xs[i]] + xs[i + 1..];
    ValueCons(xs[i], xs[i + 1..], b);
    assert InRange(xs[..i], b);
    ValueInRangeBounds(xs[..i], b);
  }

  lemma FirstDifferenceArith(vx: int, vy: int, lx: int, ly: int, p: int, x: int, y: int, t: int, b: int)
    requires p > 0 && 0 <= lx < p && 0 <= ly < p && x > y
    requires vx == lx + p * (x + b * t) && vy == ly + p * (y + b * t)
    ensures vx > vy
  {
    MulDistrib(p, x, b * t);
    MulDistrib(p, y, b * t);
    MulMonotone(p, y + 1, x);
    MulDistrib(p, y, 1);
  }

  /** Two canonical sequences with the same value are the same sequence. */
  lemma {:induction false} CanonicalUnique(xs: seq<int>, ys: seq<int>, b: int)
    requires b > 1 && Canonical(xs, b) && Canonical(ys, b)
    requires Value(xs, b) == Value(ys, b)
    ensures xs == ys
  {
    if |xs| > |ys| {
      CanonicalLongerIsLarger(xs, ys, b);
    } else if |ys| > |xs| {
      CanonicalLongerIsLarger(ys, xs, b);
    } else if xs != [] {
      var n := |xs| - 1;
      ValueSplit(xs, n, b);
      ValueSplit(ys, n, b);
      assert xs[n..] == [xs[n]] && ys[n..] == [ys[n]];
      assert Value(xs[n..], b) == xs[n] + b * Value([], b);
      assert Value(ys[n..], b) == ys[n] + b * Value([], b);
      if xs[n] != ys[n] {
        if xs[n] > ys[n] {
          FirstDifferenceDecides(xs, ys, n, b);
        } else {
          FirstDifferenceDecides(ys, xs, n, b);
        }
      }
      var xp, yp := xs[..n], ys[..n];
      assert InRange(xp, b) && InRange(yp, b);
      if xp != yp {
        // the top digits agree; find the highest position where they differ
        var k :| 0 <= k < n && xp[k] != yp[k];
        TopDifference(xs, ys, n, b);
      }
      assert xs == xp + [xs[n]] && ys == yp + [ys[n]];
    }
  }

  /** Helper: equal-length in-range sequences with equal values agree everywhere. */
  lemma {:induction false} TopDifference(xs: seq<int>, ys: seq<int>, n: nat, b: int)
    requires b > 1 && InRange(xs, b) && InRange(ys, b) && |xs| == |ys| && n <= |xs|
    requires xs[n..] == ys[n..] && Value(xs, b) == Value(ys, b)
    ensures xs[..n] == ys[..n]
  {
    if n > 0 {
      var i := n - 1;
      assert xs[i + 1..] == ys[i + 1..];
      if xs[i] > ys[i] {
        FirstDifferenceDecides(xs, ys, i, b);
      } else if xs[i] < ys[i] {
        FirstDifferenceDecides(ys, xs, i, b);
      }
      assert xs[i..] == [xs[i]] + xs[n..];
      assert ys[i..] == [ys[i]] + ys[n..];
      TopDifference(xs, ys, i, b);
      assert xs[..n] == xs[..i] + [xs[i]];
      assert ys[..n] == ys[..i] + [ys[i]];
    }
  }

  /**
   * One step of a carry pass: digit i is replaced by the truncated remainder
   * of carry + ds[i] and the truncated quotient moves up one place.
   */
  lemma CarryStep(ds: seq<int>, i: nat, carry: int, b: int)
    requires i < |ds| && b > 1
    ensures var c := carry + ds[i];
      Value(ds[i := TMod(c, b)], b) + TDiv(c, b) * Pow(b, i + 1) == Value(ds, b) + carry * Pow(b, i)
  {
    var c := carry + ds[i];
    var p := Pow(b, i);
    var m, q := TMod(c, b), TDiv(c, b);
    TDivMod(c, b);
    ValueUpdate(ds, i, m, b);
    assert q * Pow(b, i + 1) == (q * b) * p by { MulAssoc(q, b, p); }
    assert (m - ds[i]) * p + (q * b) * p == carry * p by {
      MulDistrib(p, m - ds[i], q * b);
    }
  }

  /** Pushing the truncated remainder of a carry as a new top digit. */
  lemma CarryPush(ds: seq<int>, carry: int, b: int)
    requires b > 1
    ensures Value(ds + [TMod(carry, b)], b) + TDiv(carry, b) * Pow(b, |ds| + 1)
      == Value(ds, b) + carry * Pow(b, |ds|)
  {
    TDivModEquation(carry, b);
    CarryParts(ds, carry, TMod(carry, b), TDiv(carry, b), b);
  }

  /** Pushing the low part lo of a carry hi*b + lo as a new top digit, with hi moving one place further up. */
  lemma CarryParts(ds: seq<int>, carry: int, lo: int, hi: int, b: int)
    requires carry == hi * b + lo
    ensures Value(ds + [lo], b) + hi * Pow(b, |ds| + 1) == Value(ds, b) + carry * Pow(b, |ds|)
  {
    var p := Pow(b, |ds|);
    ValueSnoc(ds, lo, b);
    var p1 := Pow(b, |ds| + 1);
    assert p1 == b * p;
    assert hi * p1 == (hi * b) * p by { MulAssoc(hi, b, p); }
    assert p * (lo + hi * b) == p * lo + p * (hi * b) by { MulDistrib(p, lo, hi * b); }
  }

  /**
   * A digit sequence whose digits are the pointwise combination x + s*y of two
   * others (missing digits read as zero) denotes Value(x) + s*Value(y).
   */
  lemma {:induction false} ValueLinear(r: seq<int>, x: seq<int>, y: seq<int>, s: int, b: int)
    requires |r| == if |x| < |y| then |y| else |x|
    requires forall j :: 0 <= j < |r| ==> r[j] == At(x, j) + s * At(y, j)
    ensures Value(r, b) == Value(x, b) + s * Value(y, b)
  {
    if r != [] {
      var x1 := if x == [] then [] else x[1..];
      var y1 := if y == [] then [] else y[1..];
      forall j | 0 <= j < |r| - 1
        ensures r[1..][j] == At(x1, j) + s * At(y1, j)
      {
        assert r[1..][j] == r[j + 1];
      }
      ValueLinear(r[1..], x1, y1, s, b);
      assert Value(x, b) == At(x, 0) + b * Value(x1, b);
      assert Value(y, b) == At(y, 0) + b * Value(y1, b);
      LinearArith(At(x, 0), At(y, 0), Value(x1, b), Value(y1, b), s, b);
    }
  }

  lemma LinearArith(x0: int, y0: int, vx: int, vy: int, s: int, b: int)
    ensures x0 + s * y0 + b * (vx + s * vy) == (x0 + b * vx) + s * (y0 + b * vy)
  {
    MulDistrib(b, vx, s * vy);
    MulAssoc(b, s, vy);
    MulAssoc(s, b, vy);
    MulDistrib(s, y0, b * vy);
  }

  /**
   * One step of multiplying a digit sequence by m from the bottom with a
   * running carry: the processed prefix plus the carry denote the product of
   * the source prefix, plus the initial addend; the carry splits as hi*b + lo.
   */
  lemma MulCarryStep(pre: seq<int>, src: seq<int>, x: int, carry: int, m: int, add: int, b: int, lo: int, hi: int)
    requires |pre| == |src| && b > 1 && carry + x * m == hi * b + lo
    requires Value(pre, b) + carry * Pow(b, |pre|) == Value(src, b) * m + add
    ensures Value(pre + [lo], b) + hi * Pow(b, |pre| + 1) == Value(src + [x], b) * m + add
  {
    var c := carry + x * m;
    var p := Pow(b, |pre|);
    CarryParts(pre, c, lo, hi, b);
    ValueSnoc(src, x, b);
    assert Pow(b, |src|) == p;
    MulCarryArith(Value(pre, b), Value(src, b), p, carry, x, m, add, c,
      Value(pre + [lo], b) + hi * Pow(b, |pre| + 1), Value(src + [x], b));
  }

  lemma MulCarryArith(vp: int, vs: int, p: int, carry: int, x: int, m: int, add: int, c: int, top: int, vsx: int)
    requires vp + carry * p == vs * m + add && c == carry + x * m
    requires top == vp + c * p && vsx == vs + p * x
    ensures top == vsx * m + add
  {
    MulDistrib(p, carry, x * m);
    MulDistrib(m, vs, p * x);
    MulAssoc(m, p, x);
    MulAssoc(p, x, m);
  }

  /**
   * One step of dividing a digit sequence by dv from the top with a running
   * remainder: a quotient digit qd and remainder rd of t = ov*b + x continue
   * the identity one place lower.
   */
  lemma QuotientStep(x: int, rest: seq<int>, q: seq<int>, ov: int, dv: int, b: int, qd: int, rd: int)
    requires Value(rest, b) == Value(q, b) * dv + ov && ov * b + x == qd * dv + rd
    ensures Value([x] + rest, b) == Value([qd] + q, b) * dv + rd
  {
    ValueCons(x, rest, b);
    ValueCons(qd, q, b);
    DivArith(Value(rest, b), Value(q, b), x, ov, dv, b, qd, rd);
  }

  lemma DivArith(vr: int, vq: int, x: int, ov: int, dv: int, b: int, qd: int, rd: int)
    requires vr == vq * dv + ov && ov * b + x == qd * dv + rd
    ensures x + b * vr == (qd + b * vq) * dv + rd
  {
    MulDistrib(b, vq * dv, ov);
    MulAssoc(b, vq, dv);
    MulDistrib(dv, qd, b * vq);
  }
  /** The loop body of a single-digit division from the top keeps its value invariant. */
  lemma DivLoopValue(digits: seq<int>, orig: seq<int>, i: nat, ov: int, dv: int, b: int)
    requires i < |digits| == |orig| && digits[..i + 1] == orig[..i + 1] && dv != 0
    requires Value(orig[i + 1..], b) == Value(digits[i + 1..], b) * dv + ov
    ensures var t := ov * b + digits[i]; var d := digits[i := TDiv(t, dv)];
      && d[..i] == orig[..i]
      && Value(orig[i..], b) == Value(d[i..], b) * dv + TMod(t, dv)
  {
    var t := ov * b + digits[i];
    assert digits[i] == orig[i] by { assert digits[..i + 1][i] == orig[..i + 1][i]; }
    TDivModEquation(t, dv);
    QuotientStep(digits[i], orig[i + 1..], digits[i + 1..], ov, dv, b, TDiv(t, dv), TMod(t, dv));
    assert orig[i..] == [digits[i]] + orig[i + 1..];
    var d := digits[i := TDiv(t, dv)];
    assert d[i..] == [TDiv(t, dv)] + digits[i + 1..];
    assert d[..i] == digits[..i] == orig[..i];
  }

  /** The loop body of a single-digit division from the top keeps its bounds. */
  lemma DivLoopBounds(digits: seq<int>, i: nat, ov: int, dv: int, b: int)
    requires i < |digits| && dv != 0 && Abs(dv) < b && b > 1
    requires Abs(ov) < Abs(dv) && Normalised(digits, b)
    ensures var t := ov * b + digits[i];
      Abs(TMod(t, dv)) < Abs(dv) && Normalised(digits[i := TDiv(t, dv)], b)
  {
    var t := ov * b + digits[i];
    assert -b < TDiv(t, dv) < b by { QuotientDigitBound(ov, digits[i], dv, b); }
    assert Abs(TMod(t, dv)) < Abs(dv) by { TDivMod(t, dv); }
  }

  /**
   * The invariant of a single-digit division from the top after the digits
   * from i up have been divided: the lower digits are untouched, the divided
   * part and the remainder ov give back the original upper part, ov is below
   * the divisor in magnitude, and the remainder (and for a positive divisor
   * every digit) keeps the side of zero where all the original digits lie.
   */
  ghost predicate DivState(orig: seq<int>, digits: seq<int>, i: nat, ov: int, dv: int, b: int)
    requires dv != 0
  {
    && i <= |digits| == |orig|
    && digits[..i] == orig[..i]
    && Value(orig[i..], b) == Value(digits[i..], b) * dv + ov
    && Abs(ov) < Abs(dv) && Normalised(digits, b)
    && ((forall j :: 0 <= j < |orig| ==> orig[j] >= 0) ==> ov >= 0)
    && ((forall j :: 0 <= j < |orig| ==> orig[j] <= 0) ==> ov <= 0)
    && (dv > 0 && (forall j :: 0 <= j < |orig| ==> orig[j] >= 0) ==> forall j :: 0 <= j < |digits| ==> digits[j] >= 0)
  }

  /** One digit of a single-digit division from the top keeps DivState. */
  lemma DivLoopStep(orig: seq<int>, digits: seq<int>, i: nat, ov: int, dv: int, b: int)
    requires dv != 0 && Abs(dv) < b && b > 1 && i < |digits|
    requires DivState(orig, digits, i + 1, ov, dv, b)
    ensures var t := ov * b + digits[i];
      DivState(orig, digits[i := TDiv(t, dv)], i, TMod(t, dv), dv, b)
  {
    DivLoopValue(digits, orig, i, ov, dv, b);
    DivLoopBounds(digits, i, ov, dv, b);
    if dv > 0 && forall j :: 0 <= j < |orig| ==> orig[j] >= 0 {
      DivLoopNonNeg(digits, i, ov, dv, b);
    }
    DivLoopSide(digits, orig, i, ov, dv, b);
  }

  /**
   * The loop body of a single-digit division from the top keeps the running
   * remainder on the side of zero where all the original digits lie.
   */
  lemma DivLoopSide(digits: seq<int>, orig: seq<int>, i: nat, ov: int, dv: int, b: int)
    requires i < |digits| == |orig| && digits[..i + 1] == orig[..i + 1] && dv != 0 && b > 1
    ensures (forall j :: 0 <= j < |orig| ==> orig[j] >= 0) && ov >= 0 ==> TMod(ov * b + digits[i], dv) >= 0
    ensures (forall j :: 0 <= j < |orig| ==> orig[j] <= 0) && ov <= 0 ==> TMod(ov * b + digits[i], dv) <= 0
  {
    var t := ov * b + digits[i];
    assert digits[i] == orig[i] by { assert digits[..i + 1][i] == orig[..i + 1][i]; }
    if ov >= 0 {
      MulNonNeg(ov, b);
    } else {
      MulMonotone(b, ov, 0);
    }
    TDivMod(t, dv);
  }

  /** With non-negative digits, remainder and divisor, the quotient digits and remainder stay non-negative. */
  lemma DivLoopNonNeg(digits: seq<int>, i: nat, ov: int, dv: int, b: int)
    requires i < |digits| && dv > 0 && ov >= 0 && b > 1
    requires forall j :: 0 <= j < |digits| ==> digits[j] >= 0
    ensures var t := ov * b + digits[i]; var d := digits[i := TDiv(t, dv)];
      TMod(t, dv) >= 0 && forall j :: 0 <= j < |d| ==> d[j] >= 0
  {
    var t := ov * b + digits[i];
    MulNonNeg(ov, b);
    TDivNonNeg(t, dv);
  }

}
