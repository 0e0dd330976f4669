/**
 * The digit-level steps of long division in radix b: subtracting a multiple
 * of the divisor from the running window with borrows, and estimating each
 * quotient digit from the top two digits of window and divisor.
 */
module LongDivision {
  import opened Arith
  import opened Digits

  /**
   * One position of `_subtractMultiple`: the running product rem + x*q is
   * split into a low digit and a carry; the low digit is taken from d,
   * borrowing b (and carrying one more) when it exceeds d.  The new digit
   * less b times the new carry is d less the old carry and x*q.
   */
  function BorrowStep(d: int, rem: int, x: int, q: int, b: int): (r: (int, int))
    requires b > 1
    ensures r.0 - b * r.1 == d - rem - x * q
  {
    var p := rem + x * q;
    TDivMod(p, b);
    var m, t := TMod(p, b), TDiv(p, b);
    if m > d then (d + (b - m), t + 1) else (d - m, t)
  }

  /** With every input non-negative and d a digit, the new digit is a digit and the carry is non-negative. */
  lemma BorrowStepBounds(d: int, rem: int, x: int, q: int, b: int)
    requires b > 1 && 0 <= d < b && rem >= 0 && x >= 0 && q >= 0
    ensures var r := BorrowStep(d, rem, x, q, b); 0 <= r.0 < b && r.1 >= 0
  {
    var p := rem + x * q;
    MulNonNeg(x, q);
    TDivNonNeg(p, b);
  }

  /** The digit loop of `_subtractMultiple` from position i with running carry rem. */
  function BorrowPass(ds: seq<int>, ns: seq<int>, q: int, i: nat, rem: int, b: int): (r: (seq<int>, int))
    requires b > 1 && i <= |ns| <= |ds|
    ensures |r.0| == |ds| && r.0[|ns|..] == ds[|ns|..]
    decreases |ns| - i
  {
    if i == |ns| then (ds, rem)
    else
      var step := BorrowStep(ds[i], rem, ns[i], q, b);
      BorrowPass(ds[i := step.0], ns, q, i + 1, step.1, b)
  }

  /**
   * `_subtractMultiple`: ds less q times ns, digit by digit with borrows; a
   * carry left over is taken from digit |ns| (read as zero past the end),
   * then most-significant zero digits are removed.
   */
  function SubtractMultipleDigits(ds: seq<int>, ns: seq<int>, q: int, b: int): (r: seq<int>)
    requires b > 1 && |ns| <= |ds|
    ensures NoTopZero(r)
  {
    var pass := BorrowPass(ds, ns, q, 0, 0, b);
    Trim(TakeBorrow(pass.0, |ns|, pass.1))
  }

  /** A carry c left over after the borrow pass, taken from digit n (read as zero past the end). */
  function TakeBorrow(e: seq<int>, n: nat, c: int): seq<int>
  {
    if c != 0 then Put(e, n, At(e, n) - c) else e
  }

  lemma {:induction false} BorrowPassValue(ds: seq<int>, ns: seq<int>, q: int, i: nat, rem: int, b: int)
    requires b > 1 && i <= |ns| <= |ds|
    ensures var r := BorrowPass(ds, ns, q, i, rem, b);
      Value(r.0, b) - r.1 * Pow(b, |ns|) + q * Value(ns, b) == Value(ds, b) - rem * Pow(b, i) + q * Value(ns[..i], b)
    decreases |ns| - i
  {
    if i == |ns| {
      assert ns[..i] == ns;
    } else {
      var step := BorrowStep(ds[i], rem, ns[i], q, b);
      BorrowPassValue(ds[i := step.0], ns, q, i + 1, step.1, b);
      ValueUpdate(ds, i, step.0, b);
      assert ns[..i + 1] == ns[..i] + [ns[i]];
      ValueSnoc(ns[..i], ns[i], b);
      BorrowArith(Value(ds, b), step.0, ds[i], step.1, b, Pow(b, i), q, Value(ns[..i], b), ns[i], rem);
    }
  }

  lemma BorrowArith(vds: int, d: int, di: int, c: int, b: int, p: int, q: int, vn: int, x: int, rem: int)
    requires d - b * c == di - rem - x * q
    ensures vds + (d - di) * p - c * (b * p) + q * (vn + p * x) == vds - rem * p + q * vn
  {
    MulDistrib(q, vn, p * x);
    MulAssoc(c, b, p);
    MulAssoc(q, p, x);
    assert (d - di - b * c + x * q) * p == (d - di) * p - (b * c) * p + (x * q) * p by {
      MulDistrib(p, d - di, -(b * c) + x * q);
      MulDistrib(p, -(b * c), x * q);
    }
  }

  lemma {:induction false} BorrowPassInRange(ds: seq<int>, ns: seq<int>, q: int, i: nat, rem: int, b: int)
    requires b > 1 && i <= |ns| <= |ds| && InRange(ds, b) && InRange(ns, b) && q >= 0 && rem >= 0
    ensures var r := BorrowPass(ds, ns, q, i, rem, b); InRange(r.0, b) && r.1 >= 0
    decreases |ns| - i
  {
    if i < |ns| {
      var step := BorrowStep(ds[i], rem, ns[i], q, b);
      BorrowStepBounds(ds[i], rem, ns[i], q, b);
      BorrowPassInRange(ds[i := step.0], ns, q, i + 1, step.1, b);
    }
  }

  /** `_subtractMultiple` subtracts exactly q times the divisor. */
  lemma SubtractMultipleValue(ds: seq<int>, ns: seq<int>, q: int, b: int)
    requires b > 1 && |ns| <= |ds|
    ensures Value(SubtractMultipleDigits(ds, ns, q, b), b) == Value(ds, b) - q * Value(ns, b)
  {
    var pass := BorrowPass(ds, ns, q, 0, 0, b);
    var e := TakeBorrow(pass.0, |ns|, pass.1);
    PassValue(ds, ns, q, b);
    BorrowAtTop(pass.0, |ns|, pass.1, b);
    ValueTrim(e, b);
  }

  /** Taking a carry c from digit n (zero past the end) lowers the value by c*b^n. */
  lemma BorrowAtTop(e: seq<int>, n: nat, c: int, b: int)
    ensures Value(TakeBorrow(e, n, c), b) == Value(e, b) - c * Pow(b, n)
  {
    if c != 0 {
      var a, p := At(e, n), Pow(b, n);
      ValuePut(e, n, a - c, b);
      NegateScaled(a, c, p);
    }
  }

  lemma NegateScaled(a: int, c: int, p: int)
    ensures (a - c - a) * p == -(c * p)
  {
  }

  /** The whole borrow pass from position 0: the digits less the final carry at place |ns| lose q*ns. */
  lemma PassValue(ds: seq<int>, ns: seq<int>, q: int, b: int)
    requires b > 1 && |ns| <= |ds|
    ensures var pass := BorrowPass(ds, ns, q, 0, 0, b);
      Value(pass.0, b) - pass.1 * Pow(b, |ns|) == Value(ds, b) - q * Value(ns, b)
  {
    BorrowPassValue(ds, ns, q, 0, 0, b);
    assert ns[..0] == [];
  }

  /**
   * On in-range digits with a non-negative result, the window one digit longer
   * than the divisor at most, no borrow is left over when the window is no
   * longer than the divisor (so no digit past the end is read), and the
   * result is canonical.
   */
  lemma SubtractMultipleCanonical(ds: seq<int>, ns: seq<int>, q: int, b: int)
    requires b > 1 && InRange(ds, b) && InRange(ns, b) && q >= 0
    requires |ns| <= |ds| <= |ns| + 1 && Value(ds, b) >= q * Value(ns, b)
    ensures |ds| == |ns| ==> BorrowPass(ds, ns, q, 0, 0, b).1 == 0
    ensures Canonical(SubtractMultipleDigits(ds, ns, q, b), b)
  {
    var pass := BorrowPass(ds, ns, q, 0, 0, b);
    var e := TakeBorrow(pass.0, |ns|, pass.1);
    PassValue(ds, ns, q, b);
    BorrowPassInRange(ds, ns, q, 0, 0, b);
    if pass.1 != 0 {
      if |ds| == |ns| {
        NoBorrowPastTop(pass.0, pass.1, b);
      }
      TopBorrowInRange(pass.0, |ns|, pass.1, b);
    }
    assert InRange(e, b);
  }

  /** Digits that fill every place below n cannot absorb a positive borrow at place n. */
  lemma NoBorrowPastTop(e: seq<int>, c: int, b: int)
    requires b > 1 && InRange(e, b) && c >= 0 && Value(e, b) - c * Pow(b, |e|) >= 0
    ensures c == 0
  {
    ValueInRangeBounds(e, b);
    if c > 0 {
      MulMonotone(Pow(b, |e|), 1, c);
    }
  }

  /** A positive borrow taken from the top digit n of a non-negative result leaves that digit in range. */
  lemma TopBorrowInRange(e: seq<int>, n: nat, c: int, b: int)
    requires b > 1 && InRange(e, b) && |e| == n + 1 && c > 0 && Value(e, b) - c * Pow(b, n) >= 0
    ensures InRange(Put(e, n, e[n] - c), b)
  {
    var t := e[n] - c;
    var p := Pow(b, n);
    var u := Put(e, n, t);
    ValuePut(e, n, t, b);
    assert t - At(e, n) == -c;
    assert u == e[..n] + [t];
    ValueSnoc(e[..n], t, b);
    assert InRange(e[..n], b);
    ValueInRangeBounds(e[..n], b);
    if t < 0 {
      MulMonotone(p, t, -1);
    }
    assert 0 <= t < b;
    forall k | 0 <= k < |u|
      ensures 0 <= u[k] < b
    {
      if k < n {
        assert u[k] == e[k];
      }
    }
  }

  /**
   * The quotient-digit estimate of `divide`: the window's top two digits
   * divided by the divisor's top two digits rounded up by one, compared one
   * place lower when the window is the longer; never less than 1.  The
   * source divides in floating point; this is the exact quotient.
   */
  function Estimate(ws: seq<int>, ns: seq<int>, b: int): (e: int)
    requires b > 1 && |ws| >= 2 && |ns| >= 2 && ns[|ns| - 1] * b + ns[|ns| - 2] + 1 != 0
    ensures e >= 1
  {
    var difference := ws[|ws| - 1] * b + ws[|ws| - 2];
    var t := ns[|ns| - 1] * b + ns[|ns| - 2] + 1;
    var e := if |ns| < |ws| then TDiv(difference * b, t) else TDiv(difference, t);
    if e < 1 then 1 else e
  }

  /** The top two digits of an in-range sequence bound its value from both sides. */
  lemma TopTwo(ds: seq<int>, b: int)
    requires b > 1 && InRange(ds, b) && |ds| >= 2
    ensures var k := |ds| - 2; var top := ds[k + 1] * b + ds[k];
      top * Pow(b, k) <= Value(ds, b) < (top + 1) * Pow(b, k)
  {
    var k := |ds| - 2;
    var top := ds[k + 1] * b + ds[k];
    var p := Pow(b, k);
    var lo, hi := ds[..k], ds[k..];
    ValueSplit(ds, k, b);
    assert hi == [ds[k], ds[k + 1]] by { assert |hi| == 2 && hi[0] == ds[k] && hi[1] == ds[k + 1]; }
    TwoDigits(ds[k], ds[k + 1], b);
    assert Value(hi, b) == top;
    assert InRange(lo, b);
    ValueInRangeBounds(lo, b);
    TopTwoArith(Value(ds, b), Value(lo, b), p, top);
  }

  lemma TwoDigits(x: int, y: int, b: int)
    ensures Value([x, y], b) == y * b + x
  {
    ValueCons(x, [y], b);
    ValueCons(y, [], b);
    assert [x] + [y] == [x, y] && [y] + [] == [y];
  }

  lemma TopTwoArith(v: int, vl: int, p: int, top: int)
    requires v == vl + p * top && 0 <= vl < p
    ensures top * p <= v < (top + 1) * p
  {
  }

  /** The estimate never overshoots: subtracting that many divisors leaves a non-negative window. */
  lemma EstimateSound(ws: seq<int>, ns: seq<int>, b: int)
    requires b > 1 && Canonical(ws, b) && Canonical(ns, b) && |ns| >= 2 && |ns| <= |ws| <= |ns| + 1
    requires Value(ws, b) >= Value(ns, b)
    ensures ns[|ns| - 1] * b + ns[|ns| - 2] + 1 > b
    ensures Estimate(ws, ns, b) * Value(ns, b) <= Value(ws, b)
  {
    var m := |ns|;
    var t := ns[m - 1] * b + ns[m - 2] + 1;
    MulMonotone(b, 1, ns[m - 1]);
    assert t > b;
    TopTwo(ns, b);
    WindowBelow(ws, m, b);
    var difference := ws[|ws| - 1] * b + ws[|ws| - 2];
    var db := if m < |ws| then difference * b else difference;
    TDivNonNeg(db, t);
    PowPositive(b, m - 2);
    EstimateBound(Estimate(ws, ns, b), TDiv(db, t), t, db, Value(ns, b), Pow(b, m - 2), Value(ws, b));
  }

  /** An estimate of at least 1 that is at most db/t divisors' worth of the window does not overshoot. */
  lemma EstimateBound(est: int, e0: int, t: int, db: int, nv: int, p: int, w: int)
    requires t > 0 && est == (if e0 < 1 then 1 else e0) && e0 == db / t && db >= 0 && p > 0
    requires nv <= t * p && db * p <= w && nv <= w
    ensures est * nv <= w
  {
    if e0 >= 1 {
      EstimateArith(e0, t, db, nv, p, w);
    }
  }

  /**
   * The window's top two digits, moved up one place when the window is the
   * longer, at the weight of the divisor's second digit, do not exceed the
   * window.
   */
  lemma WindowBelow(ws: seq<int>, m: int, b: int)
    requires b > 1 && InRange(ws, b) && 2 <= m <= |ws| <= m + 1
    ensures var difference := ws[|ws| - 1] * b + ws[|ws| - 2];
      var db := if m < |ws| then difference * b else difference;
      db >= 0 && db * Pow(b, m - 2) <= Value(ws, b)
  {
    var k := |ws| - 2;
    var difference := ws[k + 1] * b + ws[k];
    TopTwo(ws, b);
    assert difference >= 0 by { MulNonNeg(ws[k + 1], b); }
    var pm := Pow(b, m - 2);
    if m < |ws| {
      assert Pow(b, k) == b * pm;
      MulAssoc(difference, b, pm);
      MulNonNeg(difference, b);
    }
  }

  lemma EstimateArith(e: int, t: int, db: int, nv: int, p: int, w: int)
    requires e >= 0 && p >= 0 && t > 0 && e == db / t && db >= 0
    requires nv <= t * p && db * p <= w
    ensures e * nv <= w
  {
    MulMonotone(e, nv, t * p);
    MulAssoc(e, t, p);
    assert e * t <= db;
    MulMonotone(p, e * t, db);
  }

  /**
   * The value bookkeeping of one outer step of long division at position i
   * (weight p): after the window w was reduced to w2 by qi divisors, the
   * dividend is the low digits, the window and the quotient digits from i up.
   */
  lemma ReduceArith(vo: int, vlow: int, p: int, w: int, nv: int, qv: int, b: int, w2: int, qi: int)
    requires vo == vlow + p * w + (b * p) * (nv * qv) && w2 + nv * qi == w
    ensures vo == vlow + p * w2 + p * (nv * (qi + b * qv))
  {
    MulDistrib(nv, qi, b * qv);
    MulDistrib(p, nv * qi, nv * (b * qv));
    MulDistrib(p, w2, nv * qi);
    MulAssoc(nv, b, qv);
    MulAssoc(p, b, nv * qv);
    assert nv * (b * qv) == b * (nv * qv);
  }

  /** Shifting the next dividend digit o into the window moves the weight down one place. */
  lemma ShiftArith(vo: int, vlow: int, p: int, w2: int, x: int, vlow1: int, p1: int, o: int, b: int)
    requires vo == vlow + p * w2 + p * x
    requires vlow == vlow1 + p1 * o && p == b * p1
    ensures vo == vlow1 + p1 * (o + b * w2) + (b * p1) * x
  {
    MulDistrib(p1, o, b * w2);
    MulAssoc(p1, b, w2);
  }
  /** A canonical window between the divisor and b times the divisor has the divisor's length or one more. */
  lemma WindowLength(ws: seq<int>, ns: seq<int>, b: int)
    requires b > 1 && Canonical(ws, b) && Canonical(ns, b) && ns != []
    requires Value(ns, b) <= Value(ws, b) < Value(ns, b) * b
    ensures |ns| <= |ws| <= |ns| + 1
  {
    if |ns| > |ws| {
      CanonicalLongerIsLarger(ns, ws, b);
      assert false;
    }
    if |ws| > |ns| + 1 {
      WindowNotTooLong(ws, ns, b);
      assert false;
    }
  }

  lemma WindowNotTooLong(ws: seq<int>, ns: seq<int>, b: int)
    requires b > 1 && Canonical(ws, b) && Canonical(ns, b) && |ws| > |ns| + 1
    ensures Value(ws, b) >= Value(ns, b) * b
  {
    var p := Pow(b, |ns|);
    CanonicalLowerBound(ws, b);
    ValueInRangeBounds(ns, b);
    PowMonotone(b, |ns| + 1, |ws| - 1);
    assert Pow(b, |ns| + 1) == b * p;
    MulMonotone(b, Value(ns, b), p);
  }

  /** A quotient digit that leaves a non-negative window below the divisor times b is below b. */
  lemma QuotientDigitBelow(nv: int, qd: int, w: int, w0: int, b: int)
    requires nv > 0 && w >= 0 && w + nv * qd == w0 && w0 < nv * b
    ensures qd < b
  {
    if qd >= b {
      MulMonotone(nv, b, qd);
    }
  }

  /** One pass of the correction loop: the window loses e divisors and the quotient digit gains e. */
  lemma CountStep(w: int, nv: int, e: int, w2: int, q: int, w0: int)
    requires w + nv * q == w0 && w2 == w - e * nv && e >= 1 && nv >= 1
    ensures w2 + nv * (q + e) == w0 && w2 < w
  {
    MulMonotone(nv, 1, e);
  }

  /** The first window, the top |ns| digits of a longer dividend, is below the divisor times b. */
  lemma FirstWindowBound(ws: seq<int>, ns: seq<int>, b: int)
    requires b > 1 && InRange(ws, b) && Canonical(ns, b) && |ws| == |ns| > 0
    ensures Value(ws, b) < Value(ns, b) * b
  {
    var p := Pow(b, |ns| - 1);
    ValueInRangeBounds(ws, b);
    CanonicalLowerBound(ns, b);
    assert Pow(b, |ws|) == b * p;
    MulMonotone(b, p, Value(ns, b));
  }

  /** Shifting a digit in under a window below the divisor leaves it below the divisor times b. */
  lemma ShiftBound(d: int, w: int, nv: int, b: int)
    requires 0 <= d < b && w < nv && b > 0
    ensures d + b * w < nv * b
  {
    MulMonotone(b, w, nv - 1);
  }

  /** Before the first quotient digit, the part above the window is empty. */
  lemma FirstDigitArith(vo: int, vlow: int, p: int, w: int, nv: int, b: int)
    requires vo == vlow + p * w
    ensures vo == vlow + p * w + (b * p) * (nv * 0)
  {
  }

  /** After the last quotient digit, the dividend is the quotient times the divisor plus the window. */
  lemma LastDigitArith(vo: int, vlow: int, p: int, w: int, nv: int, vq: int)
    requires vo == vlow + p * w + p * (nv * vq) && vlow == 0 && p == 1
    ensures vo == vq * nv + w
  {
  }

  /** When the last quotient digit is placed, the whole quotient and the remainder make up the dividend. */
  lemma LastDigit(o: seq<int>, q: seq<int>, w: int, nv: int, b: int)
    requires Value(o, b) == Value(o[..0], b) + Pow(b, 0) * w + Pow(b, 0) * (nv * Value(q[0..], b))
    ensures Value(o, b) == Value(q, b) * nv + w
  {
    assert o[..0] == [] && q[0..] == q;
    LastDigitArith(Value(o, b), Value(o[..0], b), Pow(b, 0), w, nv, Value(q, b));
  }
}
