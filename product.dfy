/**
 * Arithmetic facts behind long multiplication on digit sequences: a row is
 * one digit of the multiplier times the whole multiplicand, shifted up by
 * the digit's place and either carried as it goes or accrued unreduced.
 */
module Product {
  import opened Arith
  import opened Digits

  /** Every digit zero. */
  ghost predicate AllZero(ds: seq<int>)
  {
    forall k :: 0 <= k < |ds| ==> ds[k] == 0
  }

  /** Shifting a row up i places multiplies its value by b^i. */
  lemma ValueShifted(row: seq<int>, i: nat, b: int)
    ensures Value(Zeros(i) + row, b) == Pow(b, i) * Value(row, b)
  {
    ValueAppend(Zeros(i), row, b);
    ValueAllZero(Zeros(i), b);
  }

  /**
   * One step of a carried row: digit i+j takes the truncated remainder of
   * carry + ad*y[j] + ds[i+j], and the row value grows by ad*y[j]*b^(i+j).
   */
  lemma RowStep(ds: seq<int>, y: seq<int>, i: nat, j: nat, carry: int, ad: int, v0: int, b: int)
    requires b > 1 && j < |y| && i + j < |ds|
    requires Value(ds, b) + carry * Pow(b, i + j) == v0 + ad * Value(y[..j], b) * Pow(b, i)
    ensures var c := carry + (ad * y[j] + ds[i + j]);
      Value(ds[i + j := TMod(c, b)], b) + TDiv(c, b) * Pow(b, i + j + 1)
        == v0 + ad * Value(y[..j + 1], b) * Pow(b, i)
  {
    var c := carry + (ad * y[j] + ds[i + j]);
    CarryStep(ds, i + j, carry + ad * y[j], b);
    assert y[..j + 1] == y[..j] + [y[j]];
    ValueSnoc(y[..j], y[j], b);
    PowAdd(b, i, j);
    RowStepArith(Value(ds[i + j := TMod(c, b)], b), TDiv(c, b) * Pow(b, i + j + 1), Value(ds, b), carry,
      ad, y[j], Pow(b, i + j), Value(y[..j], b), Value(y[..j + 1], b), Pow(b, j), Pow(b, i), v0);
  }

  lemma RowStepArith(vn: int, qp: int, vd: int, carry: int, ad: int, x: int, pk: int,
                     vy: int, vy1: int, pj: int, pi: int, v0: int)
    requires vn + qp == vd + (carry + ad * x) * pk
    requires vy1 == vy + pj * x && pk == pi * pj
    requires vd + carry * pk == v0 + ad * vy * pi
    ensures vn + qp == v0 + ad * vy1 * pi
  {
    RowArith(vy, pj, pi, x, ad);
    MulDistrib(pk, carry, ad * x);
    MulAssoc(ad, x, pi * pj);
  }

  lemma RowArith(v: int, pj: int, pi: int, x: int, ad: int)
    ensures ad * (v + pj * x) * pi == ad * v * pi + ad * x * (pi * pj)
  {
    MulDistrib(ad, v, pj * x);
    MulDistrib(pi, ad * v, ad * (pj * x));
    MulAssoc(ad, pj, x);
  }

  /** The carry out of one step of a carried row stays a single digit. */
  lemma RowBound(carry: int, ad: int, x: int, d: int, b: int)
    requires b > 1 && Abs(carry) < b && Abs(ad) < b && Abs(x) < b && Abs(d) < b
    ensures var c := carry + (ad * x + d); Abs(TDiv(c, b)) < b && -b < TMod(c, b) < b
  {
    var c := carry + (ad * x + d);
    MulAbsBound(ad, x, b - 1, b - 1);
    assert (b - 1) * (b - 1) + 2 * (b - 1) < b * b;
    TDivBelow(c, b, b);
    TDivMod(c, b);
  }

  /** Adding one more row of a long multiplication extends the multiplier prefix by one digit. */
  lemma RowsStep(x: seq<int>, i: nat, vy: int, b: int)
    requires i < |x|
    ensures Value(x[..i], b) * vy + x[i] * vy * Pow(b, i) == Value(x[..i + 1], b) * vy
  {
    assert x[..i + 1] == x[..i] + [x[i]];
    ValueSnoc(x[..i], x[i], b);
    MulDistrib(vy, Value(x[..i], b), Pow(b, i) * x[i]);
  }

  /** Adding row i-1 below rows i.. of an unreduced product extends the multiplier suffix downwards. */
  lemma RowsStepDown(h: seq<int>, i: nat, w: int, b: int)
    requires 0 < i <= |h|
    ensures Value(h[i..], b) * Pow(b, i) * w + h[i - 1] * (Pow(b, i - 1) * w)
      == Value(h[i - 1..], b) * Pow(b, i - 1) * w
  {
    assert h[i - 1..] == [h[i - 1]] + h[i..];
    ValueCons(h[i - 1], h[i..], b);
    DownArith(Value(h[i - 1..], b), Value(h[i..], b), h[i - 1], Pow(b, i - 1), Pow(b, i), w, b);
  }

  lemma DownArith(vh1: int, v: int, x: int, p: int, pi: int, w: int, b: int)
    requires vh1 == x + b * v && pi == b * p
    ensures v * pi * w + x * (p * w) == vh1 * p * w
  {
    MulDistrib(p * w, x, b * v);
    MulAssoc(v, b, p);
    MulAssoc(b * v, p, w);
  }
}
