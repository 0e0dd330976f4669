/**
 * Integer helpers shared by both kernels: powers, and the truncating
 * division and remainder that JavaScript's `Math.trunc(a / b)` and `a % b`
 * compute (Dafny's own `/` and `%` are Euclidean).
 */
module Arith {

  function Pow(b: int, n: nat): int
  {
    if n == 0 then 1 else b * Pow(b, n - 1)
  }

  function Abs(x: int): nat
  {
    if x < 0 then -x else x
  }

  /** Sign of an integer: -1, 0 or 1 (JavaScript's Math.sign on integers). */
  function Sign(x: int): int
  {
    if x < 0 then -1 else if x == 0 then 0 else 1
  }

  /** Math.trunc(a / b): the quotient rounded toward zero. */
  function TDiv(a: int, b: int): int
    requires b != 0
  {
    if (a >= 0) == (b > 0) then Abs(a) / Abs(b) else -(Abs(a) / Abs(b))
  }

  /** a % b in JavaScript: the remainder takes the sign of the dividend. */
  function TMod(a: int, b: int): int
    requires b != 0
  {
    if a >= 0 then a % Abs(b) else -((-a) % Abs(b))
  }

  lemma TDivMod(a: int, b: int)
    requires b != 0
    ensures a == TDiv(a, b) * b + TMod(a, b)
    ensures Abs(TMod(a, b)) < Abs(b)
    ensures a >= 0 ==> TMod(a, b) >= 0
    ensures a <= 0 ==> TMod(a, b) <= 0
  {
    TDivModEquation(a, b);
    TModBounds(a, b);
  }

  lemma TDivModEquation(a: int, b: int)
    requires b != 0
    ensures a == TDiv(a, b) * b + TMod(a, b)
  {
    var n: int, d: int := Abs(a), Abs(b);
    var q: int, r: int := n / d, n % d;
    var tq: int := if (a >= 0) == (b > 0) then q else -q;
    var tr: int := if a >= 0 then r else -r;
    assert TDiv(a, b) == tq && TMod(a, b) == tr;
    SignedParts(a, b, n, d, q, r, tq, tr);
  }

  lemma TModBounds(a: int, b: int)
    requires b != 0
    ensures Abs(TMod(a, b)) < Abs(b)
    ensures a >= 0 ==> TMod(a, b) >= 0
    ensures a <= 0 ==> TMod(a, b) <= 0
  {
    var n: int, d: int := Abs(a), Abs(b);
    assert 0 <= n % d < d;
  }

  /** The quotient and remainder of the magnitudes, given the signs truncation gives them, recombine to a. */
  lemma SignedParts(a: int, b: int, n: int, d: int, q: int, r: int, tq: int, tr: int)
    requires n == Abs(a) && d == Abs(b) && d > 0 && n == q * d + r
    requires tq == (if (a >= 0) == (b > 0) then q else -q) && tr == (if a >= 0 then r else -r)
    ensures a == tq * b + tr
  {
    NegMul(q, d);
  }

  /** Negation moves through a product. */
  lemma NegMul(x: int, y: int)
    ensures (-x) * y == -(x * y) && x * (-y) == -(x * y) && (-x) * (-y) == x * y
  {
  }

  /** For a non-negative dividend and positive divisor truncation is floor division. */
  lemma TDivNonNeg(a: int, b: int)
    requires a >= 0 && b > 0
    ensures TDiv(a, b) == a / b && TMod(a, b) == a % b
  {
  }

  lemma PowPositive(b: int, n: nat)
    requires b > 0
    ensures Pow(b, n) > 0
  {
    if n > 0 {
      PowPositive(b, n - 1);
    }
  }

  lemma {:induction false} PowAdd(b: int, m: nat, n: nat)
    ensures Pow(b, m + n) == Pow(b, m) * Pow(b, n)
  {
    if m > 0 {
      PowAdd(b, m - 1, n);
      calc {
        Pow(b, m + n);
        b * Pow(b, m - 1 + n);
        b * (Pow(b, m - 1) * Pow(b, n));
        (b * Pow(b, m - 1)) * Pow(b, n);
      }
    }
  }

  lemma {:induction false} PowMul(b: int, m: nat, n: nat)
    ensures Pow(b, m * n) == Pow(Pow(b, m), n)
  {
    if n > 0 {
      PowMul(b, m, n - 1);
      calc {
        Pow(b, m * n);
        { assert m * n == m + m * (n - 1); }
        Pow(b, m + m * (n - 1));
        { PowAdd(b, m, m * (n - 1)); }
        Pow(b, m) * Pow(b, m * (n - 1));
      }
    }
  }

  lemma {:induction false} PowMonotone(b: int, m: nat, n: nat)
    requires b > 1 && m <= n
    ensures Pow(b, m) <= Pow(b, n)
    ensures m < n ==> Pow(b, m) < Pow(b, n)
  {
    if m < n {
      PowMonotone(b, m, n - 1);
      PowPositive(b, n - 1);
    }
  }

  lemma MulDistrib(a: int, x: int, y: int)
    ensures a * (x + y) == a * x + a * y
  {
  }

  lemma MulAssoc(a: int, x: int, y: int)
    ensures a * (x * y) == (a * x) * y
  {
  }

  lemma MulMonotone(a: int, x: int, y: int)
    requires a >= 0 && x <= y
    ensures a * x <= a * y
  {
    MulDistrib(a, x, y - x);
    MulNonNeg(a, y - x);
  }

  lemma MulNonNeg(a: int, x: int)
    requires a >= 0 && x >= 0
    ensures a * x >= 0
  {
  }

  lemma MulAbsBound(x: int, y: int, kx: int, ky: int)
    requires Abs(x) <= kx && Abs(y) <= ky
    ensures Abs(x * y) <= kx * ky
  {
    assert Abs(x * y) == Abs(x) * Abs(y);
    MulMonotone(Abs(x), Abs(y), ky);
    MulMonotone(ky, Abs(x), kx);
  }

  /** A truncated quotient by b of something below |b|*k in magnitude is below k in magnitude. */
  lemma TDivBelow(c: int, b: int, k: int)
    requires b != 0 && Abs(c) < Abs(b) * k
    ensures Abs(TDiv(c, b)) < k
  {
    var q := Abs(c) / Abs(b);
    assert Abs(TDiv(c, b)) == q;
    assert q * Abs(b) <= Abs(c);
    if q >= k {
      MulMonotone(Abs(b), k, q);
    }
  }

  /** A value already below the base is its own remainder and carries nothing. */
  lemma SmallTDivMod(c: int, b: int)
    requires 0 <= c < b
    ensures TMod(c, b) == c && TDiv(c, b) == 0
  {
    DivModUnique(c, b, 0, c);
  }

  /** A value strictly inside (-b, b) is its own truncated remainder. */
  lemma NormalTMod(c: int, b: int)
    requires -b < c < b
    ensures TMod(c, b) == c
  {
    if c >= 0 {
      SmallTDivMod(c, b);
    } else {
      SmallTDivMod(-c, b);
    }
  }

  /** Euclidean quotient and remainder are determined by x = q*d + r with 0 <= r < d. */
  lemma DivModUnique(x: int, d: int, q: int, r: int)
    requires d > 0 && x == q * d + r && 0 <= r < d
    ensures x / d == q && x % d == r
  {
    var q1, r1 := x / d, x % d;
    assert x == q1 * d + r1;
    var e := q - q1;
    assert e * d == r1 - r by { MulDistrib(d, q, -q1); }
    if e >= 1 {
      MulMonotone(d, 1, e);
    } else if e <= -1 {
      MulMonotone(d, e, -1);
    }
  }

  /**
   * Truncated quotient and remainder are determined by a = q*d + r with
   * |r| < |d| and r on the dividend's side of zero.
   */
  lemma TruncUnique(a: int, d: int, q: int, r: int)
    requires d != 0 && a == q * d + r && Abs(r) < Abs(d)
    requires (a >= 0 && r >= 0) || (a <= 0 && r <= 0)
    ensures q == TDiv(a, d) && r == TMod(a, d)
  {
    TDivMod(a, d);
    SameRemainderSide(a, d, q, r, TDiv(a, d), TMod(a, d));
  }

  /** Two truncating divisions of a by d with remainders on the same side of zero agree. */
  lemma SameRemainderSide(a: int, d: int, q: int, r: int, tq: int, tr: int)
    requires d != 0 && a == q * d + r && a == tq * d + tr
    requires Abs(r) < Abs(d) && Abs(tr) < Abs(d)
    requires (r >= 0 && tr >= 0) || (r <= 0 && tr <= 0)
    ensures q == tq && r == tr
  {
    var e := q - tq;
    assert e * d == tr - r by { MulDistrib(d, q, -tq); }
    if e != 0 {
      MultipleAtLeast(e, d);
    }
  }

  /** A non-zero multiple of d is at least |d| in magnitude. */
  lemma MultipleAtLeast(e: int, d: int)
    requires e != 0
    ensures Abs(e * d) >= Abs(d)
  {
    var m := Abs(e);
    assert Abs(e * d) == m * Abs(d) by { NegMul(e, d); NegMul(e, -d); }
    MulMonotone(Abs(d), 1, m);
  }

  /** Adding a multiple of d does not change the (Euclidean) remainder modulo d. */
  lemma ModMultiple(a: int, k: int, d: int)
    requires d > 0
    ensures (a + k * d) % d == a % d
  {
    var q, r := a / d, a % d;
    assert a + k * d == (q + k) * d + r by { MulDistrib(d, q, k); }
    DivModUnique(a + k * d, d, q + k, r);
  }

  /** The truncated remainder is zero exactly when d divides a. */
  lemma TModZero(a: int, d: int)
    requires d > 0
    ensures TMod(a, d) == 0 <==> a % d == 0
  {
    if a < 0 {
      var n: int := -a;
      var q: int, r: int := n / d, n % d;
      assert n == q * d + r && 0 <= r < d;
      assert TMod(a, d) == -r;
      NegatedRemainder(a, d, q, r);
    }
  }

  /** A negative dividend -(q*d + r) leaves a floored remainder of zero exactly when r is zero. */
  lemma NegatedRemainder(a: int, d: int, q: int, r: int)
    requires d > 0 && -a == q * d + r && 0 <= r < d
    ensures a % d == 0 <==> r == 0
  {
    NegMul(q, d);
    if r == 0 {
      assert a == (-q) * d + 0;
      DivModUnique(a, d, -q, 0);
    } else {
      assert (-q - 1) * d == -(q * d) - d by { MulDistrib(d, -q, -1); }
      assert a == (-q - 1) * d + (d - r);
      DivModUnique(a, d, -q - 1, d - r);
    }
  }

  /**
   * A digit of a single-digit division: with |ov| < |dv| and |x| < b, the
   * truncated quotient of ov*b + x by dv is below b in magnitude.
   */
  lemma QuotientDigitBound(ov: int, x: int, dv: int, b: int)
    requires dv != 0 && b > 0 && Abs(ov) < Abs(dv) && -b < x < b
    ensures Abs(TDiv(ov * b + x, dv)) < b
  {
    ShiftedBelow(ov, x, Abs(dv), b);
    TDivBelow(ov * b + x, dv, b);
  }

  /** With |ov| < d and |x| < b, ov*b + x is below d*b in magnitude. */
  lemma ShiftedBelow(ov: int, x: int, d: int, b: int)
    requires b > 0 && Abs(ov) < d && -b < x < b
    ensures Abs(ov * b + x) < d * b
  {
    var a := Abs(ov);
    var ab := a * b;
    assert Abs(ov * b) == ab by {
      if ov < 0 {
        assert ov * b == -(a * b);
      }
    }
    assert ab <= (d - 1) * b by { MulMonotone(b, a, d - 1); }
    assert (d - 1) * b == d * b - b by { MulDistrib(b, d, -1); }
    assert Abs(ov * b + x) <= ab + Abs(x);
  }

  /** The truncated quotient of signed magnitudes is the product of the signs times the floor quotient of the magnitudes. */
  lemma SignedQuotient(s: int, v: int, ns: int, nv: int, q: int, r: int)
    requires (s == 1 || s == -1) && (ns == 1 || ns == -1) && v >= 0 && nv > 0 && v == q * nv + r && 0 <= r < nv
    ensures TDiv(s * v, ns * nv) == (s * ns) * q
  {
    DivModUnique(v, nv, q, r);
    var a, b := s * v, ns * nv;
    assert a == (if s == 1 then v else -v);
    assert b == (if ns == 1 then nv else -nv);
    assert Abs(a) == v && Abs(b) == nv;
    if v == 0 {
      assert q == 0;
    } else if s == ns {
      assert s * ns == 1;
    } else {
      assert s * ns == -1;
    }
  }

  /** The truncated remainder of signed magnitudes takes the dividend's sign and the floor remainder of the magnitudes. */
  lemma SignedRemainder(s: int, v: int, ns: int, nv: int, q: int, r: int)
    requires (s == 1 || s == -1) && (ns == 1 || ns == -1) && v >= 0 && nv > 0 && v == q * nv + r && 0 <= r < nv
    ensures TMod(s * v, ns * nv) == s * r
  {
    DivModUnique(v, nv, q, r);
    assert Abs(ns * nv) == nv;
    if s == -1 && v != 0 {
      assert -(s * v) == v;
    }
  }
}
