/**
 * The rational numbers of lib/tpa.js: a `Tpa` holds a sign, an integer
 * magnitude `number`, an integer/fractional mode flag and, in fractional
 * mode, a remainder numerator/denominator, all magnitudes being the `Tpa.N`
 * numbers of TpaKernel.  The value is sign * (number + numerator/denominator).
 * The signs the N objects carry are working state that the operations set
 * before each signed `combine`; only the `Tpa` sign counts in the value.
 */
module TpaRational {
  import opened Arith
  import opened TpaKernel
  import opened Wrappers

  /** The real number a/b. */
  ghost function Ratio(a: int, b: int): real
    requires b != 0
  {
    a as real / b as real
  }

  /** -1, 0 or 1 as x is negative, zero or positive. */
  ghost function RealSign(x: real): int
  {
    if x < 0.0 then -1 else if x > 0.0 then 1 else 0
  }

  /** Equal cross products give equal ratios. */
  lemma RatioEq(a: int, b: int, c: int, d: int)
    requires b > 0 && d > 0 && a * d == c * b
    ensures Ratio(a, b) == Ratio(c, d)
  {
    assert (a as real) * (d as real) == (c as real) * (b as real);
  }

  /** A ratio with a quotient and remainder taken out: (q*d + r)/d == q + r/d. */
  lemma RatioSplit(q: int, r: int, d: int)
    requires d > 0
    ensures Ratio(q * d + r, d) == q as real + Ratio(r, d)
  {
    assert (q * d + r) as real == (q as real) * (d as real) + r as real;
  }

  /** A proper fraction lies in [0, 1), and is 0 exactly when its numerator is. */
  lemma ProperFraction(n: int, d: int)
    requires 0 <= n < d
    ensures 0.0 <= Ratio(n, d) < 1.0 && (Ratio(n, d) == 0.0 <==> n == 0)
  {
    assert Ratio(n, d) * (d as real) == n as real;
  }

  class Tpa {
    /** 1 or -1: the sign of the value. */
    var sign: int
    /** True in integer mode, where no remainder takes part. */
    var integer: bool
    /** The magnitude of the integer part. */
    var number: N
    /**
     * The remainder `{numerator, denominator}` of fractional mode.  The
     * source has none in integer mode; here a 0/1 pair that no operation of
     * integer mode reads stands in for it.
     */
    var numerator: N
    var denominator: N

    /** The three magnitudes: separate, well-formed, a positive denominator in fractional mode. */
    ghost predicate Parts()
      reads this, number, numerator, denominator
    {
      && number.Valid() && numerator.Valid() && denominator.Valid()
      && number != numerator && number != denominator && numerator != denominator
      && (sign == 1 || sign == -1)
      && (!integer ==> denominator.sign == 1 && denominator.Val() > 0)
    }

    /** A value at rest between operations: in fractional mode 0 <= numerator < denominator. */
    ghost predicate Valid()
      reads this, number, numerator, denominator
    {
      Parts() && (!integer ==> numerator.Val() < denominator.Val())
    }

    ghost function Repr(): set<object>
      reads this
    {
      {number, numerator, denominator}
    }

    /** No magnitude of this value is one of the other's. */
    ghost predicate Disjoint(t: Tpa)
      reads this, t
    {
      Repr() !! t.Repr()
    }

    /** The fraction numerator/denominator; 0 in integer mode. */
    ghost function FracPart(): real
      reads this, numerator, denominator
    {
      if integer || denominator.Val() == 0 then 0.0 else Ratio(numerator.Val(), denominator.Val())
    }

    /** number + numerator/denominator. */
    ghost function Mag(): real
      reads this, number, numerator, denominator
    {
      number.Val() as real + FracPart()
    }

    /** The rational this value denotes. */
    ghost function Value(): real
      reads this, number, numerator, denominator
    {
      if sign < 0 then -Mag() else Mag()
    }

    /** The integer part with its sign: the value truncated toward zero. */
    ghost function IntPart(): int
      reads this, number
    {
      sign * number.Val()
    }

    /** `new Tpa()` and `new Tpa(false)`: zero, positive, in the given mode. */
    constructor (integer: bool)
      ensures Valid() && fresh(number) && fresh(numerator) && fresh(denominator) && this.integer == integer
      ensures Value() == 0.0 && sign == 1 && number.Val() == 0 && numerator.Val() == 0 && denominator.Val() == 1
    {
      this.integer := integer;
      number := new N();
      numerator := new N();
      var d := new N();
      d.Set(1);
      denominator := d;
      sign := 1;
    }

    /**
     * `new Tpa(initial)` for a Tpa initial: copies of its magnitudes, its
     * sign and its mode.
     */
    constructor Copy(initial: Tpa)
      requires initial.Valid()
      ensures Valid() && fresh(number) && fresh(numerator) && fresh(denominator)
      ensures integer == initial.integer && sign == initial.sign
      ensures number.Val() == initial.number.Val() && Value() == initial.Value() && IntPart() == initial.IntPart()
      ensures !integer ==> numerator.Val() == initial.numerator.Val() && denominator.Val() == initial.denominator.Val()
    {
      integer := initial.integer;
      var m := initial.number.Copy();
      var n, d;
      if initial.integer {
        n := new N();
        d := new N();
        d.Set(1);
      } else {
        n := initial.numerator.Copy();
        d := initial.denominator.Copy();
      }
      number, numerator, denominator := m, n, d;
      sign := initial.sign;
      new;
      assert FracPart() == initial.FracPart();
      assert Mag() == initial.Mag();
    }

    /**
     * The value splits into its integer part and a fraction of the same
     * sign whose magnitude is below one; the fraction is zero exactly when
     * the numerator is (or in integer mode).
     */
    lemma Split()
      requires Valid()
      ensures Value() == IntPart() as real + sign as real * FracPart()
      ensures 0.0 <= FracPart() < 1.0
      ensures FracPart() == 0.0 <==> integer || numerator.Val() == 0
    {
      if !integer {
        CountedFacts(numerator.shorts, numerator.shortcount, numerator.longcount);
        ProperFraction(numerator.Val(), denominator.Val());
      }
    }

    /** `isZero`: no integer part and, in fractional mode, no numerator; exactly a zero value. */
    method IsZero() returns (z: bool)
      requires Valid()
      ensures z <==> Value() == 0.0
    {
      Split();
      z := number.IsZero();
      if z && !integer {
        z := numerator.IsZero();
      }
    }

    /**
     * The fraction an operand brings to a sum: present exactly when it is
     * fractional with a nonzero numerator, and then n/d is that fraction.
     */
    method FractionTerms() returns (present: bool, ghost n: int, ghost d: int)
      requires Valid()
      ensures present <==> !integer && numerator.Val() != 0
      ensures present ==> n == numerator.Val() && d == denominator.Val() && 0 < n < d
      ensures !present ==> n == 0 && d == 1
      ensures FracPart() == Ratio(n, d)
    {
      present, n, d := false, 0, 1;
      if !integer {
        var z := numerator.IsZero();
        if !z {
          NonNegative(numerator);
          present, n, d := true, numerator.Val(), denominator.Val();
        }
      }
    }

    /** `hasFraction`: a nonzero numerator in fractional mode; exactly a value that is not an integer. */
    method HasFraction() returns (b: bool)
      requires Valid()
      ensures b <==> Value() != IntPart() as real
    {
      Split();
      if integer {
        return false;
      }
      var z := numerator.IsZero();
      b := !z;
    }

    /**
     * `normaliseRemainder`: in fractional mode a numerator of at least the
     * denominator is divided by it, the quotient joins the integer part
     * through a signed `combine`, and the remainder becomes the numerator;
     * a zero numerator then gets the denominator 1.  The fraction keeps its
     * direction when the numerator carries the integer part's sign.
     */
    method NormaliseRemainder()
      requires Parts()
      requires !integer && numerator.Val() >= denominator.Val() ==> numerator.sign == number.sign
      modifies this, number, numerator, denominator
      ensures Valid() && sign == old(sign) && integer == old(integer)
      ensures number == old(number) && denominator == old(denominator)
      ensures numerator == old(numerator) || fresh(numerator)
      ensures Mag() == old(Mag()) && number.sign == old(number.sign)
      ensures !integer && numerator.Val() == 0 ==> denominator.Val() == 1
      ensures integer ==> number.Val() == old(number.Val())
    {
      if integer {
        return;
      }
      numerator := NormaliseParts(number, numerator, denominator);
    }

    /**
     * `compare`, as corrected (see the findings): values of opposite signs
     * are ordered by the receiver's sign unless both are zero; otherwise the
     * integer magnitudes decide, then in fractional mode the fractions,
     * compared through the cross products n1*d2 and d1*n2; the verdict on
     * magnitudes is turned round for negative values.  An integer-mode
     * receiver does not look at the operand's fraction.
     */
    method Compare(t: Tpa) returns (r: int)
      requires Valid() && t.Valid()
      ensures !integer || t.integer ==> r == RealSign(Value() - t.Value())
      ensures integer && sign == t.sign ==> r == Sign(IntPart() - t.IntPart())
      ensures sign != t.sign ==> r == RealSign(Value() - t.Value())
    {
      if sign != t.sign {
        r := CompareOpposite(t);
        return;
      }
      var c := CompareMagnitudes(t);
      Split();
      t.Split();
      NonNegative(number);
      NonNegative(t.number);
      r := sign * c;
      if integer {
        SignScale(sign, number.Val(), t.number.Val(), c);
      } else {
        OrderByParts(sign, number.Val(), FracPart(), t.number.Val(), t.FracPart());
      }
    }

    /** Values of opposite signs: the receiver's sign, or 0 when both are zero. */
    method CompareOpposite(t: Tpa) returns (r: int)
      requires Valid() && t.Valid() && sign != t.sign
      ensures r == RealSign(Value() - t.Value())
    {
      Split();
      t.Split();
      NonNegative(number);
      NonNegative(t.number);
      var z1 := IsZero();
      var z2 := t.IsZero();
      if !z1 || !z2 {
        OppositeSigns(sign, Mag(), t.Mag());
        return sign;
      }
      return 0;
    }

    /**
     * The verdict on magnitudes alone: the integer parts decide, then in
     * fractional mode the fractions.
     */
    method CompareMagnitudes(t: Tpa) returns (c: int)
      requires Valid() && t.Valid()
      ensures integer ==> c == Sign(number.Val() - t.number.Val())
      ensures !integer ==> c == if number.Val() != t.number.Val() then Sign(number.Val() - t.number.Val())
                                else RealSign(FracPart() - t.FracPart())
    {
      c := number.Compare(t.number);
      if c == 0 && !integer {
        Split();
        t.Split();
        if !t.integer {
          c := CrossCompare(numerator, denominator, t.numerator, t.denominator);
          FracOrder(numerator.Val(), denominator.Val(), t.numerator.Val(), t.denominator.Val());
        } else {
          var z := numerator.IsZero();
          if !z {
            c := 1;
          }
        }
      }
    }

    /**
     * `addorsubtract`, behind `add` (s = 1) and `subtract` (s = -1), as
     * corrected (see the findings): the integer parts are combined with the
     * signs of the values; in fractional mode the fractions are summed over
     * the product of the denominators, a fraction of the opposite sign to a
     * nonzero integer part borrows one from it, and the remainder is
     * normalised.  The result takes the sign of its integer part.  An
     * integer-mode receiver combines the integer parts only.  An operand that
     * is the receiver itself is copied first.
     */
    method AddOrSubtract(operand: Tpa, s: int)
      requires Valid() && operand.Valid() && (s == 1 || s == -1)
      requires operand == this || Disjoint(operand)
      modifies this, number, numerator, denominator, operand.number, operand.numerator
      ensures Valid() && integer == old(integer) && sign == number.sign
      ensures number == old(number) && denominator == old(denominator)
      ensures numerator == old(numerator) || fresh(numerator)
      ensures !integer ==> Value() == old(Value()) + s as real * old(operand.Value())
      ensures integer ==> Value() == (old(IntPart()) + s * old(operand.IntPart())) as real
      ensures operand != this ==> operand.Valid() && operand.Value() == old(operand.Value())
    {
      var t := operand;
      if operand == this {
        t := new Tpa.Copy(this);
      }
      if integer {
        AddIntegers(t, s);
      } else {
        AddFractions(t, s);
      }
    }

    /** `addorsubtract` in integer mode, for an operand sharing no magnitude with the receiver. */
    method AddIntegers(t: Tpa, s: int)
      requires Valid() && t.Valid() && (s == 1 || s == -1) && Disjoint(t) && integer
      modifies this, number, numerator, denominator, t.number, t.numerator
      ensures Valid() && integer && sign == number.sign
      ensures number == old(number) && denominator == old(denominator) && numerator == old(numerator)
      ensures Value() == (old(IntPart()) + s * old(t.IntPart())) as real
      ensures t.Valid() && t.Value() == old(t.Value())
    {
      ghost var s1, m1, ts, m2 := sign, number.Val(), t.sign, t.number.Val();
      numerator := AddParts(number, numerator, denominator, t.number, t.numerator, t.denominator,
                            sign, t.sign * s, false, false, 0, 1);
      sign := number.sign;
      IntegerSum(sign, number.Val(), s1, m1, s, ts, m2);
    }

    /** `addorsubtract` in fractional mode, for an operand sharing no magnitude with the receiver. */
    method AddFractions(t: Tpa, s: int)
      requires Valid() && t.Valid() && (s == 1 || s == -1) && Disjoint(t) && !integer
      modifies this, number, numerator, denominator, t.number, t.numerator
      ensures Valid() && !integer && sign == number.sign
      ensures number == old(number) && denominator == old(denominator)
      ensures numerator == old(numerator) || fresh(numerator)
      ensures Value() == old(Value()) + s as real * old(t.Value())
      ensures t.Valid() && t.Value() == old(t.Value())
    {
      ghost var v0, w0, ts, q := Value(), t.Value(), t.sign, t.Mag();
      CombineFractions(t, s);
      assert Value() == Signed(sign, number.Val() as real + Ratio(numerator.Val(), denominator.Val()));
      SignedSum(Value(), v0, w0, s, ts, q);
      assert t.Parts() && t.Mag() == q;
    }

    /**
     * The fractional-mode body of `addorsubtract`: integer parts combined,
     * the fractions brought over a common denominator and added, a borrow
     * settled, and the result normalised. The operand's magnitudes keep
     * their values (only their signs are set).
     */
    method CombineFractions(t: Tpa, s: int)
      requires Valid() && t.Valid() && (s == 1 || s == -1) && Disjoint(t) && !integer
      modifies this, number, numerator, denominator, t.number, t.numerator
      ensures Valid() && !integer && sign == number.sign
      ensures number == old(number) && denominator == old(denominator)
      ensures numerator == old(numerator) || fresh(numerator)
      ensures t.number.Valid() && t.numerator.Valid()
      ensures t.number.Val() == old(t.number.Val()) && t.numerator.Val() == old(t.numerator.Val())
      ensures Signed(sign, number.Val() as real + Ratio(numerator.Val(), denominator.Val()))
              == old(Value()) + Signed(old(t.sign) * s, old(t.Mag()))
    {
      assert t != this;
      ghost var v0, m2 := Value(), t.number.Val();
      var withOperand;
      ghost var n2, d2;
      withOperand, n2, d2 := t.FractionTerms();
      assert t.Mag() == m2 as real + Ratio(n2, d2);
      assert {number, numerator, denominator} !! {t.number, t.numerator, t.denominator};
      assert v0 == Signed(sign, number.Val() as real + Ratio(numerator.Val(), denominator.Val()));
      numerator := AddMagnitudes(number, numerator, denominator, t.number, t.numerator, t.denominator,
                                 sign, t.sign * s, withOperand, n2, d2);
      sign := number.sign;
    }

    /**
     * `multiply`, as corrected (see the findings): the result takes the
     * product of the signs; in fractional mode the magnitudes multiply
     * exactly, as m1*m2 + (n1*(n2 + d2*m2) + n2*m1*d1)/(d1*d2) (the operand
     * read as m2 + 0/1 in integer mode) and the remainder is normalised; an
     * integer-mode receiver multiplies the integer parts only.  An operand
     * that is the receiver itself is copied first.
     */
    method Multiply(operand: Tpa)
      requires Valid() && operand.Valid()
      requires operand == this || Disjoint(operand)
      modifies this, number, numerator, denominator, operand.number, operand.numerator
      ensures Valid() && integer == old(integer) && sign == old(sign) * old(operand.sign)
      ensures number == old(number) && denominator == old(denominator)
      ensures numerator == old(numerator) || fresh(numerator)
      ensures !integer ==> Value() == Times(old(Value()), old(operand.Value()))
      ensures integer ==> Value() == (old(IntPart()) * old(operand.IntPart())) as real
      ensures operand != this ==> operand.Valid() && operand.Value() == old(operand.Value())
    {
      var t := operand;
      if operand == this {
        t := new Tpa.Copy(this);
      }
      if integer {
        MultiplyIntegers(t);
      } else {
        MultiplyFractions(t);
      }
    }

    /** `multiply` in integer mode: the integer parts only. */
    method MultiplyIntegers(t: Tpa)
      requires Valid() && t.Valid() && Disjoint(t) && integer
      modifies this, number, t.number
      ensures Valid() && integer && sign == old(sign) * old(t.sign)
      ensures number == old(number) && numerator == old(numerator) && denominator == old(denominator)
      ensures Value() == (old(IntPart()) * old(t.IntPart())) as real
      ensures t.Valid() && t.Value() == old(t.Value())
    {
      assert t != this;
      ghost var s1, m1, s2, m2 := sign, number.Val(), t.sign, t.number.Val();
      t.number.SetSign(1);
      number.SetSign(1);
      sign := sign * t.sign;
      number.Multiply(t.number);
      IntegerProduct(sign, number.Val(), s1, m1, s2, m2);
      assert t.Parts() && t.Mag() == old(t.Mag());
    }

    /** `multiply` in fractional mode, for an operand sharing no magnitude with the receiver. */
    method MultiplyFractions(t: Tpa)
      requires Valid() && t.Valid() && Disjoint(t) && !integer
      modifies this, number, numerator, denominator, t.number, t.numerator
      ensures Valid() && !integer && sign == old(sign) * old(t.sign)
      ensures number == old(number) && denominator == old(denominator)
      ensures numerator == old(numerator) || fresh(numerator)
      ensures Value() == Times(old(Value()), old(t.Value()))
      ensures t.Valid() && t.Value() == old(t.Value())
    {
      ghost var s1, s2, p, q := sign, t.sign, Mag(), t.Mag();
      ScaleFractions(t);
      assert Value() == Signed(sign, Times(p, q));
      SignedProduct(s1, s2, p, q);
      assert t.Parts() && t.Mag() == q;
    }

    /** The fractional-mode body of `multiply`: the magnitudes multiplied, the signs multiplied. */
    method ScaleFractions(t: Tpa)
      requires Valid() && t.Valid() && Disjoint(t) && !integer
      modifies this, number, numerator, denominator, t.number, t.numerator
      ensures Valid() && !integer && sign == old(sign) * old(t.sign)
      ensures number == old(number) && denominator == old(denominator)
      ensures numerator == old(numerator) || fresh(numerator)
      ensures t.number.Valid() && t.numerator.Valid()
      ensures t.number.Val() == old(t.number.Val()) && t.numerator.Val() == old(t.numerator.Val())
      ensures number.Val() as real + Ratio(numerator.Val(), denominator.Val()) == Times(old(Mag()), old(t.Mag()))
    {
      assert t != this;
      ghost var n2, d2 := 0, 1;
      var withFraction := !t.integer;
      if withFraction {
        n2, d2 := t.numerator.Val(), t.denominator.Val();
      }
      assert t.Mag() == t.number.Val() as real + Ratio(n2, d2);
      assert {number, numerator, denominator} !! {t.number, t.numerator, t.denominator};
      sign := sign * t.sign;
      numerator := MultiplyMagnitudes(number, numerator, denominator, t.number, t.numerator, t.denominator,
                                      withFraction, n2, d2);
    }

    /**
     * `divide`, as corrected (see the findings): ok is false, and nothing
     * changes, exactly when the divisor the source would divide by is zero
     * (the source throws).  Otherwise the result takes the product of the
     * signs; in fractional mode it is the exact quotient, formed as the
     * single division (m1*d1 + n1)*d2 by d1*(m2*d2 + n2) whose quotient is
     * the new integer part and whose remainder the new numerator (m2*d2 + n2
     * read as m2 for an integer-mode operand); an integer-mode receiver
     * divides the integer parts, truncating toward zero, so that an operand
     * whose integer part is zero is a zero divisor.  An operand that is the
     * receiver itself is copied first.
     */
    method Divide(operand: Tpa) returns (ok: bool)
      requires Valid() && operand.Valid()
      requires operand == this || Disjoint(operand)
      modifies this, number, numerator, denominator, operand.number, operand.numerator
      ensures Valid() && integer == old(integer)
      ensures number == old(number)
      ensures !integer ==> (ok <==> old(operand.Value()) != 0.0)
      ensures integer ==> (ok <==> old(operand.IntPart()) != 0)
      ensures !ok ==> sign == old(sign) && Value() == old(Value())
      ensures ok ==> sign == old(sign) * old(operand.sign)
      ensures ok && !integer ==> Value() == Over(old(Value()), old(operand.Value()))
      ensures ok && integer ==> Value() == TDiv(old(IntPart()), old(operand.IntPart())) as real
      ensures operand != this ==> operand.Valid() && operand.Value() == old(operand.Value())
    {
      var t := operand;
      if operand == this {
        t := new Tpa.Copy(this);
      }
      if integer {
        ok := DivideIntegers(t);
      } else {
        ok := DivideFractions(t);
      }
    }

    /** `divide` in integer mode: the truncated quotient of the integer parts. */
    method DivideIntegers(t: Tpa) returns (ok: bool)
      requires Valid() && t.Valid() && Disjoint(t) && integer
      modifies this, number, t.number
      ensures Valid() && integer && number == old(number)
      ensures numerator == old(numerator) && denominator == old(denominator)
      ensures ok <==> old(t.IntPart()) != 0
      ensures !ok ==> sign == old(sign) && Value() == old(Value())
      ensures ok ==> sign == old(sign) * old(t.sign)
      ensures ok ==> Value() == TDiv(old(IntPart()), old(t.IntPart())) as real
      ensures t.Valid() && t.Value() == old(t.Value())
    {
      assert t != this;
      ghost var s1, m1, s2, m2 := sign, number.Val(), t.sign, t.number.Val();
      NonNegative(number);
      NonNegative(t.number);
      var z := t.number.IsZero();
      if z {
        ok := false;
        return;
      }
      t.number.SetSign(1);
      number.SetSign(1);
      sign := sign * t.sign;
      var r := number.Divide(t.number);
      ok := true;
      assert t.number.Val() == m2 && m1 == number.Val() * m2 + r.value.Val() && r.value.Val() < m2;
      NonNegative(r.value);
      IntegerQuotient(s1, m1, s2, m2, number.Val(), r.value.Val());
      assert t.Parts() && t.Mag() == old(t.Mag());
    }

    /** `divide` in fractional mode, for an operand sharing no magnitude with the receiver. */
    method DivideFractions(t: Tpa) returns (ok: bool)
      requires Valid() && t.Valid() && Disjoint(t) && !integer
      modifies this, number, numerator, denominator, t.number, t.numerator
      ensures Valid() && !integer && number == old(number)
      ensures ok <==> old(t.Value()) != 0.0
      ensures !ok ==> sign == old(sign) && Value() == old(Value())
      ensures ok ==> sign == old(sign) * old(t.sign)
      ensures ok ==> Value() == Over(old(Value()), old(t.Value()))
      ensures t.Valid() && t.Value() == old(t.Value())
    {
      ghost var s1, s2, p, q := sign, t.sign, Mag(), t.Mag();
      t.Split();
      ok := QuotientFractions(t);
      if ok {
        assert Value() == Signed(sign, Over(p, q));
        SignedDivision(s1, s2, p, q);
      } else {
        assert Mag() == p;
      }
      assert t.Parts() && t.Mag() == q;
    }

    /** The fractional-mode body of `divide`: the magnitudes divided, the signs multiplied. */
    method QuotientFractions(t: Tpa) returns (ok: bool)
      requires Valid() && t.Valid() && Disjoint(t) && !integer
      modifies this, number, numerator, denominator, t.number, t.numerator
      ensures Valid() && !integer && number == old(number)
      ensures t.number.Valid() && t.numerator.Valid()
      ensures t.number.Val() == old(t.number.Val()) && t.numerator.Val() == old(t.numerator.Val())
      ensures ok <==> old(t.Mag()) != 0.0
      ensures !ok ==> sign == old(sign) && number.Val() == old(number.Val())
      ensures !ok ==> numerator.Val() == old(numerator.Val()) && denominator.Val() == old(denominator.Val())
      ensures ok ==> sign == old(sign) * old(t.sign)
      ensures ok ==> number.Val() as real + Ratio(numerator.Val(), denominator.Val()) == Over(old(Mag()), old(t.Mag()))
    {
      assert t != this;
      ghost var n2, d2 := 0, 1;
      var withFraction := !t.integer;
      if withFraction {
        n2, d2 := t.numerator.Val(), t.denominator.Val();
      }
      NonNegative(t.number);
      NonNegative(t.numerator);
      ghost var m2 := t.number.Val();
      assert t.Mag() == m2 as real + Ratio(n2, d2);
      assert {number, numerator, denominator} !! {t.number, t.numerator, t.denominator};
      numerator, ok := DivideMagnitudes(number, numerator, denominator, t.number, t.numerator, t.denominator,
                                        withFraction, n2, d2);
      if ok {
        sign := sign * t.sign;
      } else {
        PositiveMagnitude(m2, n2, d2);
      }
    }

    /**
     * `mod`: the integer part becomes the remainder of the truncated
     * division of the integer parts, keeping the receiver's sign, and in
     * fractional mode the fraction is reset to 0/1; ok is false, and
     * nothing changes, when the operand's integer part is zero (the source
     * throws).
     */
    method Mod(t: Tpa) returns (ok: bool)
      requires Valid() && t.Valid() && Disjoint(t)
      modifies this, number
      ensures Valid() && integer == old(integer) && sign == old(sign)
      ensures ok <==> old(t.IntPart()) != 0
      ensures !ok ==> Value() == old(Value())
      ensures ok ==> IntPart() == TMod(old(IntPart()), old(t.IntPart())) && Value() == IntPart() as real
      ensures t.Valid() && t.Value() == old(t.Value())
    {
      assert t != this && number !in t.Repr();
      ghost var s1, m1, s2, m2 := sign, number.Val(), t.sign, t.number.Val();
      NonNegative(number);
      NonNegative(t.number);
      var r := number.Divide(t.number);
      if r.None? {
        return false;
      }
      assert m1 == number.Val() * m2 + r.value.Val() && r.value.Val() < m2;
      NonNegative(r.value);
      SignedRemainder(s1, m1, s2, m2, number.Val(), r.value.Val());
      Truncate(r.value);
      ok := true;
    }

    /** The integer part becomes rem and, in fractional mode, the fraction 0/1. */
    method Truncate(rem: N)
      requires Valid() && rem.Valid() && rem !in Repr()
      modifies this
      ensures Valid() && number == rem && integer == old(integer) && sign == old(sign)
      ensures Value() == IntPart() as real
    {
      number := rem;
      if !integer {
        numerator := new N();
        var d := new N();
        d.Set(1);
        denominator := d;
      }
      Split();
    }

    /** `int`: the fraction is dropped, leaving the value truncated toward zero. */
    method Int()
      requires Valid()
      modifies numerator, denominator
      ensures Valid() && Value() == old(IntPart()) as real && IntPart() == old(IntPart())
      ensures 0.0 <= sign as real * (old(Value()) - Value()) < 1.0
    {
      Split();
      if !integer {
        numerator.Reset();
        denominator.Set(1);
      }
    }

    /** `frac`: the integer part is dropped, leaving the signed fraction. */
    method Frac()
      requires Valid()
      modifies number
      ensures Valid() && Value() == old(Value()) - old(IntPart()) as real
      ensures IntPart() == 0 && -1.0 < Value() < 1.0
    {
      Split();
      number.Reset();
    }
  }

  /** m with the sign s: -m for a negative s. */
  ghost function Signed(s: int, m: real): real
  {
    if s < 0 then -m else m
  }

  /**
   * The fractional-mode part of `addorsubtract` on the magnitudes:
   * `AddParts`, then the remainder normalised.  Read with magnitudes, the
   * parts denote the sum of the receiver's value and the operand's value
   * taken with sign s2, and the remainder is a proper fraction again.
   */
  method AddMagnitudes(number: N, numerator: N, denominator: N, tm: N, tn: N, td: N,
                       s1: int, s2: int, withOperand: bool, ghost n2: int, ghost d2: int)
    returns (f: N)
    requires number.Valid() && numerator.Valid() && denominator.Valid() && tm.Valid() && tn.Valid() && td.Valid()
    requires number != numerator && number != denominator && numerator != denominator
    requires tm != tn && tm != td && tn != td
    requires {number, numerator, denominator} !! {tm, tn, td}
    requires (s1 == 1 || s1 == -1) && (s2 == 1 || s2 == -1)
    requires denominator.sign == 1 && 0 < denominator.Val() && numerator.Val() < denominator.Val()
    requires withOperand ==> td.sign == 1 && 0 < tn.Val() < td.Val()
    requires withOperand ==> n2 == tn.Val() && d2 == td.Val()
    requires !withOperand ==> n2 == 0 && d2 == 1
    modifies number, numerator, denominator, tm, tn
    ensures f == numerator || fresh(f)
    ensures number.Valid() && f.Valid() && denominator.Valid() && tm.Valid() && tn.Valid()
    ensures f != number && f != denominator
    ensures tm.Val() == old(tm.Val()) && tn.Val() == old(tn.Val())
    ensures denominator.sign == 1 && 0 <= f.Val() < denominator.Val()
    ensures f.Val() == 0 ==> denominator.Val() == 1
    ensures Signed(number.sign, number.Val() as real + Ratio(f.Val(), denominator.Val()))
      == Signed(s1, old(number.Val()) as real + Ratio(old(numerator.Val()), old(denominator.Val())))
         + Signed(s2, old(tm.Val()) as real + Ratio(n2, d2))
  {
    ghost var m1, n1, d1, m2 := number.Val(), numerator.Val(), denominator.Val(), tm.Val();
    f := AddParts(number, numerator, denominator, tm, tn, td, s1, s2, true, withOperand, n2, d2);
    PartsSum(number.sign, number.Val(), f.Val(), denominator.Val(), s1, m1, n1, d1, s2, m2, n2, d2);
    f := NormaliseParts(number, f, denominator);
  }

  /**
   * Parts a + b/d with the sign sg whose integer total over d is the sum of
   * the cross products denote the sum of the two signed values.
   */
  lemma PartsSum(sg: int, a: int, b: int, d: int, s1: int, m1: int, n1: int, d1: int, s2: int, m2: int, n2: int, d2: int)
    requires (sg == 1 || sg == -1) && (s1 == 1 || s1 == -1) && (s2 == 1 || s2 == -1) && d1 > 0 && d2 > 0
    requires d == d1 * d2 && sg * (a * d + b) == (s1 * m1 + s2 * m2) * d + (s1 * (n1 * d2) + s2 * (n2 * d1))
    ensures Signed(sg, a as real + Ratio(b, d)) == Signed(s1, m1 as real + Ratio(n1, d1)) + Signed(s2, m2 as real + Ratio(n2, d2))
  {
    SumOfValues(s1, m1, n1, d1, s2, m2, n2, d2);
    MulMonotone(d1, 1, d2);
    SignedRatio(sg, a, b, d, (s1 * m1 + s2 * m2) * (d1 * d2) + (s1 * (n1 * d2) + s2 * (n2 * d1)));
  }

  /** v + s*w, where w carries the sign ts and s flips it. */
  lemma SignedSum(x: real, v: real, w: real, s: int, ts: int, q: real)
    requires (s == 1 || s == -1) && (ts == 1 || ts == -1)
    requires w == Signed(ts, q) && x == v + Signed(ts * s, q)
    ensures x == v + s as real * w
  {
  }

  lemma SumChain(x: real, a: real, b: real, v: real, w: real, s: int)
    requires x == a + b && v == a && s as real * w == b
    ensures x == v + s as real * w
  {
  }

  /** The integer-mode value `addorsubtract` leaves: the combined integer parts. */
  lemma IntegerSum(sg: int, v: int, s1: int, m1: int, s: int, ts: int, m2: int)
    requires (sg == 1 || sg == -1) && (s == 1 || s == -1) && sg * v == s1 * m1 + (ts * s) * m2
    ensures Signed(sg, v as real + 0.0) == (s1 * m1 + s * (ts * m2)) as real
  {
    assert (ts * s) * m2 == s * (ts * m2);
  }

  lemma SignedScale(s: int, sg: int, m: real)
    requires (s == 1 || s == -1) && (sg == 1 || sg == -1)
    ensures s as real * Signed(sg, m) == Signed(sg * s, m)
  {
  }

  /**
   * The magnitudes' part of `addorsubtract`: the integer parts, given the
   * signs s1 of the receiver and s2 of the operand as it is added, are
   * combined; in fractional mode the fractions are summed (`SumRemainders`)
   * and a borrow settles a numerator against the integer part
   * (`Settle`).  The parts then denote, read with magnitudes, the signed
   * sum of the two values over the new denominator; n2/d2 is the operand's
   * fraction as it takes part (0/1 when it has none).
   */
  method AddParts(number: N, numerator: N, denominator: N, tm: N, tn: N, td: N,
                  s1: int, s2: int, fractional: bool, withOperand: bool, ghost n2: int, ghost d2: int)
    returns (f: N)
    requires number.Valid() && numerator.Valid() && denominator.Valid() && tm.Valid() && tn.Valid() && td.Valid()
    requires number != numerator && number != denominator && numerator != denominator
    requires tm != tn && tm != td && tn != td
    requires {number, numerator, denominator} !! {tm, tn, td}
    requires (s1 == 1 || s1 == -1) && (s2 == 1 || s2 == -1)
    requires fractional ==> denominator.sign == 1 && 0 < denominator.Val() && numerator.Val() < denominator.Val()
    requires withOperand ==> fractional && td.sign == 1 && 0 < tn.Val() < td.Val()
    requires withOperand ==> n2 == tn.Val() && d2 == td.Val()
    requires !withOperand ==> n2 == 0 && d2 == 1
    modifies number, numerator, denominator, tm, tn
    ensures number.Valid() && f.Valid() && denominator.Valid() && tm.Valid() && tn.Valid()
    ensures f == numerator || fresh(f)
    ensures tm.Val() == old(tm.Val()) && tn.Val() == old(tn.Val())
    ensures !fractional ==> f == numerator && number.SignedVal() == s1 * old(number.Val()) + s2 * tm.Val()
    ensures fractional ==> denominator.sign == 1 && denominator.Val() == old(denominator.Val()) * d2
    ensures fractional ==> (number.sign * (number.Val() * denominator.Val() + f.Val())
      == (s1 * old(number.Val()) + s2 * tm.Val()) * denominator.Val()
         + (s1 * (old(numerator.Val()) * d2) + s2 * (n2 * old(denominator.Val()))))
    ensures fractional && f.Val() >= denominator.Val() ==> f.sign == number.sign
  {
    tm.SetSign(s2);
    number.SetSign(s1);
    Combine(number, tm);
    f := numerator;
    if fractional {
      f := SettledSum(number, numerator, denominator, tn, td, s1, s2, withOperand, n2, d2);
    }
  }

  /**
   * The fractional-mode half of `AddParts`, after the integer parts were
   * combined into c: the fractions are summed and a borrow settles the
   * numerator against the integer part.
   */
  method SettledSum(number: N, numerator: N, denominator: N, tn: N, td: N,
                    s1: int, s2: int, withOperand: bool, ghost n2: int, ghost d2: int)
    returns (f: N)
    requires number.Valid() && numerator.Valid() && denominator.Valid() && tn.Valid() && td.Valid()
    requires number != numerator && number != denominator && numerator != denominator
    requires tn != td && number != tn && number != td && numerator != tn && numerator != td && denominator != tn && denominator != td
    requires (s1 == 1 || s1 == -1) && (s2 == 1 || s2 == -1)
    requires denominator.sign == 1 && 0 < denominator.Val() && numerator.Val() < denominator.Val()
    requires withOperand ==> td.sign == 1 && 0 < tn.Val() < td.Val()
    requires withOperand ==> n2 == tn.Val() && d2 == td.Val()
    requires !withOperand ==> n2 == 0 && d2 == 1
    requires number.sign == s1 || number.sign == s2
    modifies number, numerator, denominator, tn
    ensures number.Valid() && f.Valid() && denominator.Valid() && tn.Valid()
    ensures f == numerator || fresh(f)
    ensures tn.Val() == old(tn.Val())
    ensures denominator.sign == 1 && denominator.Val() == old(denominator.Val()) * d2
    ensures number.sign * (number.Val() * denominator.Val() + f.Val())
      == old(number.SignedVal()) * denominator.Val()
         + (s1 * (old(numerator.Val()) * d2) + s2 * (n2 * old(denominator.Val())))
    ensures f.Val() >= denominator.Val() ==> f.sign == number.sign
  {
    ghost var n1, d1, c := numerator.Val(), denominator.Val(), number.SignedVal();
    f := SumRemainders(numerator, denominator, tn, td, s1, s2, withOperand);
    ghost var fs, dd := f.SignedVal(), denominator.Val();
    assert fs == s1 * (n1 * d2) + s2 * (n2 * d1) && dd == d1 * d2 by {
      if !withOperand {
        WholeSum(s1, s2, n1, d1);
      }
    }
    assert number.SignedVal() == c;
    Settle(number, f, denominator);
    assert number.sign * (number.Val() * dd + f.Val()) == c * dd + fs;
  }

  /** Without an operand fraction (0/1) the summed numerator s1*(n1*1) + s2*(0*d1) is s1*n1. */
  lemma WholeSum(s1: int, s2: int, n1: int, d1: int)
    ensures s1 * n1 == s1 * (n1 * 1) + s2 * (0 * d1) && d1 * 1 == d1
  {
  }

  /**
   * The fraction step of `addorsubtract` in fractional mode: the receiver's
   * numerator takes the receiver's sign s1; when the operand brings a nonzero
   * fraction tn/td, taken with sign s2, the numerator becomes the signed sum
   * s1*n*td + s2*tn*d of cross products, over the denominator d*td.
   */
  method SumRemainders(numerator: N, denominator: N, tn: N, td: N, s1: int, s2: int, withOperand: bool) returns (f: N)
    requires numerator.Valid() && denominator.Valid() && tn.Valid() && td.Valid()
    requires numerator != denominator && numerator != tn && numerator != td && denominator != tn && denominator != td
    requires (s1 == 1 || s1 == -1) && (s2 == 1 || s2 == -1)
    requires denominator.sign == 1 && 0 < denominator.Val() && numerator.Val() < denominator.Val()
    requires withOperand ==> td.sign == 1 && 0 < tn.Val() < td.Val() && tn != td
    modifies numerator, denominator, tn
    ensures f.Valid() && denominator.Valid() && denominator.sign == 1 && f != denominator && 0 < denominator.Val()
    ensures f == numerator || fresh(f)
    ensures tn.Valid() && tn.Val() == old(tn.Val())
    ensures withOperand ==> (denominator.Val() == old(denominator.Val()) * td.Val()
      && f.SignedVal() == s1 * (old(numerator.Val()) * td.Val()) + s2 * (tn.Val() * old(denominator.Val())))
    ensures !withOperand ==> denominator.Val() == old(denominator.Val()) && f.SignedVal() == s1 * old(numerator.Val())
    ensures s1 == s2 || !withOperand ==> f.sign == s1
    ensures s1 != s2 ==> f.Val() < denominator.Val()
  {
    numerator.SetSign(s1);
    f := numerator;
    if withOperand {
      tn.SetSign(s2);
      ghost var n, d := numerator.Val(), denominator.Val();
      CountedFacts(numerator.shorts, numerator.shortcount, numerator.longcount);
      f := CrossSum(numerator, denominator, tn, td);
      CountedFacts(f.shorts, f.shortcount, f.longcount);
      ProperCross(n, d, tn.Val(), td.Val());
      CrossBound(s1, s2, n * td.Val(), tn.Val() * d, d * td.Val(), f.sign, f.Val());
    }
  }

  /**
   * The cross products of `addorsubtract`: a new number n*td + tn*d, as
   * signed numbers combined, and the denominator d multiplied by td.
   */
  method CrossSum(n: N, d: N, tn: N, td: N) returns (f: N)
    requires n.Valid() && d.Valid() && tn.Valid() && td.Valid()
    requires n != d && tn != d && td != d && d.sign == 1 && td.sign == 1 && tn.Val() > 0
    modifies d
    ensures fresh(f) && f.Valid() && d.Valid() && d.sign == 1
    ensures d.Val() == old(d.Val()) * td.Val()
    ensures f.SignedVal() == n.sign * (n.Val() * td.Val()) + tn.sign * (tn.Val() * old(d.Val()))
    ensures f.sign == if n.Val() * td.Val() > tn.Val() * old(d.Val()) then n.sign else tn.sign
  {
    f := n.Copy();
    f.Multiply(td);
    var b := tn.Copy();
    b.Multiply(d);
    ghost var x, y := f.Val(), b.Val();
    assert f.sign == n.sign && b.sign == tn.sign;
    MulAssoc(n.sign, n.Val(), td.Val());
    MulAssoc(tn.sign, tn.Val(), d.Val());
    assert f.SignedVal() == n.sign * x && b.SignedVal() == tn.sign * y;
    Combine(f, b);
    d.Multiply(td);
  }

  /** Two cross products of proper fractions with opposite signs sum to less than the common denominator. */
  lemma CrossBound(s1: int, s2: int, x: int, y: int, dd: int, sf: int, v: int)
    requires (s1 == 1 || s1 == -1) && (s2 == 1 || s2 == -1) && (sf == 1 || sf == -1)
    requires 0 <= x < dd && 0 <= y < dd && v >= 0 && sf * v == s1 * x + s2 * y
    ensures s1 != s2 ==> v < dd
  {
  }

  /** Each cross product of two proper fractions is below the product of the denominators. */
  lemma ProperCross(n: int, d: int, tn: int, td: int)
    requires 0 <= n < d && 0 <= tn < td
    ensures 0 <= n * td < d * td && 0 <= tn * d < d * td
  {
    MulMonotone(td, n, d - 1);
    MulMonotone(d, tn, td - 1);
    MulNonNeg(n, td);
    MulNonNeg(tn, d);
  }

  /**
   * The borrow of `addorsubtract`: a nonzero numerator whose sign differs
   * from the integer part's either gives a zero integer part its sign or,
   * when the integer part is nonzero, takes one from its magnitude and
   * leaves denominator - |numerator| as a positive numerator.  Read as
   * sign * (integer part + numerator/denominator) with magnitudes, the
   * parts then denote the signed total they held before.
   */
  method Settle(number: N, numerator: N, denominator: N)
    requires number.Valid() && numerator.Valid() && denominator.Valid()
    requires number != numerator && number != denominator && numerator != denominator
    requires denominator.sign == 1 && denominator.Val() > 0
    requires numerator.sign != number.sign && number.Val() > 0 && numerator.Val() > 0 ==> numerator.Val() < denominator.Val()
    modifies number, numerator
    ensures number.Valid() && numerator.Valid()
    ensures number.sign * (number.Val() * denominator.Val() + numerator.Val())
      == old(number.SignedVal()) * denominator.Val() + old(numerator.SignedVal())
    ensures numerator.Val() >= denominator.Val() ==> numerator.sign == number.sign
  {
    CountedFacts(number.shorts, number.shortcount, number.longcount);
    CountedFacts(numerator.shorts, numerator.shortcount, numerator.longcount);
    ghost var d := denominator.Val();
    ghost var total := number.SignedVal() * d + numerator.SignedVal();
    var z := numerator.IsZero();
    if numerator.sign != number.sign && !z {
      var nz := number.IsZero();
      if nz {
        number.SetSign(-number.sign);
        assert number.sign * (number.Val() * d + numerator.Val()) == total;
      } else {
        Borrow(number, numerator, denominator);
      }
    } else {
      NoBorrow(number.sign, number.Val(), numerator.sign, numerator.Val(), d);
    }
  }

  /** The borrow itself: one comes off a positive integer part, and the numerator becomes denominator - numerator. */
  method Borrow(number: N, numerator: N, denominator: N)
    requires number.Valid() && numerator.Valid() && denominator.Valid()
    requires number != numerator && number != denominator && numerator != denominator
    requires denominator.sign == 1 && 0 < numerator.Val() < denominator.Val()
    requires numerator.sign != number.sign && number.Val() > 0
    modifies number, numerator
    ensures number.Valid() && numerator.Valid()
    ensures number.sign * (number.Val() * denominator.Val() + numerator.Val())
      == old(number.SignedVal()) * denominator.Val() + old(numerator.SignedVal())
    ensures numerator.Val() < denominator.Val()
  {
    ghost var d := denominator.Val();
    ghost var m0, s0, f0 := number.Val(), number.sign, numerator.Val();
    assert 0 < m0 && 0 < f0 < d;
    var one := new N();
    one.Set(1);
    one.SetSign(numerator.sign);
    assert one.SignedVal() == -s0;
    Combine(number, one);
    assert number.SignedVal() == s0 * m0 - s0;
    var z2 := number.IsZero();
    if z2 {
      number.SetSign(-numerator.sign);
    }
    assert number.SignedVal() == s0 * m0 - s0 && (number.Val() == 0 ==> number.sign == s0);
    numerator.SetSign(-1);
    Combine(numerator, denominator);
    assert numerator.SignedVal() == d - f0;
    CountedFacts(number.shorts, number.shortcount, number.longcount);
    CountedFacts(numerator.shorts, numerator.shortcount, numerator.longcount);
    BorrowArith(s0, m0, f0, d, number.sign, number.Val(), numerator.sign, numerator.Val());
  }

  /** Parts of one sign, or a zero numerator: the magnitude reading is the signed total. */
  lemma NoBorrow(s: int, m: int, sf: int, f: int, d: int)
    requires sf == s || f == 0
    ensures s * (m * d + f) == (s * m) * d + sf * f
  {
    MulDistrib(s, m * d, f);
    MulAssoc(s, m, d);
  }

  /** Borrowing one from the integer part m: sign s, magnitude m - 1, numerator d - f. */
  lemma BorrowArith(s: int, m: int, f: int, d: int, sm: int, m1: int, sf: int, f1: int)
    requires (s == 1 || s == -1) && (sm == 1 || sm == -1) && (sf == 1 || sf == -1)
    requires 0 < m && 0 < f < d && m1 >= 0 && f1 >= 0
    requires sm * m1 == s * m - s && (m1 == 0 ==> sm == s) && sf * f1 == d - f
    ensures sm == s && m1 == m - 1 && sf == 1 && f1 == d - f
    ensures sm * (m1 * d + f1) == s * m * d - s * f
  {
    MulDistrib(d, m, -1);
  }

  /**
   * The value `addorsubtract` builds: the signed integer parts summed, plus
   * the signed cross products over the product of the denominators, is the
   * sum of the two signed values.
   */
  lemma SumOfValues(s1: int, m1: int, n1: int, d1: int, s2: int, m2: int, n2: int, d2: int)
    requires (s1 == 1 || s1 == -1) && (s2 == 1 || s2 == -1) && d1 > 0 && d2 > 0
    ensures Ratio((s1 * m1 + s2 * m2) * (d1 * d2) + (s1 * (n1 * d2) + s2 * (n2 * d1)), d1 * d2)
      == Signed(s1, m1 as real + Ratio(n1, d1)) + Signed(s2, m2 as real + Ratio(n2, d2))
  {
    var t1, t2 := s1 * (m1 * d1 + n1), s2 * (m2 * d2 + n2);
    SignedRatio(s1, m1, n1, d1, t1);
    SignedRatio(s2, m2, n2, d2, t2);
    RatioAdd(t1, d1, t2, d2);
    CrossArith(s1, m1, n1, d1, s2, m2, n2, d2);
  }

  lemma RatioAdd(a: int, b: int, c: int, d: int)
    requires b > 0 && d > 0
    ensures Ratio(a, b) + Ratio(c, d) == Ratio(a * d + c * b, b * d)
  {
    assert (a * d + c * b) as real == (a as real) * (d as real) + (c as real) * (b as real);
    assert (b * d) as real == (b as real) * (d as real);
  }

  lemma CrossArith(s1: int, m1: int, n1: int, d1: int, s2: int, m2: int, n2: int, d2: int)
    ensures s1 * (m1 * d1 + n1) * d2 + s2 * (m2 * d2 + n2) * d1
      == (s1 * m1 + s2 * m2) * (d1 * d2) + (s1 * (n1 * d2) + s2 * (n2 * d1))
  {
  }

  /** A magnitude reading sign * (a + b/d) of the integer total sign * (a*d + b), over d. */
  lemma SignedRatio(sg: int, a: int, b: int, d: int, total: int)
    requires (sg == 1 || sg == -1) && d > 0 && sg * (a * d + b) == total
    ensures Signed(sg, a as real + Ratio(b, d)) == Ratio(total, d)
  {
    RatioSplit(a, b, d);
    assert Ratio(total, d) == sg as real * Ratio(a * d + b, d);
  }

  /**
   * The fractional-mode body of `normaliseRemainder`, on the three
   * magnitudes: a numerator of at least the denominator has the quotient
   * folded into the integer part (`FoldQuotient`), and a zero numerator
   * gets the denominator 1.  number + numerator/denominator is kept.
   */
  method NormaliseParts(number: N, numerator: N, denominator: N) returns (f: N)
    requires number.Valid() && numerator.Valid() && denominator.Valid()
    requires number != numerator && number != denominator && numerator != denominator
    requires denominator.sign == 1 && denominator.Val() > 0
    requires numerator.Val() >= denominator.Val() ==> numerator.sign == number.sign
    modifies number, numerator, denominator
    ensures f == numerator || fresh(f)
    ensures number.Valid() && f.Valid() && denominator.Valid() && f != number && f != denominator
    ensures denominator.sign == 1 && 0 <= f.Val() < denominator.Val()
    ensures number.Val() as real + Ratio(f.Val(), denominator.Val())
      == old(number.Val() as real + Ratio(numerator.Val(), denominator.Val()))
    ensures number.sign == old(number.sign)
    ensures f.Val() == 0 ==> denominator.Val() == 1
  {
    ghost var d := denominator.Val();
    ghost var mag0 := number.Val() as real + Ratio(numerator.Val(), d);
    f := numerator;
    var c := numerator.Compare(denominator);
    if c >= 0 {
      ghost var m0, n0 := number.Val(), numerator.Val();
      f := FoldQuotient(number, numerator, denominator);
      RatioEq(m0 * d + n0, d, number.Val() * d + f.Val(), d);
      RatioSplit(m0, n0, d);
      RatioSplit(number.Val(), f.Val(), d);
    }
    CountedFacts(f.shorts, f.shortcount, f.longcount);
    assert mag0 == number.Val() as real + Ratio(f.Val(), d);
    var z := f.IsZero();
    if z {
      denominator.Set(1);
      assert Ratio(0, d) == 0.0 == Ratio(0, 1);
    }
  }

  /** The cross-product comparison of `compare`: n1*d2 against d1*n2, on copies. */
  method CrossCompare(n1: N, d1: N, n2: N, d2: N) returns (r: int)
    requires n1.Valid() && d1.Valid() && n2.Valid() && d2.Valid()
    ensures r == Sign(n1.Val() * d2.Val() - d1.Val() * n2.Val())
  {
    var a := n1.Copy();
    a.Multiply(d2);
    var b := d1.Copy();
    b.Multiply(n2);
    r := a.Compare(b);
  }

  lemma SignScale(s: int, a: int, b: int, c: int)
    requires (s == 1 || s == -1) && c == Sign(a - b)
    ensures s * c == Sign(s * a - s * b)
  {
  }

  /** Values of opposite signs, not both zero, are ordered by the first one's sign. */
  lemma OppositeSigns(s: int, a: real, b: real)
    requires (s == 1 || s == -1) && a >= 0.0 && b >= 0.0 && (a != 0.0 || b != 0.0)
    ensures RealSign((if s < 0 then -a else a) - (if -s < 0 then -b else b)) == s
  {
  }

  /** The order of two fractions is the order of their cross products. */
  lemma FracOrder(n1: int, d1: int, n2: int, d2: int)
    requires d1 > 0 && d2 > 0
    ensures RealSign(Ratio(n1, d1) - Ratio(n2, d2)) == Sign(n1 * d2 - d1 * n2)
  {
    var x, y := Ratio(n1, d1), Ratio(n2, d2);
    assert x * (d1 as real) == n1 as real && y * (d2 as real) == n2 as real;
    assert (x - y) * ((d1 * d2) as real) == (n1 * d2 - d1 * n2) as real;
  }

  /**
   * Two values of one sign s with integer parts a, b and fractions f, g in
   * [0, 1): the integer parts decide unless equal, then the fractions; the
   * verdict on magnitudes is multiplied by s.
   */
  lemma OrderByParts(s: int, a: int, f: real, b: int, g: real)
    requires (s == 1 || s == -1) && a >= 0 && b >= 0 && 0.0 <= f < 1.0 && 0.0 <= g < 1.0
    ensures var m, n := a as real + f, b as real + g;
      RealSign((if s < 0 then -m else m) - (if s < 0 then -n else n))
      == s * (if a != b then Sign(a - b) else RealSign(f - g))
  {
  }

  /**
   * The top-heavy case of `normaliseRemainder`: the numerator is divided by
   * the denominator, the quotient, carrying the numerator's sign, is
   * combined into the integer part, and the remainder is returned.
   */
  method FoldQuotient(number: N, numerator: N, denominator: N) returns (rem: N)
    requires number.Valid() && numerator.Valid() && denominator.Valid()
    requires number != numerator && number != denominator && numerator != denominator
    requires denominator.sign == 1 && 0 < denominator.Val() <= numerator.Val() && numerator.sign == number.sign
    modifies number, numerator
    ensures fresh(rem) && rem.Valid() && number.Valid() && number.sign == old(number.sign)
    ensures number.Val() * denominator.Val() + rem.Val() == old(number.Val()) * denominator.Val() + old(numerator.Val())
    ensures rem.Val() < denominator.Val()
  {
    ghost var m0, n0, d, s0 := number.Val(), numerator.Val(), denominator.Val(), number.sign;
    var r := numerator.Divide(denominator);
    rem := r.value;
    ghost var q := numerator.Val();
    CountedFacts(numerator.shorts, numerator.shortcount, numerator.longcount);
    CountedFacts(number.shorts, number.shortcount, number.longcount);
    CountedFacts(rem.shorts, rem.shortcount, rem.longcount);
    QuotientPositive(n0, q, d, rem.Val());
    Combine(number, numerator);
    CountedFacts(number.shorts, number.shortcount, number.longcount);
    SameSignSum(s0, m0, q, number.sign, number.Val());
    FoldArith(m0, q, d, rem.Val(), n0, number.Val());
  }

  lemma QuotientPositive(n: int, q: int, d: int, r: int)
    requires n == q * d + r && 0 <= q && 0 <= r < d <= n
    ensures q >= 1
  {
  }

  /** A signed sum of two magnitudes of one sign has that sign and their total magnitude. */
  lemma SameSignSum(s: int, a: int, b: int, sr: int, r: int)
    requires (s == 1 || s == -1) && (sr == 1 || sr == -1) && a >= 0 && b >= 0 && r >= 0
    requires sr * r == s * a + s * b
    ensures r == a + b
  {
  }

  lemma FoldArith(m: int, q: int, d: int, rem: int, n: int, v: int)
    requires v == m + q && n == q * d + rem
    ensures v * d + rem == m * d + n
  {
    MulDistrib(d, m, q);
  }

  /**
   * The sign of the quotient N.divide leaves: a signed quotient of s*v by a
   * positive divisor d is s times the quotient of the magnitudes.
   */
  lemma SignedQuotientSign(s: int, v: int, d: int, qs: int, q: int, r: int)
    requires s == 1 || s == -1
    requires d > 0 && v == q * d + r && 0 <= r < d && q >= 1
    requires qs * q == TDiv(s * v, d)
    ensures qs * q == s * q
  {
    SignedQuotient(s, v, 1, d, q, r);
  }
  /** The sign-and-magnitude product of integer parts, as a real. */
  lemma IntegerProduct(sg: int, v: int, s1: int, m1: int, s2: int, m2: int)
    requires (s1 == 1 || s1 == -1) && (s2 == 1 || s2 == -1) && sg == s1 * s2 && v == m1 * m2
    ensures Signed(sg, v as real + 0.0) == ((s1 * m1) * (s2 * m2)) as real
  {
    assert (s1 * m1) * (s2 * m2) == (s1 * s2) * (m1 * m2);
  }

  /** The quotient of integer parts as a signed value: the truncated quotient of the signed parts. */
  lemma IntegerQuotient(s1: int, m1: int, s2: int, m2: int, q: int, r: int)
    requires (s1 == 1 || s1 == -1) && (s2 == 1 || s2 == -1) && m1 >= 0 && m2 > 0
    requires m1 == q * m2 + r && 0 <= r < m2
    ensures s2 * m2 != 0 && Signed(s1 * s2, q as real + 0.0) == TDiv(s1 * m1, s2 * m2) as real
  {
    SignedQuotient(s1, m1, s2, m2, q, r);
  }

  /** Signs multiply as the magnitudes do. */
  lemma SignedProduct(s1: int, s2: int, p: real, q: real)
    requires (s1 == 1 || s1 == -1) && (s2 == 1 || s2 == -1)
    ensures Signed(s1 * s2, Times(p, q)) == Times(Signed(s1, p), Signed(s2, q))
  {
  }

  /** Signs divide as the magnitudes do. */
  lemma SignedDivision(s1: int, s2: int, p: real, q: real)
    requires (s1 == 1 || s1 == -1) && (s2 == 1 || s2 == -1) && q != 0.0
    ensures Signed(s2, q) != 0.0 && Signed(s1 * s2, Over(p, q)) == Over(Signed(s1, p), Signed(s2, q))
  {
  }

  /** x*y, as a term of its own: its operands are then matched whole rather than multiplied out. */
  ghost function Times(x: real, y: real): real
  {
    x * y
  }

  /** x/y, as a term of its own, like Times. */
  ghost function Over(x: real, y: real): real
    requires y != 0.0
  {
    x / y
  }

  /** A magnitude m + n/d of the operand is zero exactly when m*d + n is. */
  lemma PositiveMagnitude(m: int, n: int, d: int)
    requires 0 <= m && 0 <= n && 0 < d
    ensures m as real + Ratio(n, d) == 0.0 <==> m * d + n == 0
  {
    MulNonNeg(m, d);
    if m > 0 {
      MulMonotone(d, 1, m);
    }
    assert Ratio(n, d) * (d as real) == n as real;
  }

  /** Reals agreeing once scaled by the same nonzero k agree. */
  lemma ScaledEqual(l: real, r: real, k: real)
    requires k != 0.0 && l * k == r * k
    ensures l == r
  {
  }

  /**
   * The product of m1 + n1/d1 and m2 + n2/d2 over the common denominator:
   * m1*m2 plus (n1*(n2 + d2*m2) + n2*m1*d1)/(d1*d2).
   */
  lemma ProductOfValues(m1: int, n1: int, d1: int, m2: int, n2: int, d2: int)
    requires 0 < d1 && 0 < d2
    ensures d1 * d2 > 0
    ensures (m1 * m2) as real + Ratio(n1 * (n2 + d2 * m2) + (n2 * m1) * d1, d1 * d2)
      == (m1 as real + Ratio(n1, d1)) * (m2 as real + Ratio(n2, d2))
  {
    MulMonotone(d1, 1, d2);
    var a, b, c, e := m1 as real, n1 as real, d1 as real, d2 as real;
    var f, g := m2 as real, n2 as real;
    var x, y := Ratio(n1, d1), Ratio(n2, d2);
    var nn := n1 * (n2 + d2 * m2) + (n2 * m1) * d1;
    var z := Ratio(nn, d1 * d2);
    assert x * c == b && y * e == g;
    assert (d1 * d2) as real == c * e;
    assert z * (c * e) == nn as real;
    assert nn as real == b * (g + e * f) + (g * a) * c;
    ScaledProduct(a, b, c, e, f, g, x, y, z);
    assert (m1 * m2) as real == a * f;
    ScaledEqual(a * f + z, (a + x) * (f + y), c * e);
  }

  /** The product of the two values, scaled by both denominators, in terms of the numerators. */
  lemma ScaledProduct(a: real, b: real, c: real, e: real, f: real, g: real, x: real, y: real, z: real)
    requires x * c == b && y * e == g && z * (c * e) == b * (g + e * f) + (g * a) * c
    ensures (a * f + z) * (c * e) == ((a + x) * (f + y)) * (c * e)
  {
    assert (a + x) * c == a * c + b;
    assert (f + y) * e == f * e + g;
    assert ((a + x) * (f + y)) * (c * e) == ((a + x) * c) * ((f + y) * e);
    assert (a * f + z) * (c * e) == (a * c + b) * (f * e + g);
  }

  /**
   * The quotient of m1 + n1/d1 by m2 + n2/d2 is the single division of
   * (m1*d1 + n1)*d2 by d1*(m2*d2 + n2): a quotient q and remainder r
   * make q + r/(d1*(m2*d2 + n2)).
   */
  lemma QuotientOfValues(m1: int, n1: int, d1: int, m2: int, n2: int, d2: int, q: int, r: int)
    requires 0 < d1 && 0 < d2 && 0 < m2 * d2 + n2
    requires (m1 * d1 + n1) * d2 == q * (d1 * (m2 * d2 + n2)) + r
    ensures d1 * (m2 * d2 + n2) > 0 && m2 as real + Ratio(n2, d2) != 0.0
    ensures q as real + Ratio(r, d1 * (m2 * d2 + n2))
      == Over(m1 as real + Ratio(n1, d1), m2 as real + Ratio(n2, d2))
  {
    var k := m2 * d2 + n2;
    MulMonotone(d1, 1, k);
    var a, b, c, e := m1 as real, n1 as real, d1 as real, d2 as real;
    var f, g, w := m2 as real, n2 as real, k as real;
    var x, y := Ratio(n1, d1), Ratio(n2, d2);
    assert x * c == b && y * e == g;
    assert (f + y) * e == w;
    assert f + y != 0.0;
    var v := Ratio(r, d1 * k);
    assert (d1 * k) as real == c * w;
    assert v * (c * w) == r as real;
    var u := (a + x) / (f + y);
    assert u * (f + y) == a + x;
    assert u * (c * w) == (a + x) * c * e;
    assert (a + x) * c == a * c + b;
    assert ((m1 * d1 + n1) * d2) as real == (a * c + b) * e;
    assert (q as real + v) * (c * w) == (a * c + b) * e;
    ScaledEqual(q as real + v, u, c * w);
  }

  /**
   * `multiply` on the magnitudes of a fractional receiver m1 + n1/d1 and
   * an operand m2 + n2/d2 (n2/d2 read as 0/1 without a fraction): every
   * sign is first set to 1 (the correction), then the numerator becomes
   * n1*(n2 + d2*m2) + n2*m1*d1 (n1*m2 without a fraction), the denominator
   * d1*d2, the integer part m1*m2, and the remainder is normalised.
   */
  method MultiplyMagnitudes(number: N, numerator: N, denominator: N, tm: N, tn: N, td: N,
                            withFraction: bool, ghost n2: int, ghost d2: int)
    returns (f: N)
    requires number.Valid() && numerator.Valid() && denominator.Valid() && tm.Valid() && tn.Valid() && td.Valid()
    requires number != numerator && number != denominator && numerator != denominator
    requires tm != tn && tm != td && tn != td
    requires {number, numerator, denominator} !! {tm, tn, td}
    requires denominator.sign == 1 && 0 < denominator.Val()
    requires withFraction ==> td.sign == 1 && 0 < td.Val() && n2 == tn.Val() && d2 == td.Val()
    requires !withFraction ==> n2 == 0 && d2 == 1
    modifies number, numerator, denominator, tm, tn
    ensures f == numerator || fresh(f)
    ensures number.Valid() && f.Valid() && denominator.Valid() && tm.Valid() && tn.Valid()
    ensures f != number && f != denominator
    ensures tm.Val() == old(tm.Val()) && tn.Val() == old(tn.Val())
    ensures denominator.sign == 1 && 0 <= f.Val() < denominator.Val()
    ensures f.Val() == 0 ==> denominator.Val() == 1
    ensures number.Val() as real + Ratio(f.Val(), denominator.Val())
      == Times(old(number.Val()) as real + Ratio(old(numerator.Val()), old(denominator.Val())),
               old(tm.Val()) as real + Ratio(n2, d2))
  {
    ghost var m1, n1, d1, m2 := number.Val(), numerator.Val(), denominator.Val(), tm.Val();
    NonNegative(number);
    NonNegative(numerator);
    NonNegative(tm);
    tm.SetSign(1);
    number.SetSign(1);
    numerator.SetSign(1);
    if withFraction {
      tn.SetSign(1);
      FractionProduct(numerator, denominator, number, tm, tn, td);
    } else {
      numerator.Multiply(tm);
      WholeOperand(n1, m1, d1, m2);
    }
    number.Multiply(tm);
    ProductValue(number.Val(), numerator.Val(), denominator.Val(), m1, n1, d1, m2, n2, d2);
    f := NormaliseParts(number, numerator, denominator);
  }

  /** Without an operand fraction (0/1) the product's numerator n1*(0 + 1*m2) + 0*m1*d1 is n1*m2. */
  lemma WholeOperand(n1: int, m1: int, d1: int, m2: int)
    ensures n1 * m2 == n1 * (0 + 1 * m2) + (0 * m1) * d1
  {
  }

  /** Parts holding m1*m2, the product's numerator and d1*d2 denote the product of the two values. */
  lemma ProductValue(m: int, n: int, d: int, m1: int, n1: int, d1: int, m2: int, n2: int, d2: int)
    requires 0 < d1 && 0 < d2 && m == m1 * m2 && n == n1 * (n2 + d2 * m2) + (n2 * m1) * d1 && d == d1 * d2
    ensures d > 0
    ensures m as real + Ratio(n, d) == Times(m1 as real + Ratio(n1, d1), m2 as real + Ratio(n2, d2))
  {
    ProductOfValues(m1, n1, d1, m2, n2, d2);
  }

  /**
   * The fraction of a product in `multiply`, every sign being 1: the
   * numerator n1 becomes n1*(n2 + d2*m2) + n2*m1*d1 and the denominator d1
   * becomes d1*d2, for a receiver m1 + n1/d1 and an operand m2 + n2/d2.
   */
  method FractionProduct(numerator: N, denominator: N, number: N, tm: N, tn: N, td: N)
    requires number.Valid() && numerator.Valid() && denominator.Valid() && tm.Valid() && tn.Valid() && td.Valid()
    requires numerator != denominator && numerator != number && numerator != tm && numerator != tn && numerator != td
    requires denominator != number && denominator != tm && denominator != tn && denominator != td
    requires number.sign == 1 && numerator.sign == 1 && denominator.sign == 1
    requires tm != td && tm.sign == 1 && tn.sign == 1 && td.sign == 1
    modifies numerator, denominator
    ensures numerator.Valid() && denominator.Valid() && numerator.sign == 1 && denominator.sign == 1
    ensures numerator.Val() == old(numerator.Val()) * (tn.Val() + td.Val() * tm.Val())
                               + (tn.Val() * number.Val()) * old(denominator.Val())
    ensures denominator.Val() == old(denominator.Val()) * td.Val()
  {
    var e := SumTerm(tn, td, tm);
    var g := CrossTerm(tn, number, denominator);
    NonNegative(numerator);
    NonNegative(e);
    numerator.Multiply(e);
    Combine(numerator, g);
    denominator.Multiply(td);
  }

  /** A fresh n + d*m, positive, from magnitudes of sign 1. */
  method SumTerm(n: N, d: N, m: N) returns (e: N)
    requires n.Valid() && d.Valid() && m.Valid() && d != m && n.sign == 1 && d.sign == 1 && m.sign == 1
    ensures fresh(e) && e.Valid() && e.sign == 1 && e.Val() == n.Val() + d.Val() * m.Val()
  {
    var c := d.Copy();
    c.Multiply(m);
    e := n.Copy();
    Combine(e, c);
  }

  /**
   * The dividend of a fractional `divide`, before any operand fraction:
   * the integer part m becomes m*d + n, every sign set to 1 (the
   * correction).
   */
  method Dividend(number: N, numerator: N, denominator: N)
    requires number.Valid() && numerator.Valid() && denominator.Valid()
    requires number != numerator && number != denominator && numerator != denominator
    requires denominator.sign == 1
    modifies number, numerator
    ensures number.Valid() && numerator.Valid() && number.sign == 1
    ensures numerator.Val() == old(numerator.Val())
    ensures number.Val() == old(number.Val()) * denominator.Val() + old(numerator.Val())
  {
    NonNegative(number);
    NonNegative(numerator);
    NonNegative(denominator);
    number.SetSign(1);
    numerator.SetSign(1);
    number.Multiply(denominator);
    Combine(number, numerator);
  }

  /** A fresh n*m*d, positive, from magnitudes of sign 1. */
  method CrossTerm(n: N, m: N, d: N) returns (g: N)
    requires n.Valid() && m.Valid() && d.Valid() && n.sign == 1 && m.sign == 1 && d.sign == 1
    ensures fresh(g) && g.Valid() && g.sign == 1 && g.Val() == (n.Val() * m.Val()) * d.Val()
  {
    g := n.Copy();
    g.Multiply(m);
    g.Multiply(d);
  }

  /**
   * `divide` on the magnitudes of a fractional receiver m1 + n1/d1 and an
   * operand m2 + n2/d2 (m2 alone without a fraction).  The divisor
   * m2*d2 + n2 is formed first; when it is zero nothing else changes and ok
   * is false.  Otherwise every sign is set to 1 (the correction), the
   * integer part becomes (m1*d1 + n1)*d2 and the denominator d1*(m2*d2 + n2),
   * and one division leaves the quotient as the integer part and returns
   * the remainder as the new numerator.
   */
  method DivideMagnitudes(number: N, numerator: N, denominator: N, tm: N, tn: N, td: N,
                          withFraction: bool, ghost n2: int, ghost d2: int)
    returns (f: N, ok: bool)
    requires number.Valid() && numerator.Valid() && denominator.Valid() && tm.Valid() && tn.Valid() && td.Valid()
    requires number != numerator && number != denominator && numerator != denominator
    requires tm != tn && tm != td && tn != td
    requires {number, numerator, denominator} !! {tm, tn, td}
    requires denominator.sign == 1 && 0 < denominator.Val()
    requires withFraction ==> td.sign == 1 && 0 < td.Val() && n2 == tn.Val() && d2 == td.Val()
    requires !withFraction ==> n2 == 0 && d2 == 1
    modifies number, numerator, denominator, tm, tn
    ensures f == numerator || fresh(f)
    ensures number.Valid() && f.Valid() && denominator.Valid() && tm.Valid() && tn.Valid()
    ensures f != number && f != denominator
    ensures tm.Val() == old(tm.Val()) && tn.Val() == old(tn.Val())
    ensures ok <==> old(tm.Val()) * d2 + n2 != 0
    ensures !ok ==> number.Val() == old(number.Val()) && f.Val() == old(numerator.Val())
    ensures !ok ==> denominator.Val() == old(denominator.Val())
    ensures denominator.sign == 1 && 0 < denominator.Val()
    ensures ok ==> f.Val() < denominator.Val()
    ensures ok ==> old(tm.Val()) as real + Ratio(n2, d2) != 0.0
    ensures ok ==> (number.Val() as real + Ratio(f.Val(), denominator.Val())
      == Over(old(number.Val()) as real + Ratio(old(numerator.Val()), old(denominator.Val())),
              old(tm.Val()) as real + Ratio(n2, d2)))
  {
    ghost var m1, n1, d1, m2 := number.Val(), numerator.Val(), denominator.Val(), tm.Val();
    var k := Divisor(tm, tn, td, withFraction);
    assert k.Val() == m2 * d2 + n2;
    var z := k.IsZero();
    f := numerator;
    if z {
      ok := false;
      return;
    }
    NonNegative(k);
    f := DivideBy(number, numerator, denominator, td, k, withFraction);
    ok := true;
    assert (m1 * d1 + n1) * d2 == number.Val() * (d1 * (m2 * d2 + n2)) + f.Val();
    QuotientOfValues(m1, n1, d1, m2, n2, d2, number.Val(), f.Val());
  }

  /**
   * The divisor of a fractional `divide`, as a fresh number: m2*d2 + n2
   * for an operand with a fraction, m2 for one without; the operand's signs
   * are set to 1 (the correction).
   */
  method Divisor(tm: N, tn: N, td: N, withFraction: bool) returns (k: N)
    requires tm.Valid() && tn.Valid() && td.Valid() && tm != tn && tm != td && tn != td
    requires withFraction ==> td.sign == 1
    modifies tm, tn
    ensures fresh(k) && k.Valid() && k.sign == 1 && tm.Valid() && tn.Valid()
    ensures tm.Val() == old(tm.Val()) && tn.Val() == old(tn.Val())
    ensures withFraction ==> k.Val() == old(tm.Val()) * td.Val() + old(tn.Val())
    ensures !withFraction ==> k.Val() == old(tm.Val())
  {
    ghost var m0, n0, d0 := tm.Val(), tn.Val(), td.Val();
    NonNegative(tm);
    tm.SetSign(1);
    if withFraction {
      NonNegative(tn);
      tn.SetSign(1);
      assert tm.Val() == m0 && tn.Val() == n0 && td.Val() == d0;
      k := SumTerm(tn, td, tm);
      assert k.Val() == n0 + d0 * m0;
    } else {
      k := tm.Copy();
    }
  }

  /**
   * The division of a fractional `divide` by a nonzero divisor k: the
   * dividend (m*d + n)*d2 (d2 only with an operand fraction) over the new
   * denominator d*k leaves its quotient as the integer part and returns
   * its remainder as the new numerator.
   */
  method DivideBy(number: N, numerator: N, denominator: N, td: N, k: N, withFraction: bool) returns (f: N)
    requires number.Valid() && numerator.Valid() && denominator.Valid() && td.Valid() && k.Valid()
    requires number != numerator && number != denominator && numerator != denominator
    requires number != td && numerator != td && denominator != td
    requires k != number && k != numerator && k != denominator
    requires denominator.sign == 1 && 0 < denominator.Val() && k.sign == 1 && 0 < k.Val()
    requires withFraction ==> td.sign == 1
    modifies number, numerator, denominator
    ensures fresh(f) && f.Valid() && number.Valid() && denominator.Valid()
    ensures denominator.sign == 1 && denominator.Val() == old(denominator.Val()) * k.Val()
    ensures 0 <= f.Val() < denominator.Val()
    ensures number.Val() * denominator.Val() + f.Val()
      == (old(number.Val()) * old(denominator.Val()) + old(numerator.Val())) * (if withFraction then td.Val() else 1)
  {
    ghost var d := denominator.Val();
    Dividend(number, numerator, denominator);
    ghost var p := number.Val();
    if withFraction {
      number.Multiply(td);
    }
    assert number.Val() == p * (if withFraction then td.Val() else 1);
    MulNonNeg(d, k.Val());
    MulMonotone(d, 1, k.Val());
    denominator.Multiply(k);
    var r := number.Divide(denominator);
    f := r.value;
    NonNegative(f);
  }

}
