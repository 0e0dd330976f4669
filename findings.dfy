/**
 * The places where lib/N.js does not do what it evidently intends, each
 * modelled as written with an input that shows the discrepancy.  The
 * corrected behaviour is what module BigInt models and proves.
 */
module BigIntFindings {
  import opened Arith
  import opened Digits
  import opened LongDivision
  import opened BigInt

  /**
   * The digit loop shared by the carry pass of `normalise` (m = 1) and by
   * `_digitMultiplyWithAdd`: each digit becomes the truncated remainder of
   * carry + digit*m and the truncated quotient is carried up; the final
   * carry is returned.
   */
  function CarryMul(ds: seq<int>, m: int, carry: int): (r: (seq<int>, int))
    ensures |r.0| == |ds|
    ensures Value(r.0, BASE) + r.1 * Pow(BASE, |ds|) == Value(ds, BASE) * m + carry
  {
    if ds == [] then ([], carry)
    else
      var c := carry + ds[0] * m;
      var rest := CarryMul(ds[1..], m, TDiv(c, BASE));
      CarryMulStep(ds, m, carry, rest.0, rest.1);
      ([TMod(c, BASE)] + rest.0, rest.1)
  }

  lemma CarryMulStep(ds: seq<int>, m: int, carry: int, rest: seq<int>, out: int)
    requires ds != [] && |rest| == |ds| - 1
    requires Value(rest, BASE) + out * Pow(BASE, |ds| - 1) == Value(ds[1..], BASE) * m + TDiv(carry + ds[0] * m, BASE)
    ensures Value([TMod(carry + ds[0] * m, BASE)] + rest, BASE) + out * Pow(BASE, |ds|)
      == Value(ds, BASE) * m + carry
  {
    var c := carry + ds[0] * m;
    TDivMod(c, BASE);
    var q, t := TDiv(c, BASE), TMod(c, BASE);
    var vr, vt, p := Value(rest, BASE), Value(ds[1..], BASE), Pow(BASE, |ds| - 1);
    ValueCons(t, rest, BASE);
    assert Value(ds, BASE) == ds[0] + BASE * vt;
    assert Pow(BASE, |ds|) == BASE * p;
    CarryMulArith(vr, out, p, vt, m, q, t, c, carry, ds[0], BASE,
      Value([t] + rest, BASE), Pow(BASE, |ds|), Value(ds, BASE));
  }

  lemma CarryMulArith(vr: int, out: int, p: int, vt: int, m: int, q: int, t: int, c: int, carry: int, d: int, b: int,
      v1: int, p1: int, vd: int)
    requires vr + out * p == vt * m + q && c == q * b + t && c == carry + d * m
    requires v1 == t + b * vr && p1 == b * p && vd == d + b * vt
    ensures v1 + out * p1 == vd * m + carry
  {
    MulDistrib(b, vr, out * p);
    MulAssoc(out, b, p);
    MulDistrib(b, vt * m, q);
    MulAssoc(b, vt, m);
    MulDistrib(m, d, b * vt);
  }

  /** One step of CarryMul, with the truncated remainder and quotient named. */
  lemma CarryMulCons(ds: seq<int>, m: int, carry: int, t: int, q: int)
    requires ds != [] && t == TMod(carry + ds[0] * m, BASE) && q == TDiv(carry + ds[0] * m, BASE)
    ensures CarryMul(ds, m, carry) == ([t] + CarryMul(ds[1..], m, q).0, CarryMul(ds[1..], m, q).1)
  {
  }

  /** `if (carry) this.digits[this.digits.length] = carry`: the final carry as ONE more digit. */
  function PushCarry(r: (seq<int>, int)): (ds: seq<int>)
    ensures Value(ds, BASE) == Value(r.0, BASE) + r.1 * Pow(BASE, |r.0|)
  {
    ValueSnoc(r.0, r.1, BASE);
    if r.1 != 0 then r.0 + [r.1] else r.0
  }

  /**
   * `normalise` as written (lib/N.js:131-144): a carry pass when the bound
   * has reached BASE, the final carry pushed as one digit, the bound reset
   * to BASE-1, then most-significant zeros removed unless noReduction.
   */
  function NormaliseAsWritten(ds: seq<int>, sm: int, noReduction: bool): (r: (seq<int>, int))
    ensures Value(r.0, BASE) == Value(ds, BASE)
    ensures r.1 == if sm >= BASE then BASE - 1 else sm
  {
    var d1 := if sm >= BASE then PushCarry(CarryMul(ds, 1, 0)) else ds;
    ValueTrim(d1, BASE);
    (if noReduction then d1 else Trim(d1), if sm >= BASE then BASE - 1 else sm)
  }

  /**
   * Finding: three digits of BASE^2-1 under the bound BASE^2-1 (which `add`
   * allows) leave a final carry of BASE, pushed as a digit equal to BASE
   * while the bound claims BASE-1.  The value is kept but the number is no
   * longer normalised, so the next `normalise` skips its carry pass.
   */
  lemma NormaliseLeavesBaseDigit()
    ensures var r := NormaliseAsWritten([SQUAREBASE - 1, SQUAREBASE - 1, SQUAREBASE - 1], SQUAREBASE - 1, false);
      r == ([BASE - 1, BASE - 2, BASE - 1, BASE], BASE - 1) && !ValidBound(r.0, r.1)
  {
    var x := SQUAREBASE - 1;
    var ds := [x, x, x];
    DivModUnique(x, BASE, BASE - 1, BASE - 1);
    DivModUnique(BASE - 1 + x, BASE, BASE, BASE - 2);
    DivModUnique(BASE + x, BASE, BASE, BASE - 1);
    assert TMod(x, BASE) == BASE - 1 && TDiv(x, BASE) == BASE - 1;
    assert TMod(BASE - 1 + x, BASE) == BASE - 2 && TDiv(BASE - 1 + x, BASE) == BASE;
    assert TMod(BASE + x, BASE) == BASE - 1 && TDiv(BASE + x, BASE) == BASE;
    assert [x][1..] == [] && [x, x][1..] == [x] && ds[1..] == [x, x];
    CarryMulCons([x], 1, BASE, BASE - 1, BASE);
    assert CarryMul([], 1, BASE) == ([], BASE);
    assert [BASE - 1] + [] == [BASE - 1];
    assert CarryMul([x], 1, BASE) == ([BASE - 1], BASE);
    CarryMulCons([x, x], 1, BASE - 1, BASE - 2, BASE);
    assert [BASE - 2] + [BASE - 1] == [BASE - 2, BASE - 1];
    assert CarryMul([x, x], 1, BASE - 1) == ([BASE - 2, BASE - 1], BASE);
    CarryMulCons(ds, 1, 0, BASE - 1, BASE - 1);
    assert [BASE - 1] + [BASE - 2, BASE - 1] == [BASE - 1, BASE - 2, BASE - 1];
    assert CarryMul(ds, 1, 0) == ([BASE - 1, BASE - 2, BASE - 1], BASE);
    var d1 := PushCarry(CarryMul(ds, 1, 0));
    assert d1 == [BASE - 1, BASE - 2, BASE - 1, BASE];
    assert Trim(d1) == d1;
    assert !Normalised(d1, BASE) by {
      assert d1[3] == BASE;
    }
  }

  /**
   * `add`/`subtract` as written (lib/N.js:295-337): the bounds are summed and,
   * when that reaches BASE^2, the receiver is normalised, which sets its
   * bound to BASE-1; the operand's digits are then combined in without its
   * bound being counted again.
   */
  function AccumulateAsWritten(xs: seq<int>, xsm: int, ys: seq<int>, ysm: int, s: int): (r: (seq<int>, int))
    ensures var n := NormaliseAsWritten(xs, xsm + ysm, false).0;
      xsm + ysm >= SQUAREBASE ==> |r.0| == (if |n| < |ys| then |ys| else |n|)
  {
    var n := if xsm + ysm >= SQUAREBASE then NormaliseAsWritten(xs, xsm + ysm, false) else (xs, xsm + ysm);
    var len := if |n.0| < |ys| then |ys| else |n.0|;
    (seq(len, j requires 0 <= j < len => At(n.0, j) + s * At(ys, j)), n.1)
  }

  /**
   * Finding: [BASE*(BASE-1)] under that bound plus [2*BASE-2] under bound
   * 2*BASE-2 gives [2*BASE-2, BASE-1] under bound BASE-1: a digit of BASE or
   * more beneath a bound below BASE.
   */
  lemma AddUndercountsBound()
    ensures var r := AccumulateAsWritten([BASE * (BASE - 1)], BASE * (BASE - 1), [2 * BASE - 2], 2 * BASE - 2, 1);
      r == ([2 * BASE - 2, BASE - 1], BASE - 1) && !ValidBound(r.0, r.1)
  {
    var xs := [BASE * (BASE - 1)];
    DivModUnique(BASE * (BASE - 1), BASE, BASE - 1, 0);
    assert xs[1..] == [];
    CarryMulCons(xs, 1, 0, 0, BASE - 1);
    assert CarryMul([], 1, BASE - 1) == ([], BASE - 1);
    assert [0] + [] == [0];
    var c := CarryMul(xs, 1, 0);
    assert c == ([0], BASE - 1);
    assert PushCarry(c) == [0, BASE - 1];
    assert Trim([0, BASE - 1]) == [0, BASE - 1];
    var n := NormaliseAsWritten(xs, BASE * (BASE - 1) + 2 * BASE - 2, false);
    assert n == ([0, BASE - 1], BASE - 1);
    var r := AccumulateAsWritten(xs, BASE * (BASE - 1), [2 * BASE - 2], 2 * BASE - 2, 1);
    assert |r.0| == 2 && r.1 == BASE - 1;
    assert r.0[0] == 2 * BASE - 2 && r.0[1] == BASE - 1;
    assert r.0 == [2 * BASE - 2, BASE - 1];
    assert !Normalised(r.0, BASE) by {
      assert r.0[0] >= BASE;
    }
  }

  /**
   * `_digitMultiplyWithAdd` as written (lib/N.js:528-538): normalise without
   * reduction when the bound has reached BASE, one multiply-and-carry pass,
   * the final carry pushed as one digit, the bound set to BASE-1.
   */
  function DigitMultiplyAsWritten(ds: seq<int>, sm: int, multiplier: int, digit: int): (r: (seq<int>, int))
    ensures Value(r.0, BASE) == Value(ds, BASE) * multiplier + digit && r.1 == BASE - 1
  {
    var d0 := if sm >= BASE then NormaliseAsWritten(ds, sm, true).0 else ds;
    var c := CarryMul(d0, multiplier, digit);
    ValueNormaliseMul(ds, d0, multiplier, digit);
    (PushCarry(c), BASE - 1)
  }

  lemma ValueNormaliseMul(ds: seq<int>, d0: seq<int>, multiplier: int, digit: int)
    requires Value(d0, BASE) == Value(ds, BASE)
    ensures Value(d0, BASE) * multiplier + digit == Value(ds, BASE) * multiplier + digit
  {
  }

  /**
   * The single-digit path of `multiply` as written (lib/N.js:347-355): the
   * bound is multiplied by |m|; below BASE^2 every digit is scaled in place,
   * otherwise `_digitMultiplyWithAdd(m, 0)` runs, whatever the size of m.
   */
  function MultiplyByDigitAsWritten(ds: seq<int>, sm: int, m: int): (r: (seq<int>, int))
    ensures Value(r.0, BASE) == Value(ds, BASE) * m
  {
    var bound := sm * Abs(m);
    if bound < SQUAREBASE then
      var scaled := seq(|ds|, j requires 0 <= j < |ds| => ds[j] * m);
      ValueScaled(ds, m, scaled);
      (scaled, bound)
    else
      DigitMultiplyAsWritten(ds, bound, m, 0)
  }

  lemma {:induction false} ValueScaled(ds: seq<int>, m: int, scaled: seq<int>)
    requires |scaled| == |ds| && forall j :: 0 <= j < |ds| ==> scaled[j] == ds[j] * m
    ensures Value(scaled, BASE) == Value(ds, BASE) * m
  {
    if ds != [] {
      ValueScaled(ds[1..], m, scaled[1..]);
      MulDistrib(m, ds[0], BASE * Value(ds[1..], BASE));
      MulAssoc(BASE, Value(ds[1..], BASE), m);
    }
  }

  /**
   * Finding: [BASE-1] under bound BASE-1 times an operand [2*BASE-2] whose
   * bound is 2*BASE-2 (not normalised, as `add` leaves it) takes the
   * `_digitMultiplyWithAdd` branch with a multiplier above BASE, whose carry
   * 2*BASE-4 is pushed as one digit under bound BASE-1.
   */
  lemma MultiplyByLargeDigit()
    ensures var r := MultiplyByDigitAsWritten([BASE - 1], BASE - 1, 2 * BASE - 2);
      r == ([2, 2 * BASE - 4], BASE - 1) && !ValidBound(r.0, r.1)
  {
    var ds := [BASE - 1];
    var bound := (BASE - 1) * Abs(2 * BASE - 2);
    assert bound >= SQUAREBASE;
    assert ds[1..] == [];
    DivModUnique(BASE - 1, BASE, 0, BASE - 1);
    CarryMulCons(ds, 1, 0, BASE - 1, 0);
    assert CarryMul([], 1, 0) == ([], 0);
    assert [BASE - 1] + [] == [BASE - 1];
    assert CarryMul(ds, 1, 0) == ([BASE - 1], 0);
    assert NormaliseAsWritten(ds, bound, true).0 == ds;
    DivModUnique((BASE - 1) * (2 * BASE - 2), BASE, 2 * BASE - 4, 2);
    CarryMulCons(ds, 2 * BASE - 2, 0, 2, 2 * BASE - 4);
    assert CarryMul([], 2 * BASE - 2, 2 * BASE - 4) == ([], 2 * BASE - 4);
    assert [2] + [] == [2];
    assert CarryMul(ds, 2 * BASE - 2, 0) == ([2], 2 * BASE - 4);
    assert PushCarry(([2], 2 * BASE - 4)) == [2, 2 * BASE - 4];
    assert DigitMultiplyAsWritten(ds, bound, 2 * BASE - 2, 0) == ([2, 2 * BASE - 4], BASE - 1);
    var r := MultiplyByDigitAsWritten(ds, BASE - 1, 2 * BASE - 2);
    assert r == ([2, 2 * BASE - 4], BASE - 1);
    assert !Normalised(r.0, BASE) by {
      assert r.0[1] >= BASE;
    }
  }

  /**
   * The zero-divisor test of `divide` as written (lib/N.js:425-429): the
   * divisor is normalised only when its bound has reached BASE, and the
   * test is for an empty digit sequence.
   */
  function DivisorRejectedAsWritten(ds: seq<int>, sm: int): (rejected: bool)
    ensures rejected ==> Value(ds, BASE) == 0
  {
    var n := if sm >= BASE then NormaliseAsWritten(ds, sm, false).0 else ds;
    n == []
  }

  /**
   * Finding: a zero divisor held as [0] under bound BASE-1 (which
   * `N(3).subtract(N(3)).multiply(N(33554431))` produces) is not rejected,
   * and the single-digit path then divides by the digit 0.
   */
  lemma ZeroDivisorAccepted()
    ensures Value([0], BASE) == 0 && !DivisorRejectedAsWritten([0], BASE - 1)
  {
  }

  /**
   * The single-digit division loop of `digitDivide` as written, from the
   * top digit down: the quotient digits and the final remainder.
   */
  function DigitDivideAsWritten(ds: seq<int>, d: int): (r: (seq<int>, int))
    requires d != 0
    ensures |r.0| == |ds|
    ensures Value(ds, BASE) == Value(r.0, BASE) * d + r.1
  {
    if ds == [] then ([], 0)
    else
      var rest := DigitDivideAsWritten(ds[1..], d);
      var t := rest.1 * BASE + ds[0];
      TDivMod(t, d);
      DigitDivideStep(ds, d, rest.0, rest.1, TDiv(t, d), TMod(t, d));
      ([TDiv(t, d)] + rest.0, TMod(t, d))
  }

  lemma DigitDivideStep(ds: seq<int>, d: int, q: seq<int>, o: int, qd: int, rd: int)
    requires ds != [] && Value(ds[1..], BASE) == Value(q, BASE) * d + o
    requires o * BASE + ds[0] == qd * d + rd
    ensures Value(ds, BASE) == Value([qd] + q, BASE) * d + rd
  {
    var vq, vt := Value(q, BASE), Value(ds[1..], BASE);
    ValueCons(qd, q, BASE);
    assert Value([qd] + q, BASE) == qd + BASE * vq;
    assert Value(ds, BASE) == ds[0] + BASE * vt;
    DigitDivideArith(vt, vq, d, o, ds[0], qd, rd, BASE);
  }

  lemma DigitDivideArith(vt: int, vq: int, d: int, o: int, x: int, qd: int, rd: int, b: int)
    requires vt == vq * d + o && o * b + x == qd * d + rd
    ensures x + b * vt == (qd + b * vq) * d + rd
  {
    MulDistrib(b, vq * d, o);
    MulAssoc(b, vq, d);
    MulDistrib(d, qd, b * vq);
  }

  /**
   * Finding: the single-digit shortcut of `divide` (lib/N.js:432) runs
   * before `positivise`, so a positive dividend held with a negative digit,
   * [-1, 2] = 2*BASE-1 (as `N(2*BASE).subtract(N(1))` leaves it), divided by
   * 2 gives the remainder -1 instead of 1.
   */
  lemma SingleDigitRemainderSign()
    ensures Value([-1, 2], BASE) > 0
    ensures DigitDivideAsWritten([-1, 2], 2) == ([0, 1], -1)
  {
    var ds := [-1, 2];
    assert ds[1..] == [2] && [2][1..] == [];
    assert DigitDivideAsWritten([], 2) == ([], 0);
    DigitDivideCons([2], 2, 1, 0);
    assert [1] + [] == [1];
    assert DigitDivideAsWritten([2], 2) == ([1], 0);
    DigitDivideCons(ds, 2, 0, -1);
    assert [0] + [1] == [0, 1];
  }

  /** One step of DigitDivideAsWritten, with the quotient digit and remainder named. */
  lemma DigitDivideCons(ds: seq<int>, d: int, qd: int, rd: int)
    requires ds != [] && d != 0
    requires var t := DigitDivideAsWritten(ds[1..], d).1 * BASE + ds[0]; qd == TDiv(t, d) && rd == TMod(t, d)
    ensures DigitDivideAsWritten(ds, d) == ([qd] + DigitDivideAsWritten(ds[1..], d).0, rd)
  {
  }

  /** The window after the shift of `divide` as written: the new digit enters at the bottom and nothing is trimmed. */
  function ShiftAsWritten(window: seq<int>, d: int): (r: seq<int>)
    ensures Value(r, BASE) == d + BASE * Value(window, BASE)
  {
    ValueCons(d, window, BASE);
    [d] + window
  }

  /** One pass of the correction loop of `divide` with divisor [0, 1]. */
  function CorrectionStep(window: seq<int>): seq<int>
    requires |window| >= 2
  {
    SubtractMultipleDigits(window, [0, 1], Estimate(window, [0, 1], BASE), BASE)
  }

  /** A window the loop never leaves: [5, d, top] with d a digit and top negative. */
  ghost predicate Stuck(w: seq<int>)
  {
    |w| == 3 && w[0] == 5 && 0 <= w[1] < BASE && w[2] <= -1
  }

  /**
   * Finding: dividing BASE^4+5 = [5,0,0,0,1] by BASE = [0,1], the first
   * window [0,1] is reduced to [], and the shifts that follow give [0],
   * [0,0] and then [5,0,0], whose value 5 is below the divisor but whose
   * length makes `compare` answer 1.  The correction loop then reaches a
   * Stuck window, and from a Stuck window `compare` keeps answering 1, the
   * estimate is always 1 and the next window is Stuck again: the loop never
   * ends.
   */
  lemma DivideWindowLoops()
    ensures CorrectionStep([0, 1]) == []
    ensures ShiftAsWritten(ShiftAsWritten(ShiftAsWritten([], 0), 0), 5) == [5, 0, 0]
    ensures Value([5, 0, 0], BASE) < Value([0, 1], BASE) && CompareDigits([5, 0, 0], [0, 1]) == 1
    ensures Stuck(CorrectionStep([5, 0, 0]))
  {
    FirstWindowEmptied([0, 1]);
    ShiftsMisread();
    StuckEntered();
  }

  /** Three shifts into the emptied window give [5, 0, 0], worth 5 but longer than the divisor. */
  lemma ShiftsMisread()
    ensures ShiftAsWritten(ShiftAsWritten(ShiftAsWritten([], 0), 0), 5) == [5, 0, 0]
    ensures Value([5, 0, 0], BASE) < Value([0, 1], BASE) && CompareDigits([5, 0, 0], [0, 1]) == 1
  {
    assert [0] + [] == [0] && [0] + [0] == [0, 0] && [5] + [0, 0] == [5, 0, 0];
    assert Value([5, 0, 0], BASE) == 5 by {
      assert [5, 0, 0][1..] == [0, 0] && [0, 0][1..] == [0] && [0][1..] == [];
    }
    assert Value([0, 1], BASE) == BASE by {
      assert [0, 1][1..] == [1] && [1][1..] == [];
    }
  }

  /** The first window, equal to the divisor, is reduced to the empty sequence. */
  lemma FirstWindowEmptied(w: seq<int>)
    requires w == [0, 1]
    ensures CorrectionStep(w) == []
  {
    FirstEstimate();
    assert InRange(w, BASE);
    SubtractMultipleValue(w, w, 1, BASE);
    SubtractMultipleCanonical(w, w, 1, BASE);
    CanonicalZeroEmpty(SubtractMultipleDigits(w, w, 1, BASE));
  }

  lemma FirstEstimate()
    ensures Estimate([0, 1], [0, 1], BASE) == 1
  {
    DivModUnique(BASE, BASE + 1, 0, BASE);
  }

  /** The only canonical digit sequence worth zero is the empty one. */
  lemma CanonicalZeroEmpty(ds: seq<int>)
    requires Canonical(ds, BASE) && Value(ds, BASE) == 0
    ensures ds == []
  {
    if ds != [] {
      CanonicalLowerBound(ds, BASE);
      PowPositive(BASE, |ds| - 1);
    }
  }

  /** After the shifts the correction loop takes the window [5, 0, 0] to a Stuck one. */
  lemma StuckEntered()
    ensures Stuck(CorrectionStep([5, 0, 0]))
  {
    var w := [5, 0, 0];
    var ns := [0, 1];
    assert Estimate(w, ns, BASE) == 1;
    SmallTDivMod(1, BASE);
    assert BorrowStep(5, 0, 0, 1, BASE) == (5, 0);
    assert BorrowStep(0, 0, 1, 1, BASE) == (BASE - 1, 1);
    assert w[0 := 5] == w && w[1 := BASE - 1] == [5, BASE - 1, 0];
    assert BorrowPass([5, BASE - 1, 0], ns, 1, 2, 1, BASE) == ([5, BASE - 1, 0], 1);
    assert BorrowPass(w, ns, 1, 1, 0, BASE) == ([5, BASE - 1, 0], 1);
    assert BorrowPass(w, ns, 1, 0, 0, BASE) == ([5, BASE - 1, 0], 1);
    assert Put([5, BASE - 1, 0], 2, -1) == [5, BASE - 1, -1];
  }

  /** From a Stuck window the loop condition holds and one pass leads to a Stuck window. */
  lemma StuckStep(w: seq<int>)
    requires Stuck(w)
    ensures CompareDigits(w, [0, 1]) == 1 && Estimate(w, [0, 1], BASE) == 1
    ensures Stuck(CorrectionStep(w))
  {
    var diff := w[2] * BASE + w[1];
    assert diff < 0;
    assert TDiv(diff * BASE, BASE + 1) <= 0;
    SmallTDivMod(1, BASE);
    var s1 := BorrowStep(w[1], 0, 1, 1, BASE);
    assert s1 == if 1 > w[1] then (BASE - 1, 1) else (w[1] - 1, 0);
    assert BorrowStep(5, 0, 0, 1, BASE) == (5, 0);
    var ns := [0, 1];
    assert w[0 := 5] == w;
    var w1 := w[1 := s1.0];
    assert w1 == [5, s1.0, w[2]];
    assert BorrowPass(w1, ns, 1, 2, s1.1, BASE) == (w1, s1.1);
    assert BorrowPass(w, ns, 1, 1, 0, BASE) == (w1, s1.1);
    assert BorrowPass(w, ns, 1, 0, 0, BASE) == (w1, s1.1);
  }
}
