/**
 * The big-integer kernel of lib/N.js: a class N holding a little-endian
 * sequence of signed radix-2^25 digits and a `safemaximum` bound that says
 * when a carry pass is due.  Digits may drift outside (-BASE, BASE) and may
 * be negative between carry passes; the value is Value(digits, BASE).
 */
module BigInt {
  import opened Arith
  import opened Digits
  import opened Decimal
  import opened Wrappers
  import opened Product
  import opened LongDivision

  const BASE: int := 33554432
  const ROOTBASE: int := 5792
  const SQUAREBASE: int := BASE * BASE

  /** ROOTBASE is the integer square root of BASE (Math.floor(Math.sqrt(BASE))). */
  lemma RootBaseIsFloorSqrt()
    ensures BASE == Pow(2, 25)
    ensures ROOTBASE * ROOTBASE <= BASE < (ROOTBASE + 1) * (ROOTBASE + 1)
  {
    assert Pow(2, 5) == 32;
    assert Pow(2, 10) == 1024 by { PowAdd(2, 5, 5); }
    assert Pow(2, 20) == 1048576 by { PowAdd(2, 10, 10); }
    assert Pow(2, 25) == 33554432 by { PowAdd(2, 20, 5); }
  }

  /** The text the string constructor accepts: an optional sign, then decimal digits. */
  function SignLength(s: string): nat
  {
    if |s| > 0 && (s[0] == '-' || s[0] == '+') then 1 else 0
  }

  /**
   * The value the string constructor gives `s`, or None where it throws.
   * A bare sign or the empty string give zero, as the digit loop never runs.
   */
  function NumeralValue(s: string): (r: Option<int>)
    ensures r.Some? <==> AllDigits(s[SignLength(s)..])
  {
    var k := SignLength(s);
    if AllDigits(s[k..]) then
      Some(if k == 1 && s[0] == '-' then -(DecValue(s[k..]) as int) else DecValue(s[k..]))
    else None
  }

  /** The text toString produces for the integer v. */
  function Numeral(v: int): (s: string)
    ensures s != [] && (v >= 0 ==> s[0] != '-')
  {
    if v < 0 then "-" + DecString(-v) else DecString(v)
  }

  /** Reading back a rendered integer gives the integer. */
  lemma ParseNumeral(v: int)
    ensures NumeralValue(Numeral(v)) == Some(v)
  {
    var s := Numeral(v);
    var t := DecString(Abs(v));
    DecValueOfString(Abs(v));
    if v < 0 {
      assert s[1..] == t;
    } else {
      assert t[0] != '-' && t[0] != '+';
    }
  }

  /** Rendering a parsed canonical numeral (no '+', no leading zero, no "-0") gives the text back. */
  lemma RenderNumeral(s: string)
    requires NumeralValue(s).Some?
    requires s != [] && s[0] != '+' && s != "-" && s != "-0"
    requires var t := s[SignLength(s)..]; t == "0" || t[0] != '0'
    ensures Numeral(NumeralValue(s).value) == s
  {
    var k := SignLength(s);
    var t := s[k..];
    if t == "0" {
      assert DecValue(t) == DecValue("") * 10 + 0;
      assert k == 0;
    } else {
      LeadingDigitPositive(t);
      DigitsOfDecValue(t);
      if k == 1 {
        assert s == "-" + t;
      } else {
        assert s == t;
      }
    }
  }

  /** The verdict of N.compare: length first, then digits from the top. */
  function CompareDigits(xs: seq<int>, ys: seq<int>): (r: int)
    ensures -1 <= r <= 1
  {
    if |xs| > |ys| then 1 else if |xs| < |ys| then -1 else CompareTop(xs, ys, |xs|)
  }

  /** Compares digits k-1 down to 0 of two equally long sequences. */
  function CompareTop(xs: seq<int>, ys: seq<int>, k: nat): (r: int)
    requires k <= |xs| == |ys|
    ensures -1 <= r <= 1
  {
    if k == 0 then 0
    else if xs[k - 1] > ys[k - 1] then 1
    else if xs[k - 1] < ys[k - 1] then -1
    else CompareTop(xs, ys, k - 1)
  }

  lemma {:induction false} CompareTopSign(xs: seq<int>, ys: seq<int>, k: nat)
    requires k <= |xs| == |ys| && InRange(xs, BASE) && InRange(ys, BASE)
    ensures CompareTop(xs, ys, k) == Sign(Value(xs[..k], BASE) - Value(ys[..k], BASE))
  {
    if k > 0 {
      var xk, yk := xs[..k], ys[..k];
      assert xk[k..] == yk[k..];
      if xs[k - 1] > ys[k - 1] {
        FirstDifferenceDecides(xk, yk, k - 1, BASE);
      } else if xs[k - 1] < ys[k - 1] {
        FirstDifferenceDecides(yk, xk, k - 1, BASE);
      } else {
        CompareTopSign(xs, ys, k - 1);
        assert xk == xs[..k - 1] + [xs[k - 1]] && yk == ys[..k - 1] + [xs[k - 1]];
        ValueSnoc(xs[..k - 1], xs[k - 1], BASE);
        ValueSnoc(ys[..k - 1], xs[k - 1], BASE);
      }
    }
  }

  /** On canonical digit sequences the verdict of compare is the sign of the difference. */
  lemma CompareDigitsSign(xs: seq<int>, ys: seq<int>)
    requires Canonical(xs, BASE) && Canonical(ys, BASE)
    ensures CompareDigits(xs, ys) == Sign(Value(xs, BASE) - Value(ys, BASE))
  {
    if |xs| > |ys| {
      CanonicalLongerIsLarger(xs, ys, BASE);
    } else if |xs| < |ys| {
      CanonicalLongerIsLarger(ys, xs, BASE);
    } else {
      CompareTopSign(xs, ys, |xs|);
      assert xs[..|xs|] == xs && ys[..|ys|] == ys;
    }
  }

  /**
   * The bound after add or subtract: the two bounds summed, except that a
   * sum reaching BASE^2 first forces a carry pass of the receiver, whose own
   * bound then counts as BASE-1.
   */
  function SafeSum(own: int, other: int): int
  {
    if own + other >= SQUAREBASE then BASE - 1 + other else own + other
  }

  /** The pointwise sum of two valid operands is valid under the summed bound. */
  lemma SumValid(r: seq<int>, x: seq<int>, y: seq<int>, s: int, sx: int, sy: int)
    requires s == 1 || s == -1
    requires |r| == if |x| < |y| then |y| else |x|
    requires forall j :: 0 <= j < |r| ==> r[j] == At(x, j) + s * At(y, j)
    requires ValidBound(x, sx) && ValidBound(y, sy)
    ensures ValidBound(r, sx + sy)
  {
    if sx + sy < BASE {
      assert sx == 0 || sy == 0;
    }
  }

  /** N.Valid() on its two fields. */
  ghost predicate ValidBound(ds: seq<int>, sm: int)
  {
    (sm == 0 && forall i :: 0 <= i < |ds| ==> ds[i] == 0)
    || (BASE - 1 <= sm && (sm < BASE ==> Normalised(ds, BASE)))
  }

  /** One step of the running remainder of `isDivisibleBy`, with k counting multiples of d. */
  lemma RemainderStep(temp: int, v: int, k: int, d: int, x: int, q: int, m: int)
    requires temp == v + k * d && temp == q * d + m
    ensures m * BASE + x == (x + BASE * v) + ((k - q) * BASE) * d
  {
    assert m == v + (k - q) * d by { MulDistrib(d, k, -q); }
    MulDistrib(BASE, v, (k - q) * d);
    MulAssoc(BASE, k - q, d);
  }

  /** The loop body of `_digitMultiplyWithAdd` keeps its invariant. */
  lemma MulLoopStep(digits: seq<int>, orig: seq<int>, i: nat, carry: int, m: int, add: int)
    requires i < |digits| == |orig| && digits[i..] == orig[i..]
    requires Value(digits[..i], BASE) + carry * Pow(BASE, i) == Value(orig[..i], BASE) * m + add
    requires Normalised(digits, BASE) && Abs(carry) < BASE && Abs(m) < BASE
    ensures var c := carry + digits[i] * m; var d := digits[i := TMod(c, BASE)];
      && d[i + 1..] == orig[i + 1..]
      && Value(d[..i + 1], BASE) + TDiv(c, BASE) * Pow(BASE, i + 1) == Value(orig[..i + 1], BASE) * m + add
      && Normalised(d, BASE) && Abs(TDiv(c, BASE)) < BASE
  {
    var c := carry + digits[i] * m;
    assert digits[i] == orig[i] by { assert digits[i..][0] == orig[i..][0]; }
    TDivMod(c, BASE);
    MulCarryStep(digits[..i], orig[..i], digits[i], carry, m, add, BASE, TMod(c, BASE), TDiv(c, BASE));
    MulAbsBound(digits[i], m, BASE - 1, BASE - 1);
    TDivBelow(c, BASE, BASE);
    var d := digits[i := TMod(c, BASE)];
    assert orig[..i + 1] == orig[..i] + [digits[i]];
    assert d[..i + 1] == digits[..i] + [TMod(c, BASE)];
    assert d[i + 1..] == digits[i + 1..] == orig[i + 1..];
  }

  /**
   * The halves `_rapidMultiplication` takes of each multiplier digit: the
   * truncated quotient by ROOTBASE (msb) or the truncated remainder.
   */
  function Halves(ds: seq<int>, msb: bool): (h: seq<int>)
    ensures |h| == |ds|
  {
    seq(|ds|, k requires 0 <= k < |ds| => if msb then TDiv(ds[k], ROOTBASE) else TMod(ds[k], ROOTBASE))
  }

  /** The two halves recombine: high*ROOTBASE + low is the multiplier again. */
  lemma HalvesRecombine(ds: seq<int>)
    ensures Value(Halves(ds, true), BASE) * ROOTBASE + Value(Halves(ds, false), BASE) == Value(ds, BASE)
  {
    var hi, lo := Halves(ds, true), Halves(ds, false);
    forall j | 0 <= j < |ds|
      ensures ds[j] == At(lo, j) + ROOTBASE * At(hi, j)
    {
      TDivMod(ds[j], ROOTBASE);
    }
    ValueLinear(ds, lo, hi, ROOTBASE, BASE);
  }

  /** Scaling every digit by m keeps a valid number valid under the scaled bound. */
  lemma ScaleValid(ds: seq<int>, sm: int, m: int, r: seq<int>)
    requires ValidBound(ds, sm) && |r| == |ds|
    requires forall k :: 0 <= k < |r| ==> r[k] == m * ds[k]
    requires sm * Arith.Abs(m) < SQUAREBASE
    ensures ValidBound(r, sm * Arith.Abs(m))
  {
    var am := Arith.Abs(m);
    if m == 0 || sm == 0 {
      assert sm * am == 0;
    } else {
      assert sm >= BASE - 1;
      MulMonotone(sm, 1, am);
      if am >= 2 {
        MulMonotone(sm, 2, am);
      } else {
        assert sm * am == sm;
      }
    }
  }

  lemma ProductArith(hi: int, lo: int, vy: int, r: int, vx: int)
    requires hi * r + lo == vx
    ensures hi * vy * r + lo * vy == vx * vy
  {
    MulDistrib(vy, hi * r, lo);
    MulAssoc(vy, hi, r);
  }

  /** The digits from position k up, or none when k is past the end. */
  ghost function Above(ds: seq<int>, k: nat): (r: seq<int>)
    ensures k <= |ds| ==> r == ds[k..]
    ensures k > |ds| ==> r == []
  {
    if k <= |ds| then ds[k..] else []
  }

  /**
   * What the long-division branch of `divide` leaves, in terms of
   * JavaScript's truncating operators: the quotient is Math.trunc(D / d) for
   * every non-zero divisor, and the remainder is D % d for a positive divisor
   * and its negation for a negative one, so D == q * d + r holds exactly when
   * d is positive.
   */
  lemma DivideTruncates(dividend: int, divisor: int)
    requires divisor != 0
    ensures var s := Sign(dividend) * Sign(divisor);
      s * (Arith.Abs(dividend) / Arith.Abs(divisor)) == TDiv(dividend, divisor) &&
      s * (Arith.Abs(dividend) % Arith.Abs(divisor)) == Sign(divisor) * TMod(dividend, divisor)
    ensures divisor > 0 ==> var s := Sign(dividend);
      dividend == s * (Arith.Abs(dividend) / divisor) * divisor + s * (Arith.Abs(dividend) % divisor)
  {
    TDivMod(dividend, divisor);
  }

  class N {
    var digits: seq<int>
    var safemaximum: int

    /** The integer this number denotes. */
    ghost function Val(): int
      reads this
    {
      Value(digits, BASE)
    }

    /**
     * The part of the `safemaximum` bound the kernel relies on: a bound of
     * zero means every digit is zero, and any bound below BASE means no carry
     * pass is due, so every digit lies strictly inside (-BASE, BASE).  Every
     * operation other than a fresh number leaves a bound of at least BASE-1.
     */
    ghost predicate Valid()
      reads this
    {
      ValidBound(digits, safemaximum)
    }

    /** `new N()`: zero, with no digits. */
    constructor ()
      ensures Valid() && digits == [] && safemaximum == 0
    {
      digits := [];
      safemaximum := 0;
    }

    /** `new N(other)`: a duplicate. */
    constructor Copy(other: N)
      ensures digits == other.digits && safemaximum == other.safemaximum
    {
      digits := other.digits;
      safemaximum := other.safemaximum;
    }

    /** `new N(v)` for an integral JavaScript number. */
    constructor FromInt(v: int)
      ensures Valid() && Val() == v && safemaximum == BASE - 1
    {
      digits := [];
      safemaximum := 0;
      new;
      Set(v);
    }

    /** `reset`: zero, with no digits. */
    method Reset()
      modifies this
      ensures Valid() && digits == [] && safemaximum == 0 && Val() == 0
    {
      digits := [];
      safemaximum := 0;
    }

    /**
     * `set`: the truncated remainders of v, each with the sign of v, until
     * nothing is left; the result has no most-significant zero digit.
     */
    method Set(v: int)
      modifies this
      ensures Valid() && Val() == v && safemaximum == BASE - 1
      ensures Normalised(digits, BASE) && NoTopZero(digits)
      ensures v >= 0 ==> InRange(digits, BASE)
    {
      digits := [];
      var rest := v;
      while rest != 0
        invariant Normalised(digits, BASE) && (v >= 0 ==> InRange(digits, BASE))
        invariant Value(digits, BASE) + rest * Pow(BASE, |digits|) == v
        invariant v >= 0 ==> rest >= 0
        invariant rest == 0 ==> NoTopZero(digits)
        decreases Arith.Abs(rest)
      {
        TDivMod(rest, BASE);
        var d, r := TMod(rest, BASE), TDiv(rest, BASE);
        CarryPush(digits, rest, BASE);
        if r == 0 {
          assert d == rest;
        }
        digits := digits + [d];
        rest := r;
      }
      safemaximum := BASE - 1;
    }

    /** Removes most-significant zero digits (the loop several operations end with). */
    method Strip()
      modifies this
      ensures digits == Trim(old(digits)) && safemaximum == old(safemaximum)
      ensures Val() == old(Val())
    {
      ValueTrim(digits, BASE);
      while digits != [] && digits[|digits| - 1] == 0
        invariant Trim(digits) == Trim(old(digits)) && safemaximum == old(safemaximum)
        decreases |digits|
      {
        digits := digits[..|digits| - 1];
      }
    }

    /**
     * `normalise`: when the bound has reached BASE, a carry pass leaves every
     * digit inside (-BASE, BASE) with the same value and resets the bound to
     * BASE-1; unless `noReduction`, most-significant zero digits are removed.
     */
    method Normalise(noReduction: bool)
      requires Valid()
      modifies this
      ensures Valid() && Val() == old(Val()) && Normalised(digits, BASE)
      ensures safemaximum == if old(safemaximum) >= BASE then BASE - 1 else old(safemaximum)
      ensures !noReduction ==> NoTopZero(digits)
      ensures old(safemaximum) < BASE || old(InRange(digits, BASE)) ==>
        digits == if noReduction then old(digits) else Trim(old(digits))
      ensures old(safemaximum) >= BASE && noReduction ==> |digits| >= |old(digits)|
    {
      if safemaximum >= BASE {
        CarryPass();
        safemaximum := BASE - 1;
      }
      if !noReduction {
        Strip();
      }
    }

    /** The carry pass of `normalise`, pushing the final carry one digit at a time. */
    method CarryPass()
      modifies this
      ensures Val() == old(Val()) && Normalised(digits, BASE)
      ensures |digits| >= |old(digits)| && safemaximum == old(safemaximum)
      ensures old(InRange(digits, BASE)) ==> digits == old(digits)
    {
      ghost var orig := digits;
      var i, carry := 0, 0;
      while i < |digits|
        invariant 0 <= i <= |digits| == |orig|
        invariant Value(digits, BASE) + carry * Pow(BASE, i) == Value(orig, BASE)
        invariant forall j :: 0 <= j < i ==> -BASE < digits[j] < BASE
        invariant digits[i..] == orig[i..] && safemaximum == old(safemaximum)
        invariant InRange(orig, BASE) ==> carry == 0 && digits == orig
      {
        var c := carry + digits[i];
        CarryStep(digits, i, carry, BASE);
        if InRange(orig, BASE) {
          SmallTDivMod(c, BASE);
        }
        digits := digits[i := TMod(c, BASE)];
        carry := TDiv(c, BASE);
        i := i + 1;
      }
      while carry != 0
        invariant Value(digits, BASE) + carry * Pow(BASE, |digits|) == Value(orig, BASE)
        invariant Normalised(digits, BASE) && |digits| >= |orig| && safemaximum == old(safemaximum)
        invariant InRange(orig, BASE) ==> carry == 0 && digits == orig
        decreases Arith.Abs(carry)
      {
        TDivMod(carry, BASE);
        var d, r := TMod(carry, BASE), TDiv(carry, BASE);
        CarryPush(digits, carry, BASE);
        digits := digits + [d];
        carry := r;
      }
    }

    /**
     * `positivise`: on a normalised non-negative number with no top zero
     * digit, borrows leave every digit in [0, BASE) and the value unchanged.
     */
    method Positivise()
      requires Normalised(digits, BASE) && NoTopZero(digits) && Val() >= 0
      modifies this
      ensures Canonical(digits, BASE) && Val() == old(Val())
      ensures safemaximum == old(safemaximum)
      ensures old(Valid()) ==> Valid()
    {
      ghost var orig := digits;
      if digits != [] {
        NormalisedSign(digits, BASE);
      }
      var i := 0;
      while i < |digits|
        invariant 0 <= i <= |digits| == |orig|
        invariant Value(digits, BASE) == Value(orig, BASE)
        invariant forall j :: 0 <= j < i ==> 0 <= digits[j] < BASE
        invariant forall j :: i < j < |digits| ==> digits[j] == orig[j]
        invariant i < |digits| ==> orig[i] - 1 <= digits[i] <= orig[i]
        invariant i < |digits| - 1 ==> digits[i] == orig[i] || i > 0
        invariant i == |digits| - 1 ==> digits[i] >= 0
        invariant safemaximum == old(safemaximum)
      {
        if digits[i] < 0 {
          Lend(i);
        }
        i := i + 1;
      }
      Strip();
    }

    /** One borrow of `positivise`: digit i gains BASE and digit i + 1 gives up 1. */
    method Lend(i: nat)
      requires i + 1 < |digits|
      modifies this
      ensures digits == old(digits)[i := old(digits)[i] + BASE][i + 1 := old(digits)[i + 1] - 1]
      ensures Value(digits, BASE) == Value(old(digits), BASE) && safemaximum == old(safemaximum)
    {
      ValueUpdate(digits, i, digits[i] + BASE, BASE);
      var d1 := digits[i := digits[i] + BASE];
      ValueUpdate(d1, i + 1, d1[i + 1] - 1, BASE);
      assert Pow(BASE, i + 1) == BASE * Pow(BASE, i);
      digits := d1[i + 1 := d1[i + 1] - 1];
    }

    /** `isZero`: normalises, then tests for an empty digit sequence. */
    method IsZero() returns (z: bool)
      requires Valid()
      modifies this
      ensures Valid() && Val() == old(Val()) && Normalised(digits, BASE) && NoTopZero(digits)
      ensures safemaximum == if old(safemaximum) >= BASE then BASE - 1 else old(safemaximum)
      ensures z <==> Val() == 0
      ensures z <==> digits == []
      ensures old(Canonical(digits, BASE)) ==> digits == old(digits)
    {
      Normalise(false);
      z := |digits| == 0;
      if !z {
        NormalisedSign(digits, BASE);
      }
    }

    /** `isNegative`: false for zero, otherwise the sign of the top digit. */
    method IsNegative() returns (neg: bool)
      requires Valid()
      modifies this
      ensures Valid() && Val() == old(Val()) && Normalised(digits, BASE) && NoTopZero(digits)
      ensures safemaximum == if old(safemaximum) >= BASE then BASE - 1 else old(safemaximum)
      ensures neg <==> Val() < 0
    {
      var zero := IsZero();
      if zero {
        return false;
      }
      NormalisedSign(digits, BASE);
      neg := digits[|digits| - 1] < 0;
    }

    /** `negate`: every digit changes sign, so the value does. */
    method Negate()
      modifies this
      ensures |digits| == |old(digits)| && forall j :: 0 <= j < |digits| ==> digits[j] == -old(digits)[j]
      ensures Val() == -old(Val()) && safemaximum == old(safemaximum)
      ensures old(Valid()) ==> Valid()
      ensures old(Normalised(digits, BASE)) ==> Normalised(digits, BASE)
      ensures old(NoTopZero(digits)) ==> NoTopZero(digits)
    {
      ghost var orig := digits;
      var i := 0;
      while i < |digits|
        invariant 0 <= i <= |digits| == |orig| && safemaximum == old(safemaximum)
        invariant forall j :: 0 <= j < i ==> digits[j] == -orig[j]
        invariant forall j :: i <= j < |digits| ==> digits[j] == orig[j]
      {
        digits := digits[i := -digits[i]];
        i := i + 1;
      }
      ValueLinear(digits, [], orig, -1, BASE);
    }

    /** `abs`: a negative number is negated. */
    method Abs()
      requires Valid()
      modifies this
      ensures Valid() && Val() == Arith.Abs(old(Val()))
      ensures Normalised(digits, BASE) && NoTopZero(digits)
      ensures safemaximum == if old(safemaximum) >= BASE then BASE - 1 else old(safemaximum)
    {
      var neg := IsNegative();
      if neg {
        Negate();
      }
    }

    /**
     * `compare`: the longer sequence is larger, otherwise the first differing
     * digit from the top decides; on positivised numbers this is the sign of
     * the difference of the values.
     */
    method Compare(other: N) returns (r: int)
      ensures r == CompareDigits(digits, other.digits)
      ensures Canonical(digits, BASE) && Canonical(other.digits, BASE) ==> r == Sign(Val() - other.Val())
    {
      if Canonical(digits, BASE) && Canonical(other.digits, BASE) {
        CompareDigitsSign(digits, other.digits);
      }
      if |digits| > |other.digits| {
        return 1;
      }
      if |digits| < |other.digits| {
        return -1;
      }
      var i := |digits|;
      while i > 0
        invariant 0 <= i <= |digits|
        invariant CompareTop(digits, other.digits, i) == CompareDigits(digits, other.digits)
      {
        if digits[i - 1] > other.digits[i - 1] {
          return 1;
        }
        if digits[i - 1] < other.digits[i - 1] {
          return -1;
        }
        i := i - 1;
      }
      return 0;
    }

    /** `add`: the value grows by the operand's value. */
    method Add(number: N)
      requires Valid() && number.Valid()
      modifies this
      ensures Valid() && Val() == old(Val()) + old(number.Val())
      ensures number != this ==> number.digits == old(number.digits) && number.safemaximum == old(number.safemaximum)
      ensures number != this ==> safemaximum == SafeSum(old(safemaximum), number.safemaximum)
    {
      Accumulate(number, 1);
    }

    /** `subtract`: the value shrinks by the operand's value. */
    method Subtract(number: N)
      requires Valid() && number.Valid()
      modifies this
      ensures Valid() && Val() == old(Val()) - old(number.Val())
      ensures number != this ==> number.digits == old(number.digits) && number.safemaximum == old(number.safemaximum)
      ensures number != this ==> safemaximum == SafeSum(old(safemaximum), number.safemaximum)
    {
      Accumulate(number, -1);
    }

    /**
     * The shared body of `add` (s = 1) and `subtract` (s = -1): the digit
     * sequences are combined pointwise with no carry, after a carry pass of
     * the receiver if the summed bound would reach BASE^2.
     */
    /** The digit loops of add/subtract: extend with the operand's extra digits, then combine pointwise from the top down. */
    method CombineDigits(nd: seq<int>, s: int)
      modifies this
      ensures safemaximum == old(safemaximum)
      ensures |digits| == if |old(digits)| < |nd| then |nd| else |old(digits)|
      ensures forall j :: 0 <= j < |digits| ==> digits[j] == At(old(digits), j) + s * At(nd, j)
    {
      ghost var o := digits;
      var len := |digits|;
      if |nd| > len {
        var i := len;
        while i < |nd|
          invariant len <= i <= |nd| && |digits| == i && digits[..len] == o
          invariant forall j :: len <= j < i ==> digits[j] == s * nd[j]
          invariant safemaximum == old(safemaximum)
        {
          digits := digits + [s * nd[i]];
          i := i + 1;
        }
      }
      var i := if len < |nd| then len else |nd|;
      while i > 0
        invariant 0 <= i <= len && i <= |nd|
        invariant |digits| == if len < |nd| then |nd| else len
        invariant forall j :: 0 <= j < i ==> digits[j] == o[j]
        invariant forall j :: i <= j < |digits| ==> digits[j] == At(o, j) + s * At(nd, j)
        invariant safemaximum == old(safemaximum)
      {
        i := i - 1;
        digits := digits[i := digits[i] + s * nd[i]];
      }
    }

    method Accumulate(number: N, s: int)
      requires Valid() && number.Valid() && (s == 1 || s == -1)
      modifies this
      ensures Valid() && Val() == old(Val()) + s * old(number.Val())
      ensures number != this ==> number.digits == old(number.digits) && number.safemaximum == old(number.safemaximum)
      ensures number != this ==> safemaximum == SafeSum(old(safemaximum), number.safemaximum)
    {
      ghost var sx, sy := safemaximum, number.safemaximum;
      safemaximum := safemaximum + number.safemaximum;
      if safemaximum >= SQUAREBASE {
        Normalise(false);
        sx, sy := safemaximum, number.safemaximum;
        safemaximum := safemaximum + number.safemaximum;
      }
      var nd := number.digits;
      assert ValidBound(nd, sy) && ValidBound(digits, sx);
      ghost var o := digits;
      CombineDigits(nd, s);
      ValueLinear(digits, o, nd, s, BASE);
      SumValid(digits, o, nd, s, sx, sy);
    }

    /**
     * `_digitMultiplyWithAdd`: the value becomes old*multiplier + digit, with
     * normalised digits.  The carry into the top stays below BASE because the
     * multiplier and the added digit do, so one extra digit suffices.
     */
    method DigitMultiplyWithAdd(multiplier: int, digit: int)
      requires Valid() && Arith.Abs(multiplier) < BASE && Arith.Abs(digit) < BASE
      modifies this
      ensures Valid() && Val() == old(Val()) * multiplier + digit
      ensures Normalised(digits, BASE) && safemaximum == BASE - 1 && |digits| >= |old(digits)|
    {
      if safemaximum >= BASE {
        Normalise(true);
      }
      var carry := ScaleDigits(multiplier, digit);
      if carry != 0 {
        AppendCarry(carry);
      }
      safemaximum := BASE - 1;
    }

    /** Appends the final carry of a digit loop as a new top digit. */
    method AppendCarry(carry: int)
      modifies this
      ensures digits == old(digits) + [carry] && safemaximum == old(safemaximum)
      ensures Val() == old(Val()) + carry * Pow(BASE, |old(digits)|)
    {
      ValueSnoc(digits, carry, BASE);
      digits := digits + [carry];
    }

    /** The digit loop of `_digitMultiplyWithAdd`, returning the carry out of the top digit. */
    method ScaleDigits(multiplier: int, digit: int) returns (carry: int)
      requires Normalised(digits, BASE) && Arith.Abs(multiplier) < BASE && Arith.Abs(digit) < BASE
      modifies this
      ensures |digits| == |old(digits)| && safemaximum == old(safemaximum)
      ensures Value(digits, BASE) + carry * Pow(BASE, |digits|) == old(Val()) * multiplier + digit
      ensures Normalised(digits, BASE) && Arith.Abs(carry) < BASE
    {
      ghost var orig := digits;
      var i := 0;
      carry := digit;
      while i < |digits|
        invariant 0 <= i <= |digits| == |orig| && safemaximum == old(safemaximum)
        invariant digits[i..] == orig[i..]
        invariant Value(digits[..i], BASE) + carry * Pow(BASE, i) == Value(orig[..i], BASE) * multiplier + digit
        invariant Normalised(digits, BASE) && Arith.Abs(carry) < BASE
      {
        var c := carry + digits[i] * multiplier;
        MulLoopStep(digits, orig, i, carry, multiplier, digit);
        digits := digits[i := TMod(c, BASE)];
        carry := TDiv(c, BASE);
        i := i + 1;
      }
      assert digits[..i] == digits && orig[..i] == orig;
    }

    /**
     * `new N(s)` for a string: an optional sign, then decimal digits each
     * folded in by multiplying by ten; any other character throws (None).
     */
    static method FromString(s: string) returns (r: Option<N>)
      ensures r.None? <==> NumeralValue(s).None?
      ensures r.Some? ==> fresh(r.value) && r.value.Valid() && r.value.Val() == NumeralValue(s).value
    {
      var sign := if |s| > 0 && s[0] == '-' then -1 else 1;
      var n := new N();
      var k := if |s| > 0 && (s[0] == '-' || s[0] == '+') then 1 else 0;
      var i := k;
      while i < |s| && IsDigit(s[i])
        invariant k <= i <= |s| && AllDigits(s[k..i])
        invariant fresh(n) && n.Valid() && n.Val() == sign * DecValue(s[k..i])
      {
        assert s[k..i + 1][..i - k] == s[k..i];
        n.DigitMultiplyWithAdd(10, sign * DigitValue(s[i]));
        i := i + 1;
      }
      if i != |s| {
        assert !AllDigits(s[k..]) by {
          assert s[k..][i - k] == s[i];
        }
        return None;
      }
      assert s[k..i] == s[k..];
      return Some(n);
    }

    /**
     * `digitDivide`: divides from the top with a running truncated
     * remainder, so old = new*divisor + r with |r| < |divisor|.  When the
     * digits all share one sign this is JavaScript's truncating division of
     * the value, and for non-negative digits and a positive divisor it is
     * Euclidean division.
     */
    method DigitDivide(divisor: int) returns (r: int)
      requires Normalised(digits, BASE) && divisor != 0 && Arith.Abs(divisor) < BASE
      modifies this
      ensures Valid() && Normalised(digits, BASE) && NoTopZero(digits) && safemaximum == BASE - 1
      ensures old(Val()) == Val() * divisor + r && Arith.Abs(r) < Arith.Abs(divisor)
      ensures (forall j :: 0 <= j < |old(digits)| ==> old(digits)[j] >= 0) ||
              (forall j :: 0 <= j < |old(digits)| ==> old(digits)[j] <= 0) ==>
        Val() == TDiv(old(Val()), divisor) && r == TMod(old(Val()), divisor)
      ensures divisor > 0 && (forall j :: 0 <= j < |old(digits)| ==> old(digits)[j] >= 0) ==>
        r == old(Val()) % divisor && Val() == old(Val()) / divisor && InRange(digits, BASE)
    {
      ghost var pos := forall j :: 0 <= j < |digits| ==> digits[j] >= 0;
      ghost var neg := forall j :: 0 <= j < |digits| ==> digits[j] <= 0;
      ghost var nonneg := divisor > 0 && pos;
      r := DivideDigits(divisor);
      if pos || neg {
        SameSignValue(old(digits), BASE);
        TruncUnique(old(Val()), divisor, Val(), r);
      }
      if nonneg {
        DivModUnique(old(Val()), divisor, Val(), r);
      }
      Strip();
      safemaximum := BASE - 1;
    }

    /** The digit loop of `digitDivide`, from the top digit down, returning the final remainder. */
    method DivideDigits(divisor: int) returns (overflow: int)
      requires Normalised(digits, BASE) && divisor != 0 && Arith.Abs(divisor) < BASE
      modifies this
      ensures |digits| == |old(digits)| && safemaximum == old(safemaximum)
      ensures old(Val()) == Val() * divisor + overflow
      ensures Arith.Abs(overflow) < Arith.Abs(divisor) && Normalised(digits, BASE)
      ensures (forall j :: 0 <= j < |old(digits)| ==> old(digits)[j] >= 0) ==> overflow >= 0
      ensures (forall j :: 0 <= j < |old(digits)| ==> old(digits)[j] <= 0) ==> overflow <= 0
      ensures divisor > 0 && (forall j :: 0 <= j < |old(digits)| ==> old(digits)[j] >= 0) ==>
        forall j :: 0 <= j < |digits| ==> digits[j] >= 0
    {
      ghost var orig := digits;
      var i := |digits|;
      overflow := 0;
      assert orig[i..] == [] && digits[i..] == [];
      while i > 0
        invariant safemaximum == old(safemaximum)
        invariant DivState(orig, digits, i, overflow, divisor, BASE)
      {
        i := i - 1;
        var t := overflow * BASE + digits[i];
        DivLoopStep(orig, digits, i, overflow, divisor, BASE);
        digits := digits[i := TDiv(t, divisor)];
        overflow := TMod(t, divisor);
      }
      assert orig[0..] == orig && digits[0..] == digits;
    }

    /**
     * `isDivisibleBy`: a running remainder from the top digit down decides
     * whether the positive test divisor divides the value; a divisor of
     * BASE or more gives `undefined` (None).
     */
    method IsDivisibleBy(testDivisor: int) returns (r: Option<bool>)
      requires testDivisor > 0
      ensures testDivisor >= BASE ==> r == None
      ensures testDivisor < BASE ==> r == Some(Val() % testDivisor == 0)
    {
      if testDivisor >= BASE {
        return None;
      }
      var i := |digits|;
      var temp := 0;
      ghost var k := 0;
      while i > 0
        invariant 0 <= i <= |digits|
        invariant temp == Value(digits[i..], BASE) + k * testDivisor
      {
        i := i - 1;
        ghost var v := Value(digits[i + 1..], BASE);
        TDivMod(temp, testDivisor);
        assert digits[i..] == [digits[i]] + digits[i + 1..];
        ValueCons(digits[i], digits[i + 1..], BASE);
        RemainderStep(temp, v, k, testDivisor, digits[i], TDiv(temp, testDivisor), TMod(temp, testDivisor));
        k := (k - TDiv(temp, testDivisor)) * BASE;
        temp := TMod(temp, testDivisor) * BASE + digits[i];
      }
      assert digits[0..] == digits;
      TModZero(temp, testDivisor);
      ModMultiple(Val(), k, testDivisor);
      return Some(TMod(temp, testDivisor) == 0);
    }

    /**
     * `toString`: the decimal digits of the magnitude, produced by dividing
     * a positivised copy by ten until it is zero, "0" for zero, and a '-'
     * for a negative number.
     */
    method ToString() returns (s: string)
      requires Valid()
      modifies this
      ensures Valid() && Val() == old(Val())
      ensures s == Numeral(Val())
    {
      var test := new N.Copy(this);
      test.Abs();
      test.Normalise(false);
      test.Positivise();
      var result := test.DecimalDigits();
      if |result| == 0 {
        result := "0";
      }
      var neg := IsNegative();
      if neg {
        result := "-" + result;
      }
      s := result;
    }

    /** The division-by-ten loop of `toString`, consuming a positivised number. */
    method DecimalDigits() returns (result: string)
      requires Valid() && Canonical(digits, BASE)
      modifies this
      ensures old(Val()) >= 0 && result == DecDigits(old(Val()))
    {
      ValueInRangeBounds(digits, BASE);
      ghost var m: nat := Val();
      result := "";
      var zero := IsZero();
      while !zero
        invariant Valid() && Canonical(digits, BASE) && Val() >= 0
        invariant zero <==> Val() == 0
        invariant DecDigits(m) == DecDigits(Val()) + result
        decreases Val()
      {
        ghost var v := Val();
        var d := DigitDivide(10);
        assert DecDigits(v) == DecDigits(v / 10) + [DigitChar(v % 10)];
        result := [DigitChar(d)] + result;
        zero := IsZero();
      }
    }

    /**
     * `multiply`, with the operand normalised before the single-digit test (see
     * the findings): zero if either side has no digits; a single-digit operand
     * scales every digit in place while the scaled bound stays below BASE^2 and
     * goes through `_digitMultiplyWithAdd` otherwise; longer operands use the
     * schoolbook product, or the split rapid product when both sides have more
     * than three digits.
     */
    method Multiply(number: N)
      requires Valid() && number.Valid()
      modifies this, number
      ensures Valid() && number.Valid()
      ensures Val() == old(Val()) * old(number.Val())
      ensures number != this ==> number.Val() == old(number.Val())
    {
      if number.safemaximum >= BASE {
        number.Normalise(false);
      }
      assert Normalised(number.digits, BASE);
      if |number.digits| == 0 || |digits| == 0 {
        Reset();
        return;
      }
      if |number.digits| == 1 {
        var m := number.digits[0];
        assert number.digits == [m];
        ValueCons(m, [], BASE);
        assert [m] + [] == [m];
        MultiplySingle(m);
        return;
      }
      if safemaximum >= BASE {
        Normalise(false);
      }
      MultiplyDigits(digits, number.digits);
    }

    /**
     * The single-digit path of `multiply`: every digit is scaled in place
     * while the scaled bound stays below BASE^2, and otherwise the number is
     * normalised and multiplied with carries.
     */
    method MultiplySingle(m: int)
      requires Valid() && Arith.Abs(m) < BASE
      modifies this
      ensures Valid() && Val() == old(Val()) * m
    {
      ghost var o, sm0 := digits, safemaximum;
      safemaximum := safemaximum * Arith.Abs(m);
      if safemaximum < SQUAREBASE {
        ScaleEach(m);
        ScaleValid(o, sm0, m, digits);
      } else {
        DigitMultiplyWithAdd(m, 0);
      }
    }

    /**
     * The multi-digit path of `multiply` once both sides are normalised: the
     * digits restart as zeros, one fewer than the two lengths together, and
     * receive the product.
     */
    method MultiplyDigits(original: seq<int>, operand: seq<int>)
      requires ValidBound(original, safemaximum) && safemaximum < BASE
      requires Normalised(original, BASE) && Normalised(operand, BASE) && |operand| >= 2
      modifies this
      ensures Valid() && Val() == Value(original, BASE) * Value(operand, BASE)
    {
      digits := Zeros(|original| + |operand| - 1);
      ValueAllZero(digits, BASE);
      if |original| > 3 && |operand| > 3 {
        ghost var x, y := original, operand;
        if |x| > |y| {
          x, y := operand, original;
        }
        ghost var sm0 := safemaximum;
        RapidMultiplication(original, operand, true);
        ghost var hi := Value(Halves(x, true), BASE);
        assert Val() == hi * Value(y, BASE);
        assert Valid() by {
          if sm0 == 0 {
            assert AllZero(original);
          } else {
            MulMonotone(ROOTBASE, BASE - 1, sm0);
          }
        }
        DigitMultiplyWithAdd(ROOTBASE, 0);
        RapidMultiplication(original, operand, false);
        HalvesRecombine(x);
        ProductArith(hi, Value(Halves(x, false), BASE), Value(y, BASE), ROOTBASE, Value(x, BASE));
      } else {
        BasicMultiplication(original, operand);
      }
    }

    /** The in-place loop of the single-digit path: every digit multiplied by m. */
    method ScaleEach(m: int)
      modifies this
      ensures |digits| == |old(digits)| && safemaximum == old(safemaximum)
      ensures forall k :: 0 <= k < |digits| ==> digits[k] == m * old(digits)[k]
      ensures Val() == old(Val()) * m
    {
      ghost var o := digits;
      var i := |digits|;
      while i > 0
        invariant 0 <= i <= |digits| == |o| && safemaximum == old(safemaximum)
        invariant forall k :: 0 <= k < i ==> digits[k] == o[k]
        invariant forall k :: i <= k < |digits| ==> digits[k] == m * o[k]
      {
        i := i - 1;
        digits := digits[i := digits[i] * m];
      }
      ValueLinear(digits, [], o, m, BASE);
    }

    /**
     * `_basicMultiplication`: the schoolbook product of two normalised digit
     * runs into this number's zero digits, one carried row per digit of the
     * shorter run; the result is normalised.
     */
    method BasicMultiplication(a: seq<int>, b: seq<int>)
      requires Normalised(a, BASE) && Normalised(b, BASE)
      requires |digits| == |a| + |b| - 1 && AllZero(digits)
      modifies this
      ensures Val() == Value(a, BASE) * Value(b, BASE)
      ensures Normalised(digits, BASE) && safemaximum == BASE - 1
    {
      var x, y := a, b;
      if |x| > |y| {
        x, y := b, a;
      }
      ValueAllZero(digits, BASE);
      assert x[..0] == [];
      var i := 0;
      while i < |x|
        invariant 0 <= i <= |x| && |digits| >= |x| + |y| - 1
        invariant forall k :: i + |y| <= k < |digits| ==> digits[k] == 0
        invariant Normalised(digits, BASE)
        invariant Val() == Value(x[..i], BASE) * Value(y, BASE)
      {
        ProductRow(x, y, i);
        i := i + 1;
      }
      assert x[..i] == x;
      safemaximum := BASE - 1;
    }

    /** Row i of `_basicMultiplication`: the digit x[i], reduced modulo BASE, times y, moved up i places. */
    method ProductRow(x: seq<int>, y: seq<int>, i: nat)
      requires Normalised(x, BASE) && Normalised(y, BASE) && Normalised(digits, BASE)
      requires i < |x| && i + |y| <= |digits|
      requires forall k :: i + |y| <= k < |digits| ==> digits[k] == 0
      requires Val() == Value(x[..i], BASE) * Value(y, BASE)
      modifies this
      ensures Normalised(digits, BASE) && |digits| >= |old(digits)| && safemaximum == old(safemaximum)
      ensures forall k :: i + 1 + |y| <= k < |digits| ==> digits[k] == 0
      ensures Val() == Value(x[..i + 1], BASE) * Value(y, BASE)
    {
      var aDigit := TMod(x[i], BASE);
      NormalTMod(x[i], BASE);
      MultiplyRow(aDigit, y, i);
      RowsStep(x, i, Value(y, BASE), BASE);
    }

    /** One carried row of `_basicMultiplication`: adds ad * y * BASE^i. */
    method MultiplyRow(ad: int, y: seq<int>, i: nat)
      requires Normalised(digits, BASE) && Normalised(y, BASE) && Arith.Abs(ad) < BASE
      requires i + |y| <= |digits|
      requires forall k :: i + |y| <= k < |digits| ==> digits[k] == 0
      modifies this
      ensures Normalised(digits, BASE) && |digits| >= |old(digits)| && safemaximum == old(safemaximum)
      ensures forall k :: i + |y| < k < |digits| ==> digits[k] == 0
      ensures Val() == old(Val()) + ad * Value(y, BASE) * Pow(BASE, i)
    {
      ghost var v0 := Val();
      ghost var o := digits;
      var j, carry := 0, 0;
      while j < |y|
        invariant 0 <= j <= |y| && |digits| == |o| && safemaximum == old(safemaximum)
        invariant digits[i + j..] == o[i + j..]
        invariant Normalised(digits, BASE) && Arith.Abs(carry) < BASE
        invariant Val() + carry * Pow(BASE, i + j) == v0 + ad * Value(y[..j], BASE) * Pow(BASE, i)
      {
        var c := carry + (ad * y[j] + digits[i + j]);
        RowStep(digits, y, i, j, carry, ad, v0, BASE);
        RowBound(carry, ad, y[j], digits[i + j], BASE);
        digits := digits[i + j := TMod(c, BASE)];
        carry := TDiv(c, BASE);
        j := j + 1;
      }
      assert y[..j] == y;
      if carry != 0 {
        assert At(digits, i + j) == 0 by {
          if i + j < |digits| {
            assert digits[i + j] == digits[i + j..][0] == o[i + j..][0];
          }
        }
        ValuePut(digits, i + j, carry, BASE);
        digits := Put(digits, i + j, carry);
      }
    }

    /**
     * `_rapidMultiplication`: accrues, without carrying, one half (see Halves)
     * of each digit of the shorter run times the longer run, row by row from
     * the top; the bound grows by a factor of ROOTBASE.
     */
    method RapidMultiplication(a: seq<int>, b: seq<int>, msb: bool)
      requires |a| + |b| - 1 <= |digits|
      modifies this
      ensures |digits| == |old(digits)| && safemaximum == old(safemaximum) * ROOTBASE
      ensures |a| > |b| ==> Val() == old(Val()) + Value(Halves(b, msb), BASE) * Value(a, BASE)
      ensures |a| <= |b| ==> Val() == old(Val()) + Value(Halves(a, msb), BASE) * Value(b, BASE)
      ensures AllZero(old(digits)) && (AllZero(a) || AllZero(b)) ==> AllZero(digits)
    {
      var x, y := a, b;
      if |x| > |y| {
        x, y := b, a;
      }
      AccrueHalfRows(x, y, msb);
      safemaximum := safemaximum * ROOTBASE;
    }

    /** The row loop of `_rapidMultiplication`, from the top digit of x down. */
    method AccrueHalfRows(x: seq<int>, y: seq<int>, msb: bool)
      requires |x| + |y| - 1 <= |digits|
      modifies this
      ensures |digits| == |old(digits)| && safemaximum == old(safemaximum)
      ensures Val() == old(Val()) + Value(Halves(x, msb), BASE) * Value(y, BASE)
      ensures AllZero(old(digits)) && (AllZero(x) || AllZero(y)) ==> AllZero(digits)
    {
      ghost var h := Halves(x, msb);
      ghost var v0 := Val();
      ghost var z := AllZero(digits) && (AllZero(x) || AllZero(y));
      var i := |x|;
      while i > 0
        invariant 0 <= i <= |x| && |digits| == |old(digits)| && safemaximum == old(safemaximum)
        invariant Val() == v0 + Value(h[i..], BASE) * Pow(BASE, i) * Value(y, BASE)
        invariant z ==> AllZero(digits)
      {
        i := i - 1;
        var q := if msb then TDiv(x[i], ROOTBASE) else TMod(x[i], ROOTBASE);
        if q != 0 {
          AddRowMultiple(q, y, i);
        }
        RowsStepDown(h, i + 1, Value(y, BASE), BASE);
      }
      assert h[i..] == h && Pow(BASE, i) == 1;
    }

    /** One unreduced row of `_rapidMultiplication`: digit i+j gains q * y[j], from the top. */
    method AddRowMultiple(q: int, y: seq<int>, i: nat)
      requires i + |y| <= |digits|
      modifies this
      ensures |digits| == |old(digits)| && safemaximum == old(safemaximum)
      ensures Val() == old(Val()) + q * (Pow(BASE, i) * Value(y, BASE))
      ensures AllZero(old(digits)) && (q == 0 || AllZero(y)) ==> AllZero(digits)
    {
      ghost var o := digits;
      ghost var row := Zeros(i) + y;
      var j := |y|;
      while j > 0
        invariant 0 <= j <= |y| && |digits| == |o| && safemaximum == old(safemaximum)
        invariant forall k :: 0 <= k < i + j ==> digits[k] == o[k]
        invariant forall k :: i + j <= k < |digits| ==> digits[k] == o[k] + q * At(row, k)
      {
        j := j - 1;
        digits := digits[i + j := digits[i + j] + q * y[j]];
      }
      forall k | 0 <= k < |digits|
        ensures digits[k] == At(o, k) + q * At(row, k)
      {
        if k < i {
          assert row[k] == 0;
        }
      }
      ValueLinear(digits, o, row, q, BASE);
      ValueShifted(y, i, BASE);
    }

    /** `_subtractMultiple`: the digits become SubtractMultipleDigits of the old digits. */
    method SubtractMultiple(number: seq<int>, digit: int)
      requires |number| <= |digits|
      modifies this
      ensures digits == SubtractMultipleDigits(old(digits), number, digit, BASE)
      ensures safemaximum == old(safemaximum)
    {
      ghost var o := digits;
      var i, remainder := 0, 0;
      while i < |number|
        invariant 0 <= i <= |number| && |digits| == |o| && safemaximum == old(safemaximum)
        invariant BorrowPass(digits, number, digit, i, remainder, BASE) == BorrowPass(o, number, digit, 0, 0, BASE)
      {
        remainder := BorrowAt(number[i], digit, i, remainder);
        i := i + 1;
      }
      if remainder != 0 {
        digits := Put(digits, i, At(digits, i) - remainder);
      }
      Strip();
    }

    /** Position i of `_subtractMultiple`: one BorrowStep on digit i, returning the new carry. */
    method BorrowAt(x: int, digit: int, i: nat, carry: int) returns (remainder: int)
      requires i < |digits|
      modifies this
      ensures var step := BorrowStep(old(digits)[i], carry, x, digit, BASE);
        digits == old(digits)[i := step.0] && remainder == step.1
      ensures safemaximum == old(safemaximum)
    {
      remainder := carry + x * digit;
      var modulus := TMod(remainder, BASE);
      remainder := TDiv(remainder, BASE);
      if modulus > digits[i] {
        digits := digits[i := digits[i] + (BASE - modulus)];
        remainder := remainder + 1;
      } else {
        digits := digits[i := digits[i] - modulus];
      }
    }

    /**
     * The window shift of `divide`: every digit moves up one place, writing
     * past the end, and d enters at the bottom.
     */
    method ShiftIn(d: int)
      modifies this
      ensures digits == [d] + old(digits) && safemaximum == old(safemaximum)
    {
      ghost var o := digits;
      var j := |digits|;
      while j > 0
        invariant 0 <= j <= |o| && safemaximum == old(safemaximum)
        invariant |digits| == if j == |o| then |o| else |o| + 1
        invariant digits[..j] == o[..j]
        invariant forall k :: j < k < |digits| ==> digits[k] == o[k - 1]
      {
        digits := Put(digits, j, digits[j - 1]);
        j := j - 1;
      }
      digits := Put(digits, 0, d);
    }

    /**
     * The correction loop of `divide` at quotient position i: while the
     * window is at least the divisor, an estimated multiple is counted into
     * quotient digit i and subtracted from the window.
     */
    method ReduceWindow(window: N, number: N, i: nat)
      requires window != this && number != this && number != window
      requires i < |digits| && digits[i] == 0
      requires Canonical(window.digits, BASE) && Canonical(number.digits, BASE) && |number.digits| >= 2
      requires window.Val() < number.Val() * BASE
      modifies this, window
      ensures Canonical(window.digits, BASE) && 0 <= window.Val() < number.Val()
      ensures window.safemaximum == old(window.safemaximum) && safemaximum == old(safemaximum)
      ensures |digits| == |old(digits)| && digits == old(digits)[i := digits[i]]
      ensures 0 <= digits[i] < BASE && window.Val() + number.Val() * digits[i] == old(window.Val())
    {
      ghost var w0 := window.Val();
      ghost var nv := number.Val();
      CanonicalLowerBound(number.digits, BASE);
      PowPositive(BASE, |number.digits| - 1);
      ValueInRangeBounds(window.digits, BASE);
      var c := window.Compare(number);
      while c >= 0
        invariant Canonical(window.digits, BASE) && window.Val() >= 0 && c == Sign(window.Val() - nv)
        invariant |digits| == |old(digits)| && digits == old(digits)[i := digits[i]]
        invariant window.Val() + nv * digits[i] == w0 && digits[i] >= 0
        invariant window.safemaximum == old(window.safemaximum) && safemaximum == old(safemaximum)
        decreases window.Val()
      {
        MulMonotone(nv, 0, digits[i]);
        CorrectOnce(window, number, i);
        c := window.Compare(number);
      }
      QuotientDigitBelow(nv, digits[i], window.Val(), w0, BASE);
    }

    /** One pass of the correction loop: an estimated multiple of the divisor leaves the window and joins quotient digit i. */
    method CorrectOnce(window: N, number: N, i: nat)
      requires window != this && number != this && number != window
      requires i < |digits| && digits[i] >= 0
      requires Canonical(window.digits, BASE) && Canonical(number.digits, BASE) && |number.digits| >= 2
      requires number.Val() <= window.Val() < number.Val() * BASE
      modifies this, window
      ensures Canonical(window.digits, BASE) && 0 <= window.Val() < old(window.Val())
      ensures window.safemaximum == old(window.safemaximum) && safemaximum == old(safemaximum)
      ensures |digits| == |old(digits)| && digits == old(digits)[i := digits[i]] && digits[i] >= 0
      ensures window.Val() + number.Val() * digits[i] == old(window.Val()) + number.Val() * old(digits[i])
    {
      ghost var w, q, nv := window.Val(), digits[i], number.Val();
      CanonicalLowerBound(number.digits, BASE);
      PowPositive(BASE, |number.digits| - 1);
      WindowLength(window.digits, number.digits, BASE);
      EstimateSound(window.digits, number.digits, BASE);
      var difference := Estimate(window.digits, number.digits, BASE);
      digits := digits[i := digits[i] + difference];
      SubtractMultipleValue(window.digits, number.digits, difference, BASE);
      SubtractMultipleCanonical(window.digits, number.digits, difference, BASE);
      window.SubtractMultiple(number.digits, difference);
      CountStep(w, nv, difference, window.Val(), q, w + nv * q);
      ValueInRangeBounds(window.digits, BASE);
    }

    /**
     * The state of `divide`'s long division before quotient digit i: the
     * digits below i are still the dividend's, those above i are quotient
     * digits, and the canonical window, below the divisor times BASE,
     * accounts for the rest of the dividend.
     */
    ghost predicate Dividing(number: N, remainder: N, i: nat, o: seq<int>, L: nat)
      reads this, number, remainder
    {
      && i <= L && |o| == L + |number.digits| && Canonical(o, BASE)
      && |digits| == (if i == L then L else L + 1)
      && digits[..i] == o[..i] && InRange(digits, BASE)
      && Canonical(remainder.digits, BASE) && remainder.Val() < number.Val() * BASE
      && Value(o, BASE) == Value(o[..i], BASE) + Pow(BASE, i) * remainder.Val()
        + (BASE * Pow(BASE, i)) * (number.Val() * Value(Above(digits, i + 1), BASE))
    }

    /**
     * The long-division branch of `divide`, for a dividend larger than a
     * divisor of two or more digits: the window starts as the dividend's top
     * digits and takes one more dividend digit per quotient digit, from the
     * top down.  The receiver becomes the quotient and the window is left
     * holding the remainder.
     */
    method LongDivide(number: N, remainder: N)
      requires number != this && remainder != this && remainder != number
      requires Canonical(digits, BASE) && Canonical(number.digits, BASE) && |number.digits| >= 2
      requires Val() > number.Val()
      modifies this, remainder
      ensures Canonical(remainder.digits, BASE) && 0 <= remainder.Val() < number.Val()
      ensures remainder.safemaximum == old(safemaximum) && safemaximum == old(safemaximum)
      ensures InRange(digits, BASE)
      ensures old(Val()) == Val() * number.Val() + remainder.Val()
    {
      ghost var o := digits;
      ghost var nv := number.Val();
      var L := FirstWindow(number, remainder);
      var i := L;
      QuotientDigit(number, remainder, i, o, L);
      while i > 0
        invariant 0 <= i <= L && |o| == L + |number.digits| && Canonical(o, BASE)
        invariant |digits| == L + 1 && digits[..i] == o[..i] && InRange(digits, BASE)
        invariant Canonical(remainder.digits, BASE) && 0 <= remainder.Val() < nv
        invariant Value(o, BASE) == Value(o[..i], BASE) + Pow(BASE, i) * remainder.Val()
          + Pow(BASE, i) * (nv * Value(digits[i..], BASE))
        invariant remainder.safemaximum == old(safemaximum) && safemaximum == old(safemaximum)
      {
        TakeNextDigit(number, remainder, i, o, L);
        i := i - 1;
        QuotientDigit(number, remainder, i, o, L);
      }
      LastDigit(o, digits, remainder.Val(), nv, BASE);
    }

    /**
     * The start of the long division: the window takes the dividend's top
     * digits, as many as the divisor has, and the receiver keeps the L
     * digits below them.
     */
    method FirstWindow(number: N, remainder: N) returns (L: nat)
      requires number != this && remainder != this && remainder != number
      requires Canonical(digits, BASE) && Canonical(number.digits, BASE) && |number.digits| >= 2
      requires Val() > number.Val()
      modifies this, remainder
      ensures L == |old(digits)| - |number.digits|
      ensures Dividing(number, remainder, L, old(digits), L)
      ensures remainder.safemaximum == old(safemaximum) && safemaximum == old(safemaximum)
    {
      ghost var o := digits;
      if |digits| < |number.digits| {
        CanonicalLongerIsLarger(number.digits, digits, BASE);
      }
      L := |digits| - |number.digits|;
      remainder.digits := digits[|digits| - |number.digits|..];
      remainder.safemaximum := safemaximum;
      digits := digits[..L];
      ValueSplit(o, L, BASE);
      FirstWindowBound(remainder.digits, number.digits, BASE);
      assert Value(Above(digits, L + 1), BASE) == 0;
      FirstDigitArith(Value(o, BASE), Value(o[..L], BASE), Pow(BASE, L), remainder.Val(), number.Val(), BASE);
    }

    /** One quotient digit of `divide`: digit i is cleared, then the correction loop fills it. */
    method QuotientDigit(number: N, remainder: N, i: nat, ghost o: seq<int>, ghost L: nat)
      requires number != this && remainder != this && remainder != number
      requires Canonical(number.digits, BASE) && |number.digits| >= 2
      requires Dividing(number, remainder, i, o, L)
      modifies this, remainder
      ensures |digits| == L + 1 && digits[..i] == o[..i] && InRange(digits, BASE)
      ensures Canonical(remainder.digits, BASE) && 0 <= remainder.Val() < number.Val()
      ensures Value(o, BASE) == Value(o[..i], BASE) + Pow(BASE, i) * remainder.Val()
        + Pow(BASE, i) * (number.Val() * Value(digits[i..], BASE))
      ensures remainder.safemaximum == old(remainder.safemaximum) && safemaximum == old(safemaximum)
    {
      ghost var qv := Value(Above(digits, i + 1), BASE);
      ghost var w, head := remainder.Val(), digits;
      digits := Put(digits, i, 0);
      assert digits[i + 1..] == Above(head, i + 1);
      ghost var cleared := digits;
      ReduceWindow(remainder, number, i);
      assert digits[..i] == cleared[..i] == head[..i];
      assert digits[i..] == [digits[i]] + digits[i + 1..];
      ValueCons(digits[i], digits[i + 1..], BASE);
      ReduceArith(Value(o, BASE), Value(o[..i], BASE), Pow(BASE, i), w, number.Val(), qv, BASE, remainder.Val(), digits[i]);
    }

    /** The window shift of `divide`: dividend digit i-1 enters the window, which is then trimmed. */
    method TakeNextDigit(number: N, remainder: N, i: nat, ghost o: seq<int>, ghost L: nat)
      requires remainder != this && remainder != number
      requires 0 < i <= L && |o| == L + |number.digits| && Canonical(o, BASE)
      requires |digits| == L + 1 && digits[..i] == o[..i] && InRange(digits, BASE)
      requires Canonical(remainder.digits, BASE) && 0 <= remainder.Val() < number.Val()
      requires Value(o, BASE) == Value(o[..i], BASE) + Pow(BASE, i) * remainder.Val()
        + Pow(BASE, i) * (number.Val() * Value(digits[i..], BASE))
      modifies remainder
      ensures Dividing(number, remainder, i - 1, o, L)
      ensures remainder.safemaximum == old(remainder.safemaximum)
    {
      ghost var w2 := remainder.Val();
      assert digits[i - 1] == o[i - 1];
      remainder.ShiftIn(digits[i - 1]);
      ValueCons(digits[i - 1], remainder.digits[1..], BASE);
      remainder.Strip();
      assert o[..i] == o[..i - 1] + [o[i - 1]];
      ValueSnoc(o[..i - 1], o[i - 1], BASE);
      ShiftArith(Value(o, BASE), Value(o[..i], BASE), Pow(BASE, i), w2, number.Val() * Value(digits[i..], BASE),
        Value(o[..i - 1], BASE), Pow(BASE, i - 1), o[i - 1], BASE);
      ShiftBound(o[i - 1], w2, number.Val(), BASE);
    }

    /**
     * `divide`, with the corrections set out under Findings: both operands are
     * normalised whatever their bound, both have their digits given one sign
     * before the single-digit test, and the window loses its most-significant
     * zero digits after each shift.  The receiver becomes the truncated
     * quotient and the remainder is returned.  A divisor below BASE in
     * magnitude is used as it is, so the remainder is the truncated one and
     * takes the dividend's sign.  A larger divisor goes through the long
     * division of the magnitudes: the remainder also takes the divisor's sign
     * and the divisor is left as its magnitude.  A zero divisor under a
     * non-zero dividend throws (None).
     */
    method Divide(number: N) returns (result: Option<N>)
      requires Valid() && number.Valid() && number != this
      modifies this, number
      ensures result.None? <==> old(Val()) != 0 && old(number.Val()) == 0
      ensures result.Some? ==> fresh(result.value) && result.value.Valid() && Valid() && number.Valid()
      ensures result.Some? && old(Val()) == 0 ==>
        Val() == 0 && result.value.Val() == 0 && number.Val() == old(number.Val())
      ensures result.Some? && old(Val()) != 0 ==> Val() == TDiv(old(Val()), old(number.Val()))
      ensures result.Some? && old(Val()) != 0 && Arith.Abs(old(number.Val())) < BASE ==>
        result.value.Val() == TMod(old(Val()), old(number.Val())) && number.Val() == old(number.Val())
      ensures result.Some? && old(Val()) != 0 && Arith.Abs(old(number.Val())) >= BASE ==>
        result.value.Val() == Sign(old(number.Val())) * TMod(old(Val()), old(number.Val())) &&
        number.Val() == Arith.Abs(old(number.Val()))
    {
      var remainder := new N();
      number.Normalise(false);
      Normalise(false);
      if |digits| == 0 {
        return Some(remainder);
      }
      NormalisedSign(digits, BASE);
      if |number.digits| == 0 {
        return None;
      }
      var _ := OneSign();
      var _ := number.OneSign();
      if |number.digits| == 1 {
        DivideByDigit(number, remainder);
      } else {
        remainder := DivideLong(number, remainder);
      }
      return Some(remainder);
    }

    /**
     * The single-digit branch of `divide`, on a dividend whose digits share
     * one sign: the receiver becomes the truncated quotient by the divisor's
     * digit and the given zero number is set to the truncated remainder.
     */
    method DivideByDigit(number: N, zero: N)
      requires zero != this && zero != number && number != this
      requires Normalised(digits, BASE) && Normalised(number.digits, BASE) && |number.digits| == 1 && number.Val() != 0
      requires (forall j :: 0 <= j < |digits| ==> digits[j] >= 0) || (forall j :: 0 <= j < |digits| ==> digits[j] <= 0)
      modifies this, zero
      ensures Valid() && zero.Valid()
      ensures Val() == TDiv(old(Val()), number.Val()) && zero.Val() == TMod(old(Val()), number.Val())
    {
      assert number.digits == [number.digits[0]] + [];
      ValueCons(number.digits[0], [], BASE);
      var r := DigitDivide(number.digits[0]);
      zero.Set(r);
    }

    /**
     * The long-division branch of `divide`, for a divisor of BASE or more in
     * magnitude: signs taken, both operands replaced by their positivised
     * magnitudes, the magnitudes divided, and quotient and remainder both
     * negated when the signs differ.
     */
    method DivideLong(number: N, zero: N) returns (remainder: N)
      requires zero != this && zero != number && number != this
      requires Valid() && safemaximum < BASE && Normalised(digits, BASE) && NoTopZero(digits) && digits != []
      requires number.Valid() && number.safemaximum < BASE && Normalised(number.digits, BASE)
      requires NoTopZero(number.digits) && Arith.Abs(number.Val()) >= BASE
      requires zero.digits == [] && zero.safemaximum == 0
      modifies this, number, zero
      ensures remainder == zero || fresh(remainder)
      ensures Valid() && number.Valid() && remainder.Valid()
      ensures Val() == TDiv(old(Val()), old(number.Val()))
      ensures remainder.Val() == Sign(old(number.Val())) * TMod(old(Val()), old(number.Val()))
      ensures number.Val() == Arith.Abs(old(number.Val()))
    {
      ghost var a, d := Val(), number.Val();
      var s1 := Magnitude();
      var s2 := number.Magnitude();
      ValueInRangeBounds(number.digits, BASE);
      assert Pow(BASE, 1) == BASE;
      remainder := DivideMagnitudes(number, zero);
      SignBoth(remainder, s1 * s2);
      DivideTruncates(a, d);
    }

    /** The closing step of `divide`: quotient and remainder both take the sign s, and the quotient is trimmed. */
    method SignBoth(remainder: N, s: int)
      requires remainder != this && (s == 1 || s == -1) && Valid() && remainder.Valid()
      modifies this, remainder
      ensures Valid() && remainder.Valid() && Val() == s * old(Val()) && remainder.Val() == s * old(remainder.Val())
    {
      if s < 0 {
        Negate();
        remainder.Negate();
      }
      Strip();
    }

    /**
     * The sign step of `divide` on a normalised non-zero number: the sign of
     * its top digit is taken, then it is replaced by its positivised magnitude.
     */
    method Magnitude() returns (s: int)
      requires Valid() && safemaximum < BASE && Normalised(digits, BASE) && NoTopZero(digits) && digits != []
      modifies this
      ensures s == Sign(old(Val())) && s != 0
      ensures Valid() && Canonical(digits, BASE) && Val() == Arith.Abs(old(Val())) && Val() > 0
      ensures BASE - 1 <= safemaximum < BASE
    {
      NormalisedSign(digits, BASE);
      s := Sign(digits[|digits| - 1]);
      if s < 0 {
        Abs();
      }
      Positivise();
    }

    /**
     * The sign step of `divide` taken before the single-digit test: a
     * normalised non-zero number keeps its value but has every digit given
     * the value's sign (through its positivised magnitude), so it has a
     * single digit exactly when its magnitude is below BASE.
     */
    method OneSign() returns (s: int)
      requires Valid() && safemaximum < BASE && Normalised(digits, BASE) && NoTopZero(digits) && digits != []
      modifies this
      ensures s == Sign(old(Val())) && s != 0 && Val() == old(Val())
      ensures Valid() && Normalised(digits, BASE) && NoTopZero(digits) && digits != []
      ensures BASE - 1 <= safemaximum < BASE
      ensures s > 0 ==> forall j :: 0 <= j < |digits| ==> digits[j] >= 0
      ensures s < 0 ==> forall j :: 0 <= j < |digits| ==> digits[j] <= 0
      ensures |digits| == 1 <==> Arith.Abs(Val()) < BASE
    {
      s := Magnitude();
      ghost var c := digits;
      CanonicalLowerBound(c, BASE);
      ValueInRangeBounds(c, BASE);
      if |c| > 1 {
        PowMonotone(BASE, 1, |c| - 1);
      }
      if s < 0 {
        Negate();
      }
    }

    /**
     * The magnitude part of `divide` for a divisor of two digits or more: the
     * comparison followed by the three cases.  The remainder is the given
     * zero number, or a fresh copy of the dividend when that is smaller.
     */
    method DivideMagnitudes(number: N, zero: N) returns (remainder: N)
      requires number != this && zero != this && zero != number
      requires Canonical(digits, BASE) && Canonical(number.digits, BASE) && Val() > 0 && number.Val() > 0
      requires |number.digits| >= 2
      requires BASE - 1 <= safemaximum < BASE && zero.digits == [] && zero.safemaximum == 0
      modifies this, zero
      ensures remainder == zero || fresh(remainder)
      ensures remainder != this && remainder != number
      ensures Valid() && remainder.Valid()
      ensures Val() == old(Val()) / number.Val() && remainder.Val() == old(Val()) % number.Val()
    {
      remainder := zero;
      var compare := Compare(number);
      if compare == -1 {
        DivModUnique(Val(), number.Val(), 0, Val());
        remainder := new N.Copy(this);
        Reset();
      } else if compare == 0 {
        DivModUnique(Val(), number.Val(), 1, 0);
        Set(1);
      } else {
        LongDivide(number, remainder);
        DivModUnique(old(Val()), number.Val(), Val(), remainder.Val());
      }
    }
  }
}
