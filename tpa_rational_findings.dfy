/**
 * Members that keep the rational layer of lib/tpa.js as written where it
 * goes wrong, each with the input that shows it.  The rest of the model
 * uses the corrected members: `TpaRational.Settle`, `TpaRational.Tpa.Compare`,
 * `TpaRational.Tpa.Multiply`, `TpaRational.Tpa.Divide`, `TpaParse.PointReading`
 * and `TpaSimplify.Lowest`.
 */
module TpaRationalFindings {
  import opened Arith
  import opened TpaRational
  import opened TpaParse
  import opened TpaTexts
  import opened Wrappers

  /**
   * The borrow of `addorsubtract` as written, for an integer part of
   * magnitude m > 0 and sign ms and a numerator f of the other sign: one
   * comes off the integer part, the numerator becomes d - f, and
   * `normaliseRemainder` folds a numerator of d back in.  The borrow is
   * taken even when the numerator is zero, because the numerator's sign is
   * the receiver's, set before the integer parts were combined.  The pair
   * is the signed integer part and the numerator.
   */
  function BorrowAsWritten(ms: int, m: int, f: int, d: int): (r: (int, int))
    requires (ms == 1 || ms == -1) && 0 < m && 0 <= f < d
    ensures 0 <= r.1 < d
    ensures f > 0 ==> r == (ms * (m - 1), d - f)
  {
    var whole, rest := ms * (m - 1), d - f;
    if rest >= d then (whole + rest / d, rest % d) else (whole, rest)
  }

  /**
   * With a zero numerator the borrow as written is harmless only for a
   * positive integer part: a negative one ends 2 too high.
   */
  lemma ZeroNumeratorBorrow(ms: int, m: int, d: int)
    requires (ms == 1 || ms == -1) && 0 < m && 0 < d
    ensures BorrowAsWritten(ms, m, 0, d) == (ms * (m - 1) + 1, 0)
    ensures BorrowAsWritten(ms, m, 0, d).0 == ms * m <==> ms == 1
  {
    DivModUnique(d, d, 1, 0);
  }

  /**
   * `Tpa('5.0').subtract(8)`: the integer parts combine to -3 with a zero
   * numerator of sign 1 over 10, and the borrow as written leaves -1.
   */
  lemma FiveMinusEight()
    ensures BorrowAsWritten(-1, 3, 0, 10) == (-1, 0)
  {
    ZeroNumeratorBorrow(-1, 3, 10);
  }

  /**
   * `compare` as written, for two fractional values of signs s1, s2,
   * integer parts m1, m2 and fractions n1/d1, n2/d2: the receiver's sign
   * when the signs differ, otherwise the order of the magnitudes, whatever
   * the sign.
   */
  function CompareAsWritten(s1: int, m1: int, n1: int, d1: int, s2: int, m2: int, n2: int, d2: int): (r: int)
    requires (s1 == 1 || s1 == -1) && (s2 == 1 || s2 == -1)
    ensures -1 <= r <= 1
    ensures s1 != s2 ==> r == s1
  {
    if s1 != s2 then s1
    else if m1 != m2 then Sign(m1 - m2)
    else Sign(n1 * d2 - d1 * n2)
  }

  /** Two negative values are ordered the wrong way round: the verdict is the opposite of the order of their values. */
  lemma NegativesReversed(m1: int, n1: int, d1: int, m2: int, n2: int, d2: int)
    requires 0 <= m1 && 0 <= n1 < d1 && 0 <= m2 && 0 <= n2 < d2
    ensures CompareAsWritten(-1, m1, n1, d1, -1, m2, n2, d2)
      == -RealSign(Signed(-1, m1 as real + Ratio(n1, d1)) - Signed(-1, m2 as real + Ratio(n2, d2)))
  {
    FracOrder(n1, d1, n2, d2);
    ProperFraction(n1, d1);
    ProperFraction(n2, d2);
    OrderByParts(-1, m1, Ratio(n1, d1), m2, Ratio(n2, d2));
  }

  /** `Tpa(-5).compare(-3)` is 1 although -5 < -3. */
  lemma MinusFiveAboveMinusThree()
    ensures CompareAsWritten(-1, 5, 0, 1, -1, 3, 0, 1) == 1
    ensures Signed(-1, 5.0 + Ratio(0, 1)) < Signed(-1, 3.0 + Ratio(0, 1))
  {
  }

  /**
   * `Tpa(1).subtract(1)`, in integer mode, leaves zero with the sign -1
   * (`combine` gives an exact cancellation the second operand's sign), and
   * `compare` as written then puts it below `Tpa(0)`.
   */
  lemma NegativeZeroBelowZero()
    ensures CompareAsWritten(-1, 0, 0, 1, 1, 0, 0, 1) == -1
    ensures Signed(-1, 0.0 + Ratio(0, 1)) == Signed(1, 0.0 + Ratio(0, 1))
  {
  }

  /**
   * The numerator `multiply` builds as written, before it is normalised:
   * n1*(n2 + d2*m2) + n2*m1*d1 over d1*d2, with the signs ns1, ns2 the two
   * numerators still carry.  `multiply` resets the integer parts' signs but
   * not the numerators', and `addorsubtract` leaves a negative value's
   * numerator with the sign -1.
   */
  function ProductNumeratorAsWritten(ns1: int, n1: int, d1: int, m1: int, ns2: int, n2: int, d2: int, m2: int): (r: int)
    ensures ns1 == 1 && ns2 == 1 ==> r == n1 * (n2 + d2 * m2) + (n2 * m1) * d1
  {
    (ns1 * n1) * (ns2 * n2 + d2 * m2) + ((ns2 * n2) * m1) * d1
  }

  /** With signs 1 the numerator as written gives the exact product. */
  lemma ProductWithPositiveNumerators(n1: int, d1: int, m1: int, n2: int, d2: int, m2: int)
    requires 0 < d1 && 0 < d2
    ensures (m1 * m2) as real + Ratio(ProductNumeratorAsWritten(1, n1, d1, m1, 1, n2, d2, m2), d1 * d2)
      == (m1 as real + Ratio(n1, d1)) * (m2 as real + Ratio(n2, d2))
  {
    ProductOfValues(m1, n1, d1, m2, n2, d2);
  }

  /**
   * `Tpa('-1 1/2').add(0).multiply('1 1/2')`: the receiver's numerator keeps
   * the sign -1 from `add`, the numerator as written is -1 where the
   * product 9/4 = 2 + 1/4 needs 5 over 4, and the result reads -1 1/4.
   */
  lemma StaleSignProduct()
    ensures ProductNumeratorAsWritten(-1, 1, 2, 1, 1, 1, 2, 1) == -1
    ensures ProductNumeratorAsWritten(1, 1, 2, 1, 1, 1, 2, 1) == 5
  {
  }

  /**
   * The dividend `divide` forms as written: m1*d1 + n1 with the sign ns1 the
   * numerator still carries, combined into the integer part.
   */
  function DividendAsWritten(ns1: int, m1: int, n1: int, d1: int): (r: int)
    ensures ns1 == 1 ==> r == m1 * d1 + n1
    ensures ns1 == -1 && n1 > 0 ==> r < m1 * d1 + n1
  {
    m1 * d1 + ns1 * n1
  }

  /** `Tpa('-1 1/2').add(0).divide(1)`: the dividend as written is 1 where 3/2 needs 3 over 2. */
  lemma StaleSignQuotient()
    ensures DividendAsWritten(-1, 1, 1, 2) == 1 && DividendAsWritten(1, 1, 1, 2) == 3
  {
  }

  /**
   * The '.' branch as written: the decimal remainder is stored as it is,
   * without the `normaliseRemainder` the ' ' and '/' branches apply.
   */
  function PointReadingAsWritten(negative: bool, m: int, f: Remainder): (r: Reading)
    ensures !r.integer && r.whole == m && r.numerator == f.numerator && r.denominator == f.denominator
  {
    Settled(negative, false, m, f.numerator, f.denominator)
  }

  /**
   * '0.[9]' reads the remainder 9/9; as written it stays 9/9, which breaks
   * the numerator-below-denominator rule (the text renders as "0.10"), while
   * the normalised reading is 1 with no remainder.
   */
  lemma RecurringNines()
    ensures Scan("0.[9]", None) == Accepted(PointReading(false, 0, Remainder(9, 9)))
    ensures !ProperReading(PointReadingAsWritten(false, 0, Remainder(9, 9)))
    ensures PointReading(false, 0, Remainder(9, 9)) == Reading(1, false, 1, 0, 9)
  {
    assert AllDigits("0") && AllDigits("") && AllDigits("9");
    RecurringText("", "0", "", "9", "]", None);
    assert "" + "0" + ("." + "" + "[" + "9" + "]") == "0.[9]";
    assert "" + "9" == "9";
    assert TextValue("9") == 9 && TextValue("0") == 0 && TextValue("") == 0;
    assert Scale("9") == 10 && Scale("") == 1;
    DivModUnique(9, 9, 1, 0);
  }
}
