/**
 * What the string constructor of lib/tpa.js makes of each form of text,
 * stated on the text's pieces: an optional sign `sgn`, the integer digits
 * `a`, and what follows them.  Each lemma evaluates `Scan` on one shape of
 * input; by `Parse`'s contract the constructed `Tpa` has that reading.
 */
module TpaTexts {
  import opened Arith
  import opened TpaRational
  import opened TpaParse
  import opened Wrappers

  /** The optional sign in front of a number. */
  predicate SignText(sgn: string)
  {
    sgn == "" || sgn == "-" || sgn == "+"
  }

  function SignOf(sgn: string): int
  {
    if sgn == "-" then -1 else 1
  }

  /**
   * The sign and the integer digits are read, and the rest of the text is
   * left to the branch its first character chooses.
   */
  lemma ScanHead(sgn: string, a: string, rest: string, integer: Option<bool>)
    requires SignText(sgn) && AllDigits(a)
    requires |rest| > 0 ==> !IsDigit(rest[0])
    requires sgn == "" && a == "" && |rest| > 0 ==> rest[0] != '-' && rest[0] != '+'
    ensures |rest| == 0 ==> (Scan(sgn + a + rest, integer)
      == Accepted(Settled(sgn == "-", if integer.Some? then integer.value else true, TextValue(a), 0, 1)))
    ensures |rest| > 0 ==> (|sgn + a| < |sgn + a + rest|
      && Scan(sgn + a + rest, integer) == TailScan(sgn + a + rest, |sgn + a|, integer, sgn == "-", TextValue(a)))
  {
    var s := sgn + a + rest;
    var i, j := |sgn|, |sgn + a|;
    assert s[i..j] == a;
    assert j < |s| ==> s[j] == rest[0];
    if sgn == "" && |a| > 0 {
      assert s[0] == a[0];
    }
    assert (|s| > 0 && (s[0] == '-' || s[0] == '+')) == (sgn != "");
    assert (|s| > 0 && s[0] == '-') == (sgn == "-");
    RunEnd(s, i, j);
  }

  /** ScanHead for a non-empty rest, with the branch's position written as the head's length. */
  lemma ScanTail(sgn: string, a: string, rest: string, integer: Option<bool>)
    requires SignText(sgn) && AllDigits(a) && |rest| > 0 && !IsDigit(rest[0])
    requires sgn == "" && a == "" ==> rest[0] != '-' && rest[0] != '+'
    ensures |sgn + a| < |sgn + a + rest|
    ensures Scan(sgn + a + rest, integer) == TailScan(sgn + a + rest, |sgn + a|, integer, sgn == "-", TextValue(a))
  {
    ScanHead(sgn, a, rest, integer);
  }

  /**
   * A reading whose magnitude is x and whose sign the constructor took from
   * the text (positive again when the value is zero) denotes x with that sign.
   */
  lemma ReadingMagnitude(r: Reading, negative: bool, x: real)
    requires ProperReading(r)
    requires r.whole as real + (if r.integer then 0.0 else Ratio(r.numerator, r.denominator)) == x
    requires r.sign == (if negative && r.whole == 0 && r.numerator == 0 then 1 else if negative then -1 else 1)
    ensures ReadingValue(r) == Signed(if negative then -1 else 1, x)
  {
    if negative && r.whole == 0 && r.numerator == 0 {
      assert x == 0.0 by {
        if !r.integer {
          assert Ratio(r.numerator, r.denominator) == 0.0;
        }
      }
    }
  }

  /** Digits alone: an integer, in integer mode unless the mode argument says otherwise. */
  lemma IntegerText(sgn: string, a: string, integer: Option<bool>)
    requires SignText(sgn) && AllDigits(a)
    ensures Scan(sgn + a, integer).Accepted?
    ensures var r := Scan(sgn + a, integer).value;
      && r.integer == (integer != Some(false)) && r.whole == TextValue(a)
      && ReadingValue(r) == Signed(SignOf(sgn), TextValue(a) as real)
  {
    assert sgn + a + [] == sgn + a;
    ScanHead(sgn, a, [], integer);
    var r := Scan(sgn + a, integer).value;
    ReadingMagnitude(r, sgn == "-", TextValue(a) as real);
  }

  /** 10^|t|: the place value just above a run of digits t. */
  function Scale(t: string): (r: int)
    ensures r > 0
  {
    var n := |t|;
    PowPositive(10, n);
    Pow(10, n)
  }

  /**
   * A decimal fraction: the digits b after the point are the remainder
   * b/10^|b|; any character other than '[' after them is refused.
   */
  lemma DecimalText(sgn: string, a: string, b: string, t: string, integer: Option<bool>)
    requires SignText(sgn) && AllDigits(a) && AllDigits(b) && integer != Some(true)
    requires |t| > 0 ==> !IsDigit(t[0]) && t[0] != '['
    ensures TextValue(b) < Scale(b)
    ensures Scan(sgn + a + ("." + b + t), integer)
         == if |t| == 0 then Accepted(PointReading(sgn == "-", TextValue(a), Remainder(TextValue(b), Scale(b))))
            else Rejected(UnrecognisedAfterPoint)
  {
    DecimalTail(sgn + a, b, t, integer, sgn == "-", TextValue(a));
    ScanTail(sgn, a, "." + b + t, integer);
  }

  /** The '.' branch on h x b t, where h is the integer part's text. */
  lemma DecimalTail(h: string, b: string, t: string, integer: Option<bool>, negative: bool, m: int)
    requires AllDigits(b) && 0 <= m && integer != Some(true)
    requires |t| > 0 ==> !IsDigit(t[0]) && t[0] != '['
    ensures TextValue(b) < Scale(b)
    ensures TailScan(h + ("." + b + t), |h|, integer, negative, m)
         == if |t| == 0 then Accepted(PointReading(negative, m, Remainder(TextValue(b), Scale(b))))
            else Rejected(UnrecognisedAfterPoint)
  {
    var s, j := h + ("." + b + t), |h|;
    var k := j + 1 + |b|;
    OneRun(h, ".", b, t);
    assert |t| > 0 ==> s[k] == t[0];
    DecimalAt(s, j, k, b, integer, negative, m);
  }

  /** The '.' branch when the digits b after the point at j run to k, by positions. */
  lemma DecimalAt(s: string, j: nat, k: nat, b: string, integer: Option<bool>, negative: bool, m: int)
    requires j < k <= |s| && s[j] == '.' && s[j + 1..k] == b && AllDigits(b) && (k < |s| ==> !IsDigit(s[k]) && s[k] != '[')
    requires 0 <= m && integer != Some(true)
    ensures TextValue(b) < Scale(b)
    ensures TailScan(s, j, integer, negative, m)
         == if k == |s| then Accepted(PointReading(negative, m, Remainder(TextValue(b), Scale(b))))
            else Rejected(UnrecognisedAfterPoint)
  {
    TextBound(b);
    RunEnd(s, j + 1, k);
    var n := k - j - 1;
    assert Scale(b) == Pow(10, n);
  }

  /** In integer mode whatever follows the point is ignored. */
  lemma IntegerPointText(sgn: string, a: string, t: string)
    requires SignText(sgn) && AllDigits(a)
    ensures Scan(sgn + a + ("." + t), Some(true)) == Accepted(Settled(sgn == "-", true, TextValue(a), 0, 1))
  {
    ScanTail(sgn, a, "." + t, Some(true));
    After(sgn + a, "." + t);
  }

  /** Where the pieces of h x b t sit, x being one character. */
  lemma OneRun(h: string, x: string, b: string, t: string)
    requires |x| == 1
    ensures var s, j := h + (x + b + t), |h|;
      && |s| == j + 1 + |b| + |t| && s[j] == x[0] && s[j + 1..j + 1 + |b|] == b && s[j + 1 + |b|..] == t
  {
    assert h + (x + b + t) == (h + x) + b + t;
    Piece(h + x, b, t);
  }

  /** Where the pieces of h x p y c t sit, x and y being one character each. */
  lemma TwoRuns(h: string, x: string, p: string, y: string, c: string, t: string)
    requires |x| == 1 && |y| == 1
    ensures var s, j := h + (x + p + y + c + t), |h|;
      && |s| == j + |p| + |c| + 2 + |t| && s[j] == x[0] && s[j + 1..j + 1 + |p|] == p && s[j + 1 + |p|] == y[0]
      && s[j + 2 + |p|..j + 2 + |p| + |c|] == c && s[j + 2 + |p| + |c|..] == t
  {
    Regroup(h, x, p, y, c, t);
    Piece(h + x, p, y + c + t);
    Piece(h + x + p + y, c, t);
  }

  /** h x p y c t, grouped around p and around c. */
  lemma Regroup(h: string, x: string, p: string, y: string, c: string, t: string)
    ensures h + (x + p + y + c + t) == (h + x) + p + (y + c + t)
    ensures h + (x + p + y + c + t) == (h + x + p + y) + c + t
  {
  }

  /** The middle of x + y + z is y. */
  lemma Piece(x: string, y: string, z: string)
    ensures |x + y + z| == |x| + |y| + |z|
    ensures (x + y + z)[|x|..|x| + |y|] == y && (x + y + z)[|x| + |y|..] == z
  {
  }

  /** What follows a prefix x in x + y is y. */
  lemma After(x: string, y: string)
    ensures |x + y| == |x| + |y| && (x + y)[|x|..] == y
  {
  }

  /** What a '.' reading denotes: the integer part m plus the fraction f, signed. */
  lemma PointValue(negative: bool, m: int, f: Remainder)
    requires 0 <= m && 0 <= f.numerator <= f.denominator && 0 < f.denominator
    ensures ReadingValue(PointReading(negative, m, f)) == Signed(if negative then -1 else 1, m as real + Ratio(f.numerator, f.denominator))
  {
    ReadingMagnitude(PointReading(negative, m, f), negative, m as real + Ratio(f.numerator, f.denominator));
  }

  /**
   * A recurring decimal: prefix digits p, '[', the cycle c and what follows
   * it, t.  Closed by a final ']', it counts (pc - p)/(10^(|p|+|c|) - 10^|p|),
   * pc being the number the digits of p and c spell together.  Refused, in
   * this order: no ']' at all, another character where the ']' should be,
   * text after the ']', all-zero digits, an empty cycle.
   */
  lemma RecurringText(sgn: string, a: string, p: string, c: string, t: string, integer: Option<bool>)
    requires SignText(sgn) && AllDigits(a) && AllDigits(p) && AllDigits(c) && integer != Some(true)
    requires |t| > 0 ==> !IsDigit(t[0])
    ensures AllDigits(p + c)
    ensures |c| > 0 ==> 0 <= TextValue(p + c) - TextValue(p) <= Scale(p + c) - Scale(p) && Scale(p + c) - Scale(p) > 0
    ensures Scan(sgn + a + ("." + p + "[" + c + t), integer)
         == if |t| == 0 then Rejected(IncompleteRecurring)
            else if t[0] != ']' then Rejected(UnrecognisedAfterPoint)
            else if |t| > 1 then Rejected(TrailingAfterRecurring)
            else if TextValue(p + c) == 0 then Rejected(NoRecurringDigit)
            else if |c| == 0 then Rejected(EmptyRecurring)
            else Accepted(PointReading(sgn == "-", TextValue(a), Remainder(TextValue(p + c) - TextValue(p), Scale(p + c) - Scale(p))))
  {
    ScanTail(sgn, a, "." + p + "[" + c + t, integer);
    RecurringTail(sgn + a, p, c, t, integer, sgn == "-", TextValue(a));
  }

  /** The '.' branch of a recurring decimal after the head h. */
  lemma RecurringTail(h: string, p: string, c: string, t: string, integer: Option<bool>, negative: bool, m: int)
    requires AllDigits(p) && AllDigits(c) && 0 <= m && integer != Some(true)
    requires |t| > 0 ==> !IsDigit(t[0])
    ensures AllDigits(p + c)
    ensures |c| > 0 ==> 0 <= TextValue(p + c) - TextValue(p) <= Scale(p + c) - Scale(p) && Scale(p + c) - Scale(p) > 0
    ensures TailScan(h + ("." + p + "[" + c + t), |h|, integer, negative, m)
         == if |t| == 0 then Rejected(IncompleteRecurring)
            else if t[0] != ']' then Rejected(UnrecognisedAfterPoint)
            else if |t| > 1 then Rejected(TrailingAfterRecurring)
            else if TextValue(p + c) == 0 then Rejected(NoRecurringDigit)
            else if |c| == 0 then Rejected(EmptyRecurring)
            else Accepted(PointReading(negative, m, Remainder(TextValue(p + c) - TextValue(p), Scale(p + c) - Scale(p))))
  {
    var s, j := h + ("." + p + "[" + c + t), |h|;
    var k, e := j + 1 + |p|, j + 2 + |p| + |c|;
    TwoRuns(h, ".", p, "[", c, t);
    assert |t| > 0 ==> s[e] == t[0];
    CycleAt(s, j, k, e, p, c, integer, negative, m);
  }

  /** The '.' branch of a recurring decimal, by positions: the cycle c ends at e. */
  lemma CycleAt(s: string, j: nat, k: nat, e: nat, p: string, c: string, integer: Option<bool>, negative: bool, m: int)
    requires j < k < e <= |s| && s[j] == '.' && s[k] == '[' && (e < |s| ==> !IsDigit(s[e]))
    requires s[j + 1..k] == p && s[k + 1..e] == c && AllDigits(p) && AllDigits(c) && 0 <= m && integer != Some(true)
    ensures AllDigits(p + c)
    ensures |c| > 0 ==> 0 <= TextValue(p + c) - TextValue(p) <= Scale(p + c) - Scale(p) && Scale(p + c) - Scale(p) > 0
    ensures TailScan(s, j, integer, negative, m)
         == if e == |s| then Rejected(IncompleteRecurring)
            else if s[e] != ']' then Rejected(UnrecognisedAfterPoint)
            else if e != |s| - 1 then Rejected(TrailingAfterRecurring)
            else if TextValue(p + c) == 0 then Rejected(NoRecurringDigit)
            else if |c| == 0 then Rejected(EmptyRecurring)
            else Accepted(PointReading(negative, m, Remainder(TextValue(p + c) - TextValue(p), Scale(p + c) - Scale(p))))
  {
    CycleScan(s, j + 1, k, e, p, c);
  }

  /** The scan after the point of a recurring decimal, by positions. */
  lemma CycleScan(s: string, i: nat, k: nat, e: nat, p: string, c: string)
    requires i <= k < e <= |s| && s[k] == '[' && (e < |s| ==> !IsDigit(s[e]))
    requires s[i..k] == p && s[k + 1..e] == c && AllDigits(p) && AllDigits(c)
    ensures AllDigits(p + c)
    ensures |c| > 0 ==> Scale(p + c) - Scale(p) > 0
    ensures DecimalScan(s, i)
         == if e == |s| then Rejected(IncompleteRecurring)
            else if s[e] != ']' then Rejected(UnrecognisedAfterPoint)
            else if e != |s| - 1 then Rejected(TrailingAfterRecurring)
            else if TextValue(p + c) == 0 then Rejected(NoRecurringDigit)
            else if |c| == 0 then Rejected(EmptyRecurring)
            else Accepted(Remainder(TextValue(p + c) - TextValue(p), Scale(p + c) - Scale(p)))
    ensures |c| > 0 ==> 0 <= TextValue(p + c) - TextValue(p) <= Scale(p + c) - Scale(p)
  {
    TextConcat(p, c);
    RunEnd(s, i, k);
    var k1 := k + 1;
    RunEnd(s, k1, e);
    if |c| > 0 {
      var lp, lpc := k - i, e - 1 - i;
      PowMonotone(10, lp, lpc);
      assert Scale(p) == Pow(10, lp) && Scale(p + c) == Pow(10, lpc);
      RecurringBounds(p, c);
    }
  }

  /**
   * A mixed number: the integer part, a space, then numerator '/' denominator
   * ending the text.  A zero numerator, or no '/' after it, and a zero or
   * unfinished denominator are refused, in that order.
   */
  lemma MixedText(sgn: string, a: string, n: string, d: string, u: string, integer: Option<bool>)
    requires SignText(sgn) && AllDigits(a) && AllDigits(n) && AllDigits(d)
    requires |u| > 0 ==> !IsDigit(u[0])
    ensures Scan(sgn + a + (" " + n + "/" + d + u), integer)
         == if TextValue(n) == 0 then Rejected(NumeratorNotPositive)
            else if |u| > 0 || TextValue(d) == 0 then Rejected(MixedDenominatorNotPositive)
            else Accepted(MixedReading(sgn == "-", integer == Some(true), TextValue(a), Remainder(TextValue(n), TextValue(d))))
  {
    var h, rest := sgn + a, " " + n + "/" + d + u;
    ScanTail(sgn, a, rest, integer);
    MixedTail(h, n, d, u, integer, sgn == "-", TextValue(a));
  }

  /** The ' ' branch after the head h. */
  lemma MixedTail(h: string, n: string, d: string, u: string, integer: Option<bool>, negative: bool, m: int)
    requires AllDigits(n) && AllDigits(d) && (|u| > 0 ==> !IsDigit(u[0])) && 0 <= m
    ensures |h| < |h + (" " + n + "/" + d + u)|
    ensures TailScan(h + (" " + n + "/" + d + u), |h|, integer, negative, m)
         == if TextValue(n) == 0 then Rejected(NumeratorNotPositive)
            else if |u| > 0 || TextValue(d) == 0 then Rejected(MixedDenominatorNotPositive)
            else Accepted(MixedReading(negative, integer == Some(true), m, Remainder(TextValue(n), TextValue(d))))
  {
    var s, j := h + (" " + n + "/" + d + u), |h|;
    var k, e := j + 1 + |n|, j + 2 + |n| + |d|;
    TwoRuns(h, " ", n, "/", d, u);
    assert |u| > 0 ==> s[e] == u[0];
    MixedAt(s, j, k, e, n, d, integer, negative, m);
  }

  /** The ' ' branch when numerator n, '/' and denominator d follow the space at j, by positions. */
  lemma MixedAt(s: string, j: nat, k: nat, e: nat, n: string, d: string, integer: Option<bool>, negative: bool, m: int)
    requires j < k < e <= |s| && s[j] == ' ' && s[k] == '/' && (e < |s| ==> !IsDigit(s[e]))
    requires s[j + 1..k] == n && s[k + 1..e] == d && AllDigits(n) && AllDigits(d) && 0 <= m
    ensures TailScan(s, j, integer, negative, m)
         == if TextValue(n) == 0 then Rejected(NumeratorNotPositive)
            else if e < |s| || TextValue(d) == 0 then Rejected(MixedDenominatorNotPositive)
            else Accepted(MixedReading(negative, integer == Some(true), m, Remainder(TextValue(n), TextValue(d))))
  {
    RunEnd(s, j + 1, k);
    var k1 := k + 1;
    RunEnd(s, k1, e);
  }

  /** A mixed number whose numerator is not followed by '/' is refused. */
  lemma MixedOpenText(sgn: string, a: string, n: string, t: string, integer: Option<bool>)
    requires SignText(sgn) && AllDigits(a) && AllDigits(n)
    requires |t| > 0 ==> !IsDigit(t[0]) && t[0] != '/'
    ensures Scan(sgn + a + (" " + n + t), integer) == Rejected(NumeratorNotPositive)
  {
    MixedOpenTail(sgn + a, n, t, integer, sgn == "-", TextValue(a));
    ScanTail(sgn, a, " " + n + t, integer);
  }

  /** The ' ' branch after the head h when no '/' follows the numerator n. */
  lemma MixedOpenTail(h: string, n: string, t: string, integer: Option<bool>, negative: bool, m: int)
    requires AllDigits(n) && 0 <= m
    requires |t| > 0 ==> !IsDigit(t[0]) && t[0] != '/'
    ensures TailScan(h + (" " + n + t), |h|, integer, negative, m) == Rejected(NumeratorNotPositive)
  {
    var s, j := h + (" " + n + t), |h|;
    var k := j + 1 + |n|;
    OneRun(h, " ", n, t);
    assert |t| > 0 ==> s[k] == t[0];
    RunEnd(s, j + 1, k);
  }

  /**
   * A fraction: numerator '/' denominator ending the text.  A zero or missing
   * numerator, then a zero or unfinished denominator, are refused.
   */
  lemma FractionText(sgn: string, n: string, d: string, u: string, integer: Option<bool>)
    requires SignText(sgn) && AllDigits(n) && AllDigits(d)
    requires |u| > 0 ==> !IsDigit(u[0])
    ensures Scan(sgn + n + ("/" + d + u), integer)
         == if TextValue(n) == 0 then Rejected(MissingNumerator)
            else if |u| > 0 || TextValue(d) == 0 then Rejected(DenominatorNotPositive)
            else Accepted(FractionReading(sgn == "-", integer == Some(true), TextValue(n), TextValue(d)))
  {
    FractionTail(sgn + n, d, u, integer, sgn == "-", TextValue(n));
    ScanTail(sgn, n, "/" + d + u, integer);
  }

  /** The '/' branch after the numerator's text h, which reads m. */
  lemma FractionTail(h: string, d: string, u: string, integer: Option<bool>, negative: bool, m: int)
    requires AllDigits(d) && (|u| > 0 ==> !IsDigit(u[0])) && 0 <= m
    ensures TailScan(h + ("/" + d + u), |h|, integer, negative, m)
         == if m == 0 then Rejected(MissingNumerator)
            else if |u| > 0 || TextValue(d) == 0 then Rejected(DenominatorNotPositive)
            else Accepted(FractionReading(negative, integer == Some(true), m, TextValue(d)))
  {
    var s, j := h + ("/" + d + u), |h|;
    var k := j + 1 + |d|;
    OneRun(h, "/", d, u);
    assert |u| > 0 ==> s[k] == u[0];
    FractionAt(s, j, k, d, integer, negative, m);
  }

  /** The '/' branch when the denominator d follows the '/' at j, by positions. */
  lemma FractionAt(s: string, j: nat, k: nat, d: string, integer: Option<bool>, negative: bool, m: int)
    requires j < k <= |s| && s[j] == '/' && s[j + 1..k] == d && AllDigits(d) && (k < |s| ==> !IsDigit(s[k])) && 0 <= m
    ensures TailScan(s, j, integer, negative, m)
         == if m == 0 then Rejected(MissingNumerator)
            else if k < |s| || TextValue(d) == 0 then Rejected(DenominatorNotPositive)
            else Accepted(FractionReading(negative, integer == Some(true), m, TextValue(d)))
  {
    RunEnd(s, j + 1, k);
  }

  /** Any other character after the integer part is refused. */
  lemma OtherText(sgn: string, a: string, x: char, t: string, integer: Option<bool>)
    requires SignText(sgn) && AllDigits(a)
    requires !IsDigit(x) && x != '.' && x != ' ' && x != '/'
    requires sgn == "" && a == "" ==> x != '-' && x != '+'
    ensures Scan(sgn + a + ([x] + t), integer) == Rejected(UnrecognisedCharacter)
  {
    ScanTail(sgn, a, [x] + t, integer);
    After(sgn + a, [x] + t);
  }

  /** What a ' ' reading denotes: m plus the fraction f, or in integer mode m plus its whole part. */
  lemma MixedValue(negative: bool, integer: bool, m: int, f: Remainder)
    requires 0 <= m && 0 < f.numerator && 0 < f.denominator
    ensures !integer ==> ReadingValue(MixedReading(negative, integer, m, f))
                         == Signed(if negative then -1 else 1, m as real + Ratio(f.numerator, f.denominator))
    ensures integer ==> ReadingValue(MixedReading(negative, integer, m, f))
                        == Signed(if negative then -1 else 1, (m + f.numerator / f.denominator) as real)
  {
    var r := MixedReading(negative, integer, m, f);
    ReadingMagnitude(r, negative, if integer then r.whole as real else m as real + Ratio(f.numerator, f.denominator));
  }

  /** What a '/' reading denotes: m/d, or in integer mode its whole part. */
  lemma FractionValue(negative: bool, integer: bool, m: int, d: int)
    requires 0 < m && 0 < d
    ensures !integer ==> ReadingValue(FractionReading(negative, integer, m, d)) == Signed(if negative then -1 else 1, Ratio(m, d))
    ensures integer ==> ReadingValue(FractionReading(negative, integer, m, d)) == Signed(if negative then -1 else 1, (m / d) as real)
  {
    var r := FractionReading(negative, integer, m, d);
    ReadingMagnitude(r, negative, if integer then r.whole as real else Ratio(m, d));
  }

  /**
   * What a recurring section means: 0.p[c] is p/10^|p| plus the cycle c
   * repeated for ever, c/(10^|p| * (10^|c| - 1)).
   */
  lemma {:induction false} RecurringMeaning(p: string, c: string)
    requires AllDigits(p) && AllDigits(c) && |c| > 0
    ensures AllDigits(p + c)
    ensures Scale(p + c) - Scale(p) > 0 && Scale(p) * (Scale(c) - 1) > 0
    ensures Ratio(TextValue(p + c) - TextValue(p), Scale(p + c) - Scale(p))
         == Ratio(TextValue(p), Scale(p)) + Ratio(TextValue(c), Scale(p) * (Scale(c) - 1))
  {
    TextConcat(p, c);
    var np, nc, x, y := TextValue(p), TextValue(c), Scale(p), Scale(c);
    assert Scale(p + c) == x * y by { PowAdd(10, |p|, |c|); }
    assert y > 1 by { PowMonotone(10, 0, |c|); }
    RecurringArith(np, nc, x, y, TextValue(p + c), Scale(p + c));
    FractionSum(np, nc, x, y - 1);
  }

  /** The arithmetic of a recurring section: the differences that make up its numerator and denominator. */
  lemma RecurringArith(np: int, nc: int, x: int, y: int, t: int, s: int)
    requires x > 0 && y > 1 && t == np * y + nc && s == x * y
    ensures t - np == np * (y - 1) + nc && s - x == x * (y - 1) && x * (y - 1) > 0
  {
    MulDistrib(np, y, -1);
    MulDistrib(x, y, -1);
    MulNonNeg(x, y - 2);
  }

  /** (np*z + nc)/(x*z) == np/x + nc/(x*z) for positive x and z. */
  lemma FractionSum(np: int, nc: int, x: int, z: int)
    requires x > 0 && z > 0
    ensures x * z > 0
    ensures Ratio(np * z + nc, x * z) == Ratio(np, x) + Ratio(nc, x * z)
  {
    var rx, rz := x as real, z as real;
    assert (x * z) as real == rx * rz;
    assert (np * z + nc) as real == (np as real) * rz + nc as real;
    assert Ratio(np, x) == (np as real) * rz / (rx * rz);
  }
}
