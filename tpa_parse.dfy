/**
 * The string form of `new Tpa(initial, integer)` in lib/tpa.js: an optional
 * sign, the digits of the integer part, and then one of
 *   '.' digits, with an optional recurring section '[' digits ']' at the end;
 *   ' ' numerator '/' denominator (a mixed number);
 *   '/' denominator (a fraction whose numerator is the integer part).
 * `Scan` says, as a function of the text, which inputs are refused and with
 * which error, and what sign, mode, integer part and remainder the others
 * give; `Parse` builds the `Tpa` by the source's own scanning loops and is
 * proved to agree with `Scan`.
 */
module TpaParse {
  import opened Arith
  import opened TpaKernel
  import opened TpaRational
  import opened Wrappers

  /** The errors the string constructor throws. */
  datatype ParseError =
    | UnrecognisedCharacter      // after the integer part: not '.', ' ' or '/'
    | UnrecognisedAfterPoint     // after the point: not a digit, the first '[' or its ']'
    | TrailingAfterRecurring     // characters after the closing ']'
    | NoRecurringDigit           // the digits up to ']' are all zero
    | EmptyRecurring             // '[' immediately followed by ']'
    | IncompleteRecurring        // a '[' that is never closed
    | NumeratorNotPositive       // mixed number: no '/' after a positive numerator
    | MixedDenominatorNotPositive // mixed number: the denominator is missing, zero or followed by more text
    | MissingNumerator           // a fraction '/' after a zero or missing integer part
    | DenominatorNotPositive     // fraction: the denominator is missing, zero or followed by more text

  /** Either the error the constructor throws or what it produces. */
  datatype Outcome<T> = Rejected(error: ParseError) | Accepted(value: T)

  /** A remainder as plain integers: numerator/denominator. */
  datatype Remainder = Remainder(numerator: int, denominator: int)

  /** The fields of a parsed `Tpa`, as integers: sign * (whole + numerator/denominator). */
  datatype Reading = Reading(sign: int, integer: bool, whole: int, numerator: int, denominator: int)

  predicate IsDigit(c: char)
  {
    '0' <= c <= '9'
  }

  predicate AllDigits(t: string)
  {
    forall k :: 0 <= k < |t| ==> IsDigit(t[k])
  }

  function DigitOf(c: char): int
    requires IsDigit(c)
  {
    c as int - '0' as int
  }

  /** The number a run of decimal digits spells, most significant digit first. */
  function TextValue(t: string): (v: int)
    requires AllDigits(t)
    ensures 0 <= v
  {
    if |t| == 0 then 0 else TextValue(t[..|t| - 1]) * 10 + DigitOf(t[|t| - 1])
  }

  /** Where the run of digits that starts at i ends: the first non-digit, or the end. */
  function DigitRun(s: string, i: nat): (j: nat)
    requires i <= |s|
    ensures i <= j <= |s| && AllDigits(s[i..j]) && (j < |s| ==> !IsDigit(s[j]))
    decreases |s| - i
  {
    if i < |s| && IsDigit(s[i]) then
      var j := DigitRun(s, i + 1);
      assert s[i..j] == [s[i]] + s[i + 1..j];
      j
    else i
  }

  /** Any index inside a run of digits finds the same end. */
  lemma {:induction false} RunEnd(s: string, i: nat, j: nat)
    requires i <= j <= |s| && AllDigits(s[i..j]) && (j < |s| ==> !IsDigit(s[j]))
    ensures DigitRun(s, i) == j
    decreases j - i
  {
    if i < j {
      assert IsDigit(s[i]) by { assert s[i..j][0] == s[i]; }
      assert s[i + 1..j] == s[i..j][1..];
      RunEnd(s, i + 1, j);
    }
  }

  /** The value of two runs written one after the other. */
  lemma {:induction false} TextConcat(a: string, b: string)
    requires AllDigits(a) && AllDigits(b)
    ensures AllDigits(a + b) && TextValue(a + b) == TextValue(a) * Pow(10, |b|) + TextValue(b)
    decreases |b|
  {
    assert AllDigits(a + b) by { assert forall k :: 0 <= k < |a + b| ==> (a + b)[k] == (if k < |a| then a[k] else b[k - |a|]); }
    if |b| > 0 {
      var c := b[..|b| - 1];
      assert AllDigits(c) by { assert forall k :: 0 <= k < |c| ==> c[k] == b[k]; }
      assert (a + b)[..|a + b| - 1] == a + c;
      assert (a + b)[|a + b| - 1] == b[|b| - 1];
      TextConcat(a, c);
      assert TextValue(a + b) == TextValue(a + c) * 10 + DigitOf(b[|b| - 1]);
      assert TextValue(b) == TextValue(c) * 10 + DigitOf(b[|b| - 1]);
      assert Pow(10, |b|) == 10 * Pow(10, |c|);
      var x, q, y, d := TextValue(a), Pow(10, |c|), TextValue(c), DigitOf(b[|b| - 1]);
      ShiftDigit(x, q, y, d);
      assert TextValue(a + b) == (x * q + y) * 10 + d;
    } else {
      assert a + b == a;
    }
  }

  lemma ShiftDigit(x: int, p: int, y: int, d: int)
    ensures (x * p + y) * 10 + d == x * (10 * p) + (y * 10 + d)
  {
    MulAssoc(x, p, 10);
    MulAssoc(x, 10, p);
  }

  /** A run of n digits spells a number below 10^n. */
  lemma {:induction false} TextBound(t: string)
    requires AllDigits(t)
    ensures 0 <= TextValue(t) < Pow(10, |t|)
  {
    if |t| > 0 {
      var c := t[..|t| - 1];
      assert AllDigits(c) by { assert forall k :: 0 <= k < |c| ==> c[k] == t[k]; }
      TextBound(c);
    }
  }

  /** One more digit on the right: ten times the value plus the digit. */
  lemma TextStep(s: string, i: nat, j: nat)
    requires i <= j < |s| && AllDigits(s[i..j]) && IsDigit(s[j])
    ensures AllDigits(s[i..j + 1]) && TextValue(s[i..j + 1]) == TextValue(s[i..j]) * 10 + DigitOf(s[j])
  {
    assert s[i..j + 1] == s[i..j] + [s[j]];
    assert s[i..j + 1][..j - i] == s[i..j];
  }

  /**
   * `parseInteger`: the digits from i are taken into a new number, ten times
   * the number so far plus the digit, until a non-digit or the end.
   */
  method ParseInteger(s: string, i: nat) returns (number: N, j: nat)
    requires i <= |s|
    ensures fresh(number) && number.Valid() && number.sign == 1
    ensures j == DigitRun(s, i) && number.Val() == TextValue(s[i..j])
  {
    number := new N();
    j := i;
    while j < |s| && IsDigit(s[j])
      invariant i <= j <= |s| && AllDigits(s[i..j])
      invariant fresh(number) && number.Valid() && number.sign == 1 && number.Val() == TextValue(s[i..j])
    {
      TextStep(s, i, j);
      number.DigitMultiply(10, DigitOf(s[j]));
      j := j + 1;
    }
    RunEnd(s, i, j);
  }

  /**
   * What `parseDecimal` makes of the text from i, just after the point: the
   * digits d1..dk give dk..d1/10^k; a final '[' c ']' makes the digits c
   * recur, giving (N_pc - N_p)/(10^|pc| - 10^|p|) where N_p is the value of
   * the digits before '[' and N_pc of all the digits.
   */
  function DecimalScan(s: string, i: nat): (r: Outcome<Remainder>)
    requires i <= |s|
    ensures r.Accepted? ==> 0 <= r.value.numerator <= r.value.denominator && 0 < r.value.denominator
  {
    var k := DigitRun(s, i);
    if k == |s| then
      TextBound(s[i..k]);
      PowPositive(10, k - i);
      Accepted(Remainder(TextValue(s[i..k]), Pow(10, k - i)))
    else if s[k] != '[' then Rejected(UnrecognisedAfterPoint)
    else
      var j := DigitRun(s, k + 1);
      if j == |s| then Rejected(IncompleteRecurring)
      else if s[j] != ']' then Rejected(UnrecognisedAfterPoint)
      else if j != |s| - 1 then Rejected(TrailingAfterRecurring)
      else if TextValue(s[i..k] + s[k + 1..j]) == 0 then Rejected(NoRecurringDigit)
      else if j == k + 1 then Rejected(EmptyRecurring)
      else
        RecurringBounds(s[i..k], s[k + 1..j]);
        Accepted(Remainder(TextValue(s[i..k] + s[k + 1..j]) - TextValue(s[i..k]), Pow(10, j - 1 - i) - Pow(10, k - i)))
  }

  /** With 0 <= np < a and 0 <= nc < b, 0 <= np*b + nc - np <= a*b - a, and a*b - a > 0 when b > 1. */
  lemma CycleBounds(np: int, nc: int, a: int, b: int)
    requires 0 <= np < a && 0 <= nc < b && 1 < b
    ensures 0 <= np * b + nc - np <= a * b - a && 0 < a * b - a
  {
    assert np * b + nc - np == np * (b - 1) + nc;
    assert a * b - a == a * (b - 1);
    MulMonotone(b - 1, np + 1, a);
    MulNonNeg(np, b - 1);
    MulMonotone(b - 1, 1, a);
  }

  /**
   * The recurring remainder of prefix p and cycle c is a proper (or unit)
   * fraction with a positive denominator.
   */
  lemma RecurringBounds(p: string, c: string)
    requires AllDigits(p) && AllDigits(c) && |c| > 0
    ensures AllDigits(p + c)
    ensures 0 <= TextValue(p + c) - TextValue(p) <= Pow(10, |p + c|) - Pow(10, |p|)
    ensures 0 < Pow(10, |p + c|) - Pow(10, |p|)
  {
    TextConcat(p, c);
    TextBound(p);
    TextBound(c);
    PowAdd(10, |p|, |c|);
    PowMonotone(10, 0, |c|);
    CycleBounds(TextValue(p), TextValue(c), Pow(10, |p|), Pow(10, |c|));
  }

  /** The parts of a remainder that came out of a scan: new, well-formed, positive, distinct. */
  ghost predicate Fresh2(numerator: N, denominator: N)
    reads numerator, denominator
  {
    numerator != denominator && numerator.Valid() && denominator.Valid() && numerator.sign == 1 && denominator.sign == 1
  }

  /**
   * The state of the `parseDecimal` loop at index j, in integers: the
   * remainder n/d holds the digits read since i; once the first '[' (at k)
   * has been read, pn/pd is the copy taken there.
   */
  ghost predicate DecimalState(s: string, i: nat, j: nat, recurring: bool, k: nat, n: int, d: int, pn: int, pd: int)
  {
    && i <= j <= |s|
    && (!recurring ==> AllDigits(s[i..j]) && n == TextValue(s[i..j]) && d == Pow(10, j - i))
    && (recurring ==>
          && i <= k < j && DigitRun(s, i) == k && s[k] == '[' && AllDigits(s[k + 1..j])
          && pn == TextValue(s[i..k]) && pd == Pow(10, k - i)
          && AllDigits(s[i..k] + s[k + 1..j]) && n == TextValue(s[i..k] + s[k + 1..j]) && d == Pow(10, j - 1 - i))
  }

  /** A digit: the denominator gains a factor ten and the numerator the digit. */
  lemma DecimalDigit(s: string, i: nat, j: nat, recurring: bool, k: nat, n: int, d: int, pn: int, pd: int)
    requires DecimalState(s, i, j, recurring, k, n, d, pn, pd) && j < |s| && IsDigit(s[j])
    ensures DecimalState(s, i, j + 1, recurring, k, n * 10 + DigitOf(s[j]), d * 10, pn, pd)
  {
    if recurring {
      assert s[k + 1..j + 1] == s[k + 1..j] + [s[j]];
      assert s[i..k] + s[k + 1..j + 1] == (s[i..k] + s[k + 1..j]) + [s[j]];
      ExtendText(s[i..k] + s[k + 1..j], s[j]);
      ExtendText(s[k + 1..j], s[j]);
    } else {
      TextStep(s, i, j);
    }
  }

  /** The first '[': the remainder so far is copied. */
  lemma DecimalOpen(s: string, i: nat, j: nat, recurring: bool, k: nat, n: int, d: int, pn: int, pd: int)
    requires DecimalState(s, i, j, recurring, k, n, d, pn, pd) && !recurring && j < |s| && s[j] == '['
    ensures DecimalState(s, i, j + 1, true, j, n, d, n, d)
  {
    RunEnd(s, i, j);
    assert s[i..j] + s[j + 1..j + 1] == s[i..j];
  }

  /**
   * The ']' of a recurring section: it must end the text, the digits must not
   * all be zero and the section must not be empty; then the copy is taken
   * from the remainder.
   */
  lemma DecimalClose(s: string, i: nat, j: nat, recurring: bool, k: nat, n: int, d: int, pn: int, pd: int)
    requires DecimalState(s, i, j, recurring, k, n, d, pn, pd) && recurring && j < |s| && s[j] == ']'
    ensures DecimalScan(s, i) == (if j != |s| - 1 then Rejected(TrailingAfterRecurring)
                                  else if n == 0 then Rejected(NoRecurringDigit)
                                  else if s[j - 1] == '[' then Rejected(EmptyRecurring)
                                  else Accepted(Remainder(n - pn, d - pd)))
    ensures s[j - 1] != '[' ==> pn <= n && pd <= d
  {
    RunEnd(s, k + 1, j);
    assert s[j - 1] == '[' <==> j - 1 == k by {
      if j - 1 > k { assert s[k + 1..j][j - 1 - (k + 1)] == s[j - 1]; }
    }
    if s[j - 1] != '[' {
      DecimalCloseBounds(s, i, k, j);
    }
  }

  /** The remainder of a closed recurring section, from a copy taken at the '[' at k. */
  lemma DecimalCloseBounds(s: string, i: nat, k: nat, j: nat)
    requires i <= k < j - 1 && j <= |s| && AllDigits(s[i..k]) && AllDigits(s[k + 1..j])
    ensures TextValue(s[i..k]) <= TextValue(s[i..k] + s[k + 1..j]) && Pow(10, k - i) <= Pow(10, j - 1 - i)
  {
    RecurringBounds(s[i..k], s[k + 1..j]);
    assert |s[i..k] + s[k + 1..j]| == j - 1 - i;
  }

  /** Any other character after the point is refused. */
  lemma DecimalOther(s: string, i: nat, j: nat, recurring: bool, k: nat, n: int, d: int, pn: int, pd: int)
    requires DecimalState(s, i, j, recurring, k, n, d, pn, pd) && j < |s| && !IsDigit(s[j])
    requires !(s[j] == '[' && !recurring) && !(recurring && s[j] == ']')
    ensures DecimalScan(s, i) == Rejected(UnrecognisedAfterPoint)
  {
    if recurring {
      RunEnd(s, k + 1, j);
    } else {
      RunEnd(s, i, j);
    }
  }

  /** The end of the text: an open '[' is refused, otherwise the remainder stands. */
  lemma DecimalEnd(s: string, i: nat, j: nat, recurring: bool, k: nat, n: int, d: int, pn: int, pd: int)
    requires DecimalState(s, i, j, recurring, k, n, d, pn, pd) && j == |s|
    ensures DecimalScan(s, i) == if recurring then Rejected(IncompleteRecurring) else Accepted(Remainder(n, d))
  {
    if recurring {
      RunEnd(s, k + 1, |s|);
    } else {
      RunEnd(s, i, |s|);
    }
  }

  /**
   * `parseDecimal`: the text after the point is read a character at a time
   * into a remainder that starts at 0/1; each digit multiplies the
   * denominator by ten and appends itself to the numerator; the first '['
   * takes a copy of the remainder so far; its ']' must end the text, and then
   * the copy is taken from the remainder.
   */
  method ParseDecimal(s: string, i: nat) returns (error: Option<ParseError>, numerator: N, denominator: N)
    requires i <= |s|
    ensures fresh(numerator) && fresh(denominator) && Fresh2(numerator, denominator)
    ensures DecimalScan(s, i) == Settle(error, numerator.Val(), denominator.Val())
  {
    numerator := new N();
    denominator := new N();
    denominator.Set(1);
    error := ScanDecimal(s, i, numerator, denominator);
  }

  /** The loop of `parseDecimal` from index j on, as a function of its state. */
  function DecimalFrom(s: string, j: nat, recurring: bool, n: int, d: int, pn: int, pd: int): Outcome<Remainder>
    requires j <= |s|
    decreases |s| - j
  {
    if j == |s| then
      if recurring then Rejected(IncompleteRecurring) else Accepted(Remainder(n, d))
    else if s[j] == '[' && !recurring then DecimalFrom(s, j + 1, true, n, d, n, d)
    else if recurring && s[j] == ']' then
      if j != |s| - 1 then Rejected(TrailingAfterRecurring)
      else if n == 0 then Rejected(NoRecurringDigit)
      else if j > 0 && s[j - 1] == '[' then Rejected(EmptyRecurring)
      else Accepted(Remainder(n - pn, d - pd))
    else if IsDigit(s[j]) then DecimalFrom(s, j + 1, recurring, n * 10 + DigitOf(s[j]), d * 10, pn, pd)
    else Rejected(UnrecognisedAfterPoint)
  }

  /** From any state the loop can reach, running it on gives the outcome `DecimalScan` states. */
  lemma {:induction false} DecimalLoop(s: string, i: nat, j: nat, recurring: bool, k: nat, n: int, d: int, pn: int, pd: int)
    requires DecimalState(s, i, j, recurring, k, n, d, pn, pd)
    ensures DecimalFrom(s, j, recurring, n, d, pn, pd) == DecimalScan(s, i)
    decreases |s| - j
  {
    if j == |s| {
      DecimalEnd(s, i, j, recurring, k, n, d, pn, pd);
    } else if s[j] == '[' && !recurring {
      DecimalOpen(s, i, j, recurring, k, n, d, pn, pd);
      DecimalLoop(s, i, j + 1, true, j, n, d, n, d);
    } else if recurring && s[j] == ']' {
      DecimalClose(s, i, j, recurring, k, n, d, pn, pd);
    } else if IsDigit(s[j]) {
      var n', d' := n * 10 + DigitOf(s[j]), d * 10;
      DecimalDigit(s, i, j, recurring, k, n, d, pn, pd);
      DecimalLoop(s, i, j + 1, recurring, k, n', d', pn, pd);
    } else {
      DecimalOther(s, i, j, recurring, k, n, d, pn, pd);
    }
  }

  /** The loop of `parseDecimal`, on a remainder that starts at 0/1. */
  method ScanDecimal(s: string, i: nat, numerator: N, denominator: N) returns (error: Option<ParseError>)
    requires i <= |s| && Fresh2(numerator, denominator) && numerator.Val() == 0 && denominator.Val() == 1
    modifies numerator, denominator
    ensures Fresh2(numerator, denominator)
    ensures DecimalScan(s, i) == Settle(error, numerator.Val(), denominator.Val())
  {
    DecimalStart(s, i);
    ghost var outcome := DecimalScan(s, i);
    var rn := new N();
    var rd := new N();
    var recurring := false;
    ghost var n, d, pn, pd := 0, 1, 0, 0;
    var j := i;
    while j < |s|
      invariant i <= j <= |s| && rn != rd && Fresh2(numerator, denominator) && Fresh2(rn, rd)
      invariant rn != numerator && rn != denominator && rd != numerator && rd != denominator
      invariant numerator.Val() == n && denominator.Val() == d && rn.Val() == pn && rd.Val() == pd
      invariant recurring ==> i < j
      invariant DecimalFrom(s, j, recurring, n, d, pn, pd) == outcome
    {
      DecimalFromStep(s, j, recurring, n, d, pn, pd);
      if s[j] == '[' && !recurring {
        rn, rd := OpenRecurring(numerator, denominator);
        recurring, pn, pd := true, n, d;
      } else if recurring && s[j] == ']' {
        error := CloseRecurring(s, j, numerator, denominator, rn, rd);
        return;
      } else if IsDigit(s[j]) {
        var digit := DigitOf(s[j]);
        AppendDigit(numerator, denominator, digit);
        n, d := n * 10 + digit, d * 10;
      } else {
        return Some(UnrecognisedAfterPoint);
      }
      j := j + 1;
    }
    if recurring {
      return Some(IncompleteRecurring);
    }
    return None;
  }

  /** One character of the loop of `parseDecimal`, read off `DecimalFrom`. */
  lemma DecimalFromStep(s: string, j: nat, recurring: bool, n: int, d: int, pn: int, pd: int)
    requires j < |s| && (recurring ==> 0 < j)
    ensures s[j] == '[' && !recurring ==> DecimalFrom(s, j, recurring, n, d, pn, pd) == DecimalFrom(s, j + 1, true, n, d, n, d)
    ensures recurring && s[j] == ']' ==>
      (DecimalFrom(s, j, recurring, n, d, pn, pd)
         == if j != |s| - 1 then Rejected(TrailingAfterRecurring)
            else if n == 0 then Rejected(NoRecurringDigit)
            else if s[j - 1] == '[' then Rejected(EmptyRecurring)
            else Accepted(Remainder(n - pn, d - pd)))
    ensures !(s[j] == '[' && !recurring) && !(recurring && s[j] == ']') && IsDigit(s[j]) ==>
      DecimalFrom(s, j, recurring, n, d, pn, pd) == DecimalFrom(s, j + 1, recurring, n * 10 + DigitOf(s[j]), d * 10, pn, pd)
    ensures !(s[j] == '[' && !recurring) && !(recurring && s[j] == ']') && !IsDigit(s[j]) ==>
      DecimalFrom(s, j, recurring, n, d, pn, pd) == Rejected(UnrecognisedAfterPoint)
  {
  }

  /** The loop of `parseDecimal` starts with no digits read and the remainder 0/1. */
  lemma DecimalStart(s: string, i: nat)
    requires i <= |s|
    ensures DecimalFrom(s, i, false, 0, 1, 0, 0) == DecimalScan(s, i)
  {
    assert s[i..i] == [];
    DecimalLoop(s, i, i, false, i, 0, 1, 0, 0);
  }

  /** The first '[' branch of `parseDecimal`: the remainder so far is copied. */
  method OpenRecurring(numerator: N, denominator: N) returns (rn: N, rd: N)
    requires Fresh2(numerator, denominator)
    ensures fresh(rn) && fresh(rd) && Fresh2(rn, rd)
    ensures rn.Val() == numerator.Val() && rd.Val() == denominator.Val()
  {
    rn := numerator.Copy();
    rd := denominator.Copy();
  }

  /** The ']' branch of `parseDecimal`: the three checks, then the copy is subtracted. */
  method CloseRecurring(s: string, j: nat, numerator: N, denominator: N, rn: N, rd: N) returns (error: Option<ParseError>)
    requires 0 < j < |s| && Fresh2(numerator, denominator) && Fresh2(rn, rd) && {numerator, denominator} !! {rn, rd}
    requires j == |s| - 1 && numerator.Val() != 0 && s[j - 1] != '[' ==> rn.Val() <= numerator.Val() && rd.Val() <= denominator.Val()
    modifies numerator, denominator
    ensures Fresh2(numerator, denominator)
    ensures error == (if j != |s| - 1 then Some(TrailingAfterRecurring)
                      else if old(numerator.Val()) == 0 then Some(NoRecurringDigit)
                      else if s[j - 1] == '[' then Some(EmptyRecurring)
                      else None)
    ensures error.None? ==> numerator.Val() == old(numerator.Val()) - rn.Val() && denominator.Val() == old(denominator.Val()) - rd.Val()
  {
    if j != |s| - 1 {
      return Some(TrailingAfterRecurring);
    }
    var z := numerator.IsZero();
    if z {
      return Some(NoRecurringDigit);
    }
    if s[j - 1] == '[' {
      return Some(EmptyRecurring);
    }
    numerator.Subtract(rn);
    denominator.Subtract(rd);
    return None;
  }

  /** A digit after the point: denominator * 10, numerator * 10 + digit. */
  method AppendDigit(numerator: N, denominator: N, digit: int)
    requires Fresh2(numerator, denominator) && 0 <= digit < 10
    modifies numerator, denominator
    ensures Fresh2(numerator, denominator)
    ensures numerator.Val() == old(numerator.Val()) * 10 + digit && denominator.Val() == old(denominator.Val()) * 10
  {
    denominator.DigitMultiply(10, 0);
    numerator.DigitMultiply(10, digit);
  }

  /** The outcome a method reports as an optional error beside a remainder. */
  function Settle(error: Option<ParseError>, n: int, d: int): Outcome<Remainder>
  {
    if error.Some? then Rejected(error.value) else Accepted(Remainder(n, d))
  }

  /** A digit appended to a run. */
  lemma ExtendText(t: string, c: char)
    requires AllDigits(t) && IsDigit(c)
    ensures AllDigits(t + [c]) && TextValue(t + [c]) == TextValue(t) * 10 + DigitOf(c)
  {
    assert (t + [c])[..|t|] == t;
  }

  /**
   * What `parseFraction` makes of the text after the space of a mixed number:
   * a positive numerator, '/', and a positive denominator that ends the text.
   */
  function FractionScan(s: string, i: nat): (r: Outcome<Remainder>)
    requires i <= |s|
    ensures r.Accepted? ==> 0 < r.value.numerator && 0 < r.value.denominator
  {
    var j := DigitRun(s, i);
    if j == |s| || s[j] != '/' || TextValue(s[i..j]) == 0 then Rejected(NumeratorNotPositive)
    else
      var k := DigitRun(s, j + 1);
      if k != |s| || TextValue(s[j + 1..k]) == 0 then Rejected(MixedDenominatorNotPositive)
      else Accepted(Remainder(TextValue(s[i..j]), TextValue(s[j + 1..k])))
  }

  /** `parseFraction`: two calls of `parseInteger` around the '/', each result checked. */
  method ParseFraction(s: string, i: nat) returns (error: Option<ParseError>, numerator: N, denominator: N)
    requires i <= |s|
    ensures fresh(numerator) && fresh(denominator) && Fresh2(numerator, denominator)
    ensures FractionScan(s, i) == Settle(error, numerator.Val(), denominator.Val())
  {
    var j, k;
    numerator, j := ParseInteger(s, i);
    var z := numerator.IsZero();
    if j == |s| || s[j] != '/' || z {
      denominator := new N();
      return Some(NumeratorNotPositive), numerator, denominator;
    }
    denominator, k := ParseInteger(s, j + 1);
    z := denominator.IsZero();
    if k != |s| || z {
      return Some(MixedDenominatorNotPositive), numerator, denominator;
    }
    return None, numerator, denominator;
  }

  /**
   * The constructor's own `normaliseRemainder`: the numerator is divided by
   * the denominator in place, so that the number that held the numerator now
   * holds the quotient, and a new number holds what remains.
   */
  method SplitRemainder(numerator: N, denominator: N) returns (rest: N)
    requires numerator != denominator && numerator.Valid() && denominator.Valid() && 0 < denominator.Val()
    modifies numerator
    ensures fresh(rest) && rest.Valid() && numerator.Valid() && denominator.Val() == old(denominator.Val())
    ensures old(numerator.Val()) == numerator.Val() * denominator.Val() + rest.Val() && 0 <= rest.Val() < denominator.Val()
  {
    var r := numerator.Divide(denominator);
    rest := r.value;
    NonNegative(rest);
  }

  /** A parsed value at rest: what `Tpa.Valid` asks of the fields, and zero is positive. */
  predicate ProperReading(r: Reading)
  {
    && (r.sign == 1 || r.sign == -1) && 0 <= r.whole
    && (r.integer ==> r.numerator == 0 && r.denominator == 1)
    && (!r.integer ==> 0 <= r.numerator < r.denominator)
    && (r.whole == 0 && r.numerator == 0 ==> r.sign == 1)
  }

  /** The rational a reading denotes. */
  ghost function ReadingValue(r: Reading): real
    requires r.denominator > 0
  {
    Signed(r.sign, r.whole as real + (if r.integer then 0.0 else Ratio(r.numerator, r.denominator)))
  }

  /** The fields as the constructor leaves them: a negative text sign is dropped when the value is zero. */
  function Settled(negative: bool, integer: bool, whole: int, n: int, d: int): Reading
  {
    Reading(if negative && whole == 0 && (integer || n == 0) then 1 else if negative then -1 else 1, integer, whole, n, d)
  }

  /**
   * The '.' branch in fractional mode: the decimal remainder, normalised as
   * the other branches normalise theirs, so that a remainder of 9/9 from
   * '0.[9]' carries into the integer part.
   */
  function PointReading(negative: bool, m: int, f: Remainder): (r: Reading)
    requires 0 <= m && 0 <= f.numerator <= f.denominator && 0 < f.denominator
    ensures ProperReading(r) && !r.integer && r.denominator == f.denominator
    ensures r.whole == m + f.numerator / f.denominator && r.numerator == f.numerator % f.denominator
    ensures r.whole as real + Ratio(r.numerator, r.denominator) == m as real + Ratio(f.numerator, f.denominator)
  {
    RatioSplit(f.numerator / f.denominator, f.numerator % f.denominator, f.denominator);
    Settled(negative, false, m + f.numerator / f.denominator, f.numerator % f.denominator, f.denominator)
  }

  /**
   * The ' ' branch: the fraction f is normalised and its quotient added to
   * the integer part m; in integer mode what remains is dropped.
   */
  function MixedReading(negative: bool, integer: bool, m: int, f: Remainder): (r: Reading)
    requires 0 <= m && 0 < f.numerator && 0 < f.denominator
    ensures ProperReading(r) && r.integer == integer && r.whole == m + f.numerator / f.denominator
    ensures !integer ==> r.numerator == f.numerator % f.denominator && r.denominator == f.denominator
    ensures !integer ==> r.whole as real + Ratio(r.numerator, r.denominator) == m as real + Ratio(f.numerator, f.denominator)
  {
    RatioSplit(f.numerator / f.denominator, f.numerator % f.denominator, f.denominator);
    Settled(negative, integer, m + f.numerator / f.denominator,
            if integer then 0 else f.numerator % f.denominator, if integer then 1 else f.denominator)
  }

  /**
   * The '/' branch: the integer part m is the numerator over d, normalised;
   * in integer mode only the quotient is kept.
   */
  function FractionReading(negative: bool, integer: bool, m: int, d: int): (r: Reading)
    requires 0 < m && 0 < d
    ensures ProperReading(r) && r.integer == integer && r.whole == m / d
    ensures !integer ==> r.numerator == m % d && r.denominator == d
    ensures !integer ==> r.whole as real + Ratio(r.numerator, r.denominator) == Ratio(m, d)
  {
    RatioSplit(m / d, m % d, d);
    Settled(negative, integer, m / d, if integer then 0 else m % d, if integer then 1 else d)
  }

  /**
   * What `new Tpa(s, integer)` does with a string, `integer` being the
   * optional mode argument: the error it throws, or its sign, mode, integer
   * part and remainder.  Without the argument the mode is integer unless the
   * text goes on past the integer part.
   */
  function Scan(s: string, integer: Option<bool>): (r: Outcome<Reading>)
    ensures r.Accepted? ==> ProperReading(r.value)
  {
    var negative := |s| > 0 && s[0] == '-';
    var i := if |s| > 0 && (s[0] == '-' || s[0] == '+') then 1 else 0;
    var j := DigitRun(s, i);
    var m := TextValue(s[i..j]);
    if j == |s| then Accepted(Settled(negative, if integer.Some? then integer.value else true, m, 0, 1))
    else TailScan(s, j, integer, negative, m)
  }

  /**
   * The branch the character after the integer part m chooses.  Each of
   * '.', ' ' and '/' makes the value fractional unless the mode was given.
   */
  function TailScan(s: string, j: nat, integer: Option<bool>, negative: bool, m: int): (r: Outcome<Reading>)
    requires j < |s| && 0 <= m
    ensures r.Accepted? ==> ProperReading(r.value)
  {
    var marked := if integer.Some? then integer.value else false;
    if s[j] == '.' then
      if marked then Accepted(Settled(negative, true, m, 0, 1))
      else
        match DecimalScan(s, j + 1)
        case Rejected(e) => Rejected(e)
        case Accepted(f) => Accepted(PointReading(negative, m, f))
    else if s[j] == ' ' then
      match FractionScan(s, j + 1)
      case Rejected(e) => Rejected(e)
      case Accepted(f) => Accepted(MixedReading(negative, marked, m, f))
    else if s[j] == '/' then
      if m == 0 then Rejected(MissingNumerator)
      else
        var k := DigitRun(s, j + 1);
        var d := TextValue(s[j + 1..k]);
        if k != |s| || d == 0 then Rejected(DenominatorNotPositive)
        else Accepted(FractionReading(negative, marked, m, d))
    else Rejected(UnrecognisedCharacter)
  }

  /** The fields of t are those of the reading r. */
  ghost predicate Holds(t: Tpa, r: Reading)
    reads t, t.number, t.numerator, t.denominator
  {
    && t.sign == r.sign && t.integer == r.integer && t.number.Val() == r.whole
    && t.numerator.Val() == r.numerator && t.denominator.Val() == r.denominator
  }

  /** A value whose fields are a proper reading's denotes that reading's value. */
  lemma HoldsValue(t: Tpa, r: Reading)
    requires t.Valid() && ProperReading(r) && Holds(t, r)
    ensures t.Value() == ReadingValue(r)
  {
  }

  /**
   * The '.' branch in fractional mode: `parseDecimal`, then the remainder is
   * normalised into the integer part.
   */
  method ReadPoint(s: string, j: nat, number: N) returns (error: Option<ParseError>, numerator: N, denominator: N)
    requires j <= |s| && number.Valid()
    modifies number
    ensures fresh(numerator) && fresh(denominator) && number.Valid() && number.sign == old(number.sign)
    ensures numerator.Valid() && denominator.Valid() && denominator.sign == 1
    ensures error.Some? <==> DecimalScan(s, j).Rejected?
    ensures error.Some? ==> DecimalScan(s, j).error == error.value
    ensures error.None? ==> (var f := DecimalScan(s, j).value;
      && number.Val() == old(number.Val()) + f.numerator / f.denominator
      && numerator.Val() == f.numerator % f.denominator && denominator.Val() == f.denominator)
  {
    var n;
    error, n, denominator := ParseDecimal(s, j);
    if error.Some? {
      return error, n, denominator;
    }
    ghost var f := DecimalScan(s, j).value;
    numerator := SplitRemainder(n, denominator);
    DivModUnique(f.numerator, f.denominator, n.Val(), numerator.Val());
    number.Add(n);
  }

  /**
   * The ' ' branch: `parseFraction`, whose remainder is normalised and its
   * quotient added to the integer part.
   */
  method ReadMixed(s: string, j: nat, number: N, sign: int) returns (error: Option<ParseError>, numerator: N, denominator: N)
    requires j <= |s| && number.Valid() && (sign == 1 || sign == -1)
    modifies number
    ensures fresh(numerator) && fresh(denominator) && number.Valid() && number.sign == old(number.sign)
    ensures numerator.Valid() && denominator.Valid() && denominator.sign == 1
    ensures error.Some? <==> FractionScan(s, j).Rejected?
    ensures error.Some? ==> FractionScan(s, j).error == error.value
    ensures error.None? ==> (var f := FractionScan(s, j).value;
      && number.Val() == old(number.Val()) + f.numerator / f.denominator
      && numerator.Val() == f.numerator % f.denominator && denominator.Val() == f.denominator)
  {
    var n;
    error, n, denominator := ParseFraction(s, j);
    if error.Some? {
      return error, n, denominator;
    }
    ghost var f := FractionScan(s, j).value;
    numerator := SplitRemainder(n, denominator);
    DivModUnique(f.numerator, f.denominator, n.Val(), numerator.Val());
    n.SetSign(sign);
    number.Add(n);
  }

  /**
   * The '/' branch after its numerator check: the denominator by
   * `parseInteger`, which must end the text and be positive; then the
   * integer part is divided by it in place.
   */
  method ReadFraction(s: string, j: nat, number: N) returns (error: Option<ParseError>, numerator: N, denominator: N)
    requires j <= |s| && number.Valid() && number.Val() > 0
    modifies number
    ensures fresh(numerator) && fresh(denominator) && number.Valid()
    ensures numerator.Valid() && denominator.Valid() && denominator.sign == 1
    ensures var k := DigitRun(s, j); var d := TextValue(s[j..k]);
      && (error.Some? <==> k != |s| || d == 0)
      && (error.Some? ==> error.value == DenominatorNotPositive)
      && (error.None? ==> number.Val() == old(number.Val()) / d && numerator.Val() == old(number.Val()) % d && denominator.Val() == d)
  {
    var k;
    denominator, k := ParseInteger(s, j);
    var z := denominator.IsZero();
    if k != |s| || z {
      numerator := new N();
      return Some(DenominatorNotPositive), numerator, denominator;
    }
    ghost var m := number.Val();
    numerator := SplitRemainder(number, denominator);
    DivModUnique(m, denominator.Val(), number.Val(), numerator.Val());
    error := None;
  }

  /** The error, or the reading made of the fields the constructor has filled in. */
  function Finish(error: Option<ParseError>, negative: bool, integer: bool, whole: int, n: int, d: int): Outcome<Reading>
  {
    if error.Some? then Rejected(error.value) else Accepted(Settled(negative, integer, whole, n, d))
  }

  /**
   * The branch of the constructor that the character at j chooses, on the
   * integer part read so far; it returns the mode and the remainder.
   */
  method ReadTail(s: string, j: nat, integer: Option<bool>, number: N, sign: int)
    returns (error: Option<ParseError>, mode: bool, numerator: N, denominator: N)
    requires j < |s| && number.Valid() && 0 <= number.Val() && number.sign == 1 && (sign == 1 || sign == -1)
    modifies number
    ensures fresh(numerator) && fresh(denominator) && number.Valid()
    ensures numerator.Valid() && denominator.Valid() && denominator.sign == 1
    ensures TailScan(s, j, integer, sign < 0, old(number.Val()))
         == Finish(error, sign < 0, mode, number.Val(), numerator.Val(), denominator.Val())
  {
    if s[j] == '.' {
      error, mode, numerator, denominator := PointTail(s, j, integer, number, sign);
    } else if s[j] == ' ' {
      error, mode, numerator, denominator := MixedTail(s, j, integer, number, sign);
    } else if s[j] == '/' {
      error, mode, numerator, denominator := FractionTail(s, j, integer, number, sign);
    } else {
      mode := if integer.Some? then integer.value else true;
      numerator := new N();
      denominator := new N();
      denominator.Set(1);
      error := Some(UnrecognisedCharacter);
    }
  }

  /** The '.' branch: a decimal fraction unless integer mode was asked for. */
  method PointTail(s: string, j: nat, integer: Option<bool>, number: N, sign: int)
    returns (error: Option<ParseError>, mode: bool, numerator: N, denominator: N)
    requires j < |s| && s[j] == '.'
    requires number.Valid() && 0 <= number.Val() && number.sign == 1 && (sign == 1 || sign == -1)
    modifies number
    ensures fresh(numerator) && fresh(denominator) && number.Valid()
    ensures numerator.Valid() && denominator.Valid() && denominator.sign == 1
    ensures TailScan(s, j, integer, sign < 0, old(number.Val()))
         == Finish(error, sign < 0, mode, number.Val(), numerator.Val(), denominator.Val())
  {
    mode := if integer.Some? then integer.value else false;
    if mode {
      numerator := new N();
      denominator := new N();
      denominator.Set(1);
      error := None;
    } else {
      error, numerator, denominator := ReadPoint(s, j + 1, number);
    }
  }

  /** The ' ' branch: a mixed fraction, whose remainder integer mode drops. */
  method MixedTail(s: string, j: nat, integer: Option<bool>, number: N, sign: int)
    returns (error: Option<ParseError>, mode: bool, numerator: N, denominator: N)
    requires j < |s| && s[j] == ' '
    requires number.Valid() && 0 <= number.Val() && number.sign == 1 && (sign == 1 || sign == -1)
    modifies number
    ensures fresh(numerator) && fresh(denominator) && number.Valid()
    ensures numerator.Valid() && denominator.Valid() && denominator.sign == 1
    ensures TailScan(s, j, integer, sign < 0, old(number.Val()))
         == Finish(error, sign < 0, mode, number.Val(), numerator.Val(), denominator.Val())
  {
    mode := if integer.Some? then integer.value else false;
    error, numerator, denominator := ReadMixed(s, j + 1, number, sign);
    if mode {
      numerator := new N();
      denominator := new N();
      denominator.Set(1);
    }
  }

  /** The '/' branch: a simple fraction, whose numerator must be positive. */
  method FractionTail(s: string, j: nat, integer: Option<bool>, number: N, sign: int)
    returns (error: Option<ParseError>, mode: bool, numerator: N, denominator: N)
    requires j < |s| && s[j] == '/'
    requires number.Valid() && 0 <= number.Val() && number.sign == 1 && (sign == 1 || sign == -1)
    modifies number
    ensures fresh(numerator) && fresh(denominator) && number.Valid()
    ensures numerator.Valid() && denominator.Valid() && denominator.sign == 1
    ensures TailScan(s, j, integer, sign < 0, old(number.Val()))
         == Finish(error, sign < 0, mode, number.Val(), numerator.Val(), denominator.Val())
  {
    mode := if integer.Some? then integer.value else false;
    var z := number.IsZero();
    if z {
      numerator := new N();
      denominator := new N();
      return Some(MissingNumerator), mode, numerator, denominator;
    }
    NonNegative(number);
    error, numerator, denominator := ReadFraction(s, j + 1, number);
    if mode {
      numerator := new N();
      denominator := new N();
      denominator.Set(1);
    }
  }

  /**
   * The fields are stored, and the sign of a zero value made positive (the
   * constructor's last step).
   */
  ghost predicate Ready(sign: int, mode: bool, number: N, numerator: N, denominator: N)
    reads number, numerator, denominator
  {
    && number.Valid() && numerator.Valid() && denominator.Valid() && (sign == 1 || sign == -1)
    && number != numerator && number != denominator && numerator != denominator
    && denominator.sign == 1 && 0 <= numerator.Val() < denominator.Val()
    && (mode ==> numerator.Val() == 0 && denominator.Val() == 1)
  }

  // `Ready(...) == true` and `Valid() == true` keep each predicate one fact for
  // the verifier instead of one proof obligation per conjunct.
  method Assemble(sign: int, mode: bool, number: N, numerator: N, denominator: N) returns (t: Tpa)
    requires Ready(sign, mode, number, numerator, denominator) == true
    ensures fresh(t) && t.number == number && t.numerator == numerator && t.denominator == denominator && t.Valid() == true
    ensures Holds(t, Settled(sign < 0, mode, number.Val(), numerator.Val(), denominator.Val()))
  {
    t := new Tpa(mode);
    t.sign, t.number, t.numerator, t.denominator := sign, number, numerator, denominator;
    var zero := t.IsZero();
    t.Split();
    NonNegative(number);
    if zero {
      t.sign := 1;
    }
  }

  /**
   * `new Tpa(s, integer)` for a string s: the sign, the integer part by
   * `parseInteger`, and the branch its next character chooses; at the end a
   * zero value is made positive.
   */
  method Parse(s: string, integer: Option<bool>) returns (r: Outcome<Tpa>)
    ensures r.Rejected? ==> Scan(s, integer) == Rejected(r.error)
    ensures r.Accepted? ==> (Scan(s, integer).Accepted? && fresh(r.value)
      && fresh(r.value.number) && fresh(r.value.numerator) && fresh(r.value.denominator)
      && r.value.Valid() == true && Holds(r.value, Scan(s, integer).value))
  {
    var sign := if |s| > 0 && s[0] == '-' then -1 else 1;
    var i := if |s| > 0 && (s[0] == '-' || s[0] == '+') then 1 else 0;
    var number, j := ParseInteger(s, i);
    ghost var m := number.Val();
    var mode := if integer.Some? then integer.value else true;
    var numerator := new N();
    var denominator := new N();
    denominator.Set(1);
    ghost var scan: Outcome<Reading>;
    NonNegative(number);
    if j < |s| {
      scan := TailScan(s, j, integer, sign < 0, m);
      assert Scan(s, integer) == scan;
      var error;
      error, mode, numerator, denominator := ReadTail(s, j, integer, number, sign);
      if error.Some? {
        return Rejected(error.value);
      }
    } else {
      scan := Accepted(Settled(sign < 0, mode, m, 0, 1));
      assert Scan(s, integer) == scan;
    }
    assert fresh(number) && fresh(numerator) && fresh(denominator);
    var t := Assemble(sign, mode, number, numerator, denominator);
    assert Holds(t, scan.value);
    return Accepted(t);
  }
}
