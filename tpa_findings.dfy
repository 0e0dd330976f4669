/**
 * The places where `Tpa.N` in lib/tpa.js does not do what it evidently
 * intends, each modelled as written over the longs of a number, with an
 * input that shows the discrepancy.  The corrected behaviour is what module
 * TpaKernel models and proves.
 */
module TpaKernelFindings {
  import opened Arith
  import opened Digits
  import opened Words
  import opened TpaLoops

  /**
   * The borrow loop of `subtract` as written: it runs only while i is below
   * the subtrahend's longcount, so it stops at the subtrahend's last long
   * whatever borrow is left.  Returns the longs and the borrow left over;
   * the difference is exact only when that borrow is 0.
   */
  function SubtractAsWritten(xs: seq<int>, ys: seq<int>, carry: int): (r: (seq<int>, int))
    requires |ys| <= |xs|
    ensures |r.0| == |xs|
    ensures Value(r.0, FULL) == Value(xs, FULL) - Value(ys, FULL) - carry + r.1 * Pow(FULL, |ys|)
    decreases ys
  {
    if ys == [] then (xs, carry)
    else
      var d := BorrowDigit(xs[0] - ys[0] - carry);
      var rest := SubtractAsWritten(xs[1..], ys[1..], d.1);
      SubtractStep(xs, ys, carry, d.0, d.1, rest.0, rest.1);
      ([d.0] + rest.0, rest.1)
  }

  lemma SubtractStep(xs: seq<int>, ys: seq<int>, carry: int, x: int, c: int, rest: seq<int>, out: int)
    requires xs != [] && ys != [] && x - FULL * c == xs[0] - ys[0] - carry
    requires Value(rest, FULL) == Value(xs[1..], FULL) - Value(ys[1..], FULL) - c + out * Pow(FULL, |ys| - 1)
    ensures Value([x] + rest, FULL) == Value(xs, FULL) - Value(ys, FULL) - carry + out * Pow(FULL, |ys|)
  {
    ValueCons(x, rest, FULL);
    assert Value(xs, FULL) == xs[0] + FULL * Value(xs[1..], FULL);
    assert Value(ys, FULL) == ys[0] + FULL * Value(ys[1..], FULL);
    assert Pow(FULL, |ys|) == FULL * Pow(FULL, |ys| - 1);
    BorrowArith(x, c, Value(xs[1..], FULL), Value(ys[1..], FULL), out, Pow(FULL, |ys| - 1));
  }

  lemma BorrowArith(x: int, c: int, a: int, b: int, out: int, p: int)
    ensures x + FULL * (a - b - c + out * p) == x - FULL * c + FULL * a - FULL * b + out * (FULL * p)
  {
    MulDistrib(FULL, a - b - c, out * p);
    MulAssoc(FULL, out, p);
  }

  /**
   * 2^32 - 1 = [0, 1] - [1]: the borrow out of long 0 is dropped, long 1
   * keeps its 1, and since the loop stopped below this number's longcount
   * the check for a left-over borrow does not fire.  The result denotes
   * 2^33 - 1.
   */
  lemma SubtractDropsBorrow()
    ensures SubtractAsWritten([0, 1], [1], 0) == ([FULL - 1, 1], 1)
    ensures Value([FULL - 1, 1], FULL) != Value([0, 1], FULL) - Value([1], FULL)
  {
    assert [0, 1][1..] == [1];
    assert [1][1..] == [];
    assert SubtractAsWritten([1], [], 1) == ([1], 1);
    assert [FULL - 1] + [1] == [FULL - 1, 1];
    assert Value([1], FULL) == 1;
    assert Value([0, 1], FULL) == FULL by { assert [0, 1][1..] == [1]; }
    assert Value([FULL - 1, 1], FULL) == 2 * FULL - 1 by { assert [FULL - 1, 1][1..] == [1]; }
  }

  /**
   * One row of `accumulate` as written, over the longs ls of this number:
   * x times the digits hs is added in from long i with a running carry, and
   * the carry left at the end is added into the next long by a 32-bit
   * store, which drops any carry out of that long.
   */
  function RowAsWritten(ls: seq<int>, i: nat, x: int, hs: seq<int>, j: nat, digit: int): (r: seq<int>)
    requires j <= |hs|
    ensures |r| >= |ls|
    decreases |hs| - j
  {
    if j < |hs| then
      var t := digit + x * hs[j] + At(ls, i + j);
      RowAsWritten(Put(ls, i + j, t % FULL), i, x, hs, j + 1, t / FULL)
    else if digit != 0 then Put(ls, i + j, (At(ls, i + j) + digit) % FULL)
    else ls
  }

  /** `accumulate` as written, over the longs: one row per long of xs from row i on. */
  function AccumulateAsWritten(ls: seq<int>, xs: seq<int>, hs: seq<int>, i: nat): (r: seq<int>)
    requires i <= |xs|
    ensures |r| >= |ls|
    decreases |xs| - i
  {
    if i < |xs| then AccumulateAsWritten(RowAsWritten(ls, i, xs[i], hs, 0, 0), xs, hs, i + 1) else ls
  }

  /**
   * (2^48 - 1) * 65537: `multiply` splits 65537 into its high shorts [1]
   * and low shorts [1]; after the first `accumulate` and `digitmultiply`
   * this number holds (2^48 - 1) * 2^16, longs [0xFFFF0000, 0xFFFFFFFF].
   * The second `accumulate` adds (2^48 - 1) * 1: row 0 ends with a carry of
   * 1 that turns long 1 from 0xFFFFFFFF into 0 and is lost, so the product
   * comes out 2^64 too small.
   */
  lemma AccumulateLosesCarry()
    ensures AccumulateAsWritten([0xFFFF0000, 0xFFFFFFFF], [0xFFFFFFFF, 0xFFFF], [1], 0) == [0xFFFEFFFF, 0xFFFF]
    ensures Value([0xFFFEFFFF, 0xFFFF], FULL)
      != Value([0xFFFF0000, 0xFFFFFFFF], FULL) + Value([0xFFFFFFFF, 0xFFFF], FULL) * Value([1], FULL)
  {
    var row0 := RowAsWritten([0xFFFF0000, 0xFFFFFFFF], 0, 0xFFFFFFFF, [1], 0, 0);
    assert Put([0xFFFF0000, 0xFFFFFFFF], 0, 0x1FFFEFFFF % FULL) == [0xFFFEFFFF, 0xFFFFFFFF];
    assert Put([0xFFFEFFFF, 0xFFFFFFFF], 1, (0xFFFFFFFF + 1) % FULL) == [0xFFFEFFFF, 0];
    assert row0 == RowAsWritten([0xFFFEFFFF, 0xFFFFFFFF], 0, 0xFFFFFFFF, [1], 1, 1);
    assert row0 == [0xFFFEFFFF, 0];
    assert Put([0xFFFEFFFF, 0], 1, 0xFFFF % FULL) == [0xFFFEFFFF, 0xFFFF];
    assert RowAsWritten(row0, 1, 0xFFFF, [1], 0, 0) == RowAsWritten([0xFFFEFFFF, 0xFFFF], 1, 0xFFFF, [1], 1, 0);
    assert [0xFFFEFFFF, 0xFFFF][1..] == [0xFFFF];
    assert [0xFFFF0000, 0xFFFFFFFF][1..] == [0xFFFFFFFF];
    assert [0xFFFFFFFF, 0xFFFF][1..] == [0xFFFF];
  }

  /**
   * The sign `divide` leaves on the quotient as written, for a non-zero
   * dividend of sign s and magnitude v and a divisor of sign ns and
   * magnitude nv: the product of the signs, except that a smaller dividend
   * is reset to a positive zero and an equal one is `set(1)`, which makes
   * it positive.
   */
  function QuotientSignAsWritten(s: int, v: int, ns: int, nv: int): (r: int)
    ensures r == 1 || r == s * ns
    ensures v > nv ==> r == s * ns
  {
    if v < nv then 1 else if v == nv then 1 else s * ns
  }

  /**
   * -1 / 1: the magnitudes are equal, so the quotient is `set(1)`, +1,
   * where truncating division gives -1.  Through lib/tpa.js this makes
   * Tpa('-1/2').add('-1/2') come out +1.
   */
  lemma EqualCaseLosesSign()
    ensures QuotientSignAsWritten(-1, 1, 1, 1) * (1 / 1) != TDiv(-1 * 1, 1 * 1)
  {
  }

  /**
   * `overwrite` and `copy` as written, over the longs: only the first lc
   * longs of the source are copied, and this number's longs above them keep
   * whatever they held before.
   */
  function OverwriteAsWritten(mine: seq<int>, theirs: seq<int>, lc: nat): (r: seq<int>)
    requires lc <= |mine| && lc <= |theirs|
    ensures |r| == |mine|
    ensures forall k :: 0 <= k < lc ==> r[k] == theirs[k]
    ensures forall k :: lc <= k < |r| ==> r[k] == mine[k]
  {
    theirs[..lc] + mine[lc..]
  }

  /** `reset` as written, over the longs: only the first lc longs are zeroed. */
  function ResetAsWritten(ls: seq<int>, lc: nat): (r: seq<int>)
    requires lc <= |ls|
    ensures |r| == |ls|
    ensures forall k :: 0 <= k < lc ==> r[k] == 0
    ensures forall k :: lc <= k < |r| ==> r[k] == ls[k]
  {
    Zeros(lc) + ls[lc..]
  }

  /**
   * `digitmultiply(m, digit)` as written, over the longs, from long i on:
   * each of the first lc longs becomes (long * m + carry) modulo 2^32, and a
   * carry left at the end is stored into long lc.
   */
  function ScaleAsWritten(ls: seq<int>, lc: nat, m: int, i: nat, digit: int): (r: seq<int>)
    requires i <= lc <= |ls|
    ensures |r| >= |ls|
    ensures forall k :: 0 <= k < i ==> r[k] == ls[k]
    decreases lc - i
  {
    if i < lc then
      var t := digit + ls[i] * m;
      ScaleAsWritten(Put(ls, i, t % FULL), lc, m, i + 1, t / FULL)
    else if digit != 0 then Put(ls, lc, digit % FULL)
    else ls
  }

  /**
   * Tpa('-4294967296').add('4294967301').multiply(10).  The sum is formed
   * in a work number holding 5 in one long, and `overwrite` copies only that
   * long, so this number's storage is [5, 1, 0]: long 1 still holds the 1 of
   * 2^32.  `multiply` copies the one live long as its operand and `reset`
   * zeroes only it, leaving [0, 1, 0]; the first `accumulate` (operand [5]
   * times the high shorts [0] of 10) adds nothing but ends with
   * setCount((1 + 1) * 2), which counts long 1 back in, so the partial
   * product reads 2^32 instead of 0.  `digitmultiply(2^16, 0)` over those two
   * longs and the second `accumulate` (operand [5] times the low shorts [10])
   * then give 2^48 + 50 instead of 50.
   */
  lemma StaleLongReused()
    ensures OverwriteAsWritten([0, 1, 0], [5, 0, 0], 1) == [5, 1, 0]
    ensures ResetAsWritten([5, 1, 0], 1) == [0, 1, 0]
    ensures AccumulateAsWritten([0, 1, 0], [5], [0], 0) == [0, 1, 0]
    ensures Value([0, 1, 0][..2], FULL) == FULL != 5 * 0
    ensures ScaleAsWritten([0, 1, 0], 2, HALF, 0, 0) == [0, HALF, 0]
    ensures AccumulateAsWritten([0, HALF, 0], [5], [10], 0) == [50, HALF, 0]
    ensures Value([50, HALF, 0][..2], FULL) == 50 + HALF * FULL != 5 * 10
  {
    assert [5, 0, 0][..1] + [0, 1, 0][1..] == [5, 1, 0];
    assert Zeros(1) + [5, 1, 0][1..] == [0, 1, 0];
    assert RowAsWritten([0, 1, 0], 0, 5, [0], 0, 0) == RowAsWritten([0, 1, 0], 0, 5, [0], 1, 0) by {
      assert Put([0, 1, 0], 0, 0) == [0, 1, 0];
    }
    assert [0, 1, 0][..2] == [0, 1] && [0, 1][1..] == [1];
    assert Put([0, 1, 0], 0, 0) == [0, 1, 0];
    assert Put([0, 1, 0], 1, HALF) == [0, HALF, 0];
    assert ScaleAsWritten([0, 1, 0], 2, HALF, 0, 0) == ScaleAsWritten([0, HALF, 0], 2, HALF, 2, 0);
    assert RowAsWritten([0, HALF, 0], 0, 5, [10], 0, 0) == RowAsWritten([50, HALF, 0], 0, 5, [10], 1, 0) by {
      assert Put([0, HALF, 0], 0, 50) == [50, HALF, 0];
    }
    assert [50, HALF, 0][..2] == [50, HALF] && [50, HALF][1..] == [HALF];
  }
}
