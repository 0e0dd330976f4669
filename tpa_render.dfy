/**
 * Writing a Tpa out (lib/tpa.js, `toString` and `toFraction`): the integer
 * part in decimal, then either the decimal expansion of the remainder, with
 * a recurring cycle in square brackets once a numerator comes round again,
 * or the remainder as a fraction after a space.  The texts are specified by
 * functions of the value's parts, and the round-trip lemmas show that the
 * parser of TpaParse reads each of them back as the value that wrote it.
 */
module TpaRender {
  import opened Arith
  import opened Digits
  import opened Words
  import opened TpaKernel
  import opened TpaRational
  import opened TpaParse
  import opened TpaTexts
  import opened Wrappers

  /** The character of the decimal digit d. */
  function DigitChar(d: int): (c: char)
    requires 0 <= d < 10
    ensures IsDigit(c) && DigitOf(c) == d
  {
    ('0' as int + d) as char
  }

  /** The decimal digits of m, most significant first, with no leading zero; none at all for 0. */
  function IntDigits(m: nat): (t: string)
    ensures AllDigits(t) && TextValue(t) == m
    ensures |t| > 0 <==> m > 0
    ensures |t| > 0 ==> t[0] != '0'
    decreases m
  {
    if m == 0 then ""
    else
      var t := IntDigits(m / 10);
      var c := DigitChar(m % 10);
      ExtendText(t, c);
      t + [c]
  }

  /** m in decimal: its digits, or "0". */
  function Numeral(m: nat): (t: string)
    ensures AllDigits(t) && TextValue(t) == m && |t| > 0
  {
    if m == 0 then
      assert TextValue("0") == TextValue("") * 10 + DigitOf('0') by { ExtendText("", '0'); }
      "0"
    else IntDigits(m)
  }

  /** "-" for a negative sign, nothing otherwise. */
  function Minus(sign: int): (t: string)
    ensures SignText(t) && (t == "-" <==> sign < 0)
  {
    if sign < 0 then "-" else ""
  }

  /** The last index at which x occurs in vals, or -1. */
  function LastIndex(vals: seq<int>, x: int): (i: int)
    ensures -1 <= i < |vals|
    ensures i >= 0 ==> vals[i] == x
    ensures forall k :: i < k < |vals| ==> vals[k] != x
  {
    if vals == [] then -1
    else if vals[|vals| - 1] == x then |vals| - 1
    else LastIndex(vals[..|vals| - 1], x)
  }

  /** The digit and the next numerator of one step of long division by d. */
  lemma DigitStep(n: int, d: int)
    requires 0 <= n < d
    ensures 0 <= n * 10 / d < 10 && 0 <= n * 10 % d < d
  {
  }

  /** A number below 2^16 is its own lowest long. */
  lemma LowLong(n: N)
    requires n.Valid() && n.Val() < HALF
    ensures LongAt(n.shorts, 0) == n.Val()
  {
    var s := n.shorts;
    CountedFacts(s, n.shortcount, n.longcount);
    assert At(s, 1) == 0;
    if |s| > 0 {
      forall k | 1 <= k < |s|
        ensures s[k] == 0
      {
        assert At(s, k) == 0;
      }
      ValueZeroTail(s, 1, HALF);
      assert Value(s[..1], HALF) == s[0] + HALF * Value(s[..1][1..], HALF);
    }
  }

  /**
   * The integer loop of `toString`: the digits of the magnitude m, taken
   * off as remainders of division by ten from a copy of m.
   */
  method IntText(m: N) returns (text: string)
    requires m.Valid()
    ensures 0 <= m.Val() && text == IntDigits(m.Val())
  {
    NonNegative(m);
    var ten := new N();
    ten.Set(10);
    var test := m.Copy();
    text := "";
    var z := test.IsZero();
    while !z
      invariant fresh(ten) && fresh(test) && test != ten
      invariant ten.Valid() && ten.Val() == 10 && test.Valid()
      invariant 0 <= test.Val() && (z <==> test.Val() == 0)
      invariant IntDigits(test.Val()) + text == IntDigits(m.Val())
      decreases test.Val()
    {
      ghost var v := test.Val();
      var digit := TakeDigit(test, ten);
      LastDigit(v, test.Val(), digit, text);
      text := [DigitChar(digit)] + text;
      z := test.IsZero();
    }
  }

  /** One step of the integer loop: test := test / 10, the remainder read from its lowest long. */
  method TakeDigit(test: N, ten: N) returns (digit: int)
    requires test.Valid() && ten.Valid() && test != ten && ten.Val() == 10
    modifies test
    ensures test.Valid() && 0 <= test.Val() && 0 <= digit < 10
    ensures old(test.Val()) == test.Val() * 10 + digit
  {
    var r := test.Divide(ten);
    NonNegative(test);
    LowLong(r.value);
    digit := LongAt(r.value.shorts, 0);
  }

  /** Taking the last digit r of v = 10q + r off its digits onto the front of a text. */
  lemma LastDigit(v: int, q: int, r: int, text: string)
    requires 0 < v && 0 <= r < 10 && v == q * 10 + r
    ensures 0 <= q && IntDigits(q) + ([DigitChar(r)] + text) == IntDigits(v) + text
  {
    DivModUnique(v, 10, q, r);
  }

  /** What `toString` writes for the magnitude m alone: its digits, or "0". */
  method NumeralText(m: N) returns (text: string)
    requires m.Valid()
    ensures 0 <= m.Val() && text == Numeral(m.Val())
  {
    text := IntText(m);
    var z := m.IsZero();
    if z {
      text := "0";
    }
  }

  /**
   * Where the digit loop of `toString` stopped: the digits written, the
   * numerators met (one per digit), the index the digits recur from when a
   * numerator came round again, the numerator it stopped at and the number
   * of digits it had still been allowed.
   */
  datatype Expansion = Expansion(digits: string, seen: seq<int>, cycle: Option<nat>, last: int, left: int)

  /**
   * The decimal expansion of n/d by long division, at most `left` digits
   * more: it stops at a zero numerator, at the digit limit, or at a
   * numerator met before.
   */
  function Expand(n: int, d: int, left: int, seen: seq<int>, digits: string): (e: Expansion)
    requires 0 <= n < d && |seen| == |digits| && AllDigits(digits)
    ensures |e.seen| == |e.digits| && AllDigits(e.digits) && 0 <= e.last < d
    ensures e.cycle.Some? ==> e.cycle.value < |e.digits|
    decreases if left > 0 then left else 0
  {
    if n == 0 || left <= 0 then Expansion(digits, seen, None, n, left)
    else
      var i := LastIndex(seen, n);
      if i >= 0 then Expansion(digits, seen, Some(i), n, left)
      else
        DigitStep(n, d);
        Expand(n * 10 % d, d, left - 1, seen + [n], digits + [DigitChar(n * 10 / d)])
  }

  /**
   * The text after the point: the digits, with the recurring part in
   * brackets, or followed by "..." when the digit limit cut the expansion short.
   */
  function ExpansionText(e: Expansion): string
    requires e.cycle.Some? ==> e.cycle.value <= |e.digits|
  {
    match e.cycle
    case Some(i) => e.digits[..i] + "[" + e.digits[i..] + "]"
    case None => e.digits + (if e.left == 0 && e.last != 0 then "..." else "")
  }

  /** The expansion `toString` makes of n/d with the digit limit maxdp. */
  function Expansion0(n: int, d: int, maxdp: int): Expansion
    requires 0 <= n < d
  {
    Expand(n, d, maxdp, [], "")
  }

  /** The expansion from numerator n onwards, with seen and digits so far, is `target`. */
  ghost predicate Heading(n: int, d: int, left: int, seen: seq<int>, digits: string, target: Expansion)
  {
    0 <= n < d && |seen| == |digits| && AllDigits(digits) && Expand(n, d, left, seen, digits) == target
  }

  /** One digit of the expansion: a new, nonzero numerator within the limit. */
  lemma ExpandStep(n: int, d: int, left: int, seen: seq<int>, digits: string, target: Expansion)
    requires Heading(n, d, left, seen, digits, target) && 0 < n && 0 < left && LastIndex(seen, n) < 0
    ensures 0 <= n * 10 / d < 10
    ensures Heading(n * 10 % d, d, left - 1, seen + [n], digits + [DigitChar(n * 10 / d)], target)
  {
    DigitStep(n, d);
    ExtendText(digits, DigitChar(n * 10 / d));
  }

  /** Where the expansion stops: a zero numerator or no digits left. */
  lemma ExpandStop(n: int, d: int, left: int, seen: seq<int>, digits: string, target: Expansion)
    requires Heading(n, d, left, seen, digits, target) && (n == 0 || left <= 0)
    ensures target == Expansion(digits, seen, None, n, left)
  {
  }

  /** Where the expansion stops at a numerator met before, at index i. */
  lemma ExpandRecur(n: int, d: int, left: int, seen: seq<int>, digits: string, target: Expansion, i: int)
    requires Heading(n, d, left, seen, digits, target) && 0 < n && 0 < left && 0 <= i == LastIndex(seen, n)
    ensures target == Expansion(digits, seen, Some(i), n, left)
  {
  }

  /** The numerator store holds the values seen, one valid copy each. */
  ghost predicate Stored(store: seq<N>, seen: seq<int>)
    reads store
    decreases |store|
  {
    && |store| == |seen|
    && (store != [] ==> Stored(store[..|store| - 1], seen[..|seen| - 1]) && Keeps(store[|store| - 1], seen[|seen| - 1]))
  }

  /** A stored copy: a valid N holding the value v. */
  ghost predicate Keeps(x: N, v: int)
    reads x
  {
    x.Valid() && x.Val() == v
  }

  lemma StoredPush(store: seq<N>, seen: seq<int>, c: N)
    requires Stored(store, seen) && c.Valid()
    ensures Stored(store + [c], seen + [c.Val()])
  {
    assert (store + [c])[..|store|] == store;
    assert (seen + [c.Val()])[..|seen|] == seen;
  }

  /** Each stored copy holds its value. */
  lemma {:induction false} StoredAt(store: seq<N>, seen: seq<int>, k: int)
    requires Stored(store, seen) && 0 <= k < |store|
    ensures Keeps(store[k], seen[k])
    decreases |store|
  {
    if k < |store| - 1 {
      StoredAt(store[..|store| - 1], seen[..|seen| - 1], k);
    }
  }

  /**
   * The fractional digit loop of `toString` on the remainder n/d.  The
   * numerators met are kept as copies, searched from the newest back.
   */
  method FractionDigits(numerator: N, denominator: N, maxdp: int) returns (text: string)
    requires numerator.Valid() && denominator.Valid() && numerator != denominator
    requires 0 < numerator.Val() < denominator.Val()
    ensures text == ExpansionText(Expansion0(numerator.Val(), denominator.Val(), maxdp))
  {
    ghost var d := denominator.Val();
    ghost var target := Expansion0(numerator.Val(), d, maxdp);
    var num := numerator.Copy();
    var store: seq<N> := [];
    ghost var seen: seq<int> := [];
    ghost var n := num.Val();
    text := "";
    var left := maxdp;
    var z := num.IsZero();
    // `Turn(...) == true` and `Heading(...) == true` keep each predicate one
    // fact for the verifier instead of one proof obligation per conjunct.
    while !z && left > 0
      invariant fresh(num) && Turn(store, num, denominator, seen, n, d) == true
      invariant Heading(n, d, left, seen, text, target) == true && (z <==> n == 0)
      decreases left
    {
      var i := Search(store, num, seen);
      if i >= 0 {
        ExpandRecur(n, d, left, seen, text, target, i);
        text := text[..i] + "[" + text[i..] + "]";
        return;
      }
      ExpandStep(n, d, left, seen, text, target);
      var digit;
      store, num, digit := Step(store, num, denominator, seen, n, d);
      seen, n := seen + [n], num.Val();
      text := text + [DigitChar(digit)];
      left := left - 1;
      z := num.IsZero();
    }
    ExpandStop(n, d, left, seen, text, target);
    if left == 0 && !z {
      text := text + "...";
    }
  }

  /** The state of the fractional loop at the start of a turn: the numerator n and the store. */
  ghost predicate Turn(store: seq<N>, num: N, denominator: N, seen: seq<int>, n: int, d: int)
    reads store, num, denominator
  {
    && num.Valid() && denominator.Valid() && num != denominator && num !in store
    && Stored(store, seen) && n == num.Val() && d == denominator.Val() && 0 <= n < d
  }

  /**
   * One turn of the fractional loop after an unsuccessful search: the
   * numerator is stored as a copy, then multiplied by ten and divided by the
   * denominator in place; the remainder, a new N, is the next numerator.
   */
  method Step(store: seq<N>, num: N, denominator: N, ghost seen: seq<int>, ghost n: int, ghost d: int)
    returns (store': seq<N>, num': N, digit: int)
    requires Turn(store, num, denominator, seen, n, d) == true
    modifies num
    ensures fresh(num') && Turn(store', num', denominator, seen + [n], num'.Val(), d) == true
    ensures 0 <= digit < 10 && digit == n * 10 / d && num'.Val() == n * 10 % d
  {
    var copy := num.Copy();
    StoredPush(store, seen, copy);
    store' := store + [copy];
    digit, num' := NextDigit(num, denominator, n, d);
  }

  /** The search of the numerator store, from the newest back: the index of num's value, or -1. */
  method Search(store: seq<N>, num: N, ghost seen: seq<int>) returns (i: int)
    requires num.Valid() && Stored(store, seen)
    ensures i == LastIndex(seen, num.Val())
  {
    i := |store| - 1;
    while i >= 0
      invariant -1 <= i < |store|
      invariant forall k :: i < k < |store| ==> seen[k] != num.Val()
    {
      StoredAt(store, seen, i);
      var c := store[i].Compare(num);
      if c == 0 {
        break;
      }
      i := i - 1;
    }
    LastIndexIs(seen, num.Val(), i);
  }

  /**
   * One step of the fractional loop: num := 10 num, divided by the
   * denominator; the quotient, read from its lowest long, is the next digit
   * and the remainder, a new N, the next numerator.
   */
  method NextDigit(num: N, denominator: N, ghost n: int, ghost d: int) returns (digit: int, rem: N)
    requires num.Valid() && denominator.Valid() && num != denominator
    requires n == num.Val() && d == denominator.Val() && 0 <= n < d
    modifies num
    ensures fresh(rem) && rem.Valid()
    ensures 0 <= digit < 10 && digit == n * 10 / d && rem.Val() == n * 10 % d
  {
    num.DigitMultiply(10, 0);
    var r := num.Divide(denominator);
    NonNegative(num);
    NonNegative(r.value);
    DivModUnique(n * 10, d, num.Val(), r.value.Val());
    DigitStep(n, d);
    LowLong(num);
    digit := LongAt(num.shorts, 0);
    rem := r.value;
  }

  /** The search of the numerator store finds the last occurrence. */
  lemma LastIndexIs(vals: seq<int>, x: int, i: int)
    requires -1 <= i < |vals| && (i >= 0 ==> vals[i] == x)
    requires forall k :: i < k < |vals| ==> vals[k] != x
    ensures LastIndex(vals, x) == i
  {
    if vals != [] && vals[|vals| - 1] != x {
      LastIndexIs(vals[..|vals| - 1], x, i);
    }
  }

  /** The digit limit of `toString`: the one given, or 100 when none is. */
  function DigitLimit(maxdp: Option<int>): int
  {
    if maxdp.Some? then maxdp.value else 100
  }

  /**
   * What `toString` writes for a value with the given sign and mode,
   * integer part m and remainder n/d: "0" for a value without a fraction
   * and integer part 0, otherwise the sign, the integer part and, when
   * there is a nonzero remainder, "." and its expansion.
   */
  function Render(sign: int, integer: bool, m: nat, n: int, d: int, maxdp: int): string
    requires integer || 0 <= n < d
  {
    if integer || n == 0 then (if m == 0 then "0" else Minus(sign) + IntDigits(m))
    else Minus(sign) + Numeral(m) + ("." + ExpansionText(Expansion0(n, d, maxdp)))
  }

  /** The fractional part of `toString`: the point and the expansion of the remainder. */
  method PointText(numerator: N, denominator: N, maxdp: int) returns (text: string)
    requires numerator.Valid() && denominator.Valid() && numerator != denominator
    requires 0 < numerator.Val() < denominator.Val()
    ensures text == "." + ExpansionText(Expansion0(numerator.Val(), denominator.Val(), maxdp))
  {
    var tail := FractionDigits(numerator, denominator, maxdp);
    text := "." + tail;
  }

  /** `Tpa.prototype.toString(maxdp)`. */
  method ToString(t: Tpa, maxdp: Option<int>) returns (s: string)
    requires t.Valid()
    ensures 0 <= t.number.Val() && 0 <= t.numerator.Val()
    ensures s == Render(t.sign, t.integer, t.number.Val(), t.numerator.Val(), t.denominator.Val(), DigitLimit(maxdp))
  {
    var limit := if maxdp.Some? then maxdp.value else 100;
    NonNegative(t.numerator);
    ghost var m := t.number.Val();
    var digits := IntText(t.number);
    s := digits;
    if t.sign < 0 {
      s := "-" + s;
    }
    assert s == Minus(t.sign) + IntDigits(m);
    var fraction := false;
    if !t.integer {
      var z := t.numerator.IsZero();
      fraction := !z;
    }
    var zero := t.number.IsZero();
    if fraction {
      if zero {
        s := s + "0";
      }
      assert s == Minus(t.sign) + Numeral(m);
      var tail := PointText(t.numerator, t.denominator, limit);
      s := s + tail;
    } else if zero {
      s := "0";
    }
  }

  /**
   * What `toFraction` writes: in integer mode what `toString` writes;
   * otherwise the sign and the integer part and, for a nonzero remainder,
   * a space, the numerator, "/" and the denominator.
   */
  function FractionForm(sign: int, integer: bool, m: nat, n: nat, d: nat): string
  {
    if integer then Render(sign, true, m, 0, 1, 100)
    else if n == 0 then Minus(sign) + Numeral(m)
    else Minus(sign) + Numeral(m) + (" " + Numeral(n) + "/" + Numeral(d))
  }

  /** `Tpa.prototype.toFraction()`. */
  method ToFraction(t: Tpa) returns (s: string)
    requires t.Valid()
    ensures 0 <= t.number.Val() && 0 <= t.numerator.Val() && 0 <= t.denominator.Val()
    ensures s == FractionForm(t.sign, t.integer, t.number.Val(), t.numerator.Val(), t.denominator.Val())
  {
    NonNegative(t.numerator);
    NonNegative(t.denominator);
    if t.integer {
      s := ToString(t, None);
      return;
    }
    s := "";
    if t.sign < 0 {
      s := "-";
    }
    var whole := NumeralText(t.number);
    s := s + whole;
    var z := t.numerator.IsZero();
    if !z {
      var tail := RatioText(t.numerator, t.denominator);
      s := s + tail;
    }
  }

  /** The remainder part of `toFraction`: a space, the numerator, "/" and the denominator. */
  method RatioText(numerator: N, denominator: N) returns (text: string)
    requires numerator.Valid() && denominator.Valid()
    ensures 0 <= numerator.Val() && 0 <= denominator.Val()
    ensures text == " " + Numeral(numerator.Val()) + "/" + Numeral(denominator.Val())
  {
    var n := NumeralText(numerator);
    var d := NumeralText(denominator);
    text := " " + n + "/" + d;
  }

  /** The value of the first k digits. */
  function Lead(digits: string, k: int): (v: int)
    requires AllDigits(digits) && 0 <= k <= |digits|
    ensures 0 <= v
  {
    assert AllDigits(digits[..k]) by {
      assert forall j :: 0 <= j < k ==> digits[..k][j] == digits[j];
    }
    TextValue(digits[..k])
  }

  /**
   * What long division keeps: after k digits of n0/d, n0 * 10^k is d times
   * the first k digits plus the k-th numerator (the one after the last
   * digit being n).
   */
  ghost predicate Tracks(n0: int, d: int, seen: seq<int>, digits: string, n: int)
  {
    && |seen| == |digits| && AllDigits(digits)
    && forall k {:trigger Lead(digits, k)} :: 0 <= k <= |seen| ==> n0 * Pow(10, k) == d * Lead(digits, k) + (seen + [n])[k]
  }

  /** Long division keeps its invariant through one more digit. */
  lemma TracksStep(n0: int, d: int, seen: seq<int>, digits: string, n: int)
    requires 0 <= n < d && Tracks(n0, d, seen, digits, n)
    ensures 0 <= n * 10 / d < 10
    ensures Tracks(n0, d, seen + [n], digits + [DigitChar(n * 10 / d)], n * 10 % d)
  {
    DigitStep(n, d);
    var q, r := n * 10 / d, n * 10 % d;
    var c := DigitChar(q);
    var seen', digits' := seen + [n], digits + [c];
    ExtendText(digits, c);
    var j := |seen|;
    forall k | 0 <= k <= |seen'|
      ensures n0 * Pow(10, k) == d * Lead(digits', k) + (seen' + [r])[k]
    {
      if k <= j {
        assert digits'[..k] == digits[..k];
        assert (seen' + [r])[k] == (seen + [n])[k];
        assert Lead(digits', k) == Lead(digits, k);
      } else {
        assert digits'[..k] == digits' && digits[..j] == digits;
        assert Lead(digits', k) == TextValue(digits) * 10 + q;
        assert n0 * Pow(10, j) == d * Lead(digits, j) + n;
        NextDigitValue(n0, d, Pow(10, j), TextValue(digits), n, q, r);
      }
    }
  }

  /** The arithmetic of one step of long division. */
  lemma NextDigitValue(n0: int, d: int, p: int, v: int, n: int, q: int, r: int)
    requires n0 * p == d * v + n && n * 10 == d * q + r
    ensures n0 * (p * 10) == d * (v * 10 + q) + r
  {
    calc {
      n0 * (p * 10);
      { MulAssoc(n0, p, 10); }
      (n0 * p) * 10;
      (d * v + n) * 10;
      { MulAssoc(d, v, 10); }
      d * (v * 10) + (d * q + r);
      { MulDistrib(d, v * 10, q); }
      d * (v * 10 + q) + r;
    }
  }

  /** The whole expansion keeps the invariant, and a cycle starts where its numerator was met. */
  lemma {:induction false} ExpandTracks(n0: int, d: int, left: int, seen: seq<int>, digits: string, n: int)
    requires 0 <= n < d && Tracks(n0, d, seen, digits, n)
    ensures var e := Expand(n, d, left, seen, digits);
      && Tracks(n0, d, e.seen, e.digits, e.last)
      && (e.cycle.Some? ==> e.seen[e.cycle.value] == e.last && 0 < e.last)
      && (e.cycle.None? ==> e.last == 0 || e.left <= 0)
    decreases if left > 0 then left else 0
  {
    if n != 0 && left > 0 && LastIndex(seen, n) < 0 {
      TracksStep(n0, d, seen, digits, n);
      ExpandTracks(n0, d, left - 1, seen + [n], digits + [DigitChar(n * 10 / d)], n * 10 % d);
    }
  }

  /** Whether the expansion was written in full: it recurs, or it ended with a zero numerator. */
  predicate Complete(e: Expansion)
  {
    e.cycle.Some? || e.last == 0
  }

  /**
   * The remainder the written digits denote: b/10^|b| for a terminating
   * expansion b, and (pc - p)/(10^|pc| - 10^|p|) for a prefix p and a cycle c.
   */
  function Remains(e: Expansion): (f: Remainder)
    requires AllDigits(e.digits) && (e.cycle.Some? ==> e.cycle.value < |e.digits|)
    ensures 0 <= f.numerator <= f.denominator && 0 < f.denominator
  {
    match e.cycle
    case None =>
      TextBound(e.digits);
      Remainder(TextValue(e.digits), Scale(e.digits))
    case Some(i) =>
      var p := e.digits[..i];
      RecurringParts(e.digits, i);
      Remainder(TextValue(e.digits) - Lead(e.digits, i), Scale(e.digits) - Scale(p))
  }

  /** Splitting digits at i into a prefix and a nonempty cycle. */
  lemma RecurringParts(digits: string, i: int)
    requires AllDigits(digits) && 0 <= i < |digits|
    ensures 0 <= TextValue(digits) - Lead(digits, i) <= Scale(digits) - Scale(digits[..i])
    ensures Scale(digits) - Scale(digits[..i]) > 0
  {
    var p, c := digits[..i], digits[i..];
    assert p + c == digits;
    assert AllDigits(c) by {
      assert forall j :: 0 <= j < |c| ==> c[j] == digits[i + j];
    }
    RecurringBounds(p, c);
    var a, b := |p|, |digits|;
    PowMonotone(10, a, b);
  }

  /** A complete expansion of n/d denotes n/d. */
  lemma ExpansionExact(n: int, d: int, maxdp: int)
    requires 0 < n < d && Complete(Expansion0(n, d, maxdp))
    ensures Ratio(Remains(Expansion0(n, d, maxdp)).numerator, Remains(Expansion0(n, d, maxdp)).denominator) == Ratio(n, d)
    ensures Remains(Expansion0(n, d, maxdp)).numerator > 0
  {
    var f := Remains(Expansion0(n, d, maxdp));
    ExpansionCross(n, d, maxdp);
    PositiveFactor(n, f.denominator, d, f.numerator);
    RatioEq(f.numerator, f.denominator, n, d);
  }

  /** The cross products of a complete expansion of n/d and of n/d agree. */
  lemma ExpansionCross(n: int, d: int, maxdp: int)
    requires 0 < n < d && Complete(Expansion0(n, d, maxdp))
    ensures n * Remains(Expansion0(n, d, maxdp)).denominator == d * Remains(Expansion0(n, d, maxdp)).numerator
  {
    var e := Expansion0(n, d, maxdp);
    TracksStart(n, d);
    ExpandTracks(n, d, maxdp, [], "", n);
    CompleteCross(n, d, e);
  }

  /** The cross products of a complete expansion e of n/d that keeps the invariant. */
  lemma CompleteCross(n: int, d: int, e: Expansion)
    requires AllDigits(e.digits) && |e.seen| == |e.digits| && (e.cycle.Some? ==> e.cycle.value < |e.digits| && e.seen[e.cycle.value] == e.last)
    requires Tracks(n, d, e.seen, e.digits, e.last) && Complete(e)
    ensures n * Remains(e).denominator == d * Remains(e).numerator
  {
    if e.cycle.None? {
      TracksWhole(n, d, e.seen, e.digits, e.last);
    } else {
      TracksCycle(n, d, e.seen, e.digits, e.last, e.cycle.value);
    }
  }

  /** Before any digit: n0 * 10^0 == d * 0 + n0. */
  lemma TracksStart(n0: int, d: int)
    ensures Tracks(n0, d, [], "", n0)
  {
    assert Lead("", 0) == 0;
  }

  /** After all the digits: n0 * 10^|digits| == d * digits + the last numerator. */
  lemma TracksWhole(n0: int, d: int, seen: seq<int>, digits: string, x: int)
    requires Tracks(n0, d, seen, digits, x)
    ensures n0 * Scale(digits) == d * TextValue(digits) + x
  {
    var j := |seen|;
    assert digits[..j] == digits;
    assert n0 * Pow(10, j) == d * Lead(digits, j) + x;
  }

  /** The digits from i on, between two meetings of the numerator x. */
  lemma TracksCycle(n0: int, d: int, seen: seq<int>, digits: string, x: int, i: int)
    requires Tracks(n0, d, seen, digits, x) && 0 <= i < |seen| && seen[i] == x
    ensures n0 * (Scale(digits) - Scale(digits[..i])) == d * (TextValue(digits) - Lead(digits, i))
  {
    TracksWhole(n0, d, seen, digits, x);
    assert n0 * Pow(10, i) == d * Lead(digits, i) + x;
    var a := |digits[..i]|;
    assert Scale(digits[..i]) == Pow(10, i);
    CycleValue(n0, d, Scale(digits), Pow(10, i), TextValue(digits), Lead(digits, i), x);
  }

  lemma PositiveFactor(a: int, b: int, c: int, x: int)
    requires a > 0 && b > 0 && c > 0 && a * b == c * x
    ensures x > 0
  {
    MulNonNeg(a, b);
    if x <= 0 {
      MulMonotone(c, x, 0);
    }
  }

  /** Two points of long division with the same numerator: the digits between them repeat n/d. */
  lemma CycleValue(n: int, d: int, pj: int, pi: int, vj: int, vi: int, x: int)
    requires n * pj == d * vj + x && n * pi == d * vi + x
    ensures n * (pj - pi) == d * (vj - vi)
  {
    MulDistrib(n, pj, -pi);
    MulDistrib(d, vj, -vi);
  }

  /**
   * A recurring expansion written by `toString` reads back, through the
   * '.' branch of the parser, as the remainder its digits denote.
   */
  lemma RecurringRender(sign: int, m: nat, n: int, d: int, maxdp: int)
    requires 0 < n < d && Expansion0(n, d, maxdp).cycle.Some?
    ensures Scan(Render(sign, false, m, n, d, maxdp), None) == Accepted(PointReading(sign < 0, m, Remains(Expansion0(n, d, maxdp))))
  {
    var e := Expansion0(n, d, maxdp);
    var i := e.cycle.value;
    var sgn, a, p, c := Minus(sign), Numeral(m), e.digits[..i], e.digits[i..];
    CycleSplit(n, d, maxdp);
    RecurringShape(sign, m, n, d, maxdp);
    CycleRead(sgn, a, p, c, sign < 0, Remains(e));
  }

  /** A recurring decimal closed by its ']' at the end of the text, with a nonzero digit and a nonempty cycle. */
  lemma CycleRead(sgn: string, a: string, p: string, c: string, negative: bool, f: Remainder)
    requires SignText(sgn) && AllDigits(a) && AllDigits(p) && AllDigits(c) && |c| > 0
    requires AllDigits(p + c) && TextValue(p + c) != 0 && (sgn == "-" <==> negative)
    requires f == Remainder(TextValue(p + c) - TextValue(p), Scale(p + c) - Scale(p))
    ensures 0 <= f.numerator <= f.denominator && 0 < f.denominator
    ensures Scan(sgn + a + ("." + p + "[" + c + "]"), None) == Accepted(PointReading(negative, TextValue(a), f))
  {
    RecurringText(sgn, a, p, c, "]", None);
  }

  /** The prefix and the cycle of a recurring expansion, as the parser sees them. */
  lemma CycleSplit(n: int, d: int, maxdp: int)
    requires 0 < n < d && Expansion0(n, d, maxdp).cycle.Some?
    ensures var e := Expansion0(n, d, maxdp);
      var i := e.cycle.value;
      var p, c := e.digits[..i], e.digits[i..];
      && AllDigits(p) && AllDigits(c) && |c| > 0 && p + c == e.digits && TextValue(p + c) != 0
      && Remains(e) == Remainder(TextValue(p + c) - TextValue(p), Scale(p + c) - Scale(p))
  {
    var e := Expansion0(n, d, maxdp);
    var i := e.cycle.value;
    var p, c := e.digits[..i], e.digits[i..];
    assert p + c == e.digits;
    assert AllDigits(c) by {
      assert forall j :: 0 <= j < |c| ==> c[j] == e.digits[i + j];
    }
    ExpansionExact(n, d, maxdp);
  }

  /** Where the pieces of a recurring expansion sit in the text. */
  lemma RecurringShape(sign: int, m: nat, n: int, d: int, maxdp: int)
    requires 0 < n < d && Expansion0(n, d, maxdp).cycle.Some?
    ensures var e := Expansion0(n, d, maxdp);
      var i := e.cycle.value;
      Render(sign, false, m, n, d, maxdp) == Minus(sign) + Numeral(m) + ("." + e.digits[..i] + "[" + e.digits[i..] + "]")
  {
  }

  /** A terminating expansion written by `toString` reads back as its digits over 10^|digits|. */
  lemma DecimalRender(sign: int, m: nat, n: int, d: int, maxdp: int)
    requires 0 < n < d && Expansion0(n, d, maxdp).cycle.None? && Expansion0(n, d, maxdp).last == 0
    ensures Scan(Render(sign, false, m, n, d, maxdp), None) == Accepted(PointReading(sign < 0, m, Remains(Expansion0(n, d, maxdp))))
  {
    var e := Expansion0(n, d, maxdp);
    var sgn, a := Minus(sign), Numeral(m);
    DecimalShape(sgn, a, e.digits, "");
    DecimalText(sgn, a, e.digits, "", None);
  }

  lemma DecimalShape(sgn: string, a: string, b: string, t: string)
    ensures sgn + a + ("." + (b + t)) == sgn + a + ("." + b + t)
  {
  }

  /**
   * An expansion cut short by the digit limit ends in "...", which the
   * parser refuses: such a text does not read back.
   */
  lemma TruncatedRender(sign: int, m: nat, n: int, d: int, maxdp: int)
    requires 0 < n < d
    requires Expansion0(n, d, maxdp).cycle.None? && Expansion0(n, d, maxdp).last != 0 && Expansion0(n, d, maxdp).left == 0
    ensures Scan(Render(sign, false, m, n, d, maxdp), None) == Rejected(UnrecognisedAfterPoint)
  {
    var e := Expansion0(n, d, maxdp);
    var sgn, a := Minus(sign), Numeral(m);
    DecimalShape(sgn, a, e.digits, "...");
    DecimalText(sgn, a, e.digits, "...", None);
  }

  /** A value without a fraction is written as an integer, and reads back as one. */
  lemma IntegerRender(sign: int, integer: bool, m: nat, n: int, d: int, maxdp: int)
    requires integer || n == 0
    requires integer || 0 <= n < d
    ensures Scan(Render(sign, integer, m, n, d, maxdp), None).Accepted?
    ensures var r := Scan(Render(sign, integer, m, n, d, maxdp), None).value;
      r.integer && r.whole == m && ReadingValue(r) == Signed(sign, m as real)
  {
    if m == 0 {
      assert "" + "0" == "0";
      IntegerText("", "0", None);
    } else {
      IntegerText(Minus(sign), IntDigits(m), None);
    }
  }

  /** What the reading of a complete expansion denotes: the value that was written. */
  lemma RenderValue(sign: int, m: nat, n: int, d: int, maxdp: int)
    requires 0 < n < d && Complete(Expansion0(n, d, maxdp))
    ensures ReadingValue(PointReading(sign < 0, m, Remains(Expansion0(n, d, maxdp)))) == Signed(sign, m as real + Ratio(n, d))
  {
    var f := Remains(Expansion0(n, d, maxdp));
    PointValue(sign < 0, m, f);
    ExpansionExact(n, d, maxdp);
  }

  /**
   * `toString` and the parser are inverse: whenever the expansion of the
   * remainder is written in full, the text reads back as the value of t.
   */
  lemma ToStringRoundTrip(t: Tpa, maxdp: int)
    requires t.Valid()
    requires !t.integer && t.numerator.Val() > 0 ==> Complete(Expansion0(t.numerator.Val(), t.denominator.Val(), maxdp))
    ensures 0 <= t.number.Val() && 0 <= t.numerator.Val()
    ensures Scan(Render(t.sign, t.integer, t.number.Val(), t.numerator.Val(), t.denominator.Val(), maxdp), None).Accepted?
    ensures ReadingValue(Scan(Render(t.sign, t.integer, t.number.Val(), t.numerator.Val(), t.denominator.Val(), maxdp), None).value) == t.Value()
  {
    NonNegative(t.number);
    NonNegative(t.numerator);
    var sign, m, n, d := t.sign, t.number.Val(), t.numerator.Val(), t.denominator.Val();
    if t.integer || n == 0 {
      IntegerRender(sign, t.integer, m, n, d, maxdp);
      assert t.FracPart() == 0.0;
    } else {
      var e := Expansion0(n, d, maxdp);
      if e.cycle.Some? {
        RecurringRender(sign, m, n, d, maxdp);
      } else {
        DecimalRender(sign, m, n, d, maxdp);
      }
      RenderValue(sign, m, n, d, maxdp);
    }
  }

  /** No value occurs twice. */
  ghost predicate Distinct(s: seq<int>)
  {
    forall j, k :: 0 <= j < k < |s| ==> s[j] != s[k]
  }

  /** Distinct values between 1 and d - 1 are at most d - 1 of them. */
  lemma DistinctBound(s: seq<int>, d: int)
    requires d > 0 && Distinct(s) && forall k :: 0 <= k < |s| ==> 0 < s[k] < d
    ensures |s| < d
  {
    var values := set k | 0 <= k < |s| :: s[k];
    DistinctCard(s);
    var range := Between(d);
    assert values <= range;
    SubsetCard(values, range);
  }

  /** The numbers 1 .. d - 1. */
  function Between(d: int): (r: set<int>)
    ensures forall x :: x in r <==> 0 < x < d
    ensures |r| == if d > 0 then d - 1 else 0
    decreases d
  {
    if d <= 1 then {} else Between(d - 1) + {d - 1}
  }

  lemma {:induction false} DistinctCard(s: seq<int>)
    requires Distinct(s)
    ensures |set k | 0 <= k < |s| :: s[k]| == |s|
  {
    if s != [] {
      var t := s[..|s| - 1];
      DistinctCard(t);
      var last := s[|s| - 1];
      assert (set k | 0 <= k < |s| :: s[k]) == (set k | 0 <= k < |t| :: t[k]) + {last};
      assert last !in (set k | 0 <= k < |t| :: t[k]);
    }
  }

  lemma SubsetCard(a: set<int>, b: set<int>)
    requires a <= b
    ensures |a| <= |b|
  {
    var rest := b - a;
    assert b == a + rest && a * rest == {};
  }

  /**
   * With at least d digits allowed, the expansion of n/d is written in
   * full: the numerators met are distinct and between 1 and d - 1, so one
   * comes round again, or reaches zero, before the limit.
   */
  lemma {:induction false} ExpandComplete(n: int, d: int, left: int, seen: seq<int>, digits: string)
    requires 0 <= n < d && |seen| == |digits| && AllDigits(digits)
    requires Distinct(seen) && (forall k :: 0 <= k < |seen| ==> 0 < seen[k] < d)
    requires left + |seen| >= d
    ensures Complete(Expand(n, d, left, seen, digits))
    decreases if left > 0 then left else 0
  {
    if n != 0 && left <= 0 {
      DistinctBound(seen, d);
    } else if n != 0 && LastIndex(seen, n) < 0 {
      DigitStep(n, d);
      ExtendText(digits, DigitChar(n * 10 / d));
      ExpandComplete(n * 10 % d, d, left - 1, seen + [n], digits + [DigitChar(n * 10 / d)]);
    }
  }

  /** The default limit of 100 digits writes every remainder with a denominator up to 100 in full. */
  lemma LimitSuffices(n: int, d: int, maxdp: int)
    requires 0 <= n < d <= maxdp
    ensures Complete(Expansion0(n, d, maxdp))
  {
    ExpandComplete(n, d, maxdp, [], "");
  }

  /** A mixed number as `toFraction` writes it, with nothing after the denominator. */
  lemma MixedRead(sgn: string, a: string, nt: string, dt: string, negative: bool)
    requires SignText(sgn) && AllDigits(a) && AllDigits(nt) && AllDigits(dt)
    requires TextValue(nt) > 0 && TextValue(dt) > 0 && (sgn == "-" <==> negative)
    ensures Scan(sgn + a + (" " + nt + "/" + dt), None)
         == Accepted(MixedReading(negative, false, TextValue(a), Remainder(TextValue(nt), TextValue(dt))))
  {
    assert " " + nt + "/" + dt + "" == " " + nt + "/" + dt;
    MixedText(sgn, a, nt, dt, "", None);
  }

  /** A fraction written by `toFraction` reads back as the mixed number it spells. */
  lemma MixedRender(sign: int, m: nat, n: nat, d: nat)
    requires 0 < n && 0 < d
    ensures Scan(FractionForm(sign, false, m, n, d), None) == Accepted(MixedReading(sign < 0, false, m, Remainder(n, d)))
  {
    MixedRead(Minus(sign), Numeral(m), Numeral(n), Numeral(d), sign < 0);
  }

  /** The value a fraction written by `toFraction` reads back as, on the fields alone. */
  ghost function FieldsValue(sign: int, integer: bool, m: nat, n: nat, d: nat): real
  {
    Signed(sign, m as real + (if integer || d == 0 then 0.0 else Ratio(n, d)))
  }

  /** A zero remainder is written as the integer part alone, which reads back in integer mode. */
  lemma WholeFraction(sign: int, m: nat, d: nat)
    ensures Scan(FractionForm(sign, false, m, 0, d), None).Accepted?
    ensures ReadingValue(Scan(FractionForm(sign, false, m, 0, d), None).value) == FieldsValue(sign, false, m, 0, d)
  {
    IntegerText(Minus(sign), Numeral(m), None);
    assert d != 0 ==> Ratio(0, d) == 0.0;
  }

  /** A nonzero remainder is written as a mixed number, which reads back as that value. */
  lemma MixedFraction(sign: int, m: nat, n: nat, d: nat)
    requires 0 < n < d
    ensures Scan(FractionForm(sign, false, m, n, d), None).Accepted?
    ensures ReadingValue(Scan(FractionForm(sign, false, m, n, d), None).value) == FieldsValue(sign, false, m, n, d)
  {
    MixedRender(sign, m, n, d);
    MixedValue(sign < 0, false, m, Remainder(n, d));
  }

  /** Whatever the mode, the text `toFraction` writes reads back as the value its fields denote. */
  lemma FractionRead(sign: int, integer: bool, m: nat, n: nat, d: nat)
    requires !integer ==> n < d
    ensures Scan(FractionForm(sign, integer, m, n, d), None).Accepted?
    ensures ReadingValue(Scan(FractionForm(sign, integer, m, n, d), None).value) == FieldsValue(sign, integer, m, n, d)
  {
    if integer {
      IntegerRender(sign, true, m, 0, 1, 100);
    } else if n == 0 {
      WholeFraction(sign, m, d);
    } else {
      MixedFraction(sign, m, n, d);
    }
  }

  /** `toFraction` and the parser are inverse: the text reads back as the value of t. */
  lemma ToFractionRoundTrip(t: Tpa)
    requires t.Valid()
    ensures 0 <= t.number.Val() && 0 <= t.numerator.Val() && 0 <= t.denominator.Val()
    ensures Scan(FractionForm(t.sign, t.integer, t.number.Val(), t.numerator.Val(), t.denominator.Val()), None).Accepted?
    ensures ReadingValue(Scan(FractionForm(t.sign, t.integer, t.number.Val(), t.numerator.Val(), t.denominator.Val()), None).value) == t.Value()
  {
    NonNegative(t.number);
    NonNegative(t.numerator);
    NonNegative(t.denominator);
    FractionRead(t.sign, t.integer, t.number.Val(), t.numerator.Val(), t.denominator.Val());
    assert t.Value() == FieldsValue(t.sign, t.integer, t.number.Val(), t.numerator.Val(), t.denominator.Val());
  }

  /** The digit values the example below needs. */
  lemma ThreesValue(three: string, p: string)
    requires three == "3" && p == three + three
    ensures AllDigits(three) && AllDigits(p) && AllDigits(p + p)
    ensures TextValue(three) == 3 && TextValue(p) == 33 && TextValue(p + p) == 3333
    ensures Scale(p) == 100 && Scale(p + p) == 10000
  {
    ExtendText([], '3');
    assert [] + ['3'] == three;
    ExtendText(three, '3');
    assert p == three + ['3'];
    TextConcat(p, p);
    assert |p| == 2 && |p + p| == 4;
    assert Pow(10, 2) == 100 && Pow(10, 4) == 10000;
  }

  /** '3.33[33]' spelled out as integer part, point, prefix and bracketed cycle. */
  lemma ThreesShape(text: string, three: string, p: string)
    requires text == "3.33[33]" && three == "3" && p == three + three
    ensures text == "" + three + ("." + p + "[" + p + "]")
  {
  }

  /** '3.33[33]' reads as 3 and the remainder 3300/9900. */
  lemma RecurringExample(text: string)
    requires text == "3.33[33]"
    ensures Scan(text, None) == Accepted(PointReading(false, 3, Remainder(3300, 9900)))
  {
    var three := "3";
    var p := three + three;
    ThreesValue(three, p);
    ThreesShape(text, three, p);
    CycleRead("", three, p, p, false, Remainder(3300, 9900));
  }

  /** 3 and the remainder 3300/9900 are written as '3.[3]'. */
  lemma RenderExample()
    ensures Render(1, false, 3, 3300, 9900, 100) == "3.[3]"
  {
    var three := [DigitChar(3)];
    assert three == "3";
    assert IntDigits(3) == "" + three;
    assert 3300 * 10 / 9900 == 3 && 3300 * 10 % 9900 == 3300;
    assert LastIndex([], 3300) == -1;
    assert Expand(3300, 9900, 100, [], "") == Expand(3300, 9900, 99, [] + [3300], "" + three);
    assert LastIndex([3300], 3300) == 0;
    assert Expand(3300, 9900, 99, [3300], three) == Expansion(three, [3300], Some(0), 3300, 99);
    assert ExpansionText(Expansion(three, [3300], Some(0), 3300, 99)) == "[3]";
  }
}
