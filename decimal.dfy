/**
 * Decimal digit strings: the digit runs both parsers read (`/^\d$/`) and the
 * strings the renderers produce by repeated division by ten.
 */
module Decimal {
  import opened Arith

  predicate IsDigit(c: char)
  {
    '0' <= c <= '9'
  }

  predicate AllDigits(s: string)
  {
    forall i :: 0 <= i < |s| ==> IsDigit(s[i])
  }

  function DigitValue(c: char): int
    requires IsDigit(c)
  {
    c as int - '0' as int
  }

  function DigitChar(d: int): (c: char)
    requires 0 <= d < 10
    ensures IsDigit(c) && DigitValue(c) == d
  {
    ('0' as int + d) as char
  }

  /** The number a digit run denotes, read most-significant digit first. */
  function DecValue(s: string): nat
    requires AllDigits(s)
  {
    if s == [] then 0 else DecValue(s[..|s| - 1]) * 10 + DigitValue(s[|s| - 1])
  }

  /** The digits of n without leading zeros; the empty string for zero. */
  function DecDigits(n: nat): (s: string)
    ensures AllDigits(s)
    ensures s == [] <==> n == 0
  {
    if n == 0 then [] else DecDigits(n / 10) + [DigitChar(n % 10)]
  }

  /** How an integer magnitude is printed: its digits, or "0" for zero. */
  function DecString(n: nat): (s: string)
    ensures AllDigits(s) && s != []
  {
    if n == 0 then "0" else DecDigits(n)
  }

  lemma {:induction false} DecValueOfDigits(n: nat)
    ensures DecValue(DecDigits(n)) == n
  {
    if n > 0 {
      var s := DecDigits(n);
      assert s[..|s| - 1] == DecDigits(n / 10);
      DecValueOfDigits(n / 10);
    }
  }

  lemma DecValueOfString(n: nat)
    ensures DecValue(DecString(n)) == n
  {
    if n == 0 {
      assert DecValue("0") == DecValue("") * 10 + DigitValue('0');
    } else {
      DecValueOfDigits(n);
    }
  }

  /** Appending a digit run multiplies by a power of ten. */
  lemma {:induction false} DecValueAppend(s: string, t: string)
    requires AllDigits(s) && AllDigits(t)
    ensures AllDigits(s + t)
    ensures DecValue(s + t) == DecValue(s) * Pow(10, |t|) + DecValue(t)
  {
    if t != [] {
      var u := s + t;
      assert u[..|u| - 1] == s + t[..|t| - 1];
      DecValueAppend(s, t[..|t| - 1]);
      var p := Pow(10, |t| - 1);
      calc {
        DecValue(u);
        (DecValue(s) * p + DecValue(t[..|t| - 1])) * 10 + DigitValue(t[|t| - 1]);
        { MulAssoc(DecValue(s), p, 10); }
        DecValue(s) * (p * 10) + DecValue(t[..|t| - 1]) * 10 + DigitValue(t[|t| - 1]);
      }
    } else {
      assert s + t == s;
    }
  }

  lemma {:induction false} DecValueBound(s: string)
    requires AllDigits(s)
    ensures DecValue(s) < Pow(10, |s|)
  {
    if s != [] {
      DecValueBound(s[..|s| - 1]);
    }
  }

  /** A digit run with no leading zero is the printed form of its own value. */
  lemma {:induction false} DigitsOfDecValue(s: string)
    requires AllDigits(s) && (s == [] || s[0] != '0')
    ensures DecDigits(DecValue(s)) == s
  {
    if s != [] {
      var init := s[..|s| - 1];
      var d := DigitValue(s[|s| - 1]);
      var v := DecValue(s);
      if init == [] {
        assert s == [s[0]];
        assert v == DecValue([]) * 10 + d;
        assert d != 0;
        assert DecDigits(v / 10) == [];
      } else {
        LeadingDigitPositive(init);
        assert v / 10 == DecValue(init) && v % 10 == d;
        DigitsOfDecValue(init);
      }
      assert DigitChar(d) == s[|s| - 1];
      assert s == init + [s[|s| - 1]];
    }
  }

  lemma LeadingDigitPositive(s: string)
    requires AllDigits(s) && s != [] && s[0] != '0'
    ensures DecValue(s) > 0
  {
    if |s| > 1 {
      assert s[..|s| - 1][0] == s[0];
      LeadingDigitPositive(s[..|s| - 1]);
    } else {
      assert DecValue(s) == DecValue([]) * 10 + DigitValue(s[0]);
    }
  }
}
