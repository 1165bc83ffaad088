/** Decimal digit strings. */
module Decimal {
  import opened Arith

  predicate IsDigit(c: char) { '0' <= c <= '9' }

  predicate AllDigits(s: seq<char>) {
    forall i :: 0 <= i < |s| ==> IsDigit(s[i])
  }

  function DigitOf(c: char): int { c as int - '0' as int }

  function DigitChar(d: int): (c: char)
    requires 0 <= d <= 9
    ensures IsDigit(c) && DigitOf(c) == d
  {
    ('0' as int + d) as char
  }

  /** The number a digit string denotes. */
  function DigitsVal(s: seq<char>): (v: int)
    ensures AllDigits(s) ==> v >= 0
  {
    if s == [] then 0 else
      assert AllDigits(s) ==> IsDigit(s[|s| - 1]);
      10 * DigitsVal(s[..|s| - 1]) + DigitOf(s[|s| - 1])
  }

  lemma DigitsSnoc(s: seq<char>, i: nat)
    requires i < |s|
    ensures DigitsVal(s[..i + 1]) == 10 * DigitsVal(s[..i]) + DigitOf(s[i])
  {
    assert s[..i + 1][..i] == s[..i];
  }

  lemma {:induction false} DigitsBound(s: seq<char>)
    requires AllDigits(s)
    ensures DigitsVal(s) < Pow(10, |s|)
  {
    if s != [] {
      DigitsBound(s[..|s| - 1]);
      assert IsDigit(s[|s| - 1]);
    }
  }

  lemma {:induction false} DigitsConcat(s: seq<char>, t: seq<char>)
    ensures DigitsVal(s + t) == DigitsVal(s) * Pow(10, |t|) + DigitsVal(t)
    decreases |t|
  {
    if t == [] {
      assert s + t == s;
    } else {
      var i := |t| - 1;
      assert (s + t)[..|s| + i] == s + t[..i];
      DigitsConcat(s, t[..i]);
      TenTimes(DigitsVal(s), Pow(10, i), DigitsVal(t[..i]), DigitOf(t[i]));
    }
  }

  lemma TenTimes(a: int, p: int, b: int, d: int)
    ensures 10 * (a * p + b) + d == a * (10 * p) + (10 * b + d)
  {
    Rotate(a, 10, p);
  }

  lemma {:induction false} DigitsZeros(s: seq<char>)
    requires forall i :: 0 <= i < |s| ==> s[i] == '0'
    ensures DigitsVal(s) == 0
  {
    if s != [] {
      DigitsZeros(s[..|s| - 1]);
    }
  }

  lemma {:induction false} DigitsNines(s: seq<char>)
    requires forall i :: 0 <= i < |s| ==> s[i] == '9'
    ensures DigitsVal(s) == Pow(10, |s|) - 1
  {
    if s != [] {
      DigitsNines(s[..|s| - 1]);
    }
  }

  /** A leading nonzero digit fixes the number of digits. */
  lemma {:induction false} DigitsLead(s: seq<char>)
    requires s != [] && AllDigits(s) && s[0] != '0'
    ensures DigitsVal(s) >= Pow(10, |s| - 1)
  {
    if |s| > 1 {
      var t := s[..|s| - 1];
      DigitsLead(t);
      assert IsDigit(s[|s| - 1]);
    } else {
      assert s[..0] == [];
      assert IsDigit(s[0]);
    }
  }
}
