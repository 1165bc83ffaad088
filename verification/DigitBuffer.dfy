/** The endings shared by the digit loops of dtoa: roundoff and trimzeros, on the output buffer. */
module DigitBuffer {
  import opened Arith
  import opened Decimal

  lemma OneTimesMore(a: int, p: int)
    ensures (a + 1) * p == a * p + p
  {
  }

  lemma RoundedUp(s: seq<char>, t: seq<char>, n: nat, m: nat)
    requires 0 < m <= n <= |s| && |t| == |s|
    requires forall i :: m <= i < n ==> s[i] == '9'
    requires t[..m - 1] == s[..m - 1] && DigitOf(t[m - 1]) == DigitOf(s[m - 1]) + 1
    ensures DigitsVal(t[..m]) * Pow(10, n - m) == DigitsVal(s[..n]) + 1
  {
    hide Pow, DigitsVal;
    assert s[..n] == s[..m] + s[m..n];
    DigitsConcat(s[..m], s[m..n]);
    DigitsNines(s[m..n]);
    DigitsSnoc(s, m - 1);
    DigitsSnoc(t, m - 1);
    OneTimesMore(DigitsVal(s[..m]), Pow(10, n - m));
  }

  /**
   roundoff: decimal increment of the first n characters. Trailing nines are dropped; if all
   are nines the result is a single '1' and carry is set (k goes up by one).
   */
  method RoundOff(s: array<char>, n: nat) returns (m: nat, carry: bool)
    requires 0 < n <= s.Length && AllDigits(s[..n])
    modifies s
    ensures 0 < m <= n && AllDigits(s[..m]) && s[m - 1] != '0'
    ensures carry <==> DigitsVal(old(s[..n])) + 1 == Pow(10, n)
    ensures carry ==> m == 1 && s[0] == '1'
    ensures !carry ==> DigitsVal(s[..m]) * Pow(10, n - m) == DigitsVal(old(s[..n])) + 1
    ensures !carry && old(s[0]) != '0' ==> s[0] != '0'
    ensures !carry && old(s[n - 1]) != '9' ==> m == n
  {
    ghost var s0 := s[..];
    ghost var d := s[..n];
    m := n - 1;
    while s[m] == '9'
      invariant 0 <= m < n && s[..] == s0
      invariant forall i :: m < i < n ==> d[i] == '9'
      decreases m
    {
      if m == 0 {
        DigitsNines(d);
        s[0] := '1';
        return 1, true;
      }
      m := m - 1;
    }
    assert IsDigit(d[m]);
    NotNines(d, m);
    s[m] := DigitChar(DigitOf(s[m]) + 1);
    m := m + 1;
    assert s[..][..m - 1] == s0[..m - 1];
    RoundedUp(s0, s[..], n, m);
    assert s0[..n] == d && s[..][..m] == s[..m];
    forall i | 0 <= i < m ensures IsDigit(s[..m][i]) {
      if i < m - 1 { assert IsDigit(d[i]); }
    }
    carry := false;
  }

  lemma {:induction false} NotNines(d: seq<char>, m: nat)
    requires m < |d| && AllDigits(d) && d[m] != '9'
    ensures DigitsVal(d) + 1 != Pow(10, |d|)
  {
    var i := |d| - 1;
    DigitsBound(d[..i]);
    assert IsDigit(d[i]);
    if m < i {
      NotNines(d[..i], m);
    }
  }

  /** trimzeros: drop trailing zeros; some digit is nonzero. */
  method TrimZeros(s: array<char>, n: nat) returns (m: nat)
    requires 0 < n <= s.Length && AllDigits(s[..n]) && s[0] != '0'
    ensures 0 < m <= n && s[m - 1] != '0'
    ensures DigitsVal(s[..m]) * Pow(10, n - m) == DigitsVal(s[..n])
  {
    m := n - 1;
    while s[m] == '0'
      invariant 0 <= m < n
      invariant forall i :: m < i < n ==> s[i] == '0'
      decreases m
    {
      m := m - 1;
    }
    m := m + 1;
    assert s[..n] == s[..m] + s[m..n];
    DigitsConcat(s[..m], s[m..n]);
    DigitsZeros(s[m..n]);
  }
}
