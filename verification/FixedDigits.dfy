/** The fixed-format (mode 2 and 3) digit loop of dtoa: b / S to a given number of significant digits. */
module FixedDigits {
  import opened Arith
  import opened Words
  import opened Bignum
  import opened Decimal
  import opened DigitBuffer
  import opened FreeDigits

  /** R is num / den rounded to the nearest integer, ties to even. */
  ghost predicate HalfEven(R: int, num: int, den: int) {
    var off := if R * den < num then num - R * den else R * den - num;
    2 * off <= den && (2 * off == den ==> R % 2 == 0)
  }

  /** At most one integer qualifies. */
  lemma HalfEvenUnique(R: int, Q: int, num: int, den: int)
    requires den > 0 && HalfEven(R, num, den) && HalfEven(Q, num, den)
    ensures R == Q
  {
    if R < Q {
      NotBoth(R, Q, num, den);
    } else if Q < R {
      NotBoth(Q, R, num, den);
    }
  }

  lemma NotBoth(R: int, Q: int, num: int, den: int)
    requires den > 0 && R < Q
    ensures !(HalfEven(R, num, den) && HalfEven(Q, num, den))
  {
    MulMono(den, R + 1, Q);
    assert (R + 1) * den == R * den + den;
    if R + 1 < Q {
      MulMono(den, R + 2, Q);
      assert (R + 2) * den == R * den + 2 * den;
    }
  }

  /**
   The digits, with first exponent k, denote b / S in units of 10^k0, rounded half even to ilim significant
   digits.
   */
  ghost predicate Rounded(b: nat, S: nat, ilim: nat, digits: seq<char>, k0: int, k: int) {
    && digits != [] && AllDigits(digits) && digits[0] != '0' && digits[|digits| - 1] != '0'
    && 1 <= |digits| <= ilim
    && (k == k0 || (k == k0 + 1 && digits == "1"))
    && HalfEven(DigitsVal(digits) * Pow(10, k - k0) * Pow(10, ilim - |digits|), b * Pow(10, ilim - 1), S)
  }

  /** Before digit i: b is ten times the remainder that the digits so far leave. */
  ghost predicate Ongoing(b0: nat, S: nat, digits: seq<char>, i: nat, b: nat) {
    && i == |digits| + 1 && AllDigits(digits) && (i >= 2 ==> digits[0] != '0')
    && S > 0 && b0 * Pow(10, i - 1) == 10 * DigitsVal(digits) * S + b && b < 10 * S
    && b > 0 && (i == 1 ==> S <= b)
  }

  lemma Emitted(b0: nat, S: nat, digits: seq<char>, i: nat, b: nat, q: nat, rem: nat)
    requires Ongoing(b0, S, digits, i, b) && q <= 9 && b == q * S + rem && rem < S
    ensures var d := digits + [DigitChar(q)];
      && AllDigits(d) && d[0] != '0' && d[i - 1] == DigitChar(q)
      && DigitsVal(d) == 10 * DigitsVal(digits) + q
      && b0 * Pow(10, i - 1) == DigitsVal(d) * S + rem
    ensures i == 1 ==> q > 0
    ensures rem == 0 ==> q > 0
  {
    LastDigit(digits, q, i);
    hide Pow, DigitsVal;
    if i == 1 { LeadDigit(b, q, S, rem); }
    AddDigit(DigitsVal(digits), q, S);
  }

  lemma Carried(b0: nat, S: nat, d: seq<char>, i: nat, rem: nat)
    requires i == |d| >= 1 && AllDigits(d) && d[0] != '0' && 0 < rem < S
    requires b0 * Pow(10, i - 1) == DigitsVal(d) * S + rem
    ensures Ongoing(b0, S, d, i + 1, 10 * rem)
  {
    assert Pow(10, i) == 10 * Pow(10, i - 1);
    hide Pow, DigitsVal;
    GoOnArith(b0, Pow(10, i - 1), DigitsVal(d), S, rem, 0, 0);
  }

  /** A remainder of zero: the digits are exact at every precision. */
  lemma ExactEnd(b0: nat, S: nat, ilim: nat, d: seq<char>, i: nat, k0: int)
    requires S > 0 && 1 <= i == |d| <= ilim && AllDigits(d) && d[0] != '0' && d[i - 1] != '0'
    requires b0 * Pow(10, i - 1) == DigitsVal(d) * S
    ensures Rounded(b0, S, ilim, d, k0, k0)
  {
    var R := DigitsVal(d) * Pow(10, ilim - i);
    PowAdd(10, i - 1, ilim - i);
    assert DigitsVal(d) * Pow(10, 0) == DigitsVal(d);
    assert i - 1 + (ilim - i) == ilim - 1;
    hide Pow, DigitsVal;
    ExactArith(b0, Pow(10, i - 1), Pow(10, ilim - i), DigitsVal(d), S);
    assert HalfEven(R, b0 * Pow(10, ilim - 1), S);
  }

  lemma ExactArith(b: int, p: int, g: int, D: int, S: int)
    requires b * p == D * S
    ensures b * (p * g) == (D * g) * S
  {
    MulAssoc(b, p, g);
    assert (D * S) * g == (D * g) * S;
  }

  /** The half-even decision on the last remainder. */
  lemma RoundEnd(b0: nat, S: nat, ilim: nat, D: int, rem: nat, q: nat, up: bool)
    requires ilim >= 1 && 0 < rem < S && b0 * Pow(10, ilim - 1) == D * S + rem
    requires D % 2 == q % 2 && (up <==> 2 * rem > S || (2 * rem == S && q % 2 == 1))
    ensures HalfEven(if up then D + 1 else D, b0 * Pow(10, ilim - 1), S)
  {
    AddDigit(0, D + 1, S);
    assert (D + 1) * S == D * S + S;
  }

  lemma LastParity(D: int, q: nat)
    ensures (10 * D + q) % 2 == q % 2
  {
    DivModUnique(q, 2, q / 2, q % 2);
    DivModUnique(10 * D + q, 2, 5 * D + q / 2, q % 2);
  }

  /** The rounding after the loop: roundoff or trimzeros. */
  method RoundLast(s: array<char>, ilim: nat, up: bool, k0: int, ghost b0: nat, ghost S: nat) returns (n: nat, k: int)
    requires 1 <= ilim < s.Length && AllDigits(s[..ilim]) && s[0] != '0'
    requires HalfEven(if up then DigitsVal(s[..ilim]) + 1 else DigitsVal(s[..ilim]), b0 * Pow(10, ilim - 1), S)
    modifies s
    ensures n <= ilim && Rounded(b0, S, ilim, s[..n], k0, k)
  {
    ghost var D := DigitsVal(s[..ilim]);
    assert Pow(10, 0) == 1 && Pow(10, 1) == 10;
    k := k0;
    if up {
      var carry;
      n, carry := RoundOff(s, ilim);
      if carry {
        k := k + 1;
        assert s[..n] == "1";
        OneIsOne(ilim);
        assert DigitsVal(s[..n]) * Pow(10, k - k0) * Pow(10, ilim - n) == D + 1;
        return;
      }
      assert DigitsVal(s[..n]) * Pow(10, k - k0) * Pow(10, ilim - n) == D + 1;
    } else {
      n := TrimZeros(s, ilim);
      assert DigitsVal(s[..n]) * Pow(10, k - k0) * Pow(10, ilim - n) == D;
    }
  }

  lemma OneIsOne(ilim: nat)
    requires ilim >= 1
    ensures DigitsVal("1") * Pow(10, 1) * Pow(10, ilim - 1) == Pow(10, ilim)
  {
    assert "1"[..0] == [];
    assert DigitsVal("1") == 1;
    assert Pow(10, 1) == 10;
  }

  /** The fixed-format loop: s receives b / S rounded half even to at most ilim significant digits. */
  method FixedFormat(b0: Bigint, S: Bigint, ilim: nat, k0: int, s: array<char>) returns (n: nat, k: int)
    requires b0.Valid() && Aligned(S) && Separate(b0, S) && S.Val() <= b0.Val() < 10 * S.Val()
    requires 1 <= ilim < s.Length
    modifies b0, b0.x, s
    ensures n <= ilim && Rounded(old(b0.Val()), S.Val(), ilim, s[..n], k0, k)
  {
    ghost var v, vS := b0.Val(), S.Val();
    var b := b0;
    var i := 1;
    assert s[..0] == [] && Pow(10, 0) == 1 && DigitsVal([]) == 0;
    assert Ongoing(v, vS, s[..0], 1, b.Val());
    hide Value, Pow, Bigint.Val, DigitsVal;
    while true
      invariant 1 <= i <= ilim
      invariant b.Valid() && Aligned(S) && Separate(b, S) && S.Val() == vS
      invariant b == b0 || (fresh(b) && fresh(b.x))
      invariant Ongoing(v, vS, s[..i - 1], i, b.Val())
      decreases ilim - i
    {
      var done, up;
      done, up, b := FixedTurn(b, S, ilim, i, s, v);
      if done {
        ExactEnd(v, vS, ilim, s[..i], i, k0);
        return i, k0;
      }
      if i >= ilim {
        n, k := RoundLast(s, ilim, up, k0, v, vS);
        return;
      }
      i := i + 1;
    }
  }

  /** One digit: exact when nothing remains; at the last place the comparison of 2 b with S decides. */
  method FixedTurn(b0: Bigint, S: Bigint, ilim: nat, i: nat, s: array<char>, ghost v: nat)
    returns (done: bool, up: bool, b: Bigint)
    requires b0.Valid() && Aligned(S) && Separate(b0, S)
    requires 1 <= i <= ilim < s.Length && Ongoing(v, S.Val(), s[..i - 1], i, b0.Val())
    modifies b0, b0.x, s
    ensures b == b0 || (fresh(b) && fresh(b.x))
    ensures AllDigits(s[..i]) && s[0] != '0'
    ensures done ==> s[i - 1] != '0' && v * Pow(10, i - 1) == DigitsVal(s[..i]) * S.Val()
    ensures !done && i < ilim ==> b.Valid() && Separate(b, S) && Ongoing(v, S.Val(), s[..i], i + 1, b.Val())
    ensures !done && i == ilim ==>
              HalfEven(if up then DigitsVal(s[..ilim]) + 1 else DigitsVal(s[..ilim]), v * Pow(10, ilim - 1), S.Val())
  {
    hide Value, Pow, Bigint.Val, DigitsVal;
    b, done, up := b0, false, false;
    ghost var digits, vb, vS := s[..i - 1], b.Val(), S.Val();
    var q := NextDigit(b, S);
    ghost var rem := b.Val();
    Emitted(v, vS, digits, i, vb, q, rem);
    s[i - 1] := DigitChar(q);
    assert s[..i] == digits + [DigitChar(q)];
    assert s[0] == s[..i][0];
    ZeroTest(b);
    if b.x[0] == 0 && b.wds <= 1 {
      done := true;
      return;
    }
    if i >= ilim {
      up := HalfUp(b, S, q);
      LastParity(DigitsVal(digits), q);
      RoundEnd(v, vS, ilim, DigitsVal(s[..i]), rem, q, up);
      return;
    }
    Carried(v, vS, s[..i], i, rem);
    b := MultAdd(b, 10, 0);
  }
}
