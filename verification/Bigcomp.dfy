/**
 bigcomp: deciding, digit by digit, on which side of the half-way point between two
 doubles a long decimal lies.
 */
module BigcompDigits {
  import opened Arith
  import opened Words
  import opened Bignum
  import opened Decimal
  import opened FreeDigits

  /** The digits compared: nd0 of them from the start of s0, any others from dp1 on. */
  function Counted(s0: seq<char>, nd: nat, nd0: nat, dp1: nat): seq<char>
    requires nd0 <= |s0| && (nd > nd0 ==> dp1 + (nd - nd0) <= |s0|)
  {
    s0[..nd0] + (if nd > nd0 then s0[dp1..dp1 + (nd - nd0)] else [])
  }

  /** Digits from nd on are zeros, the one before is not. */
  ghost predicate EndsAt(digits: seq<char>, nd: nat) {
    && 1 <= nd <= |digits| && AllDigits(digits) && digits[nd - 1] != '0'
    && forall i :: nd <= i < |digits| ==> digits[i] == '0'
  }

  function Sign(n: int): int { if n < 0 then -1 else if n > 0 then 1 else 0 }

  /** The digits d1.d2d3... less b / d, times d * 10^(L - 1). */
  ghost function Excess(b: nat, d: nat, digits: seq<char>): int
    requires digits != []
  {
    DigitsVal(digits) * d - b * Pow(10, |digits| - 1)
  }

  /**
   The digits agree with b / d as far as they go, and b / d ends exactly one digit later.
   The final test looks at the remainder after that digit, which is zero, and not at the digit.
   */
  ghost predicate OneDigitShort(b: nat, d: nat, digits: seq<char>)
    requires digits != [] && d > 0
  {
    Excess(b, d, digits) < 0 < Excess(b, d, digits) + d && 10 * Excess(b, d, digits) % d == 0
  }

  /** What the comparison returns. */
  ghost function Verdict(b: nat, d: nat, digits: seq<char>): int
    requires digits != [] && d > 0
  {
    if OneDigitShort(b, d, digits) then 0 else Sign(Excess(b, d, digits))
  }

  /** After i equal digits, the next digit dig of b / d and the remainder rem. */
  ghost predicate Matched(b: nat, d: nat, digits: seq<char>, i: nat, dig: nat, rem: nat) {
    && i <= |digits| && d > 0 && rem < d && (i > 0 ==> dig <= 9)
    && b * Pow(10, i) == (10 * DigitsVal(digits[..i]) + dig) * d + rem
  }

  /** A differing digit decides. */
  lemma Differ(b: nat, d: nat, digits: seq<char>, i: nat, dig: nat, rem: nat)
    requires Matched(b, d, digits, i, dig, rem) && i < |digits| && AllDigits(digits)
    requires DigitOf(digits[i]) != dig
    ensures DigitOf(digits[i]) > dig ==> Excess(b, d, digits) > 0
    ensures DigitOf(digits[i]) < dig ==> Excess(b, d, digits) + d <= 0
  {
    var L := |digits|;
    var head, tail := digits[..i + 1], digits[i + 1..];
    assert digits == head + tail;
    DigitsConcat(head, tail);
    DigitsBound(tail);
    DigitsSnoc(digits, i);
    PowAdd(10, i, L - 1 - i);
    assert i + (L - 1 - i) == L - 1;
    PowPos(10, L - 1 - i);
    hide Pow, DigitsVal;
    DifferArith(b, d, Pow(10, i), Pow(10, L - 1 - i), DigitsVal(digits[..i]), DigitOf(digits[i]), dig, rem,
        DigitsVal(tail));
  }

  lemma DifferArith(b: int, d: int, p: int, q: int, P: int, c: int, dig: int, rem: int, t: int)
    requires b * p == (10 * P + dig) * d + rem && 0 <= rem < d && 0 <= t < q && b >= 0
    ensures c > dig ==> ((10 * P + c) * q + t) * d > b * (p * q)
    ensures c < dig ==> ((10 * P + c) * q + t) * d + d <= b * (p * q)
  {
    MulAssoc(b, p, q);
    if c > dig { Larger(10 * P + c, 10 * P + dig, b * p, d, q, rem, t); }
    if c < dig { Smaller(10 * P + c, 10 * P + dig, b * p, d, q, rem, t); }
  }

  lemma Larger(C: int, A: int, E: int, d: int, q: int, rem: int, t: int)
    requires E == A * d + rem && 0 <= rem < d && 0 <= t < q && C > A
    ensures (C * q + t) * d > E * q
  {
    MulMono(d, A + 1, C);
    assert (A + 1) * d == A * d + d;
    MulMonoStrict(q, E, C * d);
    assert (C * d) * q == (C * q) * d;
    MulNonNeg(t, d);
  }

  lemma Smaller(C: int, A: int, E: int, d: int, q: int, rem: int, t: int)
    requires E == A * d + rem && 0 <= rem < d && 0 <= t < q && C < A
    ensures (C * q + t) * d + d <= E * q
  {
    MulMono(q, C + 1, A);
    assert (C + 1) * q == C * q + q;
    MulMono(d, C * q + t + 1, A * q);
    assert (C * q + t + 1) * d == (C * q + t) * d + d;
    assert (A * q) * d == (A * d) * q;
    MulMono(q, A * d, E);
  }

  /** An equal digit, with the remainder times ten giving the next one. */
  lemma EqualDigit(b: nat, d: nat, digits: seq<char>, i: nat, dig: nat, rem: nat, dig1: nat, rem1: nat)
    requires Matched(b, d, digits, i, dig, rem) && i < |digits| && DigitOf(digits[i]) == dig
    requires 10 * rem == dig1 * d + rem1 && rem1 < d && dig1 <= 9
    ensures Matched(b, d, digits, i + 1, dig1, rem1)
  {
    DigitsSnoc(digits, i);
    PowStep(10, i);
    hide Pow, DigitsVal;
    EqualArith(b, d, Pow(10, i), 10 * DigitsVal(digits[..i]) + dig, rem, dig1, rem1);
  }

  lemma EqualArith(b: int, d: int, p: int, A: int, rem: int, dig1: int, rem1: int)
    requires b * p == A * d + rem && 10 * rem == dig1 * d + rem1
    ensures b * (10 * p) == (10 * A + dig1) * d + rem1
  {
    Rotate(b, 10, p);
    assert (10 * A + dig1) * d == 10 * (A * d) + dig1 * d;
  }

  /** Nothing left of b / d after an equal digit: only nonzero digits still to come make a difference. */
  lemma Ended(b: nat, d: nat, digits: seq<char>, i: nat, dig: nat, nd: nat)
    requires Matched(b, d, digits, i, dig, 0) && i < |digits| && DigitOf(digits[i]) == dig && EndsAt(digits, nd)
    ensures Verdict(b, d, digits) == if i + 1 < nd then 1 else 0
  {
    hide Pow, DigitsVal, EndsAt;
    var L := |digits|;
    var head, tail := digits[..i + 1], digits[i + 1..];
    assert digits == head + tail;
    DigitsConcat(head, tail);
    DigitsSnoc(digits, i);
    PowAdd(10, i, L - 1 - i);
    assert i + (L - 1 - i) == L - 1;
    TailValue(digits, i + 1, nd);
    MulPosIff(DigitsVal(tail), d);
    EndedArith(b, d, Pow(10, i), Pow(10, L - 1 - i), 10 * DigitsVal(digits[..i]) + dig, DigitsVal(tail));
  }

  /** The digits from i on are zero exactly when they lie beyond the last nonzero one. */
  lemma TailValue(digits: seq<char>, i: nat, nd: nat)
    requires i <= |digits| && EndsAt(digits, nd)
    ensures DigitsVal(digits[i..]) >= 0 && (i < nd <==> DigitsVal(digits[i..]) > 0)
  {
    var tail := digits[i..];
    if i < nd { NonzeroTail(tail, nd - 1 - i); } else { DigitsZeros(tail); }
  }

  lemma MulPosIff(a: int, d: int)
    requires a >= 0 && d > 0
    ensures a * d >= 0 && (a * d > 0 <==> a > 0)
  {
    if a > 0 { MulPos(a, d); }
  }

  lemma EndedArith(b: int, d: int, p: int, q: int, A: int, t: int)
    requires b * p == A * d
    ensures (A * q + t) * d - b * (p * q) == t * d
  {
    MulAssoc(b, p, q);
    assert (A * q) * d == (A * d) * q;
  }

  lemma {:induction false} NonzeroTail(s: seq<char>, k: nat)
    requires k < |s| && AllDigits(s) && s[k] != '0'
    ensures DigitsVal(s) > 0
  {
    var i := |s| - 1;
    assert IsDigit(s[i]);
    if k < i {
      NonzeroTail(s[..i], k);
    }
  }

  /** All digits equal: the remainder decides, and a nonzero digit before a zero remainder goes unseen. */
  lemma Exhausted(b: nat, d: nat, digits: seq<char>, dig: nat, rem: nat)
    requires digits != [] && Matched(b, d, digits, |digits|, dig, rem)
    ensures Verdict(b, d, digits) == if rem > 0 then -1 else 0
  {
    var L := |digits|;
    assert digits[..L] == digits;
    PowStep(10, L - 1);
    Rotate(b, 10, Pow(10, L - 1));
    var x := Excess(b, d, digits);
    assert 10 * x == -(dig * d + rem) by {
      hide Pow, DigitsVal;
      SumArith(b * Pow(10, L - 1), DigitsVal(digits), d, dig, rem);
    }
    hide Pow, DigitsVal, Excess;
    Residue(10 * x, dig, rem, d);
  }

  /** -(dig d + rem) is a multiple of d exactly when rem is zero, and lies in (-10 d, 0] then. */
  lemma Residue(y: int, dig: int, rem: int, d: int)
    requires y == -(dig * d + rem) && 0 <= rem < d && dig >= 0
    ensures y <= 0 && (y == 0 <==> dig == 0 && rem == 0)
    ensures y % d == 0 <==> rem == 0
    ensures dig <= 9 ==> y + 10 * d > 0
  {
    MulNonNeg(dig, d);
    if dig > 0 { MulPos(dig, d); }
    if dig <= 9 { MulMono(d, dig, 9); }
    NegProduct(dig, d);
    DivModUnique(y, d, if rem == 0 then -dig else -dig - 1, if rem == 0 then 0 else d - rem);
  }

  lemma NegProduct(a: int, d: int)
    ensures (-a) * d == -(a * d) && (-a - 1) * d == -(a * d) - d
  {
  }

  lemma SumArith(bp: int, N: int, d: int, dig: int, rem: int)
    requires 10 * bp == (10 * N + dig) * d + rem
    ensures 10 * (N * d - bp) == -(dig * d + rem)
  {
    assert (10 * N + dig) * d == 10 * (N * d) + dig * d;
  }

  /** The body of both comparison loops: character c against dig, then the next digit of b / d. */
  method CompareOne(b0: Bigint, d: Bigint, c: char, dig0: nat, ghost digits: seq<char>, i: nat, nd: nat, ghost v: nat)
    returns (done: bool, dd: int, b: Bigint, dig: nat)
    requires b0.Valid() && Aligned(d) && Separate(b0, d)
    requires EndsAt(digits, nd) && i < |digits| && c == digits[i]
    requires Matched(v, d.Val(), digits, i, dig0, b0.Val())
    modifies b0, b0.x
    ensures b == b0 || (fresh(b) && fresh(b.x))
    ensures done ==> Sign(dd) == Verdict(v, d.Val(), digits)
    ensures !done ==> b.Valid() && Separate(b, d) && Matched(v, d.Val(), digits, i + 1, dig, b.Val()) && dd == 0
  {
    hide Value, Pow, Bigint.Val, DigitsVal, Matched;
    b, dig := b0, dig0;
    ghost var vd, rem := d.Val(), b.Val();
    MatchedSmall(v, vd, digits, i, dig, rem);
    dd := DigitOf(c) - dig;
    if dd != 0 {
      Differ(v, vd, digits, i, dig, rem);
      return true, dd, b, dig;
    }
    ZeroTest(b);
    if b.x[0] == 0 && b.wds == 1 {
      Ended(v, vd, digits, i, dig, nd);
      if i + 1 < nd {
        dd := 1;
      }
      return true, dd, b, dig;
    }
    b := MultAdd(b, 10, 0);
    dig := NextDigit(b, d);
    EqualDigit(v, vd, digits, i, dig0, rem, dig, b.Val());
    return false, 0, b, dig;
  }

  lemma MatchedSmall(v: nat, d: nat, digits: seq<char>, i: nat, dig: nat, rem: nat)
    requires Matched(v, d, digits, i, dig, rem)
    ensures rem < d
  {
  }

  /**
   The comparison of bigcomp: dd has the sign of (digits - b / d), except that it is zero
   when b / d has exactly one digit more than the string.
   */
  method CompareDigits(b0: Bigint, d: Bigint, dig0: nat, s0: seq<char>, nd: nat, nd0: nat, dp1: nat, ghost v: nat)
    returns (dd: int)
    requires b0.Valid() && Aligned(d) && Separate(b0, d)
    requires nd0 <= |s0| && (nd > nd0 ==> dp1 + (nd - nd0) <= |s0|)
    requires EndsAt(Counted(s0, nd, nd0, dp1), nd)
    requires Matched(v, d.Val(), Counted(s0, nd, nd0, dp1), 0, dig0, b0.Val())
    modifies b0, b0.x
    ensures d.Val() > 0 && Sign(dd) == Verdict(v, d.Val(), Counted(s0, nd, nd0, dp1))
  {
    hide Value, Pow, Bigint.Val, DigitsVal, Matched, Verdict;
    ghost var digits, vd := Counted(s0, nd, nd0, dp1), d.Val();
    MatchedSmall(v, vd, digits, 0, dig0, b0.Val());
    var b, dig, done := b0, dig0, false;
    dd := 0;
    var i := 0;
    while i < nd0
      invariant 0 <= i <= nd0 && dd == 0
      invariant b.Valid() && Aligned(d) && Separate(b, d) && d.Val() == vd
      invariant b == b0 || (fresh(b) && fresh(b.x))
      invariant Matched(v, vd, digits, i, dig, b.Val())
    {
      done, dd, b, dig := CompareOne(b, d, s0[i], dig, digits, i, nd, v);
      if done { return; }
      i := i + 1;
    }
    var j := dp1;
    while i < nd
      invariant nd0 <= i && (i <= nd || i == nd0) && dd == 0 && j == dp1 + i - nd0
      invariant b.Valid() && Aligned(d) && Separate(b, d) && d.Val() == vd
      invariant b == b0 || (fresh(b) && fresh(b.x))
      invariant Matched(v, vd, digits, i, dig, b.Val())
    {
      done, dd, b, dig := CompareOne(b, d, s0[j], dig, digits, i, nd, v);
      if done { return; }
      i := i + 1;
      j := j + 1;
    }
    assert i == |digits|;
    ZeroTest(b);
    Exhausted(v, vd, digits, dig, b.Val());
    if b.x[0] != 0 || b.wds > 1 {
      dd := -1;
    }
  }

  /** The digit that the string lacks, from the remainder. */
  lemma ShortDigit(X: int, D: int) returns (c: int)
    requires D > 0 && X < 0 < X + D && 10 * X % D == 0
    ensures 1 <= c <= 9 && 10 * X == -c * D
  {
    c := -(10 * X / D);
    assert 10 * X == (10 * X / D) * D;
    assert 10 * X == -c * D;
    if c <= 0 { MulNonNeg(-c, D); }
    if c >= 10 { MulMono(D, 10, c); NegOf(c, D); }
  }

  lemma NegOf(c: int, D: int)
    ensures -c * D == -(c * D)
  {
  }

  lemma DigitShort(X: int, D: int, c: int)
    requires D > 0 && 1 <= c <= 9 && 10 * X == -c * D
    ensures X < 0 < X + D && 10 * X % D == 0
  {
    NegOf(c, D);
    MulMono(D, c, 9);
    MulMono(D, 1, c);
    DivModUnique(10 * X, D, -c, 0);
  }

  /** b / d is the digits followed by one more, nonzero digit c. */
  ghost predicate Continues(b: nat, d: nat, digits: seq<char>, c: int) {
    1 <= c <= 9 && b * Pow(10, |digits|) == (10 * DigitsVal(digits) + c) * d
  }

  lemma ShortDigits(b: nat, d: nat, digits: seq<char>)
    requires digits != [] && d > 0
    ensures OneDigitShort(b, d, digits) <==> exists c :: Continues(b, d, digits, c)
  {
    var X, N, p := Excess(b, d, digits), DigitsVal(digits), Pow(10, |digits| - 1);
    PowStep(10, |digits| - 1);
    hide Pow, DigitsVal;
    if OneDigitShort(b, d, digits) {
      var c := ShortDigit(X, d);
      TenExcess(b, d, N, p, c);
      assert Continues(b, d, digits, c);
    }
    if c :| Continues(b, d, digits, c) {
      TenExcess(b, d, N, p, c);
      DigitShort(X, d, c);
    }
  }

  lemma TenExcess(b: int, d: int, N: int, p: int, c: int)
    ensures 10 * (N * d - b * p) == -c * d <==> b * (10 * p) == (10 * N + c) * d
  {
    Rotate(b, 10, p);
    assert (10 * N + c) * d == 10 * (N * d) + c * d;
    NegOf(c, d);
  }

  /** The verdict is the true sign exactly when b / d is not the digits followed by one more nonzero digit. */
  lemma VerdictExact(b: nat, d: nat, digits: seq<char>)
    requires digits != [] && d > 0
    ensures Verdict(b, d, digits) == Sign(Excess(b, d, digits)) <==> !exists c :: Continues(b, d, digits, c)
  {
    hide Excess;
    ShortDigits(b, d, digits);
  }
}
