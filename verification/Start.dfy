/** Everything of fpconv_strtod between the scanner and the correction loop. */
module StartingPoint {
  import opened Arith
  import opened Rational
  import opened Ieee
  import opened ShortestDigits
  import opened ScaledDoubles
  import opened Refinement
  import opened RelativeErrors
  import opened GrowingPowers
  import opened ShrinkingPowers

  lemma DoneRange(X: real, n: Bits)
    requires ReadsAs(X, n) && RPow(2, -1000) <= X <= RPow(2, 1000)
    ensures 0 < ExpField(n) && n < INFINITY
  {
    hide RPow, ReadsAs;
    RPowPos(2, -1000);
    NearSelf(X);
    NearRounded(X, X, 0, n);
  }

  /** Up to fifteen digits and a power of ten that is exact: one rounding gives the nearest double. */
  method Shortcut(rv0: Bits, nd: nat, e0: int, nearest: real -> Bits, ghost H: nat) returns (s: Start, found: bool)
    requires Rounds(nearest) && nd <= 15 && 0 < H < Pow(10, nd) && DoubleValue(rv0) == H as real && 0 < rv0 < INFINITY
    ensures found ==> s.Done? && Approximates(s, Tenfold(H as real, e0))
  {
    hide Pow, RPow, DoubleValue, ReadsAs, Tenfold, Near;
    var rv, e := rv0, e0;
    ghost var h := H as real;
    FewDigits(H, nd);
    s, found := TooSmall, false;
    if e == 0 {
      NoTens(h);
      ReadsSelf(rv);
      TimesTenRange(h, 0, 16, 0);
      DoneRange(h, rv);
      return Done(rv), true;
    }
    if e > 0 {
      NoTens(h);
      if e <= 22 {
        rv := ByTens(rv, e, nearest, h, 0, e);
        return Done(rv), true;
      }
      var i := 15 - nd;
      if e <= 22 + i {
        e := e - i;
        rv := ExactByTens(rv, i, nearest, H, nd);
        rv := ByTens(rv, e, nearest, h, i, e0);
        return Done(rv), true;
      }
    } else if e >= -22 {
      rv := DividedByTens(rv, -e, nearest, h);
      return Done(rv), true;
    }
  }

  lemma FewDigits(H: nat, nd: nat)
    requires nd <= 15 && 0 < H < Pow(10, nd)
    ensures H < 1_000_000_000_000_000 && Headed(H as real)
  {
    hide Pow, RPow;
    PowMono(10, nd, 15);
    FifteenDigits();
    HeadIsHeaded(H);
  }

  /** A product that is still an integer below 10^15. */
  method ExactByTens(rv0: Bits, i: nat, nearest: real -> Bits, ghost H: nat, ghost nd: nat) returns (rv: Bits)
    requires Rounds(nearest) && nd <= 15 && i == 15 - nd && 0 < H < Pow(10, nd) && DoubleValue(rv0) == H as real
    ensures DoubleValue(rv) == Tenfold(H as real, i)
  {
    hide Pow, RPow, DoubleValue, ReadsAs;
    RPowPos(10, i);
    var c := nearest(RPow(10, i));
    assert ReadsAs(RPow(10, i), c);
    TenExact(i, c);
    rv := Multiply(rv0, c, nearest);
    ghost var M := H * Pow(10, i);
    IntegerProduct(H, nd, i);
    SameProduct(DoubleValue(rv0), DoubleValue(c), H as real, RPow(10, i));
    assert DoubleValue(rv0) * DoubleValue(c) == Tenfold(H as real, i);
    RoundsExactly(M, 0, Tenfold(H as real, i), rv);
  }

  lemma IntegerProduct(H: nat, nd: nat, i: nat)
    requires nd <= 15 && i == 15 - nd && 0 < H < Pow(10, nd)
    ensures var M := H * Pow(10, i); 1 <= M < 2 * HIDDEN && Tenfold(H as real, i) == (M as real) * RPow(2, 0)
  {
    hide Pow, RPow;
    PowPos(10, i);
    PowAdd(10, nd, i);
    PowMono(10, 15, 16);
    FifteenDigits();
    MulMono(Pow(10, i), H + 1, Pow(10, nd));
    MulComm(Pow(10, i), H + 1);
    MulComm(Pow(10, i), Pow(10, nd));
    assert (H + 1) * Pow(10, i) == H * Pow(10, i) + Pow(10, i);
    MulPos(H, Pow(10, i));
    NatRPow(10, i);
    CastMul(H, Pow(10, i));
    RPowZero(2);
  }

  method DividedByTens(rv: Bits, k: nat, nearest: real -> Bits, ghost h: real) returns (n: Bits)
    requires Rounds(nearest) && k <= 22 && Headed(h) && DoubleValue(rv) == h
    ensures ReadsAs(Tenfold(h, 0 - k), n) && 0 < ExpField(n) && n < INFINITY
  {
    hide Pow, RPow, DoubleValue, ReadsAs, Headed;
    RPowPos(10, k);
    RPowPos(10, 0 - k);
    RPowInverse(10, k);
    var c := nearest(RPow(10, k));
    assert ReadsAs(RPow(10, k), c);
    TenExact(k, c);
    NonNegative(rv);
    QuotientIs(DoubleValue(rv), DoubleValue(c), RPow(10, 0 - k));
    Times(RPow(10, 0 - k), DoubleValue(rv), h);
    var x := DoubleValue(rv) / DoubleValue(c);
    assert x == Tenfold(h, 0 - k);
    n := nearest(x);
    assert ReadsAs(x, n);
    HeadedTens(h, k);
    DoneRange(x, n);
  }

  lemma HeadedTens(h: real, k: nat)
    requires Headed(h) && k <= 22
    ensures RPow(2, -1000) <= Tenfold(h, 0 - k) <= RPow(2, 1000)
  {
    hide RPow;
    TimesTenRange(h, 0, 16, 0 - k);
  }

  /** The last product of the shortcut. */
  method ByTens(rv: Bits, e: nat, nearest: real -> Bits, ghost h: real, ghost i: nat, ghost e0: nat) returns (n: Bits)
    requires Rounds(nearest) && e <= 22 && i <= 15 && e0 == i + e && Headed(h) && DoubleValue(rv) == Tenfold(h, i)
    ensures ReadsAs(Tenfold(h, e0), n) && 0 < ExpField(n) && n < INFINITY
  {
    hide Pow, RPow, DoubleValue, ReadsAs, Tenfold;
    RPowPos(10, e);
    var c := nearest(RPow(10, e));
    assert ReadsAs(RPow(10, e), c);
    TenExact(e, c);
    n := Multiply(rv, c, nearest);
    TenTwice(h, i, e);
    SameProduct(DoubleValue(rv), DoubleValue(c), Tenfold(h, i), RPow(10, e));
    assert DoubleValue(rv) * DoubleValue(c) == Tenfold(h, e0);
    TimesTenRange(h, 0, 16, e0);
    DoneRange(Tenfold(h, e0), n);
  }

  /**
   Everything before the correction loop, from the words of the first sixteen digits, the count of digits and the
   exponent.
   */
  method Begin(y: nat, z: nat, nd: nat, e: int, nearest: real -> Bits) returns (s: Start)
    requires Rounds(nearest) && 0 < y < 1_000_000_000 && z < 10_000_000
    requires nd <= 15 ==> HeadNumber(y, z, nd) < Pow(10, nd)
    ensures var k := if nd < 16 then nd else 16;
            Approximates(s, Tenfold(HeadNumber(y, z, k) as real, e + nd - k)) && (s.Done? ==> nd <= 15)
  {
    hide Pow, RPow, DoubleValue, ReadsAs, Near, Tenfold, HeadNumber, Held, Approximates;
    var k := if nd < 16 then nd else 16;
    HeadRange(y, z, k);
    var rv := HeadDouble(y, z, k, nearest);
    ghost var H := HeadNumber(y, z, k);
    HeadIsHeaded(H);
    HeadFinite(rv, H);
    if nd <= 15 {
      FewDigits(H, nd);
      var found;
      s, found := Shortcut(rv, nd, e, nearest, H);
      if found {
        return;
      }
    }
    s := Multiplied(rv, e + nd - k, nearest, H);
  }

  /** The first approximation: the head times a power of ten. */
  method Multiplied(rv: Bits, e1: int, nearest: real -> Bits, ghost H: nat) returns (s: Start)
    requires Rounds(nearest) && 0 < H < 10_000_000_000_000_000 && 0 < rv < INFINITY
    requires Near(DoubleValue(rv), H as real, 1) && (H < 2 * HIDDEN ==> DoubleValue(rv) == H as real)
    ensures Approximates(s, Tenfold(H as real, e1)) && !s.Done?
  {
    hide Pow, RPow, DoubleValue, ReadsAs, Near, Tenfold, Held;
    HeadIsHeaded(H);
    if e1 > 0 {
      s := Grow(rv, e1, nearest, H as real);
    } else if e1 < 0 {
      s := Shrink(rv, -e1, nearest, H);
    } else {
      NoTens(H as real);
      GrownLarge(H as real, 0);
      NearMore(DoubleValue(rv), H as real, 1, 32);
      s := Guess(rv, 0);
    }
  }

  lemma HeadFinite(rv: Bits, H: nat)
    requires Near(DoubleValue(rv), H as real, 1) && 0 < H < 10_000_000_000_000_000
    ensures 0 < rv < INFINITY
  {
    hide RPow, DoubleValue, Near;
    HeadIsHeaded(H);
    RPowMono(10, 16, 32);
    NearFinite(rv, H as real, 1);
  }
}
