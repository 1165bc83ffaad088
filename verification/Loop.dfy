/** The correction loop of fpconv_strtod as a whole, for digits taken whole. */
module CorrectionLoop {
  import opened Arith
  import opened Rational
  import opened Words
  import opened Bignum
  import opened Pow5
  import opened Ieee
  import opened DoubleBits
  import opened Scaling
  import opened ShortestDigits
  import opened ScaledDoubles
  import opened Unscaling
  import opened Correction
  import opened Refinement
  import opened Ratios

  /** The approximation m of t: within a few million units, and what the choice of scale promises. */
  ghost predicate Starting(m: Bits, t: real, scale: nat) { Close(3, m, t) && Suits(t, scale, m) }

  /** What the loop keeps: little enough is missing for left more steps. */
  ghost predicate Going(left: nat, w0: Word, w1: Word, scale: nat, t: real) {
    && left <= 3 && Kept(w0, w1, scale) && (scale == 0 ==> RPow(2, -910) <= t)
    && var m := UnscaledWords(w0, w1, scale);
       Close(left, m, t) && (Suits(t, scale, m) || Close(0, m, t))
  }

  // ----- a turn that does not end the loop -----

  lemma QuotientMeasured(i: int, dsign: bool, D: nat, S: nat, q: real, m: Bits, t: real)
    requires i > 0 && Told(i, dsign, D, S, m, t) && InProportion(D, S, m, t) && Close(3, m, t) && NearRatio(q, D, S)
    ensures if Beyond(m, t) then dsign && q > 2.0 else Measured(q, dsign, m, t)
  {
    hide RPow, DoubleValue;
    var off, g := Dist(DoubleValue(m), t), RPow(2, HalfGapUp(m));
    RPowPos(2, HalfGapUp(m));
    if Beyond(m, t) {
      QuotientLarge(q, D as real, S as real, off, g);
    } else {
      QuotientOff(q, D as real, S as real, off, g);
    }
  }

  lemma QuotientLarge(q: real, D: real, S: real, off: real, g: real)
    requires g > 0.0 && S > 0.0 && D * g == S * off && -D <= 281474976710656.0 * (q * S - D) && off > 8388608.0 * g
    ensures q > 2.0
  {
    var x, y := D * g, S * g;
    Against(S, 8388608.0 * g, off, 8388608.0 * y, x);
    Against(g, 8388608.0 * S, D, 8388608.0 * y, x);
    Against(S, q, 2.0, q * S, 2.0 * S);
  }

  lemma QuotientOff(q: real, D: real, S: real, off: real, g: real)
    requires g > 0.0 && S > 0.0 && D * g == S * off && -D <= 281474976710656.0 * (q * S - D) <= D
    requires 0.0 <= off <= 8388608.0 * g
    ensures -Slack(g) <= q * g - off <= Slack(g)
  {
    var x := q * g - off;
    assert S * x == (q * S - D) * g by {
      assert S * (q * g) == (q * S) * g;
      assert (q * S - D) * g == (q * S) * g - D * g;
      assert S * x == S * (q * g) - S * off;
    }
    RMulMono(g, -D, 281474976710656.0 * (q * S - D));
    RMulMono(g, 281474976710656.0 * (q * S - D), D);
    assert (281474976710656.0 * (q * S - D)) * g == S * (281474976710656.0 * x);
    assert (-D) * g == S * (-off);
    RCancel(S, -off, 281474976710656.0 * x);
    RCancel(S, 281474976710656.0 * x, off);
  }

  lemma RatioOperands(i: int, dsign: bool, D: nat, S: nat, m: Bits, t: real)
    requires i > 0 && Told(i, dsign, D, S, m, t) && InProportion(D, S, m, t) && Close(3, m, t)
    ensures 0 < S < D <= 72057594037927936 * S
  {
    hide RPow, DoubleValue;
    var off, g := Dist(DoubleValue(m), t), RPow(2, HalfGapUp(m));
    RPowPos(2, HalfGapUp(m));
    OperandsOrder(D as real, S as real, off, g);
  }

  lemma OperandsOrder(D: real, S: real, off: real, g: real)
    requires g > 0.0 && S > 0.0 && D * g == S * off && g < off <= 72057594037927936.0 * g
    ensures S < D <= 72057594037927936.0 * S
  {
    var x, y := D * g, S * g;
    assert S * off == x;
    Against(S, g, off, y, x);
    Against(g, S, D, y, x);
    Against(S, off, 72057594037927936.0 * g, x, 72057594037927936.0 * y);
    Against(g, D, 72057594037927936.0 * S, x, 72057594037927936.0 * y);
  }

  /** ratio and the step it decides. */
  method Adjust(i: int, dsign: bool, delta: Bigint, bs: Bigint, w0: Word, w1: Word, scale: nat, nearest: real -> Bits,
      ghost left: nat, ghost t: real)
    returns (r: Moved, aadj: real, ghost q: real)
    requires Rounds(nearest) && i > 0 && delta.Valid() && bs.Valid() && Going(left, w0, w1, scale, t)
    requires Told(i, dsign, delta.Val(), bs.Val(), UnscaledWords(w0, w1, scale), t)
    requires InProportion(delta.Val(), bs.Val(), UnscaledWords(w0, w1, scale), t)
    ensures left >= 1 && Nears(r, left - 1, scale, t)
    ensures r == Over || Measured(q, dsign, UnscaledWords(w0, w1, scale), t)
    ensures var a, tiny := Amount(q, Nearer(dsign, w0, w1)), Tiny(w0, scale);
            r == Over || (Stepped(r, UnscaledWords(w0, w1, scale), scale, dsign, a, tiny) && (!tiny ==> aadj == a))
  {
    hide RPow, DoubleValue, ReadsAs, Unscaled, Held, Bigint.Val, Value, NearRatio, Stepped, InProportion;
    hide Nears, Measured, Suits, Beyond, Close;
    ghost var m, D, S := UnscaledWords(w0, w1, scale), delta.Val(), bs.Val();
    LeftOver(i, dsign, D, S, left, m, t);
    CloseMono(left, 3, m, t);
    RatioOperands(i, dsign, D, S, m, t);
    var quot := BigRatio(delta, bs, nearest);
    q := quot;
    QuotientMeasured(i, dsign, D, S, q, m, t);
    if Beyond(m, t) { BeyondUnscaled(left, w0, w1, scale, t); }
    r, aadj := Step(dsign, quot, w0, w1, scale, nearest, t);
    if Beyond(m, t) {
      BeyondOver(m, t, left - 1, scale);
    } else {
      StepCloser(left, q, dsign, w0, w1, scale, r, t);
    }
  }

  lemma BeyondOver(m: Bits, t: real, k: nat, scale: nat)
    requires Beyond(m, t)
    ensures Nears(Over, k, scale, t)
  {
    hide RPow, DoubleValue;
    RPowPos(2, HalfGapUp(m));
  }

  lemma BeyondUnscaled(left: nat, w0: Word, w1: Word, scale: nat, t: real)
    requires Going(left, w0, w1, scale, t) && Beyond(UnscaledWords(w0, w1, scale), t)
    ensures scale == 0
  {
    hide RPow, DoubleValue, Close;
    LargestIs();
    UnscaledFields(Join(w0, w1), scale);
  }

  lemma LeftOver(i: int, dsign: bool, D: nat, S: nat, left: nat, m: Bits, t: real)
    requires i > 0 && Told(i, dsign, D, S, m, t) && Close(left, m, t)
    ensures !Close(0, m, t) && left >= 1
  {
    hide RPow, DoubleValue;
  }

  // ----- the early end -----

  /** The tolerances of the early end: a is far enough from half way between two multiples of the unit. */
  predicate FarFromHalf(a: real, power: bool) {
    var f := a - a.Floor as real;
    if !power then f < 0.4999999 || f > 0.5000001 else f < 0.4999999 / 2.0
  }

  /** M1 is an integer next to M + a: how far off it is. */
  lemma NextInteger(M: int, a: real, M1: int)
    requires -0.5 <= M1 as real - (M as real + a) <= 0.5
    ensures var f := a - a.Floor as real;
            && 0.0 <= f < 1.0
            && (f < 0.5 ==> M1 == M + a.Floor) && (f > 0.5 ==> M1 == M + a.Floor + 1)
  {
  }

  lemma Downward(M: int, a: real, M1: int)
    requires -0.5 <= M1 as real - (M as real - a) <= 0.5
    ensures var f := a - a.Floor as real;
            && 0.0 <= f < 1.0
            && (f < 0.5 ==> M1 == M - a.Floor) && (f > 0.5 ==> M1 == M - a.Floor - 1)
  {
  }

  /** A rounded sum in the same binade, in units. */
  lemma SameUnits(m: Bits, m1: Bits, dsign: bool, a: real, w: real)
    requires 0 < m < INFINITY && 0 < m1 < INFINITY && ExpField(m) == ExpField(m1)
    requires w == ByUnits(m, Signed(dsign, a)) && ReadsAs(w, m1)
    ensures HalfGapUp(m1) == HalfGapUp(m) && RPow(2, HalfGapUp(m)) > 0.0
    ensures var M, M1, s := Ieee.Mantissa(m) as real, Ieee.Mantissa(m1) as real, Signed(dsign, a);
            && -0.5 <= M1 - (M + s) <= 0.5 && DoubleValue(m1) - w == (M1 - (M + s)) * Unit(m)
  {
    hide RPow, DoubleValue, ReadsAs, HalfGapUp, Ieee.Mantissa, ExpField;
    SameGap(m, m1);
    RoundedNear(w, m1);
    ValueInGaps(m);
    ValueInGaps(m1);
    RPowPos(2, HalfGapUp(m));
    UnitsOff(Ieee.Mantissa(m), Ieee.Mantissa(m1), Signed(dsign, a), RPow(2, HalfGapUp(m)), DoubleValue(m),
        DoubleValue(m1), w);
  }

  lemma SameGap(m: Bits, m1: Bits)
    requires ExpField(m) == ExpField(m1)
    ensures HalfGapUp(m1) == HalfGapUp(m)
  {
  }

  lemma UnitsOff(M: nat, M1: nat, s: real, g: real, d: real, d1: real, w: real)
    requires g > 0.0 && d == (2 * M) as real * g && d1 == (2 * M1) as real * g && w == d + s * (2.0 * g)
    requires Dist(d1, w) <= g
    ensures d1 - w == (M1 as real - (M as real + s)) * (2.0 * g)
    ensures -0.5 <= M1 as real - (M as real + s) <= 0.5
  {
    var y, x := M1 as real - (M as real + s), (M1 as real - (M as real + s)) * (2.0 * g);
    assert (2 * M) as real * g == M as real * (2.0 * g);
    assert (2 * M1) as real * g == M1 as real * (2.0 * g);
    assert x == M1 as real * (2.0 * g) - M as real * (2.0 * g) - s * (2.0 * g);
    Against(2.0 * g, y, 0.5, x, g);
    Against(2.0 * g, -0.5, y, -g, x);
  }

  /** The distance left after the step is below a half gap by more than the slack. */
  lemma FarReads(m: Bits, m1: Bits, dsign: bool, a: real, w: real, t: real)
    requires 0 < m < INFINITY && 0 < m1 < INFINITY && ExpField(m) == ExpField(m1) > 1 && a > 0.9
    requires w == ByUnits(m, Signed(dsign, a)) && ReadsAs(w, m1)
    requires -Slack(RPow(2, HalfGapUp(m))) <= w - t <= Slack(RPow(2, HalfGapUp(m)))
    requires FarFromHalf(a, !dsign && Ieee.Fraction(m1) == 0)
    ensures ReadsAs(t, m1)
  {
    hide RPow, DoubleValue, ReadsAs, ByUnits;
    SameUnits(m, m1, dsign, a, w);
    var M, M1, g := Ieee.Mantissa(m), Ieee.Mantissa(m1), RPow(2, HalfGapUp(m));
    Fields(m);
    Fields(m1);
    HalfGaps(m1);
    var y := M1 as real - (M as real + Signed(dsign, a));
    if dsign { NextInteger(M, a, M1); } else { Downward(M, a, M1); }
    if Ieee.Fraction(m1) == 0 {
      assert !dsign;
      assert 0.0 <= y < 0.24999995;
      Against(2.0 * g, y, 0.24999995, DoubleValue(m1) - w, 0.4999999 * g);
    } else {
      Against(2.0 * g, y, 0.4999999, DoubleValue(m1) - w, 0.9999998 * g);
      Against(2.0 * g, -0.4999999, y, -0.9999998 * g, DoubleValue(m1) - w);
    }
    ReadsSame(t, m1);
  }

  /** When the loop stops early the new approximation is the nearest double. */
  lemma StopReads(q: real, dsign: bool, nearer: bool, m: Bits, m1: Bits, t: real)
    requires Measured(q, dsign, m, t) && ExpField(m) > 1 && m < INFINITY && 0 < m1 < INFINITY
    requires ExpField(m) == ExpField(m1) && (nearer <==> !dsign && SpecialCase(m))
    requires ReadsAs(ByUnits(m, Signed(dsign, Amount(q, nearer))), m1)
    requires FarFromHalf(Amount(q, nearer), !dsign && Ieee.Fraction(m1) == 0)
    ensures ReadsAs(t, m1)
  {
    hide RPow, DoubleValue, ReadsAs, ByUnits, FarFromHalf, HalfGapUp;
    var w := ByUnits(m, Signed(dsign, Amount(q, nearer)));
    TargetNear(q, dsign, nearer, m, t);
    Fields(m);
    Fields(m1);
    if q > 2.0 {
      FarReads(m, m1, dsign, Amount(q, nearer), w, t);
    } else if nearer {
      // half a unit down leads to the lower binade
      LowerTarget(q, m, w, t);
      ReadsMono(w, m1, m - 1);
    } else {
      OneMissing(q, dsign, nearer, m, t);
      OneUnit(m, dsign);
      var m2 := if dsign then m + 1 else m - 1;
      ReadsMono(w, m1, m2);
      OneCloser(m, dsign, t, m2);
      HalfGaps(m1);
      SameGaps(m, m1);
      ReadsSame(t, m1);
    }
  }

  lemma SameGaps(m: Bits, m1: Bits)
    requires ExpField(m) == ExpField(m1)
    ensures HalfGapUp(m) == HalfGapUp(m1)
  {
  }

  lemma LowerTarget(q: real, m: Bits, w: real, t: real)
    requires Measured(q, false, m, t) && 0 < m < INFINITY && SpecialCase(m)
    requires w == ByUnits(m, Signed(false, Amount(q, true)))
    ensures w <= DoubleValue(m - 1)
  {
    hide RPow, DoubleValue, Amount;
    NextValue(m - 1);
    TargetNear(q, false, true, m, t);
    HalfGaps(m);
    var g, a := RPow(2, HalfGapUp(m)), Amount(q, true);
    Against(2.0 * g, 0.5, a, g, a * (2.0 * g));
    SignedTimes(false, a, 2.0 * g);
  }

  // ----- the loop -----

  /** The invariant again after a step. */
  lemma GoingOn(r: Moved, left: nat, scale: nat, t: real, w0: Word, w1: Word)
    requires Nears(r, left, scale, t) && left <= 2 && (scale == 0 ==> RPow(2, -910) <= t)
    requires r == To(w0, w1) || (r == Largest && w0 == BIG0 && w1 == BIG1)
    ensures Going(left, w0, w1, scale, t)
  {
    hide RPow, DoubleValue, Unscaled;
    if r.Largest? { LargestWords(); }
    var m := UnscaledWords(w0, w1, scale);
    HeldJoin(w0, w1, scale);
    if scale == 0 {
      UnscaledIs(Join(w0, w1));
      NotTiny(left, m, t);
    }
  }

  lemma LargestWords()
    ensures HeldWords(BIG0, BIG1, 0) && Join(BIG0, BIG1) == LARGEST && UnscaledWords(BIG0, BIG1, 0) == LARGEST
  {
    LargestIs();
    UnscaledIs(LARGEST);
  }

  lemma NotTiny(k: nat, m: Bits, t: real)
    requires Close(k, m, t) && k <= 3 && RPow(2, -910) <= t && ExpField(m) > 0
    ensures ExpField(m) > 108
  {
    hide RPow, DoubleValue, HalfGapUp;
    CloseMono(k, 3, m, t);
    ManyUnits(m);
    RangePowers();
    BinadeValue(109);
    if m < 109 * HIDDEN { Ordered(m, 109 * HIDDEN); }
    Fields(m);
  }

  lemma InfiniteReads(t: real)
    ensures ReadsAs(t, INFINITY) <==> t >= DoubleValue(LARGEST) + RPow(2, HalfGapUp(LARGEST))
  {
    hide RPow, DoubleValue, Nearest, Magnitude;
    LargestIs();
    NextValue(LARGEST);
    var X := t * RPow(2, 1074);
    assert t == X * RPow(2, -1074) by { RPowInverse(2, 1074); Unscale(t, RPow(2, 1074), RPow(2, -1074)); }
    LowerSide(t, X, INFINITY);
    NearestIffInterval(X, INFINITY);
  }

  lemma ZeroReads(t: real)
    ensures ReadsAs(t, 0) <==> t <= RPow(2, -1075)
  {
    hide RPow, DoubleValue, Nearest;
    ZeroValue();
    UnitsValue(0);
    var X := t * RPow(2, 1074);
    assert t == X * RPow(2, -1074) by { RPowInverse(2, 1074); Unscale(t, RPow(2, 1074), RPow(2, -1074)); }
    UpperSide(t, X, 0);
    NearestIffInterval(X, 0);
  }

  /** Does the loop stop here, without another pass? */
  method Stops(exact: bool, dsign: bool, aadj: real, w0: Word, w1: Word, u0: Word, u1: Word, scale: nat,
      ghost q: real, ghost t: real)
    returns (stop: bool)
    requires Kept(w0, w1, scale) && HeldWords(u0, u1, scale)
    requires scale == 0 ==> aadj == Amount(q, Nearer(dsign, w0, w1))
    requires Measured(q, dsign, UnscaledWords(w0, w1, scale), t) && (scale == 0 ==> RPow(2, -910) <= t)
    requires scale == 0 ==> ReadsAs(ByUnits(UnscaledWords(w0, w1, scale), Signed(dsign, aadj)),
             UnscaledWords(u0, u1, scale))
    ensures stop ==> ReadsAs(t, UnscaledWords(u0, u1, scale))
  {
    hide RPow, DoubleValue, ReadsAs, ByUnits, Unscaled, HalfGapUp, Amount, Measured;
    stop := false;
    if exact && scale == 0 && w0 / EXP_MSK1 == u0 / EXP_MSK1 {
      var power := !dsign && u1 == 0 && u0 % EXP_MSK1 == 0;
      stop := FarFromHalf(aadj, power);
      ghost var n, n1 := Join(w0, w1), Join(u0, u1);
      HeldJoin(w0, w1, scale);
      HeldJoin(u0, u1, scale);
      UnscaledIs(n);
      UnscaledIs(n1);
      AboveTiny(q, dsign, n, t);
      NearerBelow(w0, w1, scale);
      NearerBelow(u0, u1, scale);
      if stop { StopReads(q, dsign, Nearer(dsign, w0, w1), n, n1, t); }
    }
  }

  lemma DecimalPositive(N: nat, e: int)
    requires N > 0
    ensures DecimalValue(N, e) > 0.0
  {
    hide RPow;
    RPowPos(10, e);
    RMulMono(RPow(10, e), 1.0, N as real);
  }

  lemma StartGoing(w0: Word, w1: Word, scale: nat, t: real)
    requires Kept(w0, w1, scale) && Starting(UnscaledWords(w0, w1, scale), t, scale)
    ensures Going(3, w0, w1, scale, t)
  {
    hide RPow, DoubleValue;
  }

  lemma GoneRight(t: real, scale: nat, k: nat)
    requires Nears(Gone, k, scale, t) && t > 0.0
    ensures scale == SCALE && ReadsAs(t, 0) && UnscaledWords(0, 0, scale) == 0 && Exact(Join(0, 0), scale)
  {
    hide RPow, ReadsAs;
    ZeroReads(t);
    ZeroExact(scale);
  }

  lemma LandedPlain(m: Bits, w0: Word, w1: Word, dsign: bool, q: real, u0: Word, u1: Word, scale: nat)
    requires var a, tiny := Amount(q, Nearer(dsign, w0, w1)), Tiny(w0, scale);
             Stepped(To(u0, u1), m, scale, dsign, a, tiny)
    ensures HeldWords(u0, u1, scale) || scale != 0
    ensures scale == 0 ==> !Tiny(w0, scale)
    ensures scale == 0 && HeldWords(u0, u1, scale) ==>
            ReadsAs(ByUnits(m, Signed(dsign, Amount(q, Nearer(dsign, w0, w1)))), UnscaledWords(u0, u1, scale))
  {
    hide RPow, DoubleValue, ReadsAs, ByUnits, Unscaled, Amount;
  }

  /**
   The correction loop for a decimal of which no digit was cut. exact tells that its last digit is not zero, without
   which the loop never stops early.
   */
  method CorrectWhole(bd0: Bigint, e: int, w0: Word, w1: Word, scale: nat, shl32: Word, exact: bool,
      nearest: real -> Bits, cache: Cache)
    returns (r: Outcome)
    requires Rounds(nearest) && bd0.Valid() && bd0.Val() > 0 && cache.Valid() && cache.Apart(bd0)
    requires Kept(w0, w1, scale) && Starting(UnscaledWords(w0, w1, scale), DecimalValue(bd0.Val(), e), scale)
    modifies cache.Repr
    ensures cache.Valid() && fresh(cache.Repr - old(cache.Repr))
    ensures !r.Refine? && Correct(r, DecimalValue(old(bd0.Val()), e), 0, scale)
  {
    hide Pow, RPow, Value, Bigint.Val, DoubleValue, DecimalValue, Cache.Valid, Cache.Node, Held, Unscaled;
    hide Told, InProportion, Measured, Stepped, Amount, ByUnits, ReadsAs, Close, Suits;
    ghost var t, N, left: nat := DecimalValue(bd0.Val(), e), bd0.Val(), 3;
    DecimalPositive(N, e);
    StartGoing(w0, w1, scale, t);
    var v0, v1 := w0, w1;
    while true
      invariant Going(left, v0, v1, scale, t)
      invariant bd0.Valid() && bd0.Val() == N && cache.Valid() && cache.Apart(bd0)
      invariant fresh(cache.Repr - old(cache.Repr))
      decreases left
    {
      var i, dsign, delta, bs := Measure(bd0, e, v0, v1, scale, cache);
      if i <= 0 {
        r := Exits(i, dsign, delta, bs, v0, v1, scale, shl32, t);
        return;
      }
      var moved, aadj;
      ghost var q;
      moved, aadj, q := Adjust(i, dsign, delta, bs, v0, v1, scale, nearest, left, t);
      left := left - 1;
      match moved {
        case Over =>
          InfiniteReads(t);
          return Overflow;
        case Gone =>
          GoneRight(t, scale, left);
          return Accept(0, 0);
        case Largest =>
          GoingOn(moved, left, scale, t, BIG0, BIG1);
          v0, v1 := BIG0, BIG1;
        case To(u0, u1) =>
          GoingOn(moved, left, scale, t, u0, u1);
          LandedPlain(UnscaledWords(v0, v1, scale), v0, v1, dsign, q, u0, u1, scale);
          var stop := Stops(exact, dsign, aadj, v0, v1, u0, u1, scale, q, t);
          if stop {
            HeldValue(Join(u0, u1), scale);
            return Accept(u0, u1);
          }
          v0, v1 := u0, u1;
      }
    }
  }
}
