/**
 The exact correction test of fpconv_strtod: one pass of its refinement loop, for digits taken
 whole, with bc.scale == 0 or, for tiny numbers, 2P.
 */
module Correction {
  import opened Arith
  import opened Rational
  import opened Words
  import opened Bignum
  import opened Pow5
  import opened Ieee
  import opened DoubleBits
  import opened FreeDigits
  import opened Scaling
  import opened ShortestDigits
  import opened ScaledDoubles
  import opened Unscaling

  /** Powers of 2 and 5 in the scaled approximation, decimal and half unit. */
  datatype Powers = Powers(bb2: int, bb5: int, bd2: int, bd5: int, bs2: int)

  /** All three are scaled by the same 2^c2 * 5^bb5; h is the binary exponent of the half unit. */
  ghost predicate Common(x: Powers, c2: int, bbe: int, e: int, h: int) {
    && x.bb2 >= 0 && x.bb5 >= 0 && x.bd2 >= 0 && x.bd5 >= 0 && x.bs2 >= 0
    && x.bb2 == bbe + c2 && x.bd2 == e + c2 && x.bd5 == e + x.bb5 && x.bs2 == h + c2
  }

  /** h is the exponent of the half unit, which for a tiny number is that of the smallest double's. */
  method CorrectionPowers(e: int, bbe: int, bbbits: nat, scale: nat, ghost h: int) returns (x: Powers, ghost c2: int)
    requires bbbits <= 53 && bbe - scale >= -1074
    requires h == if bbe - scale + bbbits - 1 < -1022 then -1075 else bbe - scale + bbbits - 54
    ensures Common(x, c2, bbe - scale, e, h)
  {
    var bb2, bb5, bd2, bd5;
    if e >= 0 {
      bb2, bb5 := 0, 0;
      bd2, bd5 := e, e;
    } else {
      bb2, bb5 := -e, -e;
      bd2, bd5 := 0, 0;
    }
    if bbe >= 0 {
      bb2 := bb2 + bbe;
    } else {
      bd2 := bd2 - bbe;
    }
    var bs2 := bb2;
    var j := bbe - scale;
    var i := j + bbbits - 1;
    j := 53 + 1 - bbbits;
    if i < -1022 {
      i := -1022 - i;
      j := j - i;
    }
    bb2 := bb2 + j;
    bd2 := bd2 + j;
    bd2 := bd2 + scale;
    i := if bb2 < bd2 then bb2 else bd2;
    if i > bs2 {
      i := bs2;
    }
    if i > 0 {
      bb2 := bb2 - i;
      bd2 := bd2 - i;
      bs2 := bs2 - i;
    }
    x := Powers(bb2, bb5, bd2, bd5, bs2);
    c2 := bb2 - (bbe - scale);
  }

  /** m * 2^x2 * 5^x5 as y times the common factor. */
  lemma Scaled(t: nat, m: nat, x2: nat, x5: nat, c2: int, c5: int)
    requires t == m * Pow(2, x2) * Pow(5, x5)
    ensures t as real == ((m as real) * (RPow(2, x2 - c2) * RPow(5, x5 - c5))) * (RPow(2, c2) * RPow(5, c5))
  {
    hide Pow, RPow;
    ToReal(t, m, x2, x5);
    assert RPow(2, x2) == RPow(2, x2 - c2) * RPow(2, c2) by { RPowAdd(2, x2 - c2, c2); }
    assert RPow(5, x5) == RPow(5, x5 - c5) * RPow(5, c5) by { RPowAdd(5, x5 - c5, c5); }
    FourWay(m as real, RPow(2, x2), RPow(5, x5), RPow(2, x2 - c2), RPow(5, x5 - c5), RPow(2, c2), RPow(5, c5));
  }

  lemma FourWay(m: real, p: real, q: real, a: real, b: real, c: real, d: real)
    requires p == a * c && q == b * d
    ensures m * p * q == (m * (a * b)) * (c * d)
  {
  }

  /** B, D, S are the approximation v, the decimal x and the half unit u, all times one positive factor c. */
  ghost predicate Proportional(B: nat, D: nat, S: nat, v: real, x: real, u: real, c: real) {
    c > 0.0 && B as real == v * c && D as real == x * c && S as real == u * c
  }

  lemma CommonFactor(B: nat, D: nat, S: nat, x: Powers, c2: int, m: nat, bbe: int, N: nat, e: int, h: int)
    requires Common(x, c2, bbe, e, h)
    requires B == m * Pow(2, x.bb2) * Pow(5, x.bb5)
    requires D == N * Pow(2, x.bd2) * Pow(5, x.bd5)
    requires S == 1 * Pow(2, x.bs2) * Pow(5, x.bb5)
    ensures Proportional(B, D, S, (m as real) * RPow(2, bbe), DecimalValue(N, e), RPow(2, h),
            RPow(2, c2) * RPow(5, x.bb5))
  {
    hide Pow, RPow;
    var c5 := x.bb5;
    Scaled(B, m, x.bb2, x.bb5, c2, c5);
    Scaled(D, N, x.bd2, x.bd5, c2, c5);
    Scaled(S, 1, x.bs2, x.bb5, c2, c5);
    RPowZero(5);
    TenSplit(e);
    RPowPos(2, c2); RPowPos(5, c5);
    PositiveProduct(RPow(2, c2), RPow(5, c5));
  }

  lemma PositiveProduct(a: real, b: real)
    requires a > 0.0 && b > 0.0
    ensures a * b > 0.0
  {
  }

  /** Comparing the scaled integers compares the distance of v from x with the half unit. */
  lemma ProportionalCompare(B: nat, D: nat, S: nat, v: real, x: real, u: real, c: real)
    requires Proportional(B, D, S, v, x, u, c)
    ensures B < D <==> v < x
    ensures B == D <==> v == x
    ensures D - B < S <==> x - v < u
    ensures D - B == S <==> x - v == u
    ensures B - D < S <==> v - x < u
    ensures B - D == S <==> v - x == u
    ensures 2 * (B - D) <= S <==> 2.0 * (v - x) <= u
  {
    CompareReal(B as real, D as real, S as real, v, x, u, c);
    CompareInts(B, D, S, B as real, D as real, S as real);
  }

  lemma CompareInts(B: int, D: int, S: int, rB: real, rD: real, rS: real)
    requires rB == B as real && rD == D as real && rS == S as real
    ensures B < D <==> rB < rD
    ensures B == D <==> rB == rD
    ensures D - B < S <==> rD - rB < rS
    ensures D - B == S <==> rD - rB == rS
    ensures B - D < S <==> rB - rD < rS
    ensures B - D == S <==> rB - rD == rS
    ensures 2 * (B - D) <= S <==> 2.0 * (rB - rD) <= rS
  {
  }

  lemma CompareReal(B: real, D: real, S: real, v: real, x: real, u: real, c: real)
    requires c > 0.0 && B == v * c && D == x * c && S == u * c
    ensures B < D <==> v < x
    ensures B == D <==> v == x
    ensures D - B < S <==> x - v < u
    ensures D - B == S <==> x - v == u
    ensures B - D < S <==> v - x < u
    ensures B - D == S <==> v - x == u
    ensures 2.0 * (B - D) <= S <==> 2.0 * (v - x) <= u
  {
    RCancelRight(c, v, x);
    Minus(x, v, c); Minus(v, x, c);
    RCancelRight(c, x - v, u);
    RCancelRight(c, v - x, u);
    RMulAssoc(2.0, v - x, c);
    RCancelRight(c, 2.0 * (v - x), u);
  }

  lemma Minus(a: real, b: real, c: real)
    ensures (a - b) * c == a * c - b * c
  {
  }

  /** Neighbouring doubles are two half gaps apart. */
  lemma NextValue(n: Bits)
    requires n < INFINITY
    ensures DoubleValue(n + 1) == DoubleValue(n) + 2.0 * RPow(2, HalfGapUp(n))
    ensures HalfGapDown(n + 1) == HalfGapUp(n)
  {
    hide Pow, RPow, Magnitude;
    NextUp(n);
    PrevUlp(n + 1);
    GapIs(UlpExp(n), HalfGapUp(n));
    AddGap(Magnitude(n + 1) as real, Magnitude(n) as real, Pow(2, UlpExp(n)) as real, RPow(2, -1074));
  }

  lemma AddGap(a: real, b: real, g: real, u: real)
    requires a == b + g
    ensures a * u == b * u + g * u
  {
  }

  /** A power of two 52 exponent steps below n is the gap above n. */
  lemma UlpValue(n: Bits, u: Bits)
    requires n < INFINITY && ExpField(n) > 52 && u == (ExpField(n) - 52) * HIDDEN
    ensures DoubleValue(u) == DoubleValue(n + 1) - DoubleValue(n)
  {
    hide Pow, RPow;
    NextUp(n);
    DivModUnique(u, HIDDEN, ExpField(n) - 52, 0);
    HiddenPower();
    PowAdd(2, 52, ExpField(n) - 53);
    assert Magnitude(u) == Pow(2, UlpExp(n));
    AddGap(Magnitude(n + 1) as real, Magnitude(n) as real, Pow(2, UlpExp(n)) as real, RPow(2, -1074));
  }

  /** ulp: the gap above the double if its exponent field exceeds 52; otherwise zero or a negative word. */
  method Ulp(w0: Word, w1: Word) returns (u0: Word, u1: Word)
    requires w0 < 0x7ff0_0000
    ensures w0 / EXP_MSK1 > 52 ==>
              u0 < 0x7ff0_0000 && DoubleValue(Join(u0, u1)) == DoubleValue(Join(w0, w1) + 1) - DoubleValue(Join(w0, w1))
    ensures w0 / EXP_MSK1 <= 52 ==> (u0 == 0 || u0 >= 0x8000_0000) && u1 == 0
  {
    hide DoubleValue;
    var L := w0 - w0 % EXP_MSK1 - 52 * EXP_MSK1;
    u0, u1 := if L < 0 then L + BASE else L, 0;
    JoinFields(w0, w1);
    if w0 / EXP_MSK1 > 52 { UlpValue(Join(w0, w1), Join(u0, u1)); }
  }

  /** n is kept: x is within a half gap on its side, and on the tie n is even. */
  lemma ReadsSame(x: real, n: Bits)
    requires 0 < n < INFINITY
    requires var d := DoubleValue(n);
             && (d - x < RPow(2, HalfGapDown(n)) || (d - x == RPow(2, HalfGapDown(n)) && n % 2 == 0))
             && (x - d < RPow(2, HalfGapUp(n)) || (x - d == RPow(2, HalfGapUp(n)) && n % 2 == 0))
    ensures ReadsAs(x, n)
  {
    ReadsAsIff(x, n);
  }

  /** x in the upper half of the gap below n, or half way with n odd, reads as n - 1. */
  lemma ReadsLower(x: real, n: Bits)
    requires 0 < n < INFINITY
    requires var d, gd := DoubleValue(n), RPow(2, HalfGapDown(n));
             d - 2.0 * gd <= x && (x < d - gd || (x == d - gd && n % 2 == 1))
    ensures ReadsAs(x, n - 1)
  {
    hide DoubleValue, RPow, HalfGapUp, HalfGapDown, Nearest;
    NextValue(n - 1);
    OddEven(n - 1);
    if n > 1 {
      RPowPos(2, HalfGapDown(n - 1));
      ReadsAsIff(x, n - 1);
    } else {
      var X := x * RPow(2, 1074);
      assert x == X * RPow(2, -1074) by { RPowInverse(2, 1074); Unscale(x, RPow(2, 1074), RPow(2, -1074)); }
      UpperSide(x, X, 0);
      NearestIffInterval(X, 0);
    }
  }

  lemma OddEven(n: nat)
    ensures n % 2 == 0 <==> (n + 1) % 2 == 1
  {
  }

  /** x in the upper half of the gap above n, or half way with n odd, reads as n + 1, infinity included. */
  lemma ReadsUpper(x: real, n: Bits)
    requires 0 < n < INFINITY
    requires var d, gu := DoubleValue(n), RPow(2, HalfGapUp(n));
             x <= d + 2.0 * gu && (x > d + gu || (x == d + gu && n % 2 == 1))
    ensures ReadsAs(x, n + 1)
  {
    hide RPow, DoubleValue, Nearest;
    OddEven(n);
    NextValue(n);
    RPowPos(2, HalfGapUp(n));
    if n + 1 < INFINITY {
      RPowPos(2, HalfGapUp(n + 1));
      ReadsAsIff(x, n + 1);
    } else {
      var X := x * RPow(2, 1074);
      assert x == X * RPow(2, -1074) by { RPowInverse(2, 1074); Unscale(x, RPow(2, 1074), RPow(2, -1074)); }
      LowerSide(x, X, n + 1);
      NearestIffInterval(X, n + 1);
    }
  }

  /** A double further from x than its half unit is not what x reads as. */
  lemma TooFar(x: real, n: Bits)
    requires 0 < n < INFINITY && Dist(DoubleValue(n), x) > RPow(2, HalfGapUp(n))
    ensures !ReadsAs(x, n)
  {
    ReadsAsIff(x, n);
    RPowMono(2, HalfGapDown(n), HalfGapUp(n));
  }

  /** How one pass ends: with the final words, with overflow, or by refining the approximation further. */
  datatype Outcome = Accept(word0: Word, word1: Word) | Overflow | Refine

  /** The outcome is right for the decimal x; the final words are still to be divided by 2^scale, which is exact. */
  ghost predicate Correct(r: Outcome, x: real, n: Bits, scale: nat) {
    match r
    case Accept(w0, w1) => w0 < 0x7ff0_0000 && Exact(Join(w0, w1), scale) && ReadsAs(x, UnscaledWords(w0, w1, scale))
    case Overflow => ReadsAs(x, INFINITY)
    case Refine => Dist(DoubleValue(n), x) > RPow(2, HalfGapUp(n)) && !ReadsAs(x, n)
  }

  /** drop_down: the largest double of the next lower binade. */
  method DropDown(w0: Word, w1: Word, scale: nat) returns (r: Outcome)
    requires HeldWords(w0, w1, scale) && w0 % EXP_MSK1 == 0 && w1 == 0 && w0 / EXP_MSK1 > 2 * 53 + 1
    ensures r.Accept? && HeldWords(r.word0, r.word1, scale) && r.word1 == 0xffff_ffff
    ensures UnscaledWords(r.word0, r.word1, scale) == UnscaledWords(w0, w1, scale) - 1
  {
    hide Unscaled;
    var L: Word := w0 - EXP_MSK1;
    HeldJoin(w0, w1, scale);
    PlaceBelow(Join(w0, w1), scale);
    r := Accept(L + 0xfffff, 0xffff_ffff);
  }

  /** b * 2^x2 * 5^x5 for a number that may be overwritten: pow5mult, then lshift. */
  method ScaleBy(b0: Bigint, x2: nat, x5: nat, cache: Cache) returns (b: Bigint)
    requires b0.Valid() && b0.Val() > 0 && cache.Valid() && cache.Apart(b0)
    modifies b0, b0.x, cache.Repr
    ensures b == b0 || (fresh(b) && fresh(b.x))
    ensures b.Valid() && b.Val() > 0 && b.Val() == old(b0.Val()) * Pow(2, x2) * Pow(5, x5)
    ensures cache.Valid() && cache.Apart(b) && fresh(cache.Repr - old(cache.Repr))
  {
    hide Pow, Value, Bigint.Val, Cache.Valid, Cache.Node;
    PowUnit(2); PowUnit(5);
    PowPos(2, x2); PowPos(5, x5);
    ghost var v := b0.Val();
    MulPos(v, Pow(5, x5));
    MulPos(v * Pow(5, x5), Pow(2, x2));
    Reorder(v, Pow(2, x2), Pow(5, x5));
    b := b0;
    if x5 > 0 {
      b := Pow5Mult(b, x5, cache);
    }
    if x2 > 0 {
      b := LShift(b, x2);
    }
  }

  /** A copy of b in a number of the same capacity. */
  method Copy(b0: Bigint) returns (b: Bigint)
    requires b0.Valid() && b0.wds >= 1
    ensures fresh(b) && fresh(b.x) && b.Valid() && b.Val() == b0.Val() && b.wds == b0.wds
  {
    hide Pow, Value;
    b := new Bigint.Balloc(b0.k);
    Bcopy(b, b0);
  }

  /** bs = 5^bb5 is made first and multiplied into bb. */
  method Operands(bd0: Bigint, bb0: Bigint, x: Powers, cache: Cache) returns (bb: Bigint, bd: Bigint, bs: Bigint)
    requires bd0.Valid() && bd0.Val() > 0 && bb0.Valid() && bb0.Val() > 0
    requires cache.Valid() && cache.Apart(bb0) && cache.Apart(bd0) && Separate(bb0, bd0)
    requires x.bb2 >= 0 && x.bb5 >= 0 && x.bd2 >= 0 && x.bd5 >= 0 && x.bs2 >= 0
    modifies cache.Repr
    ensures cache.Valid() && fresh(cache.Repr - old(cache.Repr))
    ensures bb.Valid() && bd.Valid() && bs.Valid() && bb.Val() > 0 && bd.Val() > 0 && bs.Val() > 0
    ensures bb.Val() == old(bb0.Val()) * Pow(2, x.bb2) * Pow(5, x.bb5)
    ensures bd.Val() == old(bd0.Val()) * Pow(2, x.bd2) * Pow(5, x.bd5)
    ensures bs.Val() == 1 * Pow(2, x.bs2) * Pow(5, x.bb5)
  {
    hide Pow, Value, Bigint.Val, Cache.Valid, Cache.Node;
    ghost var vd := bd0.Val();
    bb, bs := FivesAndTwos(bb0, x.bb2, x.bb5, x.bs2, cache);
    assert bd0.Val() == vd;
    ghost var vb, vs := bb.Val(), bs.Val();
    PositiveHasWords(bd0);
    bd := Copy(bd0);
    bd := ScaleBy(bd, x.bd2, x.bd5, cache);
    assert bb.Val() == vb && bs.Val() == vs;
  }

  method FivesAndTwos(bb0: Bigint, bb2: nat, bb5: nat, bs2: nat, cache: Cache) returns (bb: Bigint, bs: Bigint)
    requires bb0.Valid() && bb0.Val() > 0 && cache.Valid() && cache.Apart(bb0)
    modifies cache.Repr
    ensures cache.Valid() && cache.Apart(bb) && cache.Apart(bs) && fresh(cache.Repr - old(cache.Repr))
    ensures bb == bb0 || (fresh(bb) && fresh(bb.x))
    ensures fresh(bs) && fresh(bs.x)
    ensures bb.Valid() && bs.Valid() && bb.Val() > 0 && bs.Val() > 0
    ensures bb.Val() == old(bb0.Val()) * Pow(2, bb2) * Pow(5, bb5)
    ensures bs.Val() == 1 * Pow(2, bs2) * Pow(5, bb5)
  {
    hide Pow, Value, Bigint.Val, Cache.Valid, Cache.Node;
    PowPos(5, bb5); PowPos(2, bb2); PowPos(2, bs2);
    ghost var v := bb0.Val();
    bb, bs := FiveGaps(bb0, bb5, cache);
    Reorder(v, Pow(5, bb5), Pow(2, bb2));
    MulPos(v, Pow(5, bb5));
    MulPos(v * Pow(5, bb5), Pow(2, bb2));
    Reorder(1, Pow(2, bs2), Pow(5, bb5));
    MulPos(Pow(5, bb5), Pow(2, bs2));
    bb := ShiftUp(bb, bb2);
    bs := ShiftUp(bs, bs2);
  }

  method ShiftUp(b0: Bigint, k: nat) returns (b: Bigint)
    requires b0.Valid() && b0.Val() > 0
    ensures b == b0 || (fresh(b) && fresh(b.x))
    ensures b.Valid() && b.Val() == b0.Val() * Pow(2, k)
  {
    hide Pow, Value, Bigint.Val;
    PowUnit(2);
    b := b0;
    if k > 0 {
      b := LShift(b, k);
    }
  }

  /** What i = cmp(delta, bs) and dsign tell of the approximation n: delta and bs are D and S. */
  ghost predicate Told(i: int, dsign: bool, D: nat, S: nat, n: Bits, x: real) {
    var d, u := DoubleValue(n), RPow(2, HalfGapUp(n));
    && S > 0 && (dsign <==> d < x)
    && (i < 0 <==> Dist(d, x) < u) && (i == 0 <==> Dist(d, x) == u)
    && (D == 0 <==> d == x)
    && (!dsign ==> (2 * D <= S <==> 2.0 * (d - x) <= u))
  }

  /** delta over bs is the distance from the decimal over the half unit. */
  ghost predicate InProportion(delta: nat, bs: nat, n: Bits, x: real) {
    (delta as real) * RPow(2, HalfGapUp(n)) == (bs as real) * Dist(DoubleValue(n), x)
  }

  /** Only a power of two of a higher binade than the smallest has a nearer lower neighbour. */
  lemma NearerBelow(w0: Word, w1: Word, scale: nat)
    requires Kept(w0, w1, scale)
    ensures SpecialCase(UnscaledWords(w0, w1, scale)) <==> w1 == 0 && w0 % EXP_MSK1 == 0 && w0 / EXP_MSK1 > 2 * 53 + 1
    ensures 0 < UnscaledWords(w0, w1, scale) < INFINITY
  {
    HeldJoin(w0, w1, scale);
    UnscaledFields(Join(w0, w1), scale);
    UnscaledGap(Join(w0, w1), scale);
  }

  /** The exits of the loop once i = cmp(delta, bs) and dsign are known. shl32 is what a shift by 32 gives. */
  method Exits(i: int, dsign: bool, delta: Bigint, bs: Bigint, w0: Word, w1: Word, scale: nat, shl32: Word,
      ghost x: real)
    returns (r: Outcome)
    requires Kept(w0, w1, scale) && delta.Valid() && bs.Valid()
    requires Told(i, dsign, delta.Val(), bs.Val(), UnscaledWords(w0, w1, scale), x)
    ensures Correct(r, x, UnscaledWords(w0, w1, scale), scale)
    ensures r.Refine? <==> i > 0
  {
    hide RPow, Pow, DoubleValue, ReadsAs, Value, Bigint.Val, Unscaled, HalfGapUp, HalfGapDown, SpecialCase;
    ghost var m := UnscaledWords(w0, w1, scale);
    NearerBelow(w0, w1, scale);
    HeldValue(Join(w0, w1), scale);
    HalfGaps(m);
    if i > 0 {
      TooFar(x, m);
      return Refine;
    }
    if i == 0 {
      r := HalfWay(dsign, w0, w1, scale, shl32, x);
      return;
    }
    // Within half the gap above, so only a nearer neighbour below can be right instead.
    if dsign || w1 != 0 || w0 % EXP_MSK1 != 0 || w0 / EXP_MSK1 <= 2 * 53 + 1 {
      ReadsSame(x, m);
      return Accept(w0, w1);
    }
    ZeroTest(delta);
    if delta.x[0] == 0 && delta.wds <= 1 {
      ReadsSame(x, m);
      return Accept(w0, w1);
    }
    var above := TwiceAbove(delta, bs);
    if above {
      ReadsLower(x, m);
      r := DropDown(w0, w1, scale);
      HeldValue(Join(r.word0, r.word1), scale);
    } else {
      HeldJoin(w0, w1, scale);
      Fields(Join(w0, w1));
      EvenBinade(Join(w0, w1), scale);
      ReadsSame(x, m);
      r := Accept(w0, w1);
    }
  }

  /** delta = lshift(delta, Log2P); cmp(delta, bs) > 0. */
  method TwiceAbove(delta: Bigint, bs: Bigint) returns (above: bool)
    requires delta.Valid() && delta.Val() > 0 && bs.Valid() && bs.Val() > 0
    ensures above <==> 2 * delta.Val() > bs.Val()
  {
    hide Pow, Value, Bigint.Val;
    PowUnit(2);
    ghost var v, vs := delta.Val(), bs.Val();
    PositiveHasWords(bs);
    var d2 := LShift(delta, 1);
    assert bs.Val() == vs;
    var c := Cmp(d2, bs);
    above := c > 0;
  }

  lemma HalfGaps(n: Bits)
    ensures RPow(2, HalfGapDown(n)) > 0.0 && RPow(2, HalfGapUp(n)) > 0.0
    ensures !SpecialCase(n) ==> HalfGapDown(n) == HalfGapUp(n)
    ensures SpecialCase(n) ==> 2.0 * RPow(2, HalfGapDown(n)) == RPow(2, HalfGapUp(n))
  {
    hide RPow;
    RPowPos(2, HalfGapDown(n));
    RPowPos(2, HalfGapUp(n));
    RPowSucc(2, HalfGapUp(n) - 1);
  }

  /**
   All places of the true significand set, so that the next double up starts a new binade. The test does not see it
   when more than 32 bits are to spare, nor with exactly 32 if a shift by 32 does not give zero.
   */
  method AllOnes(w0: Word, w1: Word, scale: nat, shl32: Word) returns (ones: bool)
    requires HeldWords(w0, w1, scale)
    ensures var i := SpareBits(w0, scale);
            ones <==> && Join(w0, w1) + Place(Join(w0, w1), scale) == (w0 / EXP_MSK1 + 1) * HIDDEN
                      && (i < 32 || (i == 32 && shl32 == 0))
    ensures scale == 0 ==> (ones <==> w0 % EXP_MSK1 == 0xfffff && w1 == 0xffff_ffff)
  {
    hide Pow;
    HeldJoin(w0, w1, scale);
    var i := SpareBits(w0, scale);
    PowPos(2, i);
    PowUnit(2);
    var low := if i == 0 then 0xffff_ffff else if i < 32 then Shl(0xffff_ffff, i) else shl32;
    ones := w0 % EXP_MSK1 == 0xfffff && w1 == low;
    if ones {
      OnesCarry(w0, w1, scale, i);
    } else if i <= 32 && Join(w0, w1) + Pow(2, i) == (w0 / EXP_MSK1 + 1) * HIDDEN {
      CarryOnes(w0, w1, scale, i);
    }
    if i >= 32 { HighPlace(w0, w1, scale, i); }
    if i > 32 && w0 % EXP_MSK1 == 0xfffff { OnesHigh(i - 32, w0, w1, scale); }
  }

  lemma CarryOnes(w0: Word, w1: Word, scale: nat, i: nat)
    requires HeldWords(w0, w1, scale) && i == SpareBits(w0, scale) <= 32
    requires Join(w0, w1) + Pow(2, i) == (w0 / EXP_MSK1 + 1) * HIDDEN
    ensures w0 % EXP_MSK1 == 0xfffff && w1 == if i == 0 then 0xffff_ffff else if i < 32 then Shl(0xffff_ffff, i) else 0
  {
    hide Pow, Shl;
    HeldJoin(w0, w1, scale);
    Fields(Join(w0, w1));
    PowPos(2, i);
    PowUnit(2);
    PowMono(2, i, 32);
    Pow32();
    if 0 < i < 32 { OnesShifted(i); }
  }

  lemma OnesCarry(w0: Word, w1: Word, scale: nat, i: nat)
    requires HeldWords(w0, w1, scale) && i == SpareBits(w0, scale) <= 52 && w0 % EXP_MSK1 == 0xfffff
    requires i == 0 ==> w1 == 0xffff_ffff
    requires 0 < i < 32 ==> w1 == Shl(0xffff_ffff, i)
    ensures Fraction(Join(w0, w1)) + Pow(2, i) == HIDDEN
    ensures Join(w0, w1) + Pow(2, i) == (w0 / EXP_MSK1 + 1) * HIDDEN
  {
    hide Pow, Shl;
    HeldJoin(w0, w1, scale);
    Fields(Join(w0, w1));
    if i == 0 {
      PowUnit(2);
    } else if i < 32 {
      OnesShifted(i);
    } else {
      HighPlace(w0, w1, scale, i);
      OnesHigh(i - 32, w0, w1, scale);
      Pow32();
    }
  }

  lemma OnesShifted(i: nat)
    requires 0 < i < 32
    ensures Shl(0xffff_ffff, i) == BASE - Pow(2, i)
  {
    hide Pow;
    PowPos(2, i);
    Pow32Split(i);
    var p, t := Pow(2, i), Pow(2, 32 - i);
    PowMono(2, i, 32);
    Pow32();
    assert 0xffff_ffff * p == (p - 1) * BASE + (BASE - p);
    DivModUnique(0xffff_ffff * p, BASE, p - 1, BASE - p);
  }

  /** An odd upper half leaves at most 32 bits to spare. */
  lemma OnesHigh(k: nat, w0: Word, w1: Word, scale: nat)
    requires HeldWords(w0, w1, scale) && w0 % EXP_MSK1 == 0xfffff && SpareBits(w0, scale) == 32 + k <= 52
    ensures k == 0
  {
    hide Pow;
    HeldJoin(w0, w1, scale);
    PowPos(2, k);
    PowAdd(2, 32, k);
    Pow32();
    HighParts(0x1f_ffff, w1, Pow(2, k));
    if k > 0 {
      PowStep(2, k - 1);
      var q := 0x1f_ffff / Pow(2, k);
      assert 0x1f_ffff == q * Pow(2, k);
      NotEven(q, Pow(2, k - 1));
    }
  }

  lemma NotEven(q: nat, p: nat)
    ensures q * (2 * p) != 0x1f_ffff
  {
    Rotate(q, 2, p);
    EvenAdd(q * p, 0);
  }

  /** A power of two is even in its true last place, unless it is the smallest double. */
  lemma EvenBinade(n: Bits, scale: nat)
    requires (scale == 0 || scale == SCALE) && Fraction(n) == 0 && n == ExpField(n) * HIDDEN
    requires if scale == 0 then ExpField(n) > 0 else ExpField(n) >= 55
    ensures scale == SCALE && ExpField(n) == 55 ==> Unscaled(n, scale) == 1
    ensures scale == 0 || ExpField(n) > 55 ==> Unscaled(n, scale) % 2 == 0
  {
    hide Pow;
    var f, s := ExpField(n), Spare(n, scale);
    if f > scale {
      assert n - scale * HIDDEN == 2 * ((f - scale) * (HIDDEN / 2));
      EvenAdd((f - scale) * (HIDDEN / 2), 0);
    } else {
      HiddenWhole(s);
      PowPos(2, s);
      DivModUnique(HIDDEN, Pow(2, s), Pow(2, 52 - s), 0);
      if s == 52 { PowUnit(2); } else { PowStep(2, 51 - s); EvenAdd(Pow(2, 51 - s), 0); }
    }
  }

  /** The smallest number of the next binade, or overflow past the largest double. */
  method NextBinade(w0: Word, w1: Word, scale: nat, ghost x: real) returns (r: Outcome)
    requires Kept(w0, w1, scale)
    requires var m := UnscaledWords(w0, w1, scale); x == DoubleValue(m) + RPow(2, HalfGapUp(m))
    requires Join(w0, w1) + Place(Join(w0, w1), scale) == (w0 / EXP_MSK1 + 1) * HIDDEN
    requires scale == 0 ==> w0 % EXP_MSK1 == 0xfffff && w1 == 0xffff_ffff
    ensures Correct(r, x, UnscaledWords(w0, w1, scale), scale) && !r.Refine?
  {
    hide RPow, DoubleValue, ReadsAs, Unscaled, Held, HalfGapUp, Place;
    NextBinadeReads(w0, w1, scale, x);
    if w0 == 0x7fef_ffff && w1 == 0xffff_ffff {
      return Overflow;
    }
    HeldJoin(w0, w1, scale);
    r := Accept(w0 - w0 % EXP_MSK1 + EXP_MSK1, 0);
    assert Join(r.word0, r.word1) == (w0 / EXP_MSK1 + 1) * HIDDEN;
    HeldFields(Join(w0, w1), scale);
    BinadeExact(w0 / EXP_MSK1 + 1, scale);
  }

  lemma NextBinadeReads(w0: Word, w1: Word, scale: nat, x: real)
    requires Kept(w0, w1, scale)
    requires var m := UnscaledWords(w0, w1, scale); x == DoubleValue(m) + RPow(2, HalfGapUp(m))
    requires Join(w0, w1) + Place(Join(w0, w1), scale) == (w0 / EXP_MSK1 + 1) * HIDDEN
    ensures (w0 / EXP_MSK1 + 1) * HIDDEN <= INFINITY && ReadsAs(x, Unscaled((w0 / EXP_MSK1 + 1) * HIDDEN, scale))
    ensures w0 / EXP_MSK1 == 2046 ==> scale == 0 && ReadsAs(x, INFINITY)
  {
    hide RPow, Pow, DoubleValue, ReadsAs, Unscaled, HalfGapUp, SpecialCase;
    var n, m := Join(w0, w1), UnscaledWords(w0, w1, scale);
    var n1 := n + Place(n, scale);
    NearerBelow(w0, w1, scale);
    HeldJoin(w0, w1, scale);
    PlaceUp(n, scale);
    DivModUnique(n1, HIDDEN, w0 / EXP_MSK1 + 1, 0);
    EvenBinade(n1, scale);
    RPowPos(2, HalfGapUp(m));
    ReadsUpper(x, m);
    TopUnscaled(INFINITY);
  }

  lemma TopUnscaled(n: Bits)
    requires n == INFINITY
    ensures Unscaled(n, 0) == INFINITY
  {
  }

  /** The i == 0 exits below a power of two. */
  method LowerBinade(w0: Word, w1: Word, scale: nat, ghost x: real) returns (r: Outcome)
    requires Kept(w0, w1, scale) && w0 % EXP_MSK1 == 0 && w1 == 0
    requires var m := UnscaledWords(w0, w1, scale); x == DoubleValue(m) - RPow(2, HalfGapUp(m))
    ensures Correct(r, x, UnscaledWords(w0, w1, scale), scale) && !r.Refine?
  {
    hide RPow, Pow, DoubleValue, ReadsAs, Unscaled, HalfGapUp, HalfGapDown, SpecialCase;
    ghost var n, m := Join(w0, w1), UnscaledWords(w0, w1, scale);
    NearerBelow(w0, w1, scale);
    HeldJoin(w0, w1, scale);
    HeldValue(n, scale);
    HalfGaps(m);
    Fields(n);
    EvenBinade(n, scale);
    if scale != 0 {
      var L := w0 / EXP_MSK1;
      if L <= 2 * 53 + 1 {
        if L > 53 + 2 {
          // the number itself is even
          ReadsSame(x, m);
          return Accept(w0, w1);
        }
        ReadsLower(x, m);
        ZeroExact(scale);
        return Accept(0, 0);
      }
    }
    ReadsLower(x, m);
    r := DropDown(w0, w1, scale);
    HeldValue(Join(r.word0, r.word1), scale);
  }

  /** The i == 0 exits: exactly half way between two doubles. */
  method HalfWay(dsign: bool, w0: Word, w1: Word, scale: nat, shl32: Word, ghost x: real) returns (r: Outcome)
    requires Kept(w0, w1, scale)
    requires var m := UnscaledWords(w0, w1, scale);
             var d, u := DoubleValue(m), RPow(2, HalfGapUp(m));
             x == if dsign then d + u else d - u
    ensures Correct(r, x, UnscaledWords(w0, w1, scale), scale) && !r.Refine?
  {
    hide RPow, Pow, DoubleValue, ReadsAs, Unscaled, Held, HalfGapUp, HalfGapDown, SpecialCase;
    ghost var m := UnscaledWords(w0, w1, scale);
    NearerBelow(w0, w1, scale);
    HeldValue(Join(w0, w1), scale);
    HalfGaps(m);
    if dsign {
      var ones := AllOnes(w0, w1, scale, shl32);
      if ones {
        r := NextBinade(w0, w1, scale, x);
        return;
      }
    } else if w0 % EXP_MSK1 == 0 && w1 == 0 {
      r := LowerBinade(w0, w1, scale, x);
      return;
    }
    var odd := OddPlace(w0, w1, scale);
    if !odd {
      ReadsSame(x, m);
      return Accept(w0, w1);
    }
    var u0, u1;
    if dsign {
      u0, u1 := AddPlace(w0, w1, scale);
      UpExact(Join(w0, w1), scale);
      ReadsUpper(x, m);
    } else {
      u0, u1 := SubPlace(w0, w1, scale);
      HeldJoin(w0, w1, scale);
      DownExact(Join(w0, w1), scale);
      ReadsLower(x, m);
    }
    r := Accept(u0, u1);
  }

  /** The number held, from what d2b makes of the words. */
  lemma HeldBinary(n: Bits, scale: nat, b: nat, e: int)
    requires Held(n, scale) && b % 2 == 1 && e >= -1074 && b * Pow(2, e + 1074) == Magnitude(n)
    ensures e - scale >= -1074 && b * Pow(2, e - scale + 1074) == Magnitude(Unscaled(n, scale))
  {
    hide Pow, Magnitude, Unscaled;
    UnscaledMagnitude(n, scale);
    HeldFields(n, scale);
    var M, p := Magnitude(Unscaled(n, scale)), e + 1074;
    if p < scale {
      PowAdd(2, scale - p - 1, p + 1);
      PowStep(2, p);
      PowPos(2, p);
      var k := Pow(2, scale - p - 1);
      assert Pow(2, scale) == (2 * k) * Pow(2, p) by { Rotate(2, k, Pow(2, p)); MulAssoc(2, k, Pow(2, p)); }
      MulAssoc(M, 2 * k, Pow(2, p));
      MulCancel(Pow(2, p), b, M * (2 * k));
      MulComm(Pow(2, p), b);
      MulComm(Pow(2, p), M * (2 * k));
      OddNotEven(b, M, k);
    } else {
      PowAdd(2, p - scale, scale);
      PowPos(2, scale);
      MulAssoc(b, Pow(2, p - scale), Pow(2, scale));
      MulCancel(Pow(2, scale), b * Pow(2, p - scale), M);
      MulComm(Pow(2, scale), b * Pow(2, p - scale));
      MulComm(Pow(2, scale), M);
    }
  }

  lemma OddNotEven(b: nat, M: nat, k: nat)
    ensures b == M * (2 * k) ==> b % 2 == 0
  {
    Rotate(M, 2, k);
    EvenAdd(M * k, 0);
  }

  lemma HeldPositive(n: Bits)
    requires ExpField(n) > 0
    ensures n > 0
  {
    Fields(n);
  }

  /** What d2b says of the held words, for the number they stand for. */
  lemma HeldUnit(w0: Word, w1: Word, scale: nat, v: nat, e: int, bits: nat)
    requires HeldWords(w0, w1, scale) && v % 2 == 1 && e >= -1074 && v * Pow(2, e + 1074) == Magnitude(Join(w0, w1))
    requires bits + e == ExpField(Join(w0, w1)) - 1022
    ensures var m := UnscaledWords(w0, w1, scale);
            && e - scale >= -1074 && DoubleValue(m) == (v as real) * RPow(2, e - scale)
            && HalfGapUp(m) == if e - scale + bits - 1 < -1022 then -1075 else e - scale + bits - 54
  {
    hide Pow, RPow, Magnitude, DoubleValue, Unscaled;
    var n := Join(w0, w1);
    UnscaledGap(n, scale);
    HeldFields(n, scale);
    HeldBinary(n, scale, v, e);
    DoubleIs(Unscaled(n, scale), v, e - scale);
  }

  /** The part of the loop that finds i, dsign and delta. */
  method Measure(bd0: Bigint, e: int, w0: Word, w1: Word, scale: nat, cache: Cache)
    returns (i: int, dsign: bool, delta: Bigint, bs: Bigint)
    requires bd0.Valid() && bd0.Val() > 0 && cache.Valid() && cache.Apart(bd0) && HeldWords(w0, w1, scale)
    modifies cache.Repr
    ensures cache.Valid() && fresh(cache.Repr - old(cache.Repr))
    ensures delta.Valid() && bs.Valid()
    ensures Told(i, dsign, delta.Val(), bs.Val(), UnscaledWords(w0, w1, scale), DecimalValue(old(bd0.Val()), e))
    ensures InProportion(delta.Val(), bs.Val(), UnscaledWords(w0, w1, scale), DecimalValue(old(bd0.Val()), e))
  {
    hide Pow, RPow, Value, Bigint.Val, DoubleValue, DecimalValue, Magnitude, HasBits, Cache.Valid, Cache.Node, Told;
    hide Unscaled, HalfGapUp;
    HeldFields(Join(w0, w1), scale);
    HeldPositive(Join(w0, w1));
    ghost var N := bd0.Val();
    var bb, bbe, bbbits := D2b(w0, w1);
    assert bd0.Val() == N;
    HeldUnit(w0, w1, scale, bb.Val(), bbe, bbbits);
    i, dsign, delta, bs := MeasureBig(bd0, e, bb, bbe, bbbits, scale, UnscaledWords(w0, w1, scale), cache);
  }

  /** The same once rv = bb * 2^bbe. */
  method MeasureBig(bd0: Bigint, e: int, bb0: Bigint, bbe: int, bbbits: nat, scale: nat, ghost m: Bits, cache: Cache)
    returns (i: int, dsign: bool, delta: Bigint, bs: Bigint)
    requires bd0.Valid() && bd0.Val() > 0 && bb0.Valid() && bb0.Val() > 0
    requires cache.Valid() && cache.Apart(bb0) && cache.Apart(bd0) && Separate(bb0, bd0)
    requires bbbits <= 53 && bbe - scale >= -1074 && DoubleValue(m) == (bb0.Val() as real) * RPow(2, bbe - scale)
    requires HalfGapUp(m) == if bbe - scale + bbbits - 1 < -1022 then -1075 else bbe - scale + bbbits - 54
    modifies cache.Repr
    ensures cache.Valid() && fresh(cache.Repr - old(cache.Repr))
    ensures delta.Valid() && bs.Valid()
    ensures Told(i, dsign, delta.Val(), bs.Val(), m, DecimalValue(old(bd0.Val()), e))
    ensures InProportion(delta.Val(), bs.Val(), m, DecimalValue(old(bd0.Val()), e))
  {
    hide Pow, RPow, Value, Bigint.Val, DoubleValue, DecimalValue, Cache.Valid, Cache.Node, Told, HalfGapUp;
    ghost var v, N, h := bb0.Val(), bd0.Val(), HalfGapUp(m);
    var p;
    ghost var c2;
    p, c2 := CorrectionPowers(e, bbe, bbbits, scale, h);
    var bb, bd;
    bb, bd, bs := Operands(bd0, bb0, p, cache);
    CommonFactor(bb.Val(), bd.Val(), bs.Val(), p, c2, v, bbe - scale, N, e, h);
    i, dsign, delta := Compare3(bb, bd, bs, m, DecimalValue(N, e), RPow(2, c2) * RPow(5, p.bb5));
  }

  lemma ProportionOff(B: nat, D: nat, S: nat, n: Bits, x: real, c: real)
    requires Proportional(B, D, S, DoubleValue(n), x, RPow(2, HalfGapUp(n)), c)
    ensures InProportion(if B < D then D - B else B - D, S, n, x)
  {
    hide RPow, DoubleValue;
    var v, u := DoubleValue(n), RPow(2, HalfGapUp(n));
    RCancelRight(c, v, x);
    Minus(v, x, c);
    Minus(x, v, c);
    CrossTimes(Dist(v, x), u, c);
  }

  lemma CrossTimes(y: real, u: real, c: real)
    ensures (y * c) * u == (u * c) * y
  {
  }

  /** delta = diff(bb, bd), its sign, and its comparison with bs. */
  method Compare3(bb: Bigint, bd: Bigint, bs: Bigint, ghost n: Bits, ghost x: real, ghost c: real)
    returns (i: int, dsign: bool, delta: Bigint)
    requires bb.Valid() && bd.Valid() && bs.Valid() && bb.Val() > 0 && bd.Val() > 0 && bs.Val() > 0
    requires Proportional(bb.Val(), bd.Val(), bs.Val(), DoubleValue(n), x, RPow(2, HalfGapUp(n)), c)
    ensures delta.Valid() && bs.Valid() && Told(i, dsign, delta.Val(), bs.Val(), n, x)
    ensures InProportion(delta.Val(), bs.Val(), n, x)
  {
    hide Pow, RPow, Value, Bigint.Val, DoubleValue, Proportional;
    ghost var B, D, S := bb.Val(), bd.Val(), bs.Val();
    ProportionalCompare(B, D, S, DoubleValue(n), x, RPow(2, HalfGapUp(n)), c);
    ProportionOff(B, D, S, n, x, c);
    PositiveHasWords(bb); PositiveHasWords(bd); PositiveHasWords(bs);
    delta := Diff(bb, bd);
    assert bs.Val() == S;
    dsign := delta.sign;
    ghost var v := delta.Val();
    delta.sign := false;
    assert delta.Val() == v;
    i := Cmp(delta, bs);
  }
}
