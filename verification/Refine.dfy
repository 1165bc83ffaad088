/**
 The floating-point half of the correction loop: the step by a multiple of the unit in the last place, and why the
 loop ends.
 */
module Refinement {
  import opened Arith
  import opened Rational
  import opened Words
  import opened Ieee
  import opened DoubleBits
  import opened Scaling
  import opened ShortestDigits
  import opened ScaledDoubles
  import opened Unscaling
  import opened Correction

  // ----- rounding -----

  /**
   The processor's rounding: to the nearest double, ties to even, and to infinity from half a unit past the
   largest.
   */
  ghost predicate Rounds(nearest: real -> Bits) {
    forall v: real :: v >= 0.0 ==> ReadsAs(v, nearest(v))
  }

  lemma InUnits(v: real, n: Bits)
    ensures v >= DoubleValue(n) <==> v * RPow(2, 1074) >= Magnitude(n) as real
    ensures v <= DoubleValue(n) <==> v * RPow(2, 1074) <= Magnitude(n) as real
  {
    hide RPow, Magnitude;
    RPowPos(2, -1074);
    RPowInverse(2, 1074);
    var X := v * RPow(2, 1074);
    Unscale(v, RPow(2, 1074), RPow(2, -1074));
    RCancelRight(RPow(2, -1074), X, Magnitude(n) as real);
    RCancelRight(RPow(2, -1074), Magnitude(n) as real, X);
  }

  lemma ReadsSelf(n: Bits)
    requires n < INFINITY
    ensures ReadsAs(DoubleValue(n), n)
  {
    hide RPow, Magnitude, DoubleValue;
    InUnits(DoubleValue(n), n);
    NextMagnitudes(n);
    NearestIffInterval(Magnitude(n) as real, n);
    assert DoubleValue(n) * RPow(2, 1074) == Magnitude(n) as real;
  }

  lemma NextMagnitudes(n: Bits)
    requires n < INFINITY
    ensures InInterval(Magnitude(n) as real, n)
  {
    hide Magnitude;
    Increasing(n, n + 1);
    if n > 0 { Increasing(n - 1, n); }
  }

  /** Rounding is monotone: it does not pass a double. */
  lemma ReadsMono(v: real, n: Bits, k: Bits)
    requires ReadsAs(v, n)
    ensures v >= DoubleValue(k) ==> n >= k
    ensures v <= DoubleValue(k) ==> n <= k
  {
    hide RPow, Magnitude, DoubleValue;
    InUnits(v, k);
    var X := v * RPow(2, 1074);
    assert Dist(X, Magnitude(n) as real) <= Dist(X, Magnitude(k) as real);
    if n < k { Increasing(n, k); }
    if n > k { Increasing(k, n); }
  }

  lemma RoundedNear(v: real, n: Bits)
    requires ReadsAs(v, n) && 0 < n < INFINITY
    ensures Dist(DoubleValue(n), v) <= RPow(2, HalfGapUp(n))
  {
    hide RPow, DoubleValue, ReadsAs;
    ReadsAsIff(v, n);
    RPowMono(2, HalfGapDown(n), HalfGapUp(n));
  }

  /** Any real rounds to itself if it is a double. */
  lemma RoundsTo(v: real, n: Bits, m: Bits)
    requires ReadsAs(v, n) && m < INFINITY && v == DoubleValue(m)
    ensures n == m
  {
    hide ReadsAs, DoubleValue;
    ReadsSelf(m);
    ReadsUnique(v, n, m);
  }

  lemma Ordered(m: Bits, n: Bits)
    requires m <= n
    ensures DoubleValue(m) <= DoubleValue(n)
  {
    hide Magnitude, RPow;
    RPowPos(2, -1074);
    if m < n { Increasing(m, n); }
    RMulMono(RPow(2, -1074), Magnitude(m) as real, Magnitude(n) as real);
  }

  // ----- moving the exponent -----

  lemma EvenShift(n: int, k: int)
    ensures (n - k * HIDDEN) % 2 == n % 2
  {
    assert n == 2 * (k * 0x8_0000_0000_0000) + (n - k * HIDDEN);
    EvenAdd(k * 0x8_0000_0000_0000, n - k * HIDDEN);
  }

  /** And rounding goes along, for normal doubles. */
  lemma ShiftReads(v: real, w: real, n: Bits, k: nat)
    requires ExpField(n) > k && n < INFINITY && v == w * RPow(2, k)
    ensures ReadsAs(v, n) ==> ReadsAs(w, n - k * HIDDEN)
    ensures ExpField(n) > k + 1 ==> (ReadsAs(v, n) <==> ReadsAs(w, n - k * HIDDEN))
  {
    hide RPow, DoubleValue, ReadsAs;
    var m := n - k * HIDDEN;
    Fields(n);
    ShiftValue(n, k);
    EvenShift(n, k);
    ReadsAsIff(v, n);
    ReadsAsIff(w, m);
    RPowPos(2, k);
    RPowAdd(2, HalfGapUp(m), k);
    RPowAdd(2, HalfGapDown(m), k);
    RPowMono(2, HalfGapDown(n), HalfGapDown(m) + k);
    SameSides(v, w, DoubleValue(n), DoubleValue(m), RPow(2, HalfGapUp(n)), RPow(2, HalfGapUp(m)), RPow(2, k));
    SameSides(v, w, DoubleValue(n), DoubleValue(m), RPow(2, HalfGapDown(m) + k), RPow(2, HalfGapDown(m)), RPow(2, k));
  }

  lemma SameSides(v: real, w: real, d: real, e: real, g: real, h: real, p: real)
    requires p > 0.0 && v == w * p && d == e * p && g == h * p
    ensures d - v < g <==> e - w < h
    ensures d - v == g <==> e - w == h
    ensures v - d < g <==> w - e < h
    ensures v - d == g <==> w - e == h
  {
    Minus(e, w, p);
    Minus(w, e, p);
    RCancelRight(p, e - w, h);
    RCancelRight(p, w - e, h);
  }

  /** Powers of two. */
  lemma BinadeValue(k: nat)
    requires 1 <= k <= 2047
    ensures k * HIDDEN <= INFINITY && ExpField(k * HIDDEN) == k && Fraction(k * HIDDEN) == 0
    ensures DoubleValue(k * HIDDEN) == RPow(2, k - 1023) && HalfGapUp(k * HIDDEN) == k - 1076
  {
    hide RPow, DoubleValue;
    DivModUnique(k * HIDDEN, HIDDEN, k, 0);
    ValueInGaps(k * HIDDEN);
    HiddenReal();
    RPowAdd(2, 53, k - 1076);
  }

  lemma HiddenReal()
    ensures RPow(2, 53) == (2 * HIDDEN) as real
  {
    HiddenPower();
    PowStep(2, 52);
  }

  // ----- what a rounded value says of the exact one -----

  lemma AboveHalf(v: real, n: Bits, k: Bits)
    requires ReadsAs(v, n) && 0 < k < n
    ensures v >= DoubleValue(k) + RPow(2, HalfGapUp(k))
  {
    hide RPow, DoubleValue, ReadsAs, HalfGapUp, HalfGapDown;
    ReadsMono(v, n, k);
    HalfGaps(k);
    if DoubleValue(k) < v < DoubleValue(k) + RPow(2, HalfGapUp(k)) {
      ReadsSame(v, k);
      ReadsUnique(v, n, k);
    }
  }

  lemma BelowHalf(v: real, n: Bits, k: Bits)
    requires ReadsAs(v, n) && n < k < INFINITY
    ensures v <= DoubleValue(k) - RPow(2, HalfGapDown(k))
  {
    hide RPow, DoubleValue, ReadsAs, HalfGapUp, HalfGapDown;
    ReadsMono(v, n, k);
    HalfGaps(k);
    if DoubleValue(k) > v > DoubleValue(k) - RPow(2, HalfGapDown(k)) {
      ReadsSame(v, k);
      ReadsUnique(v, n, k);
    }
  }

  // ----- numbers held 2^106 times too large -----

  /** Every number below 2^53 units of the smallest double has words that hold it. */
  lemma {:induction false} HeldNumber(m: nat) returns (n: Bits)
    requires 1 <= m < 2 * HIDDEN
    ensures Held(n, SCALE) && Unscaled(n, SCALE) == m && ExpField(n) <= 107
  {
    hide Pow;
    if m == 1 {
      n := 55 * HIDDEN;
      BinadeValue(55);
      HiddenPower();
      DivModUnique(HIDDEN, Pow(2, 52), 1, 0);
    } else {
      var n1 := HeldNumber(m - 1);
      HeldUp(n1, SCALE);
      n := n1 + Place(n1, SCALE);
      SmallField(n);
    }
  }

  lemma SmallField(n: Bits)
    requires Held(n, SCALE) && Unscaled(n, SCALE) < 2 * HIDDEN
    ensures ExpField(n) <= 107
  {
    Fields(n);
  }

  /** An integer of units of 2^-1074 is its own pattern as far as the second binade. */
  lemma UnitsValue(m: nat)
    requires m < 2 * HIDDEN
    ensures DoubleValue(m) == (m as real) * RPow(2, -1074) && HalfGapUp(m) == -1075
  {
    hide RPow;
    Fields(m);
    if m < HIDDEN { DivModUnique(m, HIDDEN, 0, m); } else { DivModUnique(m, HIDDEN, 1, m - HIDDEN); }
    PowUnit(2);
  }

  /** A whole number of units is held exactly. */
  lemma HeldExactly(m: nat, v: real, n: Bits)
    requires 1 <= m < 2 * HIDDEN && v == DoubleValue(m) * RPow(2, SCALE) && ReadsAs(v, n)
    ensures Held(n, SCALE) && Unscaled(n, SCALE) == m
  {
    hide RPow, Pow, DoubleValue, ReadsAs, Unscaled, Held;
    var h := HeldNumber(m);
    HeldValue(h, SCALE);
    HeldBelow(h, SCALE);
    RoundsTo(v, n, h);
  }

  lemma HeldBelow(n: Bits, scale: nat)
    requires Held(n, scale)
    ensures n < INFINITY
  {
  }

  /** A rounded sum that stays among the normal doubles is held, and is the sum rounded. */
  lemma HeldRounded(v: real, w: real, n: Bits)
    requires v == w * RPow(2, SCALE) && ReadsAs(v, n)
    requires RPow(2, -1022) - RPow(2, -1076) < w <= RPow(2, -600)
    ensures Held(n, SCALE) && ReadsAs(w, Unscaled(n, SCALE))
  {
    hide RPow, DoubleValue, ReadsAs;
    var k := 107 * HIDDEN;
    BinadeValue(107);
    BinadeValue(1000);
    RPowPos(2, SCALE);
    RPowAdd(2, -1022, SCALE);
    RPowAdd(2, -1076, SCALE);
    RPowAdd(2, -600, SCALE);
    assert HalfGapDown(k) == -970;
    RPowMono(2, -494, -23);
    HeldRange(v, w, RPow(2, SCALE), RPow(2, -1022), RPow(2, -1076), RPow(2, -600));
    if n < k { BelowHalf(v, n, k); }
    ReadsMono(v, n, 1000 * HIDDEN);
    Fields(n);
    PowUnit(2);
    ShiftReads(v, w, n, SCALE);
  }

  lemma HeldRange(v: real, w: real, p: real, a: real, b: real, c: real)
    requires p > 0.0 && v == w * p && a - b < w <= c
    ensures a * p - b * p < v <= c * p
  {
    Minus(a, b, p);
    RCancelRight(p, a - b, w);
    RCancelRight(p, w, c);
  }

  // ----- one step -----

  const BIG0: Word := 0x7fef_ffff
  const BIG1: Word := 0xffff_ffff

  /** The largest double. */
  const LARGEST: Bits := INFINITY - 1

  /** The unit in the last place: twice the upper half gap. */
  ghost function Unit(n: Bits): real { 2.0 * RPow(2, HalfGapUp(n)) }

  /** n and a units more. */
  ghost function ByUnits(n: Bits, a: real): real { DoubleValue(n) + a * Unit(n) }

  /** How a step ends: new words, the largest double on overflow, overflow from there, or zero. */
  datatype Moved = To(word0: Word, word1: Word) | Largest | Over | Gone

  /** The step lands on w, rounded. */
  ghost predicate Lands(r: Moved, w: real, scale: nat) {
    match r
    case To(w0, w1) => HeldWords(w0, w1, scale) && ReadsAs(w, UnscaledWords(w0, w1, scale))
    case Gone => scale == SCALE && w == 0.0
    case _ => scale == 0 && w >= DoubleValue(LARGEST) + RPow(2, HalfGapUp(LARGEST))
  }

  /** rv += a * ulp(rv): the product with a power of two is exact, the sum is rounded. */
  method AddUlps(w0: Word, w1: Word, a: real, nearest: real -> Bits) returns (u0: Word, u1: Word)
    requires Rounds(nearest) && w0 < 0x7ff0_0000 && w0 / EXP_MSK1 > 52
    requires ByUnits(Join(w0, w1), a) >= 0.0
    ensures u0 < 0x7ff0_0000 || (u0 == 0x7ff0_0000 && u1 == 0)
    ensures ReadsAs(ByUnits(Join(w0, w1), a), Join(u0, u1))
  {
    hide RPow, DoubleValue, Nearest, Unit;
    var v0, v1 := Ulp(w0, w1);
    UnitIs(Join(w0, w1));
    Times(a, DoubleValue(Join(v0, v1)), Unit(Join(w0, w1)));
    ghost var v := ByUnits(Join(w0, w1), a);
    var x := DoubleValue(Join(w0, w1)) + a * DoubleValue(Join(v0, v1));
    assert x == v;
    var sum := nearest(x);
    assert ReadsAs(x, sum);
    SplitWords(sum);
    u0, u1 := sum / BASE, sum % BASE;
    assert Join(u0, u1) == sum;
  }

  lemma Times(a: real, x: real, y: real)
    requires x == y
    ensures a * x == a * y
  {
  }

  lemma UnitIs(n: Bits)
    requires n < INFINITY
    ensures DoubleValue(n + 1) == DoubleValue(n) + Unit(n)
  {
    hide RPow, DoubleValue;
    NextValue(n);
  }

  /** A few million units are little beside a normal double. */
  lemma SmallAmount(n: Bits, a: real)
    requires ExpField(n) > 0 && -8388610.0 <= a <= 8388610.0
    ensures 0.0 <= 3.0 * DoubleValue(n) <= 4.0 * ByUnits(n, a) <= 5.0 * DoubleValue(n)
  {
    hide RPow, DoubleValue;
    ValueInGaps(n);
    Fields(n);
    RPowPos(2, HalfGapUp(n));
    AmountIn(DoubleValue(n), (2 * Mantissa(n)) as real, RPow(2, HalfGapUp(n)), a);
  }

  lemma AmountIn(d: real, M: real, g: real, a: real)
    requires g > 0.0 && d == M * g && M >= 67108880.0 && -8388610.0 <= a <= 8388610.0
    ensures 0.0 <= d && -d <= 4.0 * (a * (2.0 * g)) <= d
  {
    RMulMono(g, 67108880.0, M);
    RMulMono(g, a, 8388610.0);
    RMulMono(g, -8388610.0, a);
    FourTimes(a, g, a * g);
    assert -67108880.0 * g <= 8.0 * (a * g) <= 67108880.0 * g;
  }

  lemma FourTimes(a: real, g: real, ag: real)
    requires ag == a * g
    ensures 4.0 * (a * (2.0 * g)) == 8.0 * ag
  {
  }

  lemma LargestIs()
    ensures LARGEST == BIG0 * BASE + BIG1 && ExpField(LARGEST) == 2046 && LARGEST > 0
    ensures LARGEST - 53 * HIDDEN == 1994 * HIDDEN - 1
  {
    DivModUnique(LARGEST, HIDDEN, 2046, HIDDEN - 1);
  }

  /** Near the top of the range the sum is formed 2^53 times smaller. */
  method StepTop(w0: Word, w1: Word, a: real, nearest: real -> Bits) returns (r: Moved)
    requires Rounds(nearest) && w0 < 0x7ff0_0000 && w0 / EXP_MSK1 == 2046
    requires -8388610.0 <= a <= 8388610.0 || (a >= 1.0 && Join(w0, w1) == LARGEST)
    ensures Lands(r, ByUnits(Join(w0, w1), a), 0)
    ensures a >= 1.0 && Join(w0, w1) == LARGEST ==> r == Over
    ensures !r.Gone? && (r.Over? ==> Join(w0, w1) == LARGEST) && (r.Largest? ==> Join(w0, w1) != LARGEST)
  {
    hide RPow, DoubleValue, ReadsAs, ByUnits;
    ghost var n := Join(w0, w1);
    JoinFields(w0, w1);
    var v0 := w0 - 53 * EXP_MSK1;
    JoinFields(v0, w1);
    ghost var m := Join(v0, w1);
    assert m == n - 53 * HIDDEN;
    ShiftValue(n, 53);
    if a >= 1.0 && n == LARGEST { MoreThanOne(m, a); } else { SmallAmount(m, a); }
    var u0, u1 := AddUlps(v0, w1, a, nearest);
    ghost var w, w2 := ByUnits(n, a), ByUnits(m, a);
    ScaledSum(n, m, 53, a);
    LargestIs();
    if a >= 1.0 && n == LARGEST { ReadsMono(w2, Join(u0, u1), m + 1); }
    if u0 / EXP_MSK1 >= 1994 {
      PastTop(w, w2, u0, u1);
      r := if w0 == BIG0 && w1 == BIG1 then Over else Largest;
    } else {
      JoinFields(u0, u1);
      BinadeValue(900);
      BinadeValue(1993);
      ghost var k := Join(u0, u1) + 53 * HIDDEN;
      LowestSum(m, w2, Join(u0, u1));
      Fields(Join(u0, u1));
      DivModUnique(k, HIDDEN, ExpField(Join(u0, u1)) + 53, Fraction(Join(u0, u1)));
      ShiftReads(w, w2, k, 53);
      r := To(u0 + 53 * EXP_MSK1, u1);
      assert Join(u0 + 53 * EXP_MSK1, u1) == k;
    }
  }

  lemma MoreThanOne(n: Bits, a: real)
    requires n < INFINITY && a >= 1.0
    ensures ByUnits(n, a) >= DoubleValue(n + 1) >= DoubleValue(n) >= 0.0
  {
    hide RPow, DoubleValue;
    UnitIs(n);
    RPowPos(2, HalfGapUp(n));
    RMulMono(Unit(n), 1.0, a);
    ZeroValue();
    Ordered(0, n);
    Ordered(n, n + 1);
  }

  lemma ScaledSum(n: Bits, m: Bits, k: nat, a: real)
    requires DoubleValue(n) == DoubleValue(m) * RPow(2, k) && HalfGapUp(n) == HalfGapUp(m) + k
    ensures ByUnits(n, a) == ByUnits(m, a) * RPow(2, k)
  {
    hide RPow, DoubleValue;
    RPowAdd(2, HalfGapUp(m), k);
    SumTimes(DoubleValue(m), a, RPow(2, HalfGapUp(m)), RPow(2, k), RPow(2, HalfGapUp(n)));
  }

  lemma SumTimes(d: real, a: real, g: real, p: real, gp: real)
    requires gp == g * p
    ensures d * p + a * (2.0 * gp) == (d + a * (2.0 * g)) * p
  {
    assert a * (2.0 * (g * p)) == (a * (2.0 * g)) * p;
  }

  lemma LowestSum(m: Bits, w: real, u: Bits)
    requires ExpField(m) == 1993 && 2.0 * w >= DoubleValue(m) && ReadsAs(w, u)
    ensures ExpField(u) >= 900
  {
    hide RPow, DoubleValue, ReadsAs;
    Fields(m);
    BinadeValue(1993);
    BinadeValue(900);
    Ordered(1993 * HIDDEN, m);
    RPowMono(2, -122, 970);
    RPowSucc(2, -123);
    ReadsMono(w, u, 900 * HIDDEN);
    Fields(u);
  }

  lemma PastTop(w: real, w2: real, u0: Word, u1: Word)
    requires w == w2 * RPow(2, 53) && (u0 < 0x7ff0_0000 || (u0 == 0x7ff0_0000 && u1 == 0)) && u0 / EXP_MSK1 >= 1994
    requires ReadsAs(w2, Join(u0, u1))
    ensures w >= DoubleValue(LARGEST) + RPow(2, HalfGapUp(LARGEST))
  {
    hide RPow, DoubleValue, ReadsAs, HalfGapUp;
    LargestIs();
    ShiftValue(LARGEST, 53);
    var k := LARGEST - 53 * HIDDEN;
    assert Join(u0, u1) >= 1994 * HIDDEN;
    AboveHalf(w2, Join(u0, u1), k);
    RPowAdd(2, HalfGapUp(k), 53);
    RPowPos(2, 53);
    RMulMono(RPow(2, 53), DoubleValue(k) + RPow(2, HalfGapUp(k)), w2);
  }

  /** Among the subnormals the amount is a whole number of units, at least one. */
  function Steps(a: real): (z: nat)
    ensures z >= 1 && (a >= 1.0 ==> z as real <= a < z as real + 1.0) && (a < 2.0 ==> z == 1)
  {
    if a.Floor <= 0 then 1 else a.Floor
  }

  function Toward(dsign: bool, z: nat): int { if dsign then z else -(z as int) }

  function Signed(dsign: bool, a: real): real { if dsign then a else -a }

  /** The step is by s whole units from m. */
  ghost predicate StepsBy(r: Moved, m: Bits, s: int) {
    match r
    case To(w0, w1) => HeldWords(w0, w1, SCALE) && UnscaledWords(w0, w1, SCALE) == m + s
    case Gone => m + s == 0
    case _ => false
  }

  /** A scaled number whose true last place is not the held one: the amount is raised to the true place. */
  method StepTiny(w0: Word, w1: Word, dsign: bool, a: real, nearest: real -> Bits) returns (r: Moved)
    requires Rounds(nearest) && HeldWords(w0, w1, SCALE) && w0 / EXP_MSK1 <= 2 * 53 && 0.0 <= a <= 8388610.0
    requires dsign || Steps(a) <= UnscaledWords(w0, w1, SCALE)
    ensures r.To? || r.Gone?
    ensures StepsBy(r, UnscaledWords(w0, w1, SCALE), Toward(dsign, Steps(a)))
  {
    hide RPow, DoubleValue, ReadsAs, ByUnits, Unscaled, Held;
    ghost var n, m := Join(w0, w1), UnscaledWords(w0, w1, SCALE);
    var y, z := w0 / EXP_MSK1, Steps(a);
    var a1 := Signed(dsign, z as real) * RPow(2, 2 * 53 + 1 - y);
    ghost var m1 := if dsign then m + z else m - z;
    TinyFields(w0, w1);
    TinySum(n, m, m1, Signed(dsign, z as real), a1);
    var u0, u1 := AddUlps(w0, w1, a1, nearest);
    if m1 == 0 {
      ZeroValue();
      RoundsTo(ByUnits(n, a1), Join(u0, u1), 0);
    } else {
      HeldExactly(m1, ByUnits(n, a1), Join(u0, u1));
      HeldBelow(Join(u0, u1), SCALE);
      HeldNonzero(Join(u0, u1));
    }
    r := if u0 == 0 && u1 == 0 then Gone else To(u0, u1);
  }

  lemma ZeroValue()
    ensures DoubleValue(0) == 0.0
  {
    hide RPow;
    assert Magnitude(0) == 0;
  }

  lemma HeldNonzero(n: Bits)
    ensures Held(n, SCALE) ==> n > 0
  {
    Fields(n);
  }

  lemma TinyFields(w0: Word, w1: Word)
    requires HeldWords(w0, w1, SCALE) && w0 / EXP_MSK1 <= 2 * 53
    ensures var n, m := Join(w0, w1), UnscaledWords(w0, w1, SCALE);
            && 0 < m < HIDDEN && 55 <= ExpField(n) == w0 / EXP_MSK1 <= 106
            && DoubleValue(n) == DoubleValue(m) * RPow(2, SCALE) && HalfGapUp(m) == -1075
  {
    hide RPow, DoubleValue;
    HeldJoin(w0, w1, SCALE);
    UnscaledFields(Join(w0, w1), SCALE);
    HeldValue(Join(w0, w1), SCALE);
  }

  lemma TinySum(n: Bits, m: Bits, m1: nat, s: real, a: real)
    requires 0 < m < HIDDEN && 55 <= ExpField(n) <= 106 && DoubleValue(n) == DoubleValue(m) * RPow(2, SCALE)
    requires m1 < 2 * HIDDEN && s == (m1 - m) as real && a == s * RPow(2, 107 - ExpField(n))
    ensures ByUnits(m, s) == DoubleValue(m1) && ByUnits(n, a) == DoubleValue(m1) * RPow(2, SCALE) >= 0.0
  {
    hide RPow, DoubleValue;
    UnitsValue(m);
    UnitsValue(m1);
    var f: int, u := ExpField(n), RPow(2, -1074);
    RPowSucc(2, -1075);
    RPowPos(2, -1074);
    RPowPos(2, SCALE);
    RPowSucc(2, f - 1076);
    RPowAdd(2, 107 - f, f - 1075);
    RPowAdd(2, -1074, SCALE);
    TinyReal(m as real, m1 as real, s, u, RPow(2, SCALE), RPow(2, 107 - f), RPow(2, f - 1075));
  }

  lemma TinyReal(m: real, m1: real, s: real, u: real, p: real, q: real, v: real)
    requires s == m1 - m && q * v == u * p && u > 0.0 && p > 0.0 && m1 >= 0.0
    ensures m * u + s * u == m1 * u && (m * u) * p + (s * q) * v == (m1 * u) * p && (m1 * u) * p >= 0.0
  {
    RMulAssoc(s, q, v);
    RMulAssoc(s, u, p);
    assert (m * u) * p + (s * u) * p == (m * u + s * u) * p;
    assert m1 * u >= 0.0;
  }

  /** Elsewhere the held sum is the true one, 2^scale times larger. */
  method StepPlain(w0: Word, w1: Word, scale: nat, a: real, nearest: real -> Bits) returns (r: Moved)
    requires Rounds(nearest) && HeldWords(w0, w1, scale) && -8388610.0 <= a <= 8388610.0
    requires w0 / EXP_MSK1 > scale && w0 / EXP_MSK1 > 52 && w0 / EXP_MSK1 < 2046
    requires var w := ByUnits(UnscaledWords(w0, w1, scale), a);
             if scale == 0 then RPow(2, -914) <= w else RPow(2, -1022) - RPow(2, -1076) < w <= RPow(2, -600)
    ensures r.To? && Lands(r, ByUnits(UnscaledWords(w0, w1, scale), a), scale)
  {
    hide RPow, DoubleValue, ReadsAs, ByUnits, Unscaled, Held;
    ghost var n, m := Join(w0, w1), UnscaledWords(w0, w1, scale);
    HeldJoin(w0, w1, scale);
    PlainFields(n, scale);
    SmallAmount(n, a);
    ScaledSum(n, m, scale, a);
    var u0, u1 := AddUlps(w0, w1, a, nearest);
    ghost var w := ByUnits(m, a);
    if scale == 0 {
      RPowZero(2);
      BelowTop(n, a, w, Join(u0, u1));
    } else {
      HeldRounded(ByUnits(n, a), w, Join(u0, u1));
      HeldBelow(Join(u0, u1), scale);
    }
    r := To(u0, u1);
  }

  lemma PlainFields(n: Bits, scale: nat)
    requires Held(n, scale) && ExpField(n) > scale
    ensures var m := Unscaled(n, scale);
            && DoubleValue(n) == DoubleValue(m) * RPow(2, scale) && HalfGapUp(n) == HalfGapUp(m) + scale
            && (scale == 0 ==> m == n) && ExpField(n) > 0 && (scale == 0 || scale == SCALE)
  {
    hide RPow, DoubleValue;
    ShiftValue(n, scale);
  }

  /** Unscaled sums below the top binade are normal doubles. */
  lemma BelowTop(n: Bits, a: real, w: real, u: Bits)
    requires 0 < ExpField(n) < 2046 && -8388610.0 <= a <= 8388610.0 && w == ByUnits(n, a) && w >= RPow(2, -914)
    requires ReadsAs(w, u)
    ensures u < INFINITY && Held(u, 0) && Unscaled(u, 0) == u && ExpField(u) > 108
  {
    hide RPow, DoubleValue, ReadsAs, ByUnits;
    SmallAmount(n, a);
    BinadeValue(109);
    ReadsMono(w, u, 109 * HIDDEN);
    BinadeValue(2046);
    Fields(n);
    Ordered(n, 2046 * HIDDEN);
    RPowSucc(2, 1023);
    TopDouble(n);
    ReadsMono(w, u, INFINITY - 1);
    Fields(u);
  }

  lemma TopDouble(n: Bits)
    requires ExpField(n) < 2046
    ensures 3.0 * DoubleValue(n) <= 2.0 * DoubleValue(LARGEST)
  {
    hide RPow, DoubleValue;
    var k := LARGEST - HIDDEN;
    LargestIs();
    Fields(n);
    ShiftValue(LARGEST, 1);
    RPowSucc(2, 0);
    RPowZero(2);
    Ordered(n, k);
    Ordered(0, n);
    ZeroValue();
  }

  // ----- which step -----

  /** How far off the ratio may be: 2^-25 of a half unit. */
  ghost function Slack(g: real): real { g / 33554432.0 }

  /** The decimal t, and whether it is scaled: tiny numbers are, and a subnormal is approximated by subnormals. */
  ghost predicate Suits(t: real, scale: nat, m: Bits) {
    if scale == 0 then RPow(2, -910) <= t
    else scale == SCALE && 0.0 < t <= RPow(2, -700) && (m >= HIDDEN ==> t >= RPow(2, -1022))
  }

  /** q is the distance of m from t in half units, up to the slack; it is more than one, and a few million at most. */
  ghost predicate Measured(q: real, dsign: bool, m: Bits, t: real) {
    var off, g := Dist(DoubleValue(m), t), RPow(2, HalfGapUp(m));
    (dsign <==> DoubleValue(m) < t) && g < off <= 8388608.0 * g && -Slack(g) <= q * g - off <= Slack(g)
  }

  /** A decimal far above the largest double, by less than the largest. */
  ghost predicate Beyond(m: Bits, t: real) {
    var g := RPow(2, HalfGapUp(m)); m == LARGEST && 8388608.0 * g < t - DoubleValue(m) <= 72057594037927936.0 * g
  }

  /** aadj: one unit if that is near enough, else half the ratio; nearer tells of a power of two and a decimal below. */
  function Amount(q: real, nearer: bool): real {
    if q > 2.0 then 0.5 * q else if !nearer then 1.0 else if q < 1.0 then 0.5 else 0.5 * q
  }

  lemma AmountOff(q: real, nearer: bool, g: real, off: real)
    requires g > 0.0 && g < off <= 8388608.0 * g && -Slack(g) <= q * g - off <= Slack(g)
    ensures 0.5 <= Amount(q, nearer) <= 4194305.0
    ensures var y := Amount(q, nearer) * (2.0 * g) - off;
            -g <= y <= g && (q > 2.0 || nearer ==> -Slack(g) <= y <= Slack(g))
    ensures q <= 2.0 ==> off <= 2.0 * g + Slack(g)
  {
    Against(g, q, 2.0, q * g, 2.0 * g);
    Against(g, q, 8388610.0, q * g, 8388610.0 * g);
    Against(g, q, 1.0, q * g, g);
    var a := Amount(q, nearer);
    AmountTimes(q, g, q * g, a, a * (2.0 * g));
    AmountCases(q, nearer, g, off, q * g, a * (2.0 * g));
  }

  lemma Against(g: real, q: real, c: real, x: real, y: real)
    requires g > 0.0 && x == q * g && y == c * g
    ensures (q <= c <==> x <= y) && (q < c <==> x < y)
  {
    RCancelRight(g, q, c);
  }

  lemma AmountTimes(q: real, g: real, x: real, a: real, y: real)
    requires x == q * g && y == a * (2.0 * g)
    ensures a == 0.5 * q ==> y == x
    ensures a == 1.0 ==> y == 2.0 * g
    ensures a == 0.5 ==> y == g
  {
    if a == 0.5 * q { assert (0.5 * q) * (2.0 * g) == q * g; }
  }

  lemma AmountCases(q: real, nearer: bool, g: real, off: real, x: real, y: real)
    requires g > 0.0 && g < off <= 8388608.0 * g && -Slack(g) <= x - off <= Slack(g)
    requires (q <= 2.0 <==> x <= 2.0 * g) && (q <= 8388610.0 <==> x <= 8388610.0 * g) && (q < 1.0 <==> x < g)
    requires y == if q > 2.0 then x else if !nearer then 2.0 * g else if q < 1.0 then g else x
    ensures 0.5 <= Amount(q, nearer) <= 4194305.0
    ensures -g <= y - off <= g && (q > 2.0 || nearer ==> -Slack(g) <= y - off <= Slack(g))
    ensures q <= 2.0 ==> off <= 2.0 * g + Slack(g)
  {
  }

  /** The target of a step among normal doubles is near t. */
  lemma TargetNear(q: real, dsign: bool, nearer: bool, m: Bits, t: real)
    requires Measured(q, dsign, m, t) && (nearer ==> !dsign)
    ensures var a, g := Amount(q, nearer), RPow(2, HalfGapUp(m));
            var w := ByUnits(m, Signed(dsign, a));
            0.5 <= a <= 4194305.0 && g > 0.0 && -g <= w - t <= g
                && (q > 2.0 || nearer ==> -Slack(g) <= w - t <= Slack(g))
  {
    hide RPow, DoubleValue, Amount;
    var g, off, a := RPow(2, HalfGapUp(m)), Dist(DoubleValue(m), t), Amount(q, nearer);
    RPowPos(2, HalfGapUp(m));
    AmountOff(q, nearer, g, off);
    SignedTimes(dsign, a, 2.0 * g);
  }

  lemma SignedTimes(dsign: bool, a: real, u: real)
    ensures Signed(dsign, a) * u == if dsign then a * u else -(a * u)
  {
  }

  /** Where the sum can be formed. */
  ghost predicate InRange(w: real, scale: nat) {
    if scale == 0 then RPow(2, -914) <= w else RPow(2, -1022) - RPow(2, -1076) < w <= RPow(2, -600)
  }

  lemma TargetInRange(q: real, dsign: bool, nearer: bool, m: Bits, t: real, scale: nat)
    requires Measured(q, dsign, m, t) && (nearer ==> !dsign) && ExpField(m) > 0 && m < INFINITY && Suits(t, scale, m)
    requires !dsign && !nearer ==> Fraction(m) > 0
    ensures InRange(ByUnits(m, Signed(dsign, Amount(q, nearer))), scale)
  {
    hide RPow, DoubleValue, ByUnits, HalfGapUp;
    var a, g := Amount(q, nearer), RPow(2, HalfGapUp(m));
    var w := ByUnits(m, Signed(dsign, a));
    TargetNear(q, dsign, nearer, m, t);
    SmallAmount(m, Signed(dsign, a));
    ManyUnits(m);
    RangePowers();
    if scale != 0 {
      AtLeastHidden(m);
      if q <= 2.0 && !nearer { OneUnit(m, dsign); }
    }
  }

  lemma RangePowers()
    ensures 4.0 * RPow(2, -912) == RPow(2, -910) && 2.0 * RPow(2, -914) <= RPow(2, -910) && 0.0 < RPow(2, -914)
    ensures RPow(2, -700) > 0.0 && 2.0 * RPow(2, -700) <= RPow(2, -600)
    ensures 9007199254740992.0 * RPow(2, -1076) * 2.0 == RPow(2, -1022) && RPow(2, -1076) > 0.0
  {
    hide RPow;
    RPowPos(2, -914); RPowPos(2, -700); RPowPos(2, -1076);
    RPowSucc(2, -912); RPowSucc(2, -911);
    RPowSucc(2, -700);
    RPowMono(2, -699, -600);
    RPowMono(2, -913, -910);
    RPowSucc(2, -914);
    RPowAdd(2, 53, -1076);
    HiddenReal();
    RPowSucc(2, -1023);
  }

  lemma ManyUnits(m: Bits)
    requires ExpField(m) > 0
    ensures RPow(2, HalfGapUp(m)) > 0.0 && 9007199254740992.0 * RPow(2, HalfGapUp(m)) <= DoubleValue(m)
  {
    hide RPow, DoubleValue;
    ValueInGaps(m);
    Fields(m);
    RPowPos(2, HalfGapUp(m));
    RMulMono(RPow(2, HalfGapUp(m)), 9007199254740992.0, (2 * Mantissa(m)) as real);
  }

  lemma AtLeastHidden(m: Bits)
    requires ExpField(m) > 0
    ensures m >= HIDDEN && DoubleValue(m) >= RPow(2, -1022) && (Fraction(m) > 0 ==> m > HIDDEN)
  {
    hide RPow, DoubleValue;
    Fields(m);
    BinadeValue(1);
    Ordered(HIDDEN, m);
  }

  /** A single unit leads to the neighbour. */
  lemma OneUnit(m: Bits, dsign: bool)
    requires 0 < m < INFINITY && (!dsign ==> !SpecialCase(m))
    ensures ByUnits(m, Signed(dsign, 1.0)) == DoubleValue(if dsign then m + 1 else m - 1)
    ensures m > HIDDEN || (dsign && m >= HIDDEN) ==> ByUnits(m, Signed(dsign, 1.0)) >= RPow(2, -1022)
  {
    hide RPow, DoubleValue;
    NextValue(m);
    NextValue(m - 1);
    BinadeValue(1);
    if m >= HIDDEN { Ordered(HIDDEN, m); Ordered(HIDDEN, m + 1); }
    if m > HIDDEN { Ordered(HIDDEN, m - 1); }
  }

  /** Words of a power of two, with the decimal below. */
  predicate Nearer(dsign: bool, w0: Word, w1: Word) { !dsign && w1 == 0 && w0 % EXP_MSK1 == 0 }

  /** A scaled number whose true last place may lie above the held one. */
  predicate Tiny(w0: Word, scale: nat) { scale != 0 && w0 / EXP_MSK1 <= 2 * 53 }

  /** What a step by a units does to m. */
  ghost predicate Stepped(r: Moved, m: Bits, scale: nat, dsign: bool, a: real, tiny: bool) {
    if tiny then StepsBy(r, m, Toward(dsign, Steps(a)))
    else
      && Lands(r, ByUnits(m, Signed(dsign, a)), scale) && !r.Gone?
      && (r.Over? ==> m == LARGEST) && (r.Largest? ==> m != LARGEST)
  }

  /**
   The rest of the loop body once i > 0: q is ratio(delta, bs). The test for the smallest double unscaled is left
   out: no unscaled approximation is subnormal.
   */
  method Step(dsign: bool, q: real, w0: Word, w1: Word, scale: nat, nearest: real -> Bits, ghost t: real)
    returns (r: Moved, aadj: real)
    requires Rounds(nearest) && Kept(w0, w1, scale) && Suits(t, scale, UnscaledWords(w0, w1, scale))
    requires var m := UnscaledWords(w0, w1, scale);
             if Beyond(m, t) then dsign && q > 2.0 && scale == 0 else Measured(q, dsign, m, t)
    ensures Beyond(UnscaledWords(w0, w1, scale), t) ==> r == Over
    ensures var m, a, tiny := UnscaledWords(w0, w1, scale), Amount(q, Nearer(dsign, w0, w1)), Tiny(w0, scale);
            Beyond(m, t) || (Stepped(r, m, scale, dsign, a, tiny) && aadj == if tiny then Steps(a) as real else a)
  {
    hide RPow, DoubleValue, ReadsAs, ByUnits, Unscaled, Held, HalfGapUp, Lands, Measured, Suits, Beyond;
    var aadj1;
    if q <= 2.0 {
      if dsign {
        aadj, aadj1 := 1.0, 1.0;
      } else if w1 != 0 || w0 % EXP_MSK1 != 0 {
        aadj, aadj1 := 1.0, -1.0;
      } else {
        aadj := if q < 1.0 then 0.5 else 0.5 * q;
        aadj1 := -aadj;
      }
    } else {
      aadj := 0.5 * q;
      aadj1 := if dsign then aadj else -aadj;
    }
    ghost var m, nearer := UnscaledWords(w0, w1, scale), Nearer(dsign, w0, w1);
    assert aadj == Amount(q, nearer) && aadj1 == Signed(dsign, aadj);
    var y := w0 / EXP_MSK1;
    if Beyond(m, t) {
      BeyondTop(w0, w1, t);
    } else {
      TargetNear(q, dsign, nearer, m, t);
      StepFields(q, dsign, w0, w1, scale, t);
    }
    if y == 2046 {
      r := StepTop(w0, w1, aadj1, nearest);
    } else if scale != 0 && y <= 2 * 53 {
      r := StepTiny(w0, w1, dsign, aadj, nearest);
      aadj := Steps(aadj) as real;
    } else {
      TargetInRange(q, dsign, nearer, m, t, scale);
      r := StepPlain(w0, w1, scale, aadj1, nearest);
    }
  }

  lemma BeyondTop(w0: Word, w1: Word, t: real)
    requires Kept(w0, w1, 0) && Beyond(UnscaledWords(w0, w1, 0), t)
    ensures Join(w0, w1) == LARGEST && w0 / EXP_MSK1 == 2046
  {
    hide RPow, DoubleValue;
    HeldJoin(w0, w1, 0);
    UnscaledIs(Join(w0, w1));
    LargestIs();
  }

  lemma StepFields(q: real, dsign: bool, w0: Word, w1: Word, scale: nat, t: real)
    requires Kept(w0, w1, scale)
    requires Measured(q, dsign, UnscaledWords(w0, w1, scale), t) && Suits(t, scale, UnscaledWords(w0, w1, scale))
    ensures var m, n, y := UnscaledWords(w0, w1, scale), Join(w0, w1), w0 / EXP_MSK1;
            && (scale == 0 || scale == SCALE) && 0 < m < INFINITY && 52 < y < 2047 && (scale == 0 ==> m == n)
                && (y == 2046 ==> scale == 0)
            && (y > scale ==> ExpField(m) > 0 && (w1 != 0 || w0 % EXP_MSK1 != 0 ==> Fraction(m) > 0))
            && (y <= scale && !dsign ==> Steps(Amount(q, Nearer(dsign, w0, w1))) <= m)
  {
    hide RPow, DoubleValue, ByUnits, Unscaled, HalfGapUp, Steps, Amount;
    var m, n, y := UnscaledWords(w0, w1, scale), Join(w0, w1), w0 / EXP_MSK1;
    HeldJoin(w0, w1, scale);
    NearerBelow(w0, w1, scale);
    UnscaledFields(n, scale);
    Fields(n);
    if scale == 0 {
      UnscaledIs(n);
      AboveTiny(q, dsign, m, t);
    } else if y <= scale && !dsign {
      TinyEnough(q, Nearer(dsign, w0, w1), m, t);
    }
  }

  lemma UnscaledIs(n: Bits)
    requires ExpField(n) > 0
    ensures Unscaled(n, 0) == n
  {
  }

  lemma AboveTiny(q: real, dsign: bool, m: Bits, t: real)
    requires Measured(q, dsign, m, t) && RPow(2, -910) <= t && ExpField(m) > 0
    ensures ExpField(m) > 108
  {
    hide RPow, DoubleValue, HalfGapUp;
    ManyUnits(m);
    RangePowers();
    BinadeValue(109);
    if m < 109 * HIDDEN { Ordered(m, 109 * HIDDEN); }
    Fields(m);
  }

  lemma TinyEnough(q: real, nearer: bool, m: Bits, t: real)
    requires Measured(q, false, m, t) && 0 < m < HIDDEN && t > 0.0
    ensures Steps(Amount(q, nearer)) <= m
  {
    hide RPow, DoubleValue, Amount;
    TargetNear(q, false, nearer, m, t);
    UnitsValue(m);
    RPowSucc(2, -1075);
    var a := Amount(q, nearer);
    FewerUnits(a, m as real, RPow(2, -1074), ByUnits(m, Signed(false, a)), t);
  }

  lemma FewerUnits(a: real, m: real, u: real, w: real, t: real)
    requires u > 0.0 && w == m * u + (-a) * u && -0.5 * u <= w - t && t > 0.0
    ensures a < m + 0.5
  {
    FewerTimes(a, m, u, a * u, m * u);
  }

  lemma FewerTimes(a: real, m: real, u: real, au: real, mu: real)
    requires u > 0.0 && au == a * u && mu == m * u
    ensures (-a) * u == -au && (au < mu + 0.5 * u <==> a < m + 0.5)
  {
    RCancelRight(u, a, m + 0.5);
  }

  // ----- every step comes closer -----

  /** How near m is to t, in half units: the last is the exit of the loop. */
  ghost predicate Close(k: nat, m: Bits, t: real) {
    var off, g := Dist(DoubleValue(m), t), RPow(2, HalfGapUp(m));
    if k == 0 then off <= g
    else if k == 1 then off <= g + 2.0 * Slack(g)
    else if k == 2 then
      off <= 2.0 * g + Slack(g) || (m == LARGEST && DoubleValue(m) < t && off <= 8388608.0 * g) || Beyond(m, t)
    else off <= 8388608.0 * g || Beyond(m, t)
  }

  /** One unit, where little more than one is missing. */
  lemma OneCloser(m: Bits, dsign: bool, t: real, m1: Bits)
    requires 0 < m < INFINITY && (dsign <==> DoubleValue(m) < t) && m1 == (if dsign then m + 1 else m - 1)
    requires !dsign ==> !SpecialCase(m)
    requires var off, g := Dist(DoubleValue(m), t), RPow(2, HalfGapUp(m)); g < off <= 2.0 * g + Slack(g)
    ensures Dist(DoubleValue(m1), t) < RPow(2, HalfGapUp(m)) && RPow(2, HalfGapUp(m)) <= RPow(2, HalfGapUp(m1))
    ensures !dsign && t < DoubleValue(m1) ==> DoubleValue(m1) - t <= Slack(RPow(2, HalfGapUp(m)))
    ensures Close(0, m1, t)
  {
    hide RPow, DoubleValue;
    if dsign {
      NextValue(m);
      RPowMono(2, HalfGapDown(m1), HalfGapUp(m1));
    } else {
      NextValue(m1);
    }
  }

  /** A rounded target next to t. */
  lemma RoundCloser(m: Bits, w: real, m1: Bits, t: real)
    requires ExpField(m) > 0 && 3.0 * DoubleValue(m) <= 4.0 * w && 0 < m1 < INFINITY && ReadsAs(w, m1)
    requires -Slack(RPow(2, HalfGapUp(m))) <= w - t <= Slack(RPow(2, HalfGapUp(m)))
    ensures Close(1, m1, t)
  {
    hide RPow, DoubleValue, ReadsAs, HalfGapUp;
    RoundedNear(w, m1);
    ManyUnits(m);
    FewUnits(m1);
    var g, g1 := RPow(2, HalfGapUp(m)), RPow(2, HalfGapUp(m1));
    UnitsApart(HalfGapUp(m), HalfGapUp(m1));
    UnitWithin(DoubleValue(m), w, DoubleValue(m1), g, g1);
    RoundedOff(DoubleValue(m1), w, t, g, g1);
  }

  lemma UnitsApart(h: int, h1: int)
    ensures RPow(2, h) <= 2.0 * RPow(2, h1) || RPow(2, h) >= 4.0 * RPow(2, h1)
  {
    hide RPow;
    RPowSucc(2, h1);
    RPowSucc(2, h1 + 1);
    if h <= h1 + 1 { RPowMono(2, h, h1 + 1); } else { RPowMono(2, h1 + 2, h); }
  }

  lemma UnitWithin(d: real, w: real, d1: real, g: real, g1: real)
    requires g1 > 0.0 && 9007199254740992.0 * g <= d && d1 <= 18014398509481984.0 * g1 && Dist(d1, w) <= g1
    requires 3.0 * d <= 4.0 * w && (g <= 2.0 * g1 || g >= 4.0 * g1)
    ensures g <= 2.0 * g1
  {
  }

  lemma RoundedOff(d1: real, w: real, t: real, g: real, g1: real)
    requires Dist(d1, w) <= g1 && -Slack(g) <= w - t <= Slack(g) && g <= 2.0 * g1
    ensures Dist(d1, t) <= g1 + 2.0 * Slack(g1)
  {
  }

  lemma FewUnits(m: Bits)
    ensures RPow(2, HalfGapUp(m)) > 0.0 && DoubleValue(m) <= 18014398509481984.0 * RPow(2, HalfGapUp(m))
  {
    hide RPow, DoubleValue;
    ValueInGaps(m);
    Fields(m);
    RPowPos(2, HalfGapUp(m));
    RMulMono(RPow(2, HalfGapUp(m)), (2 * Mantissa(m)) as real, 18014398509481984.0);
  }

  /** Half a unit down from a power of two, where little more than that is missing. */
  lemma HalfCloser(m: Bits, w: real, m1: Bits, t: real)
    requires 0 < m < INFINITY && SpecialCase(m) && ReadsAs(w, m1)
    requires var d, g := DoubleValue(m), RPow(2, HalfGapUp(m));
             g < d - t <= g + 2.0 * Slack(g) && d - g - 3.0 * Slack(g) <= w <= d - g
    ensures m1 == m - 1 && Close(0, m1, t)
  {
    hide RPow, DoubleValue, ReadsAs;
    NextValue(m - 1);
    HalfGaps(m);
    Fields(m);
    HalfGaps(m - 1);
    DivModUnique(m - 1, HIDDEN, ExpField(m) - 1, HIDDEN - 1);
    ReadsSame(w, m - 1);
    ReadsUnique(w, m1, m - 1);
  }

  lemma CloseMono(j: nat, k: nat, m: Bits, t: real)
    requires j <= k && Close(j, m, t)
    ensures Close(k, m, t)
  {
    hide DoubleValue, RPow;
    RPowPos(2, HalfGapUp(m));
  }

  /** What a step gives: closer words, an overflow that is right, or zero next to a t below half the smallest double. */
  ghost predicate Nears(r: Moved, k: nat, scale: nat, t: real) {
    match r
    case To(w0, w1) =>
      && HeldWords(w0, w1, scale) && Close(k, UnscaledWords(w0, w1, scale), t)
      && (Suits(t, scale, UnscaledWords(w0, w1, scale)) || Close(0, UnscaledWords(w0, w1, scale), t))
    case Largest => k == 2 && scale == 0 && Close(2, LARGEST, t)
    case Over => t > DoubleValue(LARGEST) + RPow(2, HalfGapUp(LARGEST))
    case Gone => scale == SCALE && t < RPow(2, -1075)
  }

  /** s whole units from m. */
  lemma UnitsAway(m: Bits, s: int, m1: Bits)
    requires m < HIDDEN && m1 == m + s < 2 * HIDDEN
    ensures DoubleValue(m1) == DoubleValue(m) + s as real * (2.0 * RPow(2, -1075))
    ensures HalfGapUp(m) == -1075 == HalfGapUp(m1)
  {
    hide RPow, DoubleValue;
    UnitsValue(m);
    UnitsValue(m1);
    RPowSucc(2, -1075);
    Spread(m as real, s as real, RPow(2, -1074));
  }

  lemma Spread(m: real, s: real, u: real)
    ensures (m + s) * u == m * u + s * u
  {
  }

  /** The whole units taken miss t by little more than one. */
  lemma StepsNear(a: real, z: nat, g: real, off: real)
    requires g > 0.0 && z == Steps(a) && a >= 1.0 && -Slack(g) <= a * (2.0 * g) - off <= Slack(g)
    ensures -Slack(g) <= off - z as real * (2.0 * g) <= 2.0 * g + Slack(g)
  {
    Against(2.0 * g, z as real, a, z as real * (2.0 * g), a * (2.0 * g));
    Against(2.0 * g, a, z as real + 1.0, a * (2.0 * g), (z as real + 1.0) * (2.0 * g));
    assert (z as real + 1.0) * (2.0 * g) == z as real * (2.0 * g) + 2.0 * g;
  }

  lemma AmountIsOne(q: real, nearer: bool, g: real, off: real)
    requires g > 0.0 && off <= 2.0 * g + Slack(g) && q * g - off <= Slack(g)
    ensures Steps(Amount(q, nearer)) == 1
  {
    Against(g, q, 4.0, q * g, 4.0 * g);
  }

  lemma AmountIsHalf(q: real, nearer: bool, g: real, off: real)
    requires q > 2.0 && -Slack(g) <= q * g - off <= Slack(g)
    ensures var a := Amount(q, nearer); a > 1.0 && -Slack(g) <= a * (2.0 * g) - off <= Slack(g)
  {
    AmountTimes(q, g, q * g, 0.5 * q, (0.5 * q) * (2.0 * g));
  }

  /** Steps of whole units. */
  lemma TinyCloser(k: nat, q: real, dsign: bool, nearer: bool, r: Moved, m: Bits, t: real)
    requires 1 <= k <= 3 && Close(k, m, t) && Measured(q, dsign, m, t) && 0 < m < HIDDEN && Suits(t, SCALE, m)
    requires var z := Steps(Amount(q, nearer)); StepsBy(r, m, Toward(dsign, z)) && z < HIDDEN
    ensures Nears(r, k - 1, SCALE, t)
  {
    hide RPow, DoubleValue, Amount, Steps, Unscaled, Close, Suits;
    var z := Steps(Amount(q, nearer));
    var s: int := Toward(dsign, z);
    if Dist(DoubleValue(m), t) <= 2.0 * RPow(2, -1075) + Slack(RPow(2, -1075)) {
      TinyOne(q, dsign, nearer, m, t, m + s);
      CloseMono(0, k - 1, m + s, t);
    } else {
      TinyMany(k, q, dsign, nearer, m, t, m + s);
    }
    if m + s == 0 { ZeroValue(); }
  }

  /** The last unit. */
  lemma TinyOne(q: real, dsign: bool, nearer: bool, m: Bits, t: real, m1: Bits)
    requires Measured(q, dsign, m, t) && 0 < m < HIDDEN
    requires var z := Steps(Amount(q, nearer)); z < HIDDEN && m1 == m + Toward(dsign, z)
    requires Dist(DoubleValue(m), t) <= 2.0 * RPow(2, -1075) + Slack(RPow(2, -1075))
    ensures Close(0, m1, t) && (m1 == 0 ==> t < RPow(2, -1075))
  {
    hide RPow, DoubleValue, Amount, Steps, Unscaled, HalfGapUp, Fraction, ExpField;
    UnitsAway(m, m1 - m, m1);
    RPowPos(2, -1075);
    UnitFraction(m);
    ZeroValue();
    AmountIsOne(q, nearer, RPow(2, -1075), Dist(DoubleValue(m), t));
    OneCloser(m, dsign, t, m1);
  }

  /** Many units: an overshoot is within the slack. */
  lemma TinyMany(k: nat, q: real, dsign: bool, nearer: bool, m: Bits, t: real, m1: Bits)
    requires 1 <= k <= 3 && Close(k, m, t) && Measured(q, dsign, m, t) && 0 < m < HIDDEN && Suits(t, SCALE, m)
    requires var z := Steps(Amount(q, nearer)); z < HIDDEN && m1 == m + Toward(dsign, z)
    requires Dist(DoubleValue(m), t) > 2.0 * RPow(2, -1075) + Slack(RPow(2, -1075))
    ensures k == 3 && Close(2, m1, t) && (Suits(t, SCALE, m1) || Close(0, m1, t)) && (m1 == 0 ==> t < RPow(2, -1075))
  {
    hide RPow, DoubleValue, Amount, Steps, Unscaled, HalfGapUp, Fraction, ExpField;
    var g, off, z := RPow(2, -1075), Dist(DoubleValue(m), t), Steps(Amount(q, nearer));
    UnitsAway(m, m1 - m, m1);
    RPowPos(2, -1075);
    ZeroValue();
    AboveTwo(q, nearer, g, off);
    AmountIsHalf(q, nearer, g, off);
    StepsNear(Amount(q, nearer), z, g, off);
    BinadeValue(1);
    if m1 >= HIDDEN { Ordered(HIDDEN, m1); }
    SignedUnits(z, m1 - m, 2.0 * g);
    Overshoot(dsign, DoubleValue(m), t, g, z as real * (2.0 * g), DoubleValue(m1));
    NotYet(k, m, t);
  }

  lemma NotYet(k: nat, m: Bits, t: real)
    requires 1 <= k <= 3 && Close(k, m, t) && m < HIDDEN
    requires var g := RPow(2, HalfGapUp(m)); g > 0.0 && Dist(DoubleValue(m), t) > 2.0 * g + Slack(g)
    ensures k == 3
  {
    hide RPow, DoubleValue;
  }

  lemma Overshoot(dsign: bool, d: real, t: real, g: real, z: real, d1: real)
    requires g > 0.0 && (dsign <==> d < t) && d1 == (if dsign then d + z else d - z)
    requires -Slack(g) <= Dist(d, t) - z <= 2.0 * g + Slack(g)
    ensures Dist(d1, t) <= 2.0 * g + Slack(g) && (dsign && t < d1 ==> d1 - t <= g)
    ensures !dsign ==> t - d1 <= Slack(g)
  {
  }

  lemma SignedUnits(z: nat, s: int, u: real)
    ensures s == z ==> s as real * u == z as real * u
    ensures s == -(z as int) ==> s as real * u == -(z as real * u)
  {
  }

  lemma AboveTwo(q: real, nearer: bool, g: real, off: real)
    requires g > 0.0 && off > 2.0 * g + Slack(g) && -Slack(g) <= q * g - off
    ensures q > 2.0
  {
    Against(g, q, 2.0, q * g, 2.0 * g);
  }

  lemma UnitFraction(m: Bits)
    requires m < HIDDEN
    ensures !SpecialCase(m)
  {
    DivModUnique(m, HIDDEN, 0, m);
  }

  /** Steps among normal doubles. */
  lemma PlainCloser(k: nat, q: real, dsign: bool, nearer: bool, r: Moved, m: Bits, scale: nat, t: real)
    requires 1 <= k <= 3 && Close(k, m, t) && Measured(q, dsign, m, t) && Suits(t, scale, m)
    requires ExpField(m) > 0 && m < INFINITY && (nearer ==> !dsign) && (!dsign ==> (nearer <==> SpecialCase(m)))
    requires Stepped(r, m, scale, dsign, Amount(q, nearer), false)
    ensures Nears(r, k - 1, scale, t)
  {
    hide RPow, DoubleValue, Amount, ReadsAs, Unscaled, Held, Measured, Close, ByUnits, SpecialCase, Suits;
    var w := ByUnits(m, Signed(dsign, Amount(q, nearer)));
    match r
    case To(u0, u1) =>
      var m1 := UnscaledWords(u0, u1, scale);
      HeldRange2(u0, u1, scale);
      PlainTo(k, q, dsign, nearer, m, w, m1, t);
      SuitsOn(t, scale, m, m1);
    case Largest => CappedNear(k, q, dsign, nearer, m, w, t);
    case Over => OverRight(q, dsign, nearer, m, t);
    case Gone =>
  }

  lemma HeldRange2(w0: Word, w1: Word, scale: nat)
    requires HeldWords(w0, w1, scale)
    ensures 0 < UnscaledWords(w0, w1, scale) < INFINITY
  {
    hide Unscaled;
    UnscaledFields(Join(w0, w1), scale);
  }

  lemma SuitsOn(t: real, scale: nat, m: Bits, m1: Bits)
    requires Suits(t, scale, m) && ExpField(m) > 0
    ensures Suits(t, scale, m1)
  {
    hide RPow;
    AtLeastHidden(m);
  }

  lemma PlainTo(k: nat, q: real, dsign: bool, nearer: bool, m: Bits, w: real, m1: Bits, t: real)
    requires 1 <= k <= 3 && Close(k, m, t) && Measured(q, dsign, m, t)
    requires ExpField(m) > 0 && m < INFINITY && (nearer ==> !dsign) && (!dsign ==> (nearer <==> SpecialCase(m)))
    requires w == ByUnits(m, Signed(dsign, Amount(q, nearer))) && ReadsAs(w, m1) && 0 < m1 < INFINITY
    ensures Close(k - 1, m1, t)
  {
    hide RPow, DoubleValue, ReadsAs, ByUnits, SpecialCase, HalfGapUp, Close, Measured;
    var a := Amount(q, nearer);
    Fields(m);
    TargetNear(q, dsign, nearer, m, t);
    if q <= 2.0 && !nearer {
      OneUnit(m, dsign);
      OneMissing(q, dsign, nearer, m, t);
      var m2 := if dsign then m + 1 else m - 1;
      ReadsMono(w, m1, m2);
      OneCloser(m, dsign, t, m2);
      CloseMono(0, k - 1, m1, t);
    } else if k == 1 {
      LastHalf(q, dsign, nearer, m, w, t);
      HalfCloser(m, w, m1, t);
    } else {
      SmallAmount(m, Signed(dsign, a));
      RoundCloser(m, w, m1, t);
      CloseMono(1, k - 1, m1, t);
    }
  }

  lemma OneMissing(q: real, dsign: bool, nearer: bool, m: Bits, t: real)
    requires Measured(q, dsign, m, t) && q <= 2.0
    ensures var off, g := Dist(DoubleValue(m), t), RPow(2, HalfGapUp(m));
            (dsign <==> DoubleValue(m) < t) && g < off <= 2.0 * g + Slack(g)
  {
    hide RPow, DoubleValue;
    RPowPos(2, HalfGapUp(m));
    AmountOff(q, nearer, RPow(2, HalfGapUp(m)), Dist(DoubleValue(m), t));
  }

  lemma LastHalf(q: real, dsign: bool, nearer: bool, m: Bits, w: real, t: real)
    requires Close(1, m, t) && Measured(q, dsign, m, t) && (nearer ==> !dsign) && (q > 2.0 || nearer)
    requires w == ByUnits(m, Signed(dsign, Amount(q, nearer)))
    ensures nearer
    ensures var d, g := DoubleValue(m), RPow(2, HalfGapUp(m));
            g < d - t <= g + 2.0 * Slack(g) && d - g - 3.0 * Slack(g) <= w <= d - g
  {
    hide RPow, DoubleValue, Amount;
    var g, a := RPow(2, HalfGapUp(m)), Amount(q, nearer);
    RPowPos(2, HalfGapUp(m));
    TargetNear(q, dsign, nearer, m, t);
    if q > 2.0 { Against(g, q, 2.0, q * g, 2.0 * g); }
    Against(2.0 * g, 0.5, a, g, a * (2.0 * g));
    SignedTimes(dsign, a, 2.0 * g);
  }

  lemma CappedNear(k: nat, q: real, dsign: bool, nearer: bool, m: Bits, w: real, t: real)
    requires 1 <= k <= 3 && Close(k, m, t) && Measured(q, dsign, m, t)
    requires 0 < m < LARGEST && (nearer ==> !dsign) && (!dsign && !nearer ==> !SpecialCase(m))
    requires w == ByUnits(m, Signed(dsign, Amount(q, nearer)))
    requires w >= DoubleValue(LARGEST) + RPow(2, HalfGapUp(LARGEST))
    ensures k == 3 && Close(2, LARGEST, t)
  {
    hide RPow, DoubleValue, ByUnits, SpecialCase;
    var g := RPow(2, HalfGapUp(m));
    TargetNear(q, dsign, nearer, m, t);
    LargestIs();
    Fields(m);
    RPowMono(2, HalfGapUp(m), HalfGapUp(LARGEST));
    NextValue(m);
    Ordered(m + 1, LARGEST);
    Ordered(m - 1, LARGEST);
    if q <= 2.0 && !nearer { OneUnit(m, dsign); }
  }

  lemma OverRight(q: real, dsign: bool, nearer: bool, m: Bits, t: real)
    requires Measured(q, dsign, m, t) && m == LARGEST && (nearer ==> !dsign)
    requires ByUnits(m, Signed(dsign, Amount(q, nearer))) >= DoubleValue(LARGEST) + RPow(2, HalfGapUp(LARGEST))
    ensures t > DoubleValue(LARGEST) + RPow(2, HalfGapUp(LARGEST))
  {
    hide RPow, DoubleValue, Amount;
    TargetNear(q, dsign, nearer, m, t);
    SignedTimes(dsign, Amount(q, nearer), Unit(m));
    Against(Unit(m), 0.0, Amount(q, nearer), 0.0, Amount(q, nearer) * Unit(m));
  }

  /** One turn of the loop that does not end it. */
  lemma StepCloser(k: nat, q: real, dsign: bool, w0: Word, w1: Word, scale: nat, r: Moved, t: real)
    requires 1 <= k <= 3 && Kept(w0, w1, scale)
    requires var m := UnscaledWords(w0, w1, scale); Close(k, m, t) && Measured(q, dsign, m, t) && Suits(t, scale, m)
    requires var a := Amount(q, Nearer(dsign, w0, w1));
             Stepped(r, UnscaledWords(w0, w1, scale), scale, dsign, a, Tiny(w0, scale))
    ensures Nears(r, k - 1, scale, t)
  {
    hide RPow, DoubleValue, Amount, ReadsAs, Unscaled, Held, Close, ByUnits, Lands, StepsBy;
    var m, nearer := UnscaledWords(w0, w1, scale), Nearer(dsign, w0, w1);
    HeldJoin(w0, w1, scale);
    NearerBelow(w0, w1, scale);
    UnscaledFields(Join(w0, w1), scale);
    if Tiny(w0, scale) {
      TargetNear(q, dsign, nearer, m, t);
      TinyCloser(k, q, dsign, nearer, r, m, t);
    } else {
      AtLeastHidden(m);
      BinadeValue(1);
      PlainCloser(k, q, dsign, nearer, r, m, scale, t);
    }
  }
}
