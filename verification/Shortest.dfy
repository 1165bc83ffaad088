/**
 dtoa in modes 0 and 1 past its floating-point shortcuts: the digits returned read back as
 the same double, and no shorter string does.
 */
module ShortestDigits {
  import opened Arith
  import opened Rational
  import opened Words
  import opened Bignum
  import opened Pow5
  import opened Ieee
  import opened DoubleBits
  import opened Decimal
  import opened FreeTheory
  import opened FreeDigits
  import opened Scaling

  /** Reading x (rounding it to nearest even) gives n. */
  ghost predicate ReadsAs(x: real, n: Bits) {
    Nearest(x * RPow(2, 1074), n)
  }

  lemma ReadsUnique(x: real, n: Bits, m: Bits)
    requires ReadsAs(x, n) && ReadsAs(x, m)
    ensures n == m
  {
    NearestUnique(x * RPow(2, 1074), n, m);
  }

  ghost function DecimalValue(N: int, e: int): real {
    (N as real) * RPow(10, e)
  }

  /** The exponent of the last place below n. */
  lemma PrevUlp(n: Bits)
    requires 0 < n
    ensures UlpExp(n - 1) == UlpExp(n) - (if SpecialCase(n) then 1 else 0)
  {
    Fields(n);
    if Fraction(n) > 0 {
      DivModUnique(n - 1, HIDDEN, ExpField(n), Fraction(n) - 1);
    } else {
      DivModUnique(n - 1, HIDDEN, ExpField(n) - 1, HIDDEN - 1);
    }
  }

  /** Twice the half gap, in units of 2^-1074, is the integer distance to the neighbour. */
  lemma GapIs(u: nat, h: int)
    requires h == u - 1075
    ensures 2.0 * RPow(2, h) == (Pow(2, u) as real) * RPow(2, -1074)
  {
    hide RPow, Pow;
    RPowSucc(2, h);
    RPowAdd(2, u, -1074);
    NatRPow(2, u);
  }

  /** The rounding interval of n in plain reals. */
  ghost predicate Within(x: real, d: real, gd: real, gu: real, even: bool) {
    && (d - x < gd || (d - x == gd && even))
    && (x - d < gu || (x - d == gu && even))
  }

  lemma ReadsAsIff(x: real, n: Bits)
    requires 0 < n < INFINITY
    ensures ReadsAs(x, n) <==> Within(x, DoubleValue(n), RPow(2, HalfGapDown(n)), RPow(2, HalfGapUp(n)), n % 2 == 0)
  {
    hide Pow, RPow, Magnitude, Nearest;
    assert 0.0 < RPow(2, -1074) by { RPowPos(2, -1074); }
    var X := x * RPow(2, 1074);
    assert x == X * RPow(2, -1074) by { RPowInverse(2, 1074); Unscale(x, RPow(2, 1074), RPow(2, -1074)); }
    UpperSide(x, X, n);
    LowerSide(x, X, n);
    hide DoubleValue, HalfGapUp, HalfGapDown;
    NearestIffInterval(X, n);
  }

  lemma UpperSide(x: real, X: real, n: Bits)
    requires n < INFINITY && x == X * RPow(2, -1074)
    ensures x - DoubleValue(n) < RPow(2, HalfGapUp(n)) <==>
            2.0 * (X - Magnitude(n) as real) < (Magnitude(n + 1) - Magnitude(n)) as real
    ensures x - DoubleValue(n) == RPow(2, HalfGapUp(n)) <==>
            2.0 * (X - Magnitude(n) as real) == (Magnitude(n + 1) - Magnitude(n)) as real
  {
    hide Pow, RPow, Magnitude;
    NextUp(n);
    RPowPos(2, -1074);
    var gap := Magnitude(n + 1) - Magnitude(n);
    assert gap == Pow(2, UlpExp(n));
    GapIs(UlpExp(n), HalfGapUp(n));
    SideIff(x, DoubleValue(n), X, Magnitude(n) as real, RPow(2, HalfGapUp(n)), gap as real, RPow(2, -1074));
  }

  lemma LowerSide(x: real, X: real, n: Bits)
    requires 0 < n && x == X * RPow(2, -1074)
    ensures DoubleValue(n) - x < RPow(2, HalfGapDown(n)) <==>
            2.0 * (Magnitude(n) as real - X) < (Magnitude(n) - Magnitude(n - 1)) as real
    ensures DoubleValue(n) - x == RPow(2, HalfGapDown(n)) <==>
            2.0 * (Magnitude(n) as real - X) == (Magnitude(n) - Magnitude(n - 1)) as real
  {
    hide Pow, RPow, Magnitude;
    NextUp(n - 1);
    PrevUlp(n);
    RPowPos(2, -1074);
    var gap := Magnitude(n) - Magnitude(n - 1);
    assert gap == Pow(2, UlpExp(n - 1));
    GapIs(UlpExp(n - 1), HalfGapDown(n));
    SideIff(DoubleValue(n), x, Magnitude(n) as real, X, RPow(2, HalfGapDown(n)), gap as real, RPow(2, -1074));
  }

  lemma Unscale(x: real, a: real, b: real)
    requires a * b == 1.0
    ensures (x * a) * b == x
  {
    RMulAssoc(x, a, b);
  }

  /** The comparison of a - b with g, and of the same difference in units of u. */
  lemma SideIff(a: real, b: real, A: real, B: real, g: real, gap: real, u: real)
    requires u > 0.0 && a == A * u && b == B * u && 2.0 * g == gap * u
    ensures a - b < g <==> 2.0 * (A - B) < gap
    ensures a - b == g <==> 2.0 * (A - B) == gap
  {
    assert 2.0 * (a - b) == u * (2.0 * (A - B));
    RCancel(u, 2.0 * (A - B), gap);
  }

  /** A side of the interval test, cleared of denominators and not. */
  lemma ClearSide(a: int, r: int, S: int, t: int, gap: int, d: real, x: real, g: real, p: real)
    requires S > 0 && t > 0 && p > 0.0
    requires a as real * p == S as real * d && gap as real * p == S as real * g
    requires x * (t as real) == (r as real) * p
    ensures a * t - r * S < gap * t <==> d - x < g
    ensures a * t - r * S == gap * t <==> d - x == g
    ensures r * S - a * t < gap * t <==> x - d < g
    ensures r * S - a * t == gap * t <==> x - d == g
  {
    CastMul(a, t); CastMul(r, S); CastMul(gap, t);
    ClearReal(a as real, r as real, S as real, t as real, gap as real, d, x, g, p);
  }

  lemma ClearReal(a: real, r: real, S: real, t: real, gap: real, d: real, x: real, g: real, p: real)
    requires S > 0.0 && t > 0.0 && p > 0.0
    requires a * p == S * d && gap * p == S * g && x * t == r * p
    ensures a * t - r * S < gap * t <==> d - x < g
    ensures a * t - r * S == gap * t <==> d - x == g
    ensures r * S - a * t < gap * t <==> x - d < g
    ensures r * S - a * t == gap * t <==> x - d == g
  {
    var left, right := a * t - r * S, gap * t;
    var st := S * t;
    assert st > 0.0;
    assert p * left == st * (d - x) by {
      assert p * left == (a * p) * t - (r * p) * S;
      assert (S * d) * t - (x * t) * S == st * (d - x);
    }
    assert p * right == st * g by {
      assert p * right == (gap * p) * t;
      assert (S * g) * t == st * g;
    }
    CancelBoth(p, left, right, st, d - x, g);
    CancelBoth(p, -left, right, st, x - d, g);
  }

  lemma CancelBoth(p: real, a: real, b: real, q: real, x: real, y: real)
    requires p > 0.0 && q > 0.0 && p * a == q * x && p * b == q * y
    ensures a < b <==> x < y
    ensures a == b <==> x == y
  {
    RCancel(p, a, b);
    RCancel(q, x, y);
  }

  /** The scaled integers describe the rounding interval of n over 10^k. */
  ghost predicate Describes(v: Interval, k: int, n: Bits) {
    && 0 < n < INFINITY && v.S > 0 && v.closed == (n % 2 == 0)
    && Ratio(v.b, v.S, k, DoubleValue(n))
    && Ratio(v.lo, v.S, k, RPow(2, HalfGapDown(n)))
    && Ratio(v.hi, v.S, k, RPow(2, HalfGapUp(n)))
  }

  /** Being in the integer interval is reading back as n. */
  lemma HasIffReads(v: Interval, k: int, n: Bits, r: int, t: nat, x: real)
    requires Describes(v, k, n) && t > 0
    requires x * (t as real) == (r as real) * RPow(10, k)
    ensures v.Has(r, t) <==> ReadsAs(x, n)
  {
    hide RPow, DoubleValue, HalfGapUp, HalfGapDown, ReadsAs, Interval.Has;
    RPowPos(10, k);
    ReadsAsIff(x, n);
    var d, gd, gu := DoubleValue(n), RPow(2, HalfGapDown(n)), RPow(2, HalfGapUp(n));
    ClearSide(v.b, r, v.S, t, v.lo, d, x, gd, RPow(10, k));
    ClearSide(v.b, r, v.S, t, v.hi, d, x, gu, RPow(10, k));
    HasSides(v, r, t);
  }

  lemma HasSides(v: Interval, r: int, t: nat)
    ensures v.Has(r, t) <==>
              && (v.b * t - r * v.S < v.lo * t || (v.b * t - r * v.S == v.lo * t && v.closed))
              && (r * v.S - v.b * t < v.hi * t || (r * v.S - v.b * t == v.hi * t && v.closed))
  {
  }

  /** N * 10^(k - f) over the grid 10^-f. */
  lemma GridValue(N: int, k: int, f: nat)
    ensures DecimalValue(N, k - f) * (Pow(10, f) as real) == (N as real) * RPow(10, k)
  {
    hide RPow, Pow;
    RPowAdd(10, k - f, f);
    NatRPow(10, f);
    RMulAssoc(N as real, RPow(10, k - f), RPow(10, f));
  }

  lemma CoarseValue(N: nat, k: int, g: nat)
    ensures DecimalValue(N, k + g) == ((N * Pow(10, g)) as real) * RPow(10, k)
  {
    hide RPow, Pow;
    RPowAdd(10, g, k);
    NatRPow(10, g);
    CastMul(N, Pow(10, g));
    RMulAssoc(N as real, RPow(10, g), RPow(10, k));
  }

  lemma DecimalHas(v: Interval, k: int, n: Bits, N: nat, f: int)
    requires Describes(v, k, n)
    ensures v.HasDecimal(N, f) <==> ReadsAs(DecimalValue(N, k - f), n)
  {
    hide RPow, Pow, ReadsAs, Interval.Has, DecimalValue;
    if f >= 0 {
      PowPos(10, f);
      GridValue(N, k, f);
      HasIffReads(v, k, n, N, Pow(10, f), DecimalValue(N, k - f));
    } else {
      CoarseValue(N, k, -f);
      HasIffReads(v, k, n, N * Pow(10, -f), 1, DecimalValue(N, k - f));
    }
  }

  /** The value of the digits whose first has weight 10^k. */
  ghost function Printed(digits: seq<char>, k: int): real {
    DecimalValue(DigitsVal(digits), k - |digits| + 1)
  }

  /** No decimal with the last place of the digits that also reads as n is closer to n. */
  ghost predicate ClosestFor(n: Bits, digits: seq<char>, k: int) {
    forall N: int, e: int {:trigger DecimalValue(N, e)} ::
      e == k - |digits| + 1 && ReadsAs(DecimalValue(N, e), n) ==>
        Dist(Printed(digits, k), DoubleValue(n)) <= Dist(DecimalValue(N, e), DoubleValue(n))
  }

  /** The digits read back as n, no decimal of fewer digits does, and none of as many is closer. */
  ghost predicate ShortestFor(n: Bits, digits: seq<char>, k: int) {
    && digits != [] && AllDigits(digits) && digits[0] != '0' && digits[|digits| - 1] != '0' && |digits| <= 17
    && ReadsAs(Printed(digits, k), n) && ClosestFor(n, digits, k)
    && (forall N: nat, e: int {:trigger DecimalValue(N, e)} :: N < Pow(10, |digits| - 1) ==>
          !ReadsAs(DecimalValue(N, e), n))
  }

  lemma PrintedOnGrid(digits: seq<char>, k0: int, k: int)
    requires digits != [] && AllDigits(digits) && (k == k0 || k == k0 + 1)
    ensures Printed(digits, k) * (Pow(10, |digits| - 1) as real) ==
            ((DigitsVal(digits) * Pow(10, k - k0)) as real) * RPow(10, k0)
  {
    hide RPow, Pow, DigitsVal;
    var D, m := DigitsVal(digits), |digits| - 1;
    GridValue(D, k, m);
    CoarseValue(D, k0, k - k0);
    assert k0 + (k - k0) == k;
    assert DecimalValue(D, k) == (D as real) * RPow(10, k);
  }

  lemma ShortestReads(v: Interval, digits: seq<char>, k0: int, k: int, n: Bits)
    requires Describes(v, k0, n) && v.Proper() && Shortest(v, digits, k0, k)
    ensures ShortestFor(n, digits, k)
  {
    hide RPow, Pow, ReadsAs, Interval.Has, DecimalValue, DigitsVal, Printed, Interval.HasDecimal;
    hide Interval.Closest, ClosestFor;
    PowPos(10, |digits| - 1);
    PrintedOnGrid(digits, k0, k);
    HasIffReads(v, k0, n, DigitsVal(digits) * Pow(10, k - k0), Pow(10, |digits| - 1), Printed(digits, k));
    forall N: nat, e: int | N < Pow(10, |digits| - 1) ensures !ReadsAs(DecimalValue(N, e), n) {
      DecimalHas(v, k0, n, N, k0 - e);
    }
    AlwaysClosest(v, digits, k0, k, n);
    ClosestReads(v, digits, k0, k, n);
  }

  // ----- closeness -----

  /** Distances on the grid are distances of reals, scaled. */
  lemma OffReal(v: Interval, k: int, n: Bits, r: int, t: nat, x: real)
    requires Ratio(v.b, v.S, k, DoubleValue(n)) && v.S > 0 && t > 0
    requires x * (t as real) == (r as real) * RPow(10, k)
    ensures (v.Off(r, t) as real) * RPow(10, k) == (v.S as real) * (t as real) * Dist(x, DoubleValue(n))
  {
    hide RPow, DoubleValue;
    RPowPos(10, k);
    CastMul(r, v.S);
    CastMul(v.b, t);
    OffArith(v.b as real, v.S as real, r as real, t as real, RPow(10, k), x, DoubleValue(n));
  }

  lemma OffArith(b: real, S: real, r: real, t: real, p: real, x: real, d: real)
    requires b * p == S * d && x * t == r * p && S > 0.0 && t > 0.0 && p > 0.0
    ensures r * S < b * t <==> x < d
    ensures (r * S - b * t) * p == S * t * (x - d)
    ensures (b * t - r * S) * p == S * t * (d - x)
  {
    assert (r * S) * p == S * t * x by { assert (r * p) * S == (x * t) * S; }
    assert (b * t) * p == S * t * d by { assert (b * p) * t == (S * d) * t; }
    assert (r * S - b * t) * p == (r * S) * p - (b * t) * p;
    assert S * t * (x - d) == S * t * x - S * t * d;
    assert (b * t - r * S) * p == (b * t) * p - (r * S) * p;
    assert S * t * (d - x) == S * t * d - S * t * x;
    RCancelRight(p, r * S, b * t);
    RCancel(S * t, x, d);
  }

  lemma CloserReal(off: int, off1: int, p: real, c: real, y: real, y1: real)
    requires off <= off1 && p > 0.0 && c > 0.0 && (off as real) * p == c * y && (off1 as real) * p == c * y1
    ensures y <= y1
  {
    RMulMono(p, off as real, off1 as real);
    if y > y1 { RCancel(c, y1, y); }
  }

  /** The tie in which a final 9 is raised although 9 itself is in the interval cannot happen for a double. */
  lemma AlwaysClosest(v: Interval, digits: seq<char>, k0: int, k: int, n: Bits)
    requires Describes(v, k0, n) && v.Proper() && Shortest(v, digits, k0, k)
    ensures v.Closest(DigitsVal(digits) * Pow(10, k - k0), Pow(10, |digits| - 1))
  {
    if k == k0 + 1 && 10 * v.S - v.b == v.hi {
      hide RPow, DoubleValue, Interval.HasDecimal;
      assert digits == "1";
      assert DigitsVal("1") == 1 by { assert "1"[..0] == []; }
      assert Pow(10, 0) == 1 && Pow(10, 1) == 10;
      NoTie(v, k0, n);
      ClosestAtTen(v);
    }
  }

  lemma ClosestAtTen(v: Interval)
    requires v.Proper() && 10 * v.S - v.b == v.hi && v.lo + v.hi < v.S
    ensures v.Closest(10, 1)
  {
    forall q: int | v.Has(q, 1)
      ensures v.Off(10, 1) <= v.Off(q, 1)
    {
      if q < 10 { MulMono(v.S, q, 9); }
      if q > 10 { MulMono(v.S, 11, q); }
    }
  }

  /** A half-way point that is a power of ten has a double below it with at least 16 digits to spare. */
  lemma NoTie(v: Interval, k0: int, n: Bits)
    requires Describes(v, k0, n) && 10 * v.S - v.b == v.hi
    ensures v.lo + v.hi < v.S
  {
    hide RPow, DoubleValue;
    var d, gd, gu := DoubleValue(n), RPow(2, HalfGapDown(n)), RPow(2, HalfGapUp(n));
    RatioOne(v.S, k0);
    RatioSum(v.b, v.hi, v.S, k0, d, gu);
    RatioLess(v.b + v.hi, 10 * v.S, v.S, k0, d + gu, RPow(10, k0 + 1));
    RatioLess(10 * v.S, v.b + v.hi, v.S, k0, RPow(10, k0 + 1), d + gu);
    RatioSum(v.lo, v.hi, v.S, k0, gd, gu);
    RatioLess(v.S, v.lo + v.hi, v.S, k0, RPow(10, k0), gd + gu);
    RPowSucc(10, k0);
    WideGaps(n, k0);
  }

  /** If a power of ten is half way above n then the gaps around n are below a tenth of it. */
  lemma WideGaps(n: Bits, k: int)
    requires 0 < n < INFINITY && DoubleValue(n) + RPow(2, HalfGapUp(n)) == RPow(10, k + 1)
    ensures RPow(2, HalfGapDown(n)) + RPow(2, HalfGapUp(n)) < RPow(10, k)
  {
    hide RPow, DoubleValue, Magnitude;
    var m, gu := Mantissa(n), RPow(2, HalfGapUp(n));
    ValueInGaps(n);
    RPowPos(2, HalfGapUp(n));
    RPowSucc(10, k);
    GapDownAtMost(n);
    if m <= 9 {
      SmallMantissa(n);
      assert DoubleValue(n) + gu == ((2 * m + 1) as real) * RPow(2, -1075);
      OddOverTwo(m, k + 1);
    } else {
      ManyGaps(DoubleValue(n), gu, (2 * m) as real, RPow(2, HalfGapDown(n)), RPow(10, k));
    }
  }

  lemma ManyGaps(d: real, g: real, m2: real, gd: real, p: real)
    requires d == m2 * g && m2 >= 20.0 && g > 0.0 && gd <= g && d + g == 10.0 * p
    ensures gd + g < p
  {
    RMulMono(g, 20.0, m2);
  }

  lemma GapDownAtMost(n: Bits)
    ensures RPow(2, HalfGapDown(n)) <= RPow(2, HalfGapUp(n))
  {
    RPowMono(2, HalfGapDown(n), HalfGapUp(n));
  }

  lemma SmallMantissa(n: Bits)
    requires Mantissa(n) <= 9
    ensures HalfGapUp(n) == -1075
  {
  }

  /** An odd number over a high power of two is no power of ten. */
  lemma OddOverTwo(m: nat, j: int)
    requires m <= 9
    ensures ((2 * m + 1) as real) * RPow(2, -1075) != RPow(10, j)
  {
    if j >= 0 { OddBelowOne(2 * m + 1, j); } else { OddBelow(2 * m + 1, -j); }
  }

  lemma OddBelowOne(c: nat, j: int)
    requires c <= 19 && j >= 0
    ensures (c as real) * RPow(2, -1075) < RPow(10, j)
  {
    hide RPow;
    RPowMono(10, 0, j);
    RPowZero(10);
    RPowPos(2, -1075);
    RPowMono(2, -1075, -5);
    ThirtyTwo();
    BelowOne(c as real, RPow(2, -1075), RPow(2, -5), RPow(10, j));
  }

  lemma BelowOne(c: real, r: real, s: real, p: real)
    requires c <= 19.0 && 0.0 < r <= s && s * 32.0 == 1.0 && p >= 1.0
    ensures c * r < p
  {
    RMulMono(r, c, 19.0);
  }

  lemma OddBelow(c: nat, p: nat)
    requires p >= 1
    ensures (c as real) * RPow(2, -1075) != RPow(10, 0 - p)
  {
    hide RPow, Pow;
    FivesLeft(c, p);
    RPowInverse(2, 1075);
    RPowInverse(10, p);
    NatRPow(2, 1075);
    NatRPow(10, p);
    CastMul(c, Pow(10, p));
    OddReal(c as real, RPow(2, 1075), RPow(2, -1075), RPow(10, p), RPow(10, 0 - p));
  }

  lemma ThirtyTwo()
    ensures RPow(2, -5) * 32.0 == 1.0
  {
    assert Pow(2, 5) == 32;
    RPowInverse(2, 5);
    NatRPow(2, 5);
  }

  lemma OddReal(c: real, p: real, p1: real, t: real, t1: real)
    requires p * p1 == 1.0 && t * t1 == 1.0
    ensures c * p1 == t1 ==> c * t == p
  {
    if c * p1 == t1 {
      assert (c * p1) * (p * t) == t1 * (p * t);
      assert (c * p1) * (p * t) == (c * t) * (p * p1);
      assert t1 * (p * t) == p * (t * t1);
    }
  }

  /** A multiple of ten is no power of two. */
  lemma FivesLeft(c: nat, p: nat)
    requires p >= 1
    ensures c * Pow(10, p) != Pow(2, 1075)
  {
    hide Pow;
    PowStep(10, p - 1);
    NotFive(1075);
    assert c * (10 * Pow(10, p - 1)) == 5 * (2 * c * Pow(10, p - 1));
    DivModUnique(5 * (2 * c * Pow(10, p - 1)), 5, 2 * c * Pow(10, p - 1), 0);
  }

  lemma {:induction false} NotFive(n: nat)
    ensures Pow(2, n) % 5 != 0
  {
    if n > 0 {
      NotFive(n - 1);
    }
  }

  /** Distances among the decimals with the last place of the digits. */
  lemma ClosestReads(v: Interval, digits: seq<char>, k0: int, k: int, n: Bits)
    requires Describes(v, k0, n) && Shortest(v, digits, k0, k)
    requires v.Closest(DigitsVal(digits) * Pow(10, k - k0), Pow(10, |digits| - 1))
    ensures ClosestFor(n, digits, k)
  {
    hide RPow, Pow, ReadsAs, Interval.Has, Interval.Closest, DecimalValue, DigitsVal, Printed, Interval.HasDecimal;
    hide DoubleValue, Describes;
    var m, e0, d := |digits| - 1, k - |digits| + 1, DoubleValue(n);
    var r, t := DigitsVal(digits) * Pow(10, k - k0), Pow(10, m);
    PowPos(10, m);
    PrintedOnGrid(digits, k0, k);
    forall N: int, e: int | e == e0 && ReadsAs(DecimalValue(N, e), n)
      ensures Dist(Printed(digits, k), d) <= Dist(DecimalValue(N, e), d)
    {
      UnitOnGrid(N, k0, k, m);
      CloserOne(v, k0, n, r, N * Pow(10, k - k0), t, Printed(digits, k), DecimalValue(N, e));
    }
  }

  /** Two decimals on the grid, one of them the closest point of it. */
  lemma CloserOne(v: Interval, k0: int, n: Bits, r: int, q: int, t: nat, x: real, y: real)
    requires Describes(v, k0, n) && t > 0 && v.Closest(r, t) && ReadsAs(y, n)
    requires x * (t as real) == (r as real) * RPow(10, k0) && y * (t as real) == (q as real) * RPow(10, k0)
    ensures Dist(x, DoubleValue(n)) <= Dist(y, DoubleValue(n))
  {
    hide RPow, ReadsAs, Interval.Has, Interval.Off, DoubleValue, Ratio, HalfGapUp, HalfGapDown;
    HasIffReads(v, k0, n, q, t, y);
    OffReal(v, k0, n, r, t, x);
    OffReal(v, k0, n, q, t, y);
    assert v.Has(q, t);
    RPowPos(10, k0);
    var d, c := DoubleValue(n), (v.S as real) * (t as real);
    CloserReal(v.Off(r, t), v.Off(q, t), RPow(10, k0), c, Dist(x, d), Dist(y, d));
  }

  /** N units of the last place, on the grid. */
  lemma UnitOnGrid(N: int, k0: int, k: int, m: nat)
    requires k == k0 || k == k0 + 1
    ensures DecimalValue(N, k - m) * (Pow(10, m) as real) == ((N * Pow(10, k - k0)) as real) * RPow(10, k0)
  {
    hide RPow, Pow;
    GridValue(N, k, m);
    RPowAdd(10, k - k0, k0);
    NatRPow(10, k - k0);
    CastMul(N, Pow(10, k - k0));
    RMulAssoc(N as real, RPow(10, k - k0), RPow(10, k0));
  }

  /** d as a multiple of its upper half gap. */
  lemma ValueInGaps(n: Bits)
    ensures DoubleValue(n) == (2 * Mantissa(n)) as real * RPow(2, HalfGapUp(n))
  {
    hide Pow, RPow;
    var U, m := UlpExp(n), Mantissa(n);
    GapIs(U, HalfGapUp(n));
    CastMul(m, Pow(2, U));
    RMulAssoc(m as real, Pow(2, U) as real, RPow(2, -1074));
    TwoTimes(m as real, (2 * m) as real, RPow(2, HalfGapUp(n)), (Pow(2, U) as real) * RPow(2, -1074));
  }

  lemma TwoTimes(m: real, m2: real, g: real, y: real)
    requires m2 == 2.0 * m && 2.0 * g == y
    ensures m * y == m2 * g
  {
  }

  /** The half gaps are smaller than d, and together at least 2^-53 of it. */
  lemma GapRange(n: Bits)
    requires 0 < n < INFINITY
    ensures 0.0 < RPow(2, HalfGapDown(n)) <= RPow(2, HalfGapUp(n))
    ensures RPow(2, HalfGapDown(n)) < DoubleValue(n)
    ensures DoubleValue(n) <= 9007199254740992.0 * (RPow(2, HalfGapDown(n)) + RPow(2, HalfGapUp(n)))
  {
    hide Pow, RPow, DoubleValue;
    ValueInGaps(n);
    RPowPos(2, HalfGapDown(n));
    RPowPos(2, HalfGapUp(n));
    RPowMono(2, HalfGapDown(n), HalfGapUp(n));
    Fields(n);
    GapRangeReal((2 * Mantissa(n)) as real, DoubleValue(n), RPow(2, HalfGapDown(n)), RPow(2, HalfGapUp(n)),
        SpecialCase(n));
  }

  lemma GapRangeReal(k: real, y: real, gd: real, gu: real, small: bool)
    requires 0.0 < gd <= gu && y == k * gu && 2.0 <= k
    requires if small then k <= 9007199254740992.0 else gd == gu && k <= 18014398509481984.0
    ensures gd < y && y <= 9007199254740992.0 * (gd + gu)
  {
    TimesRange(k, y, gu, if small then 9007199254740992.0 else 18014398509481984.0);
    GapLinear(y, gd, gu, small);
  }

  lemma TimesRange(k: real, y: real, g: real, hi: real)
    requires g > 0.0 && y == k * g && 2.0 <= k <= hi
    ensures 2.0 * g <= y <= hi * g
  {
    RMulMono(g, 2.0, k);
    RMulMono(g, k, hi);
  }

  lemma GapLinear(y: real, gd: real, gu: real, small: bool)
    requires 0.0 < gd <= gu && 2.0 * gu <= y
    requires if small then y <= 9007199254740992.0 * gu else gd == gu && y <= 18014398509481984.0 * gu
    ensures gd < y && y <= 9007199254740992.0 * (gd + gu)
  {
  }

  lemma RMulMono(c: real, a: real, b: real)
    requires a <= b && c >= 0.0
    ensures a * c <= b * c
  {
  }

  /** The integers of a correct scaling form a proper interval. */
  lemma DescribesProper(v: Interval, k: int, n: Bits)
    requires Describes(v, k, n) && v.S <= v.b < 10 * v.S
    ensures v.Proper() && v.lo <= v.hi && v.b <= 0x20_0000_0000_0000 * (v.lo + v.hi)
  {
    hide RPow, DoubleValue;
    GapRange(n);
    var d, gd, gu := DoubleValue(n), RPow(2, HalfGapDown(n)), RPow(2, HalfGapUp(n));
    RatioLess(v.lo, v.b, v.S, k, gd, d);
    RatioLess(v.lo, v.hi, v.S, k, gd, gu);
    RatioZero(v.S, k);
    RatioLess(0, v.lo, v.S, k, 0.0, gd);
    RatioSum(v.lo, v.hi, v.S, k, gd, gu);
    RatioLess(v.b, 0x20_0000_0000_0000 * (v.lo + v.hi), v.S, k, d, 9007199254740992.0 * (gd + gu));
  }

  lemma RatioZero(S: nat, k: int)
    ensures Ratio(0, S, k, 0.0)
  {
  }

  lemma RatioSum(a: int, b: int, S: int, k: int, x: real, y: real)
    requires Ratio(a, S, k, x) && Ratio(b, S, k, y)
    ensures Ratio(0x20_0000_0000_0000 * (a + b), S, k, 9007199254740992.0 * (x + y))
  {
    hide RPow;
    SumOver(a as real, b as real, (0x20_0000_0000_0000 * (a + b)) as real, S as real, RPow(10, k), x, y);
  }

  lemma SumOver(a: real, b: real, c: real, s: real, p: real, x: real, y: real)
    requires a * p == s * x && b * p == s * y && c == 9007199254740992.0 * (a + b)
    ensures c * p == s * (9007199254740992.0 * (x + y))
  {
    assert c * p == 9007199254740992.0 * (a * p + b * p);
  }

  /**
   dtoa in mode 0, given the estimate k0 of the decimal exponent: s receives the shortest
   digits that read back as the double, the first of weight 10^k (decpt is k + 1).
   */
  method DtoaShortest(w0: Word, w1: Word, k0: int, kCheck: bool, cache: Cache, s: array<char>) returns (n: nat, k: int)
    requires w0 < 0x7ff0_0000 && Join(w0, w1) > 0 && cache.Valid() && s.Length >= 18
    requires Estimate(k0, kCheck, DoubleValue(Join(w0, w1))) && s !in cache.Repr
    modifies cache.Repr, s
    ensures cache.Valid() && fresh(cache.Repr - old(cache.Repr))
    ensures n <= 17 && ShortestFor(Join(w0, w1), s[..n], k)
  {
    hide Pow, RPow, Value, Ratio, DoubleValue, Bigint.Val, Cache.Valid, Cache.Node, ReadsAs, Shortest;
    hide ShortestFor, Estimate, Interval.Proper;
    ghost var bits := Join(w0, w1);
    var b, S, mlo, mhi;
    b, S, mlo, mhi, k := Scale(w0, w1, k0, kCheck, true, cache);
    ghost var kf, v := k, Interval(b.Val(), S.Val(), mlo.Val(), mhi.Val(), bits % 2 == 0);
    EvenWord(w0, w1);
    DescribesProper(v, k, bits);
    n, k := FreeFormat(b, S, mlo, mhi, w1 % 2 == 0, k, s);
    ShortestReads(v, s[..n], kf, k, bits);
  }

  lemma EvenWord(w0: Word, w1: Word)
    requires w0 < 0x7ff0_0000
    ensures Join(w0, w1) % 2 == 0 <==> w1 % 2 == 0
  {
    DivModUnique(w0 * BASE + w1, 2, w0 * 0x8000_0000 + w1 / 2, w1 % 2);
  }
}
