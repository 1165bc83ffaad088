/**
 The starting approximation of fpconv_strtod: sixteen digits as a double, and the products with powers of ten.
 */
module GrowingPowers {
  import opened Arith
  import opened Rational
  import opened Ieee
  import opened ShortestDigits
  import opened ScaledDoubles
  import opened Unscaling
  import opened Refinement
  import opened RelativeErrors

  // ----- sixteen digits -----

  /** The number that the first k digits make, from the two words. */
  function HeadNumber(y: nat, z: nat, k: nat): nat
  {
    if k > 9 then PowPos(10, k - 9); MulNonNeg(y, Pow(10, k - 9)); y * Pow(10, k - 9) + z else y
  }

  lemma HeadRange(y: nat, z: nat, k: nat)
    requires k <= 16 && y < 1_000_000_000 && z < 10_000_000
    ensures HeadNumber(y, z, k) < 10_000_000_000_000_000
    ensures k > 9 ==> Pow(5, k - 9) > 0 && 0 <= y * Pow(5, k - 9) < 2 * HIDDEN
    ensures k > 9 ==> Pow(10, k - 9) == Pow(5, k - 9) * Pow(2, k - 9)
  {
    hide Pow;
    if k > 9 {
      PowPos(5, k - 9);
      PowMono(5, k - 9, 7);
      PowMono(10, k - 9, 7);
      SmallPowers();
      PowProduct(5, 2, k - 9);
      MulMono(y, Pow(10, k - 9), 10_000_000);
      MulMono(y, Pow(5, k - 9), 78125);
      MulNonNeg(y, Pow(5, k - 9));
    }
  }

  lemma SmallPowers()
    ensures Pow(10, 7) == 10_000_000 && Pow(5, 7) == 78125
  {
    assert Pow(10, 3) == 1000 && Pow(10, 4) == 10_000 && Pow(5, 3) == 125 && Pow(5, 4) == 625;
    PowAdd(10, 3, 4);
    PowAdd(5, 3, 4);
  }

  /** rv = y, then tens[k - 9] * rv + z: exact as long as the number fits. */
  method HeadDouble(y: nat, z: nat, k: nat, nearest: real -> Bits) returns (rv: Bits)
    requires Rounds(nearest) && k <= 16 && y < 1_000_000_000 && z < 10_000_000 && y > 0
    ensures var H := HeadNumber(y, z, k);
            H > 0 && Near(DoubleValue(rv), H as real, 1) && (H < 2 * HIDDEN ==> DoubleValue(rv) == H as real)
  {
    hide Pow, RPow, DoubleValue, ReadsAs, Near, HeadNumber;
    HeadRange(y, z, k);
    RPowZero(2);
    rv := nearest(y as real);
    assert ReadsAs(y as real, rv);
    RoundsExactly(y, 0, y as real, rv);
    if k > 9 {
      rv := AddSecond(rv, y, z, k, nearest);
    }
    HeadIs(y, z, k);
    HeadNear(HeadNumber(y, z, k), rv);
  }

  method AddSecond(rv0: Bits, y: nat, z: nat, k: nat, nearest: real -> Bits) returns (rv: Bits)
    requires Rounds(nearest) && 9 < k <= 16 && 0 < y < 1_000_000_000 && DoubleValue(rv0) == y as real
    ensures ReadsAs(HeadNumber(y, z, k) as real, rv)
  {
    hide Pow, RPow, DoubleValue, ReadsAs, HeadNumber;
    RPowPos(10, k - 9);
    var ten := nearest(RPow(10, k - 9));
    assert ReadsAs(RPow(10, k - 9), ten);
    TenExact(k - 9, ten);
    Times(RPow(10, k - 9), DoubleValue(rv0), y as real);
    var v := DoubleValue(ten) * DoubleValue(rv0);
    var p := nearest(v);
    HeadProduct(y, k);
    assert ReadsAs(v, p);
    FirstExact(y, k, v, p);
    HeadSum(y, z, k, DoubleValue(p));
    rv := nearest(DoubleValue(p) + z as real);
  }

  /** The product is a double. */
  lemma FirstExact(y: nat, k: nat, v: real, p: Bits)
    requires 9 < k <= 16 && 0 < y < 1_000_000_000 && v == RPow(10, k - 9) * (y as real) && ReadsAs(v, p)
    ensures DoubleValue(p) == (y * Pow(10, k - 9)) as real
  {
    hide Pow, RPow, DoubleValue, ReadsAs;
    HeadRange(y, 0, k);
    HeadProduct(y, k);
    MulPos(y, Pow(5, k - 9));
    RoundsExactly(y * Pow(5, k - 9), k - 9, v, p);
  }

  lemma HeadSum(y: nat, z: nat, k: nat, d: real)
    requires 9 < k <= 16 && y > 0 && d == (y * Pow(10, k - 9)) as real
    ensures d + z as real == HeadNumber(y, z, k) as real >= 0.0
  {
    hide Pow, HeadNumber;
    HeadIs(y, z, k);
  }

  lemma HeadIs(y: nat, z: nat, k: nat)
    requires k <= 16 && y > 0
    ensures HeadNumber(y, z, k) > 0 && HeadNumber(y, z, k) == if k > 9 then y * Pow(10, k - 9) + z else y
  {
    hide Pow;
    if k > 9 {
      PowPos(10, k - 9);
      MulPos(y, Pow(10, k - 9));
    }
  }

  lemma HeadProduct(y: nat, k: nat)
    requires 9 < k <= 16 && y < 1_000_000_000
    ensures 0 <= y * Pow(5, k - 9)
            && RPow(10, k - 9) * (y as real) == ((y * Pow(5, k - 9)) as real) * RPow(2, k - 9) >= 0.0
    ensures RPow(10, k - 9) * (y as real) == (y * Pow(10, k - 9)) as real
  {
    hide Pow, RPow;
    PowPos(5, k - 9);
    MulNonNeg(y, Pow(5, k - 9));
    NatRPow(10, k - 9);
    NatRPow(5, k - 9);
    TenSplit(k - 9);
    RPowPos(10, k - 9);
    CastMul(y, Pow(5, k - 9));
    CastMul(y, Pow(10, k - 9));
    ThreeReals(y as real, RPow(5, k - 9), RPow(2, k - 9));
    RMulMono(RPow(10, k - 9), 0.0, y as real);
    RMulComm(RPow(10, k - 9), y as real);
  }

  lemma ThreeReals(y: real, a: real, b: real)
    ensures (b * a) * y == (y * a) * b
  {
  }

  lemma HeadNear(H: nat, rv: Bits)
    requires 0 < H < 10_000_000_000_000_000 && ReadsAs(H as real, rv)
    ensures Near(DoubleValue(rv), H as real, 1) && (H < 2 * HIDDEN ==> DoubleValue(rv) == H as real)
  {
    hide RPow, DoubleValue, ReadsAs;
    RPowZero(2);
    RPowMono(2, -1000, 0);
    RPowMono(2, 54, 1000);
    RPowSucc(2, 53);
    HiddenReal();
    NearSelf(H as real);
    NearRounded(H as real, H as real, 0, rv);
    if H < 2 * HIDDEN { RoundsExactly(H, 0, H as real, rv); }
  }

  // ----- multiplying by powers of ten -----

  lemma HalveExponent(e: nat, p: nat)
    ensures e * p == (e / 2) * (2 * p) + (e % 2) * p
  {
    var q, r := e / 2, e % 2;
    assert e == 2 * q + r;
    Rotate(q, 2, p);
    assert e * p == (2 * q) * p + r * p;
    MulAssoc(2, q, p);
  }

  lemma PowersTo16(j: nat)
    requires Pow(2, j) <= 31
    ensures j <= 4 && Pow(2, j) <= 16 && (j == 0 ==> Pow(2, j) == 1) && (j == 4 ==> Pow(2, j) == 16)
    ensures j == 3 ==> Pow(2, j) == 8
  {
    assert Pow(2, 5) == 32;
    if j > 4 { PowMono(2, 5, j); }
    if j < 4 { PowMono(2, j, 3); }
    assert Pow(2, 3) == 8 && Pow(2, 4) == 16 && Pow(2, 0) == 1;
  }

  /** The loop over bigtens, up to its last factor: j is the index of that factor. */
  method BigTens(rv0: Bits, e0: nat, nearest: real -> Bits, ghost X: real) returns (rv: Bits, j: nat)
    requires Rounds(nearest) && 1 <= e0 <= 19 && Near(DoubleValue(rv0), X, 4) && RPow(10, 0) <= X <= RPow(10, 32)
    ensures j <= 4 && Pow(2, j) <= e0 < 2 * Pow(2, j)
    ensures Near(DoubleValue(rv), Tenfold(X, 16 * (e0 - Pow(2, j))), 16)
  {
    hide Pow, RPow, DoubleValue, ReadsAs, Near, Tenfold;
    var e;
    ghost var p, d := 1, 0;
    rv, j, e := rv0, 0, e0;
    PowUnit(2);
    NoTens(X);
    while e > 1
      invariant e >= 1 && p == Pow(2, j) && 0 <= d < p && d + e * p == e0 && j <= 4
      invariant Near(DoubleValue(rv), Tenfold(X, 16 * d), 4 + 3 * j)
    {
      HalveExponent(e, p);
      PowStep(2, j);
      FactorBound(e, p, d, e0);
      PowersTo16(j + 1);
      if e % 2 == 1 {
        rv := TimesBigTen(rv, j, nearest, X, d, 4 + 3 * j);
        d := d + p;
      } else {
        NearMore(DoubleValue(rv), Tenfold(X, 16 * d), 4 + 3 * j, 4 + 3 * (j + 1));
      }
      j, e, p := j + 1, e / 2, 2 * p;
    }
    assert e0 - Pow(2, j) == d;
    NearMore(DoubleValue(rv), Tenfold(X, 16 * d), 4 + 3 * j, 16);
  }

  lemma FactorBound(e: nat, p: nat, d: nat, e0: nat)
    requires e > 1 && d + e * p == e0
    ensures 2 * p <= e0
  {
    MulMono(p, 2, e);
    MulComm(p, 2);
    MulComm(p, e);
  }

  method TimesBigTen(rv0: Bits, j: nat, nearest: real -> Bits, ghost X: real, ghost d: nat, ghost i: nat)
    returns (rv: Bits)
    requires Rounds(nearest) && j <= 3 && d < Pow(2, j) && RPow(10, 0) <= X <= RPow(10, 32)
    requires Near(DoubleValue(rv0), Tenfold(X, 16 * d), i) && i <= 16
    ensures Near(DoubleValue(rv), Tenfold(X, 16 * (d + Pow(2, j))), i + 3)
  {
    hide Pow, RPow, DoubleValue, ReadsAs, Near, Tenfold;
    ghost var p := Pow(2, j);
    PowMono(2, j, 3);
    assert Pow(2, 3) == 8 by { EightIs(); }
    var c := nearest(RPow(10, 16 * Pow(2, j)));
    RPowPos(10, 16 * p);
    assert ReadsAs(RPow(10, 16 * p), c);
    ConstantNear(16 * p, c);
    rv := Multiply(rv0, c, nearest);
    TenTwice(X, 16 * d, 16 * p);
    TimesTenRange(X, 0, 32, 16 * (d + p));
    NearProduct(rv0, Tenfold(X, 16 * d), i, c, RPow(10, 16 * p), 1, rv,
        Tenfold(X, 16 * (d + p)));
  }

  /** What comes out: nothing more to correct, at either end of the range or with few digits; or words and scale. */
  datatype Start = TooBig | TooSmall | Done(n: Bits) | Guess(n: Bits, scale: nat)

  /**
   An approximation of X from sixteen digits and powers of ten. In the top binade it may be capped; a scaled one is
   whole in its true last place, and no normal number if X is none.
   */
  ghost predicate Approximates(s: Start, X: real) {
    match s
    case TooBig => X >= RPow(2, 1024)
    case Done(n) => ReadsAs(X, n) && 0 < ExpField(n) && n < INFINITY
    case TooSmall => 0.0 < X <= 0.9 * RPow(2, -1075)
    case Guess(n, scale) =>
      if scale == 0 then
        && 0 < n < INFINITY && X >= RPow(2, -900)
        && (Near(DoubleValue(n), X, 32) || (n == LARGEST
            && 0.9999999999999 * RPow(2, 1024) <= X <= 1.2 * RPow(2, 1025)))
      else
        && scale == SCALE && Held(n, SCALE) && 0.0 < X <= RPow(2, -720)
        && Dist(DoubleValue(Unscaled(n, SCALE)), X) <= RPow(2, -1074) + X * Share(40)
        && (ExpField(n) >= 107 ==> X >= RPow(2, -1022))
  }

  /** The last factor meets a number made 2^53 times smaller. */
  lemma LastFactor(m: Bits, A: real, i: nat, c: Bits, C: real, n: Bits, x: real)
    requires Near(DoubleValue(m), A, i) && i <= 16 && Near(DoubleValue(c), C, 1) && x == A * C && RPow(2, -1000) <= x
    requires ReadsAs(DoubleValue(m) * DoubleValue(c), n)
    ensures ExpField(n) <= 1994 ==> Near(DoubleValue(n), x, i + 3) && x <= RPow(2, 1000)
    ensures ExpField(n) > 1994 ==> x >= RPow(2, 971)
  {
    hide RPow, DoubleValue, ReadsAs, Near;
    var v := DoubleValue(m) * DoubleValue(c);
    NearTimes(DoubleValue(m), A, i, DoubleValue(c), C, 1, v, x);
    NearEnough(v, x, i + 2);
    RPowMono(2, 971, 1000);
    BinadeValue(2022);
    BinadeValue(1995);
    RPowSucc(2, 971);
    RPowSucc(2, 999);
    if x <= RPow(2, 1000) {
      NearRounded(v, x, i + 2, n);
      NearEnough(DoubleValue(n), x, i + 3);
      Fields(n);
      if ExpField(n) > 1994 { Ordered(1995 * HIDDEN, n); }
    } else {
      ReadsMono(v, n, 2022 * HIDDEN);
      Fields(n);
    }
  }

  method TimesTens(rv0: Bits, i: nat, nearest: real -> Bits, ghost H: real) returns (rv: Bits)
    requires Rounds(nearest) && i <= 15 && Headed(H) && Near(DoubleValue(rv0), H, 1)
    ensures Near(DoubleValue(rv), Tenfold(H, i), 4)
  {
    hide Pow, RPow, DoubleValue, ReadsAs, Near;
    RPowPos(10, i);
    var c := nearest(RPow(10, i));
    assert ReadsAs(RPow(10, i), c);
    TenExact(i, c);
    rv := Multiply(rv0, c, nearest);
    NearSelf(RPow(10, i));
    TimesTenRange(H, 0, 16, i);
    NearProduct(rv0, H, 1, c, RPow(10, i), 0, rv, Tenfold(H, i));
    NearMore(DoubleValue(rv), Tenfold(H, i), 3, 4);
  }

  lemma GrownRange(H: real, i: nat)
    requires Headed(H) && i <= 15
    ensures RPow(10, 0) <= Tenfold(H, i) <= RPow(10, 32)
  {
    hide RPow;
    RPowPos(10, i);
    RMulMono(RPow(10, i), RPow(10, 0), H);
    RMulMono(RPow(10, i), H, RPow(10, 16));
    RPowAdd(10, 0, i);
    RPowAdd(10, 16, i);
    RPowMono(10, 0, i);
    RPowMono(10, 16 + i, 32);
  }

  lemma HugeNumber(H: real, e1: nat)
    requires Headed(H) && e1 >= 320
    ensures Tenfold(H, e1) >= RPow(2, 1024)
  {
    hide RPow;
    HugePower();
    RPowMono(10, 320, e1);
    RPowZero(10);
    RPowPos(10, e1);
    RMulMono(RPow(10, e1), 1.0, H);
  }

  lemma PartGrown(rv: Bits, X: real, d: int)
    requires Near(DoubleValue(rv), Tenfold(X, d), 16) && RPow(10, 0) <= X <= RPow(10, 32) && 0 <= d <= 240
    ensures rv < INFINITY && ExpField(rv) >= 54
  {
    hide RPow, DoubleValue, Near;
    NearEnough(DoubleValue(rv), Tenfold(X, d), 16);
    TimesTenRange(X, 0, 32, d);
    RPowZero(10);
    RPowMono(10, 0, d);
    RMulMono(RPow(10, d), 1.0, X);
    BinadeValue(2047);
    RPowMono(2, 1001, 1024);
    RPowSucc(2, 1000);
    RPowSucc(2, -1);
    RPowZero(2);
    FieldAtLeast(rv, 1022);
    Fields(rv);
  }

  lemma GrownLarge(H: real, e1: nat)
    requires Headed(H)
    ensures Tenfold(H, e1) >= RPow(2, -900)
  {
    hide RPow;
    RPowZero(10);
    RPowZero(2);
    RPowMono(10, 0, e1);
    RMulMono(RPow(10, e1), 1.0, H);
    RPowMono(2, -900, 0);
  }

  /** The last multiplication, 53 binades lower to see overflow. */
  method LastBig(rv: Bits, j: nat, nearest: real -> Bits, ghost X: real, ghost d: nat, ghost Y: real) returns (s: Start)
    requires Rounds(nearest) && j <= 4 && rv < INFINITY && ExpField(rv) >= 54 && RPow(10, 0) <= X
    requires Near(DoubleValue(rv), Tenfold(X, d), 16) && Y == Tenfold(X, d + 16 * Pow(2, j)) && Y >= RPow(2, -900)
    ensures Approximates(s, Y) && !s.Done?
  {
    hide Pow, RPow, DoubleValue, ReadsAs, Near, Tenfold;
    var m: Bits := rv - 53 * HIDDEN;
    ShiftValue(rv, 53);
    RPowPos(2, -53);
    RPowPos(2, 53);
    RPowInverse(2, 53);
    PowMono(2, j, 4);
    SixteenIs();
    RPowPos(10, 16 * Pow(2, j));
    var c := nearest(RPow(10, 16 * Pow(2, j)));
    assert ReadsAs(RPow(10, 16 * Pow(2, j)), c);
    ConstantNear(16 * Pow(2, j), c);
    var n := Multiply(m, c, nearest);
    ghost var A, x := Tenfold(X, d) * RPow(2, -53), Y * RPow(2, -53);
    Undo(DoubleValue(rv), DoubleValue(m), RPow(2, 53), RPow(2, -53));
    NearScale(DoubleValue(rv), Tenfold(X, d), 16, RPow(2, -53), DoubleValue(m), A);
    TenTwice(X, d, 16 * Pow(2, j));
    SwapFactors(Tenfold(X, d), RPow(10, 16 * Pow(2, j)), RPow(2, -53), Y, A, x);
    AtLeastOne(X, d + 16 * Pow(2, j), x);
    LastFactor(m, A, 16, c, RPow(10, 16 * Pow(2, j)), n, x);
    var z := ExpField(n);
    LastRange(n, x, Y);
    if z > 1994 {
      return TooBig;
    }
    if z > 1993 {
      return Guess(LARGEST, 0);
    }
    LastUp(n, x, Y);
    s := Guess(n + 53 * HIDDEN, 0);
  }

  lemma SwapFactors(t: real, c: real, u: real, y: real, a: real, x: real)
    requires y == t * c && a == t * u && x == y * u
    ensures x == a * c
  {
    Swap(t, c, u);
  }

  lemma AtLeastOne(X: real, e: nat, x: real)
    requires RPow(10, 0) <= X && x == Tenfold(X, e) * RPow(2, -53)
    ensures RPow(2, -1000) <= x
  {
    hide RPow;
    RPowMono(10, 0, e);
    RPowZero(10);
    RMulMono(RPow(10, e), 1.0, X);
    RPowPos(2, -53);
    RMulMono(RPow(2, -53), 1.0, Tenfold(X, e));
    RPowMono(2, -1000, -53);
  }

  lemma LastRange(n: Bits, x: real, Y: real)
    requires x == Y * RPow(2, -53)
    requires ExpField(n) <= 1994 ==> Near(DoubleValue(n), x, 19)
    requires ExpField(n) > 1994 ==> x >= RPow(2, 971)
    ensures ExpField(n) > 1994 ==> Y >= RPow(2, 1024)
    ensures ExpField(n) == 1994 ==> 0.9999999999999 * RPow(2, 1024) <= Y <= 1.2 * RPow(2, 1025)
  {
    hide RPow, DoubleValue, Near;
    RPowPos(2, 53);
    RPowInverse(2, 53);
    Undo(x, Y, RPow(2, -53), RPow(2, 53));
    RPowSucc(2, 971);
    RPowSucc(2, 1024);
    RPowAdd(2, 971, 53);
    RPowAdd(2, 972, 53);
    if ExpField(n) > 1994 { RMulMono(RPow(2, 53), RPow(2, 971), x); }
    if ExpField(n) == 1994 {
      NearEnough(DoubleValue(n), x, 19);
      NearTight(DoubleValue(n), x);
      Fields(n);
      BinadeValue(1994);
      BinadeValue(1995);
      Ordered(1994 * HIDDEN, n);
      Ordered(n, 1995 * HIDDEN);
      TopRange(DoubleValue(n), x, RPow(2, 971), RPow(2, 53), Y);
    }
  }

  lemma TopRange(d: real, x: real, p: real, q: real, Y: real)
    requires p > 0.0 && q > 0.0 && p <= d <= 2.0 * p && 0.9 * x <= d <= 1.00000000000005 * x && Y == x * q
    ensures 0.9999999999999 * (p * q) <= Y <= 1.2 * (2.0 * (p * q))
  {
    RMulMono(q, 0.9999999999999 * p, x);
    RMulMono(q, x, 2.4 * p);
    RMulAssoc(0.9999999999999, p, q);
    RMulAssoc(2.4, p, q);
  }

  lemma LastUp(n: Bits, x: real, Y: real)
    requires x == Y * RPow(2, -53) && ExpField(n) <= 1993 && Near(DoubleValue(n), x, 19) && RPow(2, -1000) <= x
    ensures var m := n + 53 * HIDDEN; 0 < m < INFINITY && Near(DoubleValue(m), Y, 32)
  {
    hide RPow, DoubleValue, Near;
    NearEnough(DoubleValue(n), x, 19);
    RPowPos(2, 53);
    RPowInverse(2, 53);
    Undo(x, Y, RPow(2, -53), RPow(2, 53));
    RPowMono(2, -1022, -1001);
    RPowSucc(2, -1001);
    FieldAtLeast(n, 1);
    Fields(n);
    var m := n + 53 * HIDDEN;
    DivModUnique(m, HIDDEN, ExpField(n) + 53, Fraction(n));
    ShiftValue(m, 53);
    NearScale(DoubleValue(n), x, 19, RPow(2, 53), DoubleValue(m), Y);
    NearMore(DoubleValue(m), Y, 19, 32);
  }

  /** rv * 10^e1 for e1 > 0. */
  method Grow(rv0: Bits, e1: nat, nearest: real -> Bits, ghost H: real) returns (s: Start)
    requires Rounds(nearest) && e1 > 0 && Headed(H) && Near(DoubleValue(rv0), H, 1) && rv0 < INFINITY
    ensures Approximates(s, Tenfold(H, e1)) && !s.Done?
  {
    hide Pow, RPow, DoubleValue, ReadsAs, Near, Tenfold;
    var rv := rv0;
    GrownLarge(H, e1);
    var i := e1 % 16;
    NearMore(DoubleValue(rv), H, 1, 4);
    NoTens(H);
    if i != 0 {
      rv := TimesTens(rv, i, nearest, H);
    }
    ghost var X := Tenfold(H, i);
    GrownRange(H, i);
    if e1 - i > 0 {
      if e1 - i > 308 {
        HugeNumber(H, e1);
        return TooBig;
      }
      var e, j := (e1 - i) / 16, 0;
      assert 16 * e == e1 - i;
      rv, j := BigTens(rv, e, nearest, X);
      PartGrown(rv, X, 16 * (e - Pow(2, j)));
      TenNested(H, i, e1 - i);
      s := LastBig(rv, j, nearest, X, 16 * (e - Pow(2, j)), Tenfold(H, e1));
    } else {
      NearMore(DoubleValue(rv), X, 4, 32);
      NearFinite(rv, X, 32);
      s := Guess(rv, 0);
    }
  }
}
