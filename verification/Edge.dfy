/**
 The smallest normal double, 2^-1022: a decimal just below it is approximated by a product that comes out below it
 as well.
 */
module SmallestNormals {
  import opened Arith
  import opened Rational
  import opened Words
  import opened Ieee
  import opened ShortestDigits
  import opened Refinement
  import opened RelativeErrors

  /** v below the middle above M * 2^e rounds to that at most. */
  lemma RoundsBelow(v: real, n: Bits, M: nat, e: int)
    requires HIDDEN <= M < 2 * HIDDEN && -1074 <= e <= 900 && ReadsAs(v, n)
    requires v < ((2 * M + 1) as real) * RPow(2, e - 1)
    ensures DoubleValue(n) <= (M as real) * RPow(2, e)
  {
    hide RPow, DoubleValue, ReadsAs;
    var k := (e + 1075) * HIDDEN + (M - HIDDEN);
    DivModUnique(k, HIDDEN, e + 1075, M - HIDDEN);
    ValueInGaps(k);
    RPowSucc(2, e - 1);
    HalfTwice(M as real, (2 * M) as real, RPow(2, e - 1), RPow(2, e));
    OneMoreHalf(M, RPow(2, e - 1));
    if n > k { AboveHalf(v, n, k); }
    Ordered(if n <= k then n else k, k);
  }

  lemma OneMoreHalf(M: nat, g: real)
    ensures ((2 * M + 1) as real) * g == ((2 * M) as real) * g + g
  {
  }

  // ----- three roundings -----

  /** Bounds on the way from 2225073858507.201 by 10^-64 and 2^106 * 10^-256. */
  const M1: nat := 4556951262222748

  const C1: nat := 5928554968950589

  const M2: nat := 5998787255582523

  const C2: nat := 6762169998536515

  lemma FirstStage(v: real, n: Bits)
    requires v <= 2225073858507.201 && ReadsAs(v, n)
    ensures DoubleValue(n) <= (M1 as real) * RPow(2, -11)
  {
    hide RPow, ReadsAs, DoubleValue;
    assert Pow(2, 6) == 64;
    PowAdd(2, 6, 6);
    NatRPow(2, 12);
    RPowInverse(2, 12);
    Below4096(v, RPow(2, -12));
    RoundsBelow(v, n, M1, -11);
  }

  lemma Below4096(v: real, u: real)
    requires v <= 2225073858507.201 && 4096.0 * u == 1.0
    ensures v < ((2 * M1 + 1) as real) * u
  {
    assert u == 1.0 / 4096.0;
  }

  lemma Five64()
    ensures Pow(5, 64) == 542101086242752217003726400434970855712890625
  {
    assert Pow(5, 4) == 625;
    PowAdd(5, 4, 4);
    PowAdd(5, 8, 8);
    PowAdd(5, 16, 16);
    PowAdd(5, 32, 32);
  }

  lemma TwoTo100()
    ensures Pow(2, 100) == 1267650600228229401496703205376
  {
    assert Pow(2, 5) == 32;
    PowAdd(2, 5, 5);
    PowAdd(2, 10, 10);
    PowAdd(2, 20, 5);
    PowAdd(2, 25, 25);
    PowAdd(2, 50, 50);
  }

  /** 5^256 and 5^323 between multiples of powers of two. */
  const FIVES256: nat := 42395758619023847264150875363742067278147212247179180020973025950788032702519776108466515

  const FIVES323: nat := 1787777917260683721086555048976022426533653374003301021978061732790125436606

  lemma Five256()
    ensures FIVES256 * Pow(2, 300) <= Pow(5, 256) < (FIVES256 + 1) * Pow(2, 300)
  {
    Five64();
    TwoTo100();
    PowAdd(5, 64, 64);
    PowAdd(5, 128, 128);
    PowAdd(2, 100, 100);
    PowAdd(2, 200, 100);
  }

  lemma Five323()
    ensures FIVES323 * Pow(2, 500) <= Pow(5, 323) < (FIVES323 + 2) * Pow(2, 500)
  {
    hide Pow;
    Five256();
    Five64();
    Five3();
    TwoTo100();
    PowAdd(2, 100, 100);
    PowAdd(5, 64, 3);
    PowAdd(5, 256, 67);
    PowAdd(2, 200, 300);
    PowPos(2, 300);
    Coarser(Pow(5, 256), Pow(2, 300), Pow(5, 67), Pow(2, 200), FIVES256, FIVES323);
  }

  lemma Five3()
    ensures Pow(5, 3) == 125
  {
  }

  lemma Coarser(a: nat, p: nat, b: nat, q: nat, l: nat, m: nat)
    requires p > 0 && l * p <= a < (l + 1) * p && m * q <= l * b && (l + 1) * b <= (m + 2) * q && b > 0
    ensures m * (q * p) <= a * b < (m + 2) * (q * p)
  {
    CoarserBelow(a, p, b, q, l, m);
    CoarserAbove(a, p, b, q, l + 1, m + 2);
  }

  lemma CoarserBelow(a: nat, p: nat, b: nat, q: nat, l: nat, m: nat)
    requires l * p <= a && m * q <= l * b
    ensures m * (q * p) <= a * b
  {
    MulMono(b, l * p, a);
    MulMono(p, m * q, l * b);
    Rotate(b, l, p);
    MulComm(b, p);
    Rotate(p, l, b);
    MulAssoc(m, q, p);
    MulComm(b, a);
    MulComm(p, m * q);
  }

  lemma CoarserAbove(a: nat, p: nat, b: nat, q: nat, l: nat, m: nat)
    requires a < l * p && l * b <= m * q && b > 0
    ensures a * b < m * (q * p)
  {
    MulMono(b, a + 1, l * p);
    MulMono(p, l * b, m * q);
    Rotate(b, l, p);
    MulComm(b, p);
    Rotate(p, l, b);
    MulAssoc(m, q, p);
    MulComm(b, a);
    MulComm(p, m * q);
    assert b * (a + 1) == b * a + b;
  }

  /** 10^-k below K * 2^-p, in integers. */
  lemma TinyBelow(k: nat, p: nat, K: nat)
    requires p >= k && Pow(2, p - k) < K * Pow(5, k)
    ensures RPow(10, 0 - k) < (K as real) * RPow(2, 0 - p)
  {
    hide Pow, RPow;
    TenSplit(0 - k);
    RPowInverse(5, k);
    NatRPow(5, k);
    NatRPow(2, p - k);
    CastMul(K, Pow(5, k));
    RPowAdd(2, p - k, 0 - p);
    RPowPos(2, 0 - p);
    RPowPos(5, k);
    TinyReal2(RPow(10, 0 - k), RPow(2, 0 - k), RPow(5, k), RPow(5, 0 - k), RPow(2, p - k), RPow(2, 0 - p), K as real);
  }

  lemma TinyReal2(v: real, u: real, f: real, f1: real, w: real, q: real, K: real)
    requires v == u * f1 && f * f1 == 1.0 && u == w * q && w < K * f && q > 0.0 && f > 0.0
    ensures v < K * q
  {
    assert v * f == u by { assert (u * f1) * f == u * (f * f1); }
    RCancelRight(q, w, K * f);
    assert (K * f) * q == (K * q) * f;
    RCancelRight(f, v, K * q);
  }

  lemma SecondStage(a: Bits, c: Bits, n: Bits)
    requires DoubleValue(a) <= (M1 as real) * RPow(2, -11) && ReadsAs(RPow(10, -64), c)
    requires ReadsAs(DoubleValue(a) * DoubleValue(c), n)
    ensures DoubleValue(n) <= (M2 as real) * RPow(2, -224)
  {
    hide Pow, RPow, ReadsAs, DoubleValue;
    Five64();
    TwoTo202();
    TinyBelow(64, 266, 2 * C1 + 1);
    RoundsBelow(RPow(10, -64), c, C1, -265);
    NonNegative(a);
    NonNegative(c);
    RPowPos(2, -225);
    RPowAdd(2, -11, -265);
    RPowAdd(2, -276, 51);
    TwoTo51();
    StageProduct(DoubleValue(a), DoubleValue(c), M1 as real, C1 as real, RPow(2, -11), RPow(2, -265), RPow(2, -276),
        RPow(2, -225), RPow(2, 51), (2 * M2 + 1) as real);
    RoundsBelow(DoubleValue(a) * DoubleValue(c), n, M2, -224);
  }

  lemma TwoTo51()
    ensures RPow(2, 51) == 2251799813685248.0
  {
    HiddenPower();
    PowStep(2, 51);
    NatRPow(2, 51);
  }

  lemma TwoTo202()
    ensures Pow(2, 202) < (2 * C1 + 1) * Pow(5, 64)
  {
    Five64();
    TwoTo100();
    PowAdd(2, 100, 100);
    PowAdd(2, 200, 2);
    assert Pow(2, 2) == 4;
  }

  lemma StageProduct(a: real, c: real, M: real, C: real, u: real, v: real, uv: real, w: real, s: real, K: real)
    requires 0.0 <= a <= M * u && 0.0 <= c <= C * v && M >= 0.0 && C >= 0.0 && u > 0.0 && v > 0.0
    requires uv == u * v && w == uv * s && M * C < K * s && uv > 0.0
    ensures a * c < K * w
  {
    RMulMono(c, a, M * u);
    RMulMono(M * u, c, C * v);
    FourProduct(M, C, u, v);
    assert (M * u) * (C * v) == (M * C) * uv;
    RCancelRight(uv, M * C, K * s);
    assert (K * s) * uv == K * (uv * s) by { RMulAssoc(K, s, uv); }
  }

  /** tinytens[j]: the powers 10^-16 to 10^-128, and 10^-256 made 2^106 times larger. */
  ghost function TinyFactor(j: nat): real {
    if j < 4 then RPow(10, -16 * Pow(2, j)) else RPow(10, -256) * RPow(2, 106)
  }

  method TinyTen(j: nat, nearest: real -> Bits) returns (c: Bits)
    requires Rounds(nearest) && j <= 4
    ensures Near(DoubleValue(c), TinyFactor(j), 4)
    ensures j < 4 ==> ReadsAs(RPow(10, -16 * Pow(2, j)), c)
    ensures j == 4 ==> DoubleValue(c) <= (C2 as real) * RPow(2, -797)
  {
    hide Pow, RPow, ReadsAs, DoubleValue, Near;
    if j < 4 {
      PowMono(2, j, 3);
      EightIs();
      RPowPos(10, -16 * Pow(2, j));
      c := nearest(RPow(10, -16 * Pow(2, j)));
      assert ReadsAs(RPow(10, -16 * Pow(2, j)), c);
      ConstantNear(-16 * Pow(2, j), c);
      NearMore(DoubleValue(c), RPow(10, -16 * Pow(2, j)), 1, 4);
    } else {
      var a := nearest(9007199254740992.0);
      assert ReadsAs(9007199254740992.0, a);
      RPowPos(10, -256);
      var x := 9007199254740992.0 * RPow(10, -256);
      var b := nearest(x);
      assert ReadsAs(x, b);
      c := Multiply(a, b, nearest);
      LastTiny(a, b, c, x);
    }
  }

  lemma LastTiny(a: Bits, b: Bits, c: Bits, x: real)
    requires ReadsAs(9007199254740992.0, a) && x == 9007199254740992.0 * RPow(10, -256) && ReadsAs(x, b)
    requires ReadsAs(DoubleValue(a) * DoubleValue(b), c)
    ensures Near(DoubleValue(c), RPow(10, -256) * RPow(2, 106), 4) && DoubleValue(c) <= (C2 as real) * RPow(2, -797)
  {
    hide Pow, RPow, ReadsAs, DoubleValue, Near;
    HiddenReal();
    RPowSucc(2, 0);
    RPowZero(2);
    RoundsExactly(HIDDEN, 1, 9007199254740992.0, a);
    TinyRange(x);
    NearSelf(x);
    NearRounded(x, x, 0, b);
    NearSelf(9007199254740992.0);
    RPowAdd(2, 53, 53);
    FiftyThreeTwice(x, RPow(10, -256), RPow(2, 53), RPow(2, 106));
    NearProduct(a, 9007199254740992.0, 0, b, x, 1, c, RPow(10, -256) * RPow(2, 106));
    NearMore(DoubleValue(c), RPow(10, -256) * RPow(2, 106), 3, 4);
    TinyBound(x);
    RoundsBelow(x, b, C2, -850);
    var k := ExactDouble(C2, -797);
    RPowAdd(2, 53, -850);
    FiftyThreeMore(DoubleValue(b), C2 as real, RPow(2, 53), RPow(2, -850), RPow(2, -797));
    ReadsMono(DoubleValue(a) * DoubleValue(b), c, k);
    Ordered(c, k);
  }

  lemma FiftyThreeTwice(x: real, t: real, p: real, pp: real)
    requires p == 9007199254740992.0 && pp == p * p && x == 9007199254740992.0 * t
    ensures t * pp == 9007199254740992.0 * x
  {
  }

  lemma FiftyThreeMore(b: real, C: real, p: real, u: real, w: real)
    requires p == 9007199254740992.0 && w == p * u && b <= C * u
    ensures 9007199254740992.0 * b <= C * w
  {
  }

  lemma TinyRange(x: real)
    requires x == 9007199254740992.0 * RPow(10, -256)
    ensures x > 0.0 && RPow(2, -1000) <= x <= RPow(2, 1000)
    ensures RPow(2, -1000) <= RPow(10, -256) * RPow(2, 106) <= RPow(2, 1000)
  {
    hide RPow;
    TenRange(-256);
    RPowPos(10, -256);
    HiddenReal();
    RPowAdd(2, 53, 53);
    RPowMono(10, -256, 0);
    RPowZero(10);
    RPowMono(2, 106, 1000);
    RPowMono(2, 53, 1000);
    FiftyThreeTwice(x, RPow(10, -256), RPow(2, 53), RPow(2, 106));
    RMulMono(RPow(2, 106), RPow(10, -256), 1.0);
  }

  lemma TinyBound(x: real)
    requires x == 9007199254740992.0 * RPow(10, -256)
    ensures x < ((2 * C2 + 1) as real) * RPow(2, -851)
  {
    hide Pow, RPow;
    TwoTo648();
    TinyBelow(256, 904, 2 * C2 + 1);
    RPowAdd(2, 53, -904);
    HiddenReal();
    TimesBoth(RPow(10, -256), (2 * C2 + 1) as real, RPow(2, 53), RPow(2, -904), RPow(2, -851));
  }

  lemma TimesBoth(v: real, K: real, p: real, u: real, w: real)
    requires p == 9007199254740992.0 && w == p * u && v < K * u
    ensures 9007199254740992.0 * v < K * w
  {
    assert K * w == p * (K * u);
  }

  lemma TwoTo648()
    ensures Pow(2, 648) < (2 * C2 + 1) * Pow(5, 256)
  {
    hide Pow;
    Five256();
    TwoTo100();
    PowAdd(2, 300, 348);
    PowAdd(2, 300, 48);
    PowAdd(2, 200, 100);
    PowAdd(2, 100, 100);
    TwoTo48();
    PowPos(2, 300);
    ScaledLess(Pow(2, 300), Pow(2, 348), FIVES256, 2 * C2 + 1, Pow(5, 256));
  }

  lemma TwoTo48()
    ensures Pow(2, 48) == 0x1_0000_0000_0000
  {
    Pow32();
    assert Pow(2, 4) == 16;
    PowAdd(2, 4, 4);
    PowAdd(2, 8, 8);
    PowAdd(2, 32, 16);
  }

  lemma ScaledLess(p: nat, m: nat, L: nat, K: nat, f: nat)
    requires p > 0 && L * p <= f && m < K * L
    ensures p * m < K * f
  {
    MulMono(p, m + 1, K * L);
    MulMono(K, L * p, f);
    assert p * (K * L) == K * (L * p) by { Rotate(p, K, L); MulComm(p, L); }
    assert p * (m + 1) == p * m + p;
  }

  lemma ThirdStage(a: Bits, c: Bits, n: Bits)
    requires DoubleValue(a) <= (M2 as real) * RPow(2, -224) && DoubleValue(c) <= (C2 as real) * RPow(2, -797)
    requires ReadsAs(DoubleValue(a) * DoubleValue(c), n)
    ensures DoubleValue(n) < RPow(2, -916)
  {
    hide Pow, RPow, ReadsAs, DoubleValue;
    NonNegative(a);
    NonNegative(c);
    RPowPos(2, -224);
    RPowPos(2, -797);
    RPowPos(2, -1021);
    RPowPos(2, -969);
    RPowAdd(2, -224, -797);
    RPowAdd(2, -1021, 51);
    TwoTo51();
    StageProduct(DoubleValue(a), DoubleValue(c), M2 as real, C2 as real, RPow(2, -224), RPow(2, -797), RPow(2, -1021),
        RPow(2, -970), RPow(2, 51), (2 * (2 * HIDDEN - 1) + 1) as real);
    RoundsBelow(DoubleValue(a) * DoubleValue(c), n, 2 * HIDDEN - 1, -969);
    RPowAdd(2, 53, -969);
    HiddenReal();
  }

  // ----- which heads come near it -----

  /** 2^-1022 is 2225073858507201.38... * 10^-323. */
  ghost function SmallestNormal(): real { RPow(5, 323) * RPow(2, -699) }

  lemma SmallestNormalIs()
    ensures 2225073858507200.0 < SmallestNormal() < 2225073858507202.0
    ensures RPow(2, -1022) == SmallestNormal() * RPow(10, -323)
  {
    hide Pow, RPow;
    FivesOverTwos();
    TenSplit(-323);
    RPowInverse(5, 323);
    RPowAdd(2, -699, -323);
    FactorOut(RPow(5, 323), RPow(2, -699), RPow(2, -323), RPow(5, -323), RPow(2, -1022), RPow(10, -323));
  }

  lemma FivesOverTwos()
    ensures 2225073858507200.0 < SmallestNormal() < 2225073858507202.0
  {
    hide Pow, RPow;
    Five323();
    TwoTo199();
    FivesBetween(FIVES323, FIVES323 as real, RPow(2, -199));
  }

  lemma FivesBetween(L: nat, l: real, u: real)
    requires L * Pow(2, 500) <= Pow(5, 323) < (L + 2) * Pow(2, 500) && l == L as real && u == RPow(2, -199)
    requires 2225073858507200.0 < l * u && (l + 2.0) * u < 2225073858507202.0
    ensures 2225073858507200.0 < SmallestNormal() < 2225073858507202.0
  {
    hide Pow, RPow, SmallestNormal;
    PowersAsReals();
    BoundsAsReals(L, Pow(2, 500), Pow(5, 323));
    NormalBounds(Pow(5, 323) as real, l, Pow(2, 500) as real, RPow(2, -699), u, SmallestNormal(),
        2225073858507200.0, 2225073858507202.0);
  }

  lemma PowersAsReals()
    ensures RPow(2, -699) > 0.0 && RPow(2, -199) == Pow(2, 500) as real * RPow(2, -699)
    ensures SmallestNormal() == Pow(5, 323) as real * RPow(2, -699)
  {
    hide Pow, RPow;
    NatRPow(5, 323);
    NatRPow(2, 500);
    RPowAdd(2, 500, -699);
    RPowPos(2, -699);
  }

  lemma TwoTo199()
    ensures 2225073858507200.0 < (FIVES323 as real) * RPow(2, -199)
    ensures (FIVES323 as real + 2.0) * RPow(2, -199) < 2225073858507202.0
  {
    hide Pow, RPow;
    TwoTo100();
    PowAdd(2, 100, 100);
    PowStep(2, 199);
    NatRPow(2, 199);
    RPowInverse(2, 199);
    RPowPos(2, -199);
    var u, T := RPow(2, -199), Pow(2, 199) as real;
    assert T * u == 1.0;
    RCancelRight(u, 2225073858507200.0 * T, FIVES323 as real);
    RCancelRight(u, FIVES323 as real + 2.0, 2225073858507202.0 * T);
    RMulAssoc(2225073858507200.0, T, u);
    RMulAssoc(2225073858507202.0, T, u);
  }

  lemma BoundsAsReals(L: nat, p: nat, f: nat)
    requires L * p <= f < (L + 2) * p
    ensures (L as real) * (p as real) <= f as real < (L as real + 2.0) * (p as real)
  {
    CastMul(L, p);
    CastMul(L + 2, p);
  }

  lemma NormalBounds(f: real, L: real, p: real, q: real, u: real, y: real, low: real, high: real)
    requires L * p <= f < (L + 2.0) * p && q > 0.0 && u == p * q && y == f * q && low < L * u && (L + 2.0) * u < high
    ensures low < y < high
  {
    RMulMono(q, L * p, f);
    RCancelRight(q, f, (L + 2.0) * p);
    RMulAssoc(L, p, q);
    RMulAssoc(L + 2.0, p, q);
  }

  lemma FactorOut(f: real, a: real, b: real, f1: real, ab: real, t: real)
    requires f * f1 == 1.0 && ab == a * b && t == b * f1
    ensures ab == (f * a) * t
  {
    assert (f * a) * (b * f1) == (a * b) * (f * f1);
  }

  /** Only three heads with few digits come near it from below, and they agree in value. */
  lemma HeadsBelow(H: nat, e1: nat)
    requires 0 < H < 10_000_000_000_000_000
    requires 0.99999999999996 * RPow(2, -1022) <= Tenfold(H as real, 0 - e1) < RPow(2, -1022)
    ensures 321 <= e1 <= 323 && H * Pow(10, 323 - e1) <= 2225073858507201
  {
    hide Pow, RPow;
    SmallestNormalIs();
    RPowPos(10, -323);
    var X, R, t := Tenfold(H as real, 0 - e1), SmallestNormal(), RPow(10, -323);
    if e1 > 323 {
      RPowAdd(10, 323 - e1, -323);
      RPowMono(10, 323 - e1, -1);
      RPowSucc(10, -1);
      RPowZero(10);
      RPowPos(10, 323 - e1);
      TooSmallHead(H as real, RPow(10, 323 - e1), t, X, R);
    } else {
      var N := H * Pow(10, 323 - e1);
      RPowAdd(10, 323 - e1, -323);
      NatRPow(10, 323 - e1);
      CastMul(H, Pow(10, 323 - e1));
      RMulAssoc(H as real, RPow(10, 323 - e1), t);
      assert X == N as real * t;
      HeadWindow(N, t, X, R);
      if e1 < 321 { ThousandsApart(H, 323 - e1); }
    }
  }

  lemma TooSmallHead(H: real, p: real, t: real, X: real, R: real)
    requires 0.0 < H < 10000000000000000.0 && 0.0 < p <= 0.1 && t > 0.0 && R > 2225073858507200.0 && X == H * (p * t)
    ensures X < 0.99999999999996 * (R * t)
  {
    RMulMono(H, p, 0.1);
    RMulAssoc(H, p, t);
    RCancelRight(t, H * p, 0.99999999999996 * R);
    assert (0.99999999999996 * R) * t == 0.99999999999996 * (R * t);
  }

  lemma HeadWindow(N: nat, t: real, X: real, R: real)
    requires t > 0.0 && 2225073858507200.0 < R < 2225073858507202.0 && X == N as real * t
    requires 0.99999999999996 * (R * t) <= X < R * t
    ensures 2225073858507100 < N <= 2225073858507201
  {
    RCancelRight(t, N as real, R);
    RCancelRight(t, 0.99999999999996 * R, N as real);
    assert (0.99999999999996 * R) * t == 0.99999999999996 * (R * t);
  }

  lemma ThousandsApart(H: nat, k: nat)
    requires k >= 3
    ensures !(2225073858507100 < H * Pow(10, k) <= 2225073858507201)
  {
    hide Pow;
    PowAdd(10, k - 3, 3);
    TenTo3();
    MulAssoc(H, Pow(10, k - 3), 1000);
    var q := H * Pow(10, k - 3);
    assert H * Pow(10, k) == q * 1000;
  }

  /** The numbers on the way from a head that is at most 2225073858507201 * 10^-323. */
  ghost predicate LowStage(rv: Bits, j: nat) {
    if j <= 2 then DoubleValue(rv) <= (M1 as real) * RPow(2, -11)
    else if j <= 4 then DoubleValue(rv) <= (M2 as real) * RPow(2, -224)
    else DoubleValue(rv) < RPow(2, -916)
  }

  lemma SameStage(rv: Bits, j: nat)
    requires j != 2 && j != 4
    ensures LowStage(rv, j) ==> LowStage(rv, j + 1)
  {
    hide RPow, DoubleValue;
  }

  lemma NotLow(rv: Bits)
    requires ExpField(rv) >= 107
    ensures !LowStage(rv, 5)
  {
    hide RPow, DoubleValue;
    BinadeValue(107);
    Fields(rv);
    Ordered(107 * HIDDEN, rv);
  }

  lemma EdgeQuotient(H: nat, e1: nat)
    requires 321 <= e1 <= 323 && H * Pow(10, 323 - e1) <= 2225073858507201
    ensures H < 2 * HIDDEN && H as real <= 2225073858507.201 * RPow(10, e1 - 320)
  {
    hide Pow, RPow;
    var a, b := Pow(10, 323 - e1), Pow(10, e1 - 320);
    PowPos(10, 323 - e1);
    PowPos(10, e1 - 320);
    PowAdd(10, 323 - e1, e1 - 320);
    TenTo3();
    MulMono(H, 1, a);
    NatRPow(10, e1 - 320);
    EdgeInts(H, a, b);
    assert (1000 * H) as real == 1000.0 * (H as real);
    CastMul(2225073858507201, b);
  }

  lemma EdgeInts(H: nat, a: nat, b: nat)
    requires a * b == 1000 && H * a <= 2225073858507201
    ensures 1000 * H <= 2225073858507201 * b
  {
    MulMono(b, H * a, 2225073858507201);
    MulComm(b, H * a);
    MulComm(b, 2225073858507201);
    MulAssoc(H, a, b);
  }
}
