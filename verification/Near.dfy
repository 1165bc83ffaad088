/** Relative errors of floating-point products, and powers of ten between powers of two. */
module RelativeErrors {
  import opened Arith
  import opened Rational
  import opened Words
  import opened Ieee
  import opened ShortestDigits
  import opened Unscaling
  import opened Refinement

  // ----- relative errors -----

  /** v is x up to j * 2^-50 of it. */
  ghost predicate Near(v: real, x: real, j: nat) {
    x > 0.0 && Bounded(v, x, 1.0 - Share(j), 1.0 + Share(j))
  }

  ghost predicate Bounded(v: real, x: real, l: real, h: real) { x * l <= v <= x * h }

  ghost function Share(j: nat): real { j as real / 1125899906842624.0 }

  lemma Smaller(j: nat)
    requires j <= 100
    ensures 0.0 <= Share(j) <= 0.0000001
  {
  }

  lemma NearSelf(x: real)
    requires x > 0.0
    ensures Near(x, x, 0)
  {
  }

  lemma NearMore(v: real, x: real, i: nat, j: nat)
    requires Near(v, x, i) && i <= j
    ensures Near(v, x, j)
  {
    RMulMono(x, 1.0 - Share(j), 1.0 - Share(i));
    RMulMono(x, 1.0 + Share(i), 1.0 + Share(j));
  }

  lemma NearTimes(a: real, A: real, i: nat, c: real, C: real, j: nat, v: real, x: real)
    requires Near(a, A, i) && Near(c, C, j) && i <= 100 && j <= 100 && v == a * c && x == A * C
    ensures x > 0.0 && Near(v, x, i + j + 1)
  {
    hide Share, Bounded;
    Smaller(i);
    Smaller(j);
    PartsProduct(i, j);
    var k := i + j + 1;
    BothBounds(a, A, 1.0 - Share(i), 1.0 + Share(i), c, C, 1.0 - Share(j), 1.0 + Share(j), 1.0 - Share(k),
        1.0 + Share(k));
  }

  lemma BothBounds(a: real, A: real, l: real, h: real, c: real, C: real, m: real, k: real, low: real, high: real)
    requires A > 0.0 && C > 0.0 && 0.0 < l <= h && 0.0 < m <= k && Bounded(a, A, l, h) && Bounded(c, C, m, k)
    requires low <= l * m && h * k <= high
    ensures A * C > 0.0 && Bounded(a * c, A * C, low, high)
  {
    hide Bounded;
    ProductBounds(a, A, l, h, c, C, m, k);
    Widen(a * c, A * C, l * m, h * k, low, high);
  }

  lemma Widen(v: real, x: real, l: real, h: real, m: real, k: real)
    requires x > 0.0 && Bounded(v, x, l, h) && m <= l && h <= k
    ensures Bounded(v, x, m, k)
  {
    RMulMono(x, m, l);
    RMulMono(x, h, k);
  }

  lemma PartsProduct(i: nat, j: nat)
    requires i <= 100 && j <= 100
    ensures (1.0 + Share(i)) * (1.0 + Share(j)) <= 1.0 + Share(i + j + 1)
    ensures (1.0 - Share(i)) * (1.0 - Share(j)) >= 1.0 - Share(i + j + 1)
  {
    Smaller(i);
    Smaller(j);
    CrossTerms(Share(i), Share(j), Share(1));
    assert Share(i + j + 1) == Share(i) + Share(j) + Share(1);
    assert Share(j) <= 100.0 * Share(1);
  }

  lemma CrossTerms(a: real, b: real, u: real)
    requires 0.0 <= a <= 0.0000001 && 0.0 <= b <= 0.0000001 && b <= 100.0 * u
    ensures (1.0 + a) * (1.0 + b) <= 1.0 + (a + b + u) && (1.0 - a) * (1.0 - b) >= 1.0 - (a + b + u)
  {
    RMulMono(b, a, 0.0000001);
    RMulMono(b, 0.0, a);
    var c := a * b;
    assert (1.0 + a) * (1.0 + b) == 1.0 + a + b + c;
    assert (1.0 - a) * (1.0 - b) == 1.0 - a - b + c;
  }

  lemma ProductBounds(a: real, A: real, l: real, h: real, c: real, C: real, m: real, k: real)
    requires A > 0.0 && C > 0.0 && 0.0 < l <= h && 0.0 < m <= k && Bounded(a, A, l, h) && Bounded(c, C, m, k)
    ensures Bounded(a * c, A * C, l * m, h * k) && A * C > 0.0
  {
    Positive(A, l); Positive(C, m); Positive(A, C);
    ProductOrder(A * l, a, C * m, c);
    ProductOrder(a, A * h, c, C * k);
    FourProduct(A, C, l, m);
    FourProduct(A, C, h, k);
  }

  lemma ProductOrder(a: real, b: real, c: real, d: real)
    requires 0.0 <= a <= b && 0.0 <= c <= d
    ensures a * c <= b * d
  {
    RMulMono(c, a, b);
    RMulMono(b, c, d);
    assert c * b == b * c && d * b == b * d;
  }

  lemma Positive(a: real, b: real)
    requires a > 0.0 && b > 0.0
    ensures a * b > 0.0
  {
  }

  lemma FourProduct(A: real, C: real, l: real, m: real)
    ensures (A * l) * (C * m) == (A * C) * (l * m)
  {
  }

  /** One rounding adds one part. */
  lemma NearRounded(v: real, x: real, j: nat, n: Bits)
    requires Near(v, x, j) && j <= 100 && ReadsAs(v, n) && RPow(2, -1000) <= x <= RPow(2, 1000)
    ensures Near(DoubleValue(n), x, j + 1) && 0 < n < INFINITY && 22 <= ExpField(n) < 2046
  {
    hide RPow, DoubleValue, ReadsAs, Share;
    NearEnough(v, x, j);
    BinadeValue(22);
    BinadeValue(2024);
    RPowSucc(2, -1001);
    RPowSucc(2, 1000);
    ReadsMono(v, n, 22 * HIDDEN);
    ReadsMono(v, n, 2024 * HIDDEN);
    Fields(n);
    RoundedNear(v, n);
    ManyUnits(n);
    Smaller(j);
    OnePart(j);
    MorePart(DoubleValue(n), v, x, Share(j), Share(j + 1));
  }

  lemma OnePart(j: nat)
    ensures Share(j + 1) == Share(j) + 1.0 / 1125899906842624.0
  {
  }

  lemma NearEnough(v: real, x: real, j: nat)
    requires Near(v, x, j) && j <= 100
    ensures x > 0.0 && 0.9 * x <= v <= 1.1 * x
  {
    hide Share;
    Smaller(j);
    Tenths(v, x, 1.0 - Share(j), 1.0 + Share(j));
  }

  lemma Tenths(v: real, x: real, lo: real, hi: real)
    requires Bounded(v, x, lo, hi) && x > 0.0 && 0.9 <= lo && hi <= 1.1
    ensures 0.9 * x <= v <= 1.1 * x
  {
    RMulMono(x, 0.9, lo);
    RMulMono(x, hi, 1.1);
  }

  lemma MorePart(d: real, v: real, x: real, p: real, p1: real)
    requires x > 0.0 && Bounded(v, x, 1.0 - p, 1.0 + p) && 0.0 <= p <= 0.0000001 && p1 == p + 1.0 / 1125899906842624.0
    requires -d <= 9007199254740992.0 * (d - v) <= d && d > 0.0
    ensures Bounded(d, x, 1.0 - p1, 1.0 + p1)
  {
    var y := x * p;
    RMulMono(x, p, 0.0000001);
    assert y == p * x && y <= 0.0000001 * x;
    assert x * (1.0 - p) == x - y && x * (1.0 + p) == x + y;
    assert x * (1.0 - p1) == x - y - x / 1125899906842624.0;
    assert x * (1.0 + p1) == x + y + x / 1125899906842624.0;
  }

  lemma NearProduct(a: Bits, A: real, i: nat, c: Bits, C: real, j: nat, n: Bits, x: real)
    requires Near(DoubleValue(a), A, i) && Near(DoubleValue(c), C, j) && i <= 40 && j <= 40 && x == A * C
    requires ReadsAs(DoubleValue(a) * DoubleValue(c), n) && RPow(2, -1000) <= x <= RPow(2, 1000)
    ensures Near(DoubleValue(n), x, i + j + 2) && 0 < n < INFINITY && 22 <= ExpField(n) < 2046
  {
    hide RPow, DoubleValue, ReadsAs, Near;
    var v := DoubleValue(a) * DoubleValue(c);
    NearTimes(DoubleValue(a), A, i, DoubleValue(c), C, j, v, x);
    NearRounded(v, x, i + j + 1, n);
  }

  lemma NearScale(v: real, x: real, j: nat, p: real, v1: real, x1: real)
    requires Near(v, x, j) && p > 0.0 && v1 == v * p && x1 == x * p
    ensures Near(v1, x1, j)
  {
    hide Share;
    Positive(x, p);
    RMulMono(p, x * (1.0 - Share(j)), v);
    RMulMono(p, v, x * (1.0 + Share(j)));
    Swap(x, 1.0 - Share(j), p);
    Swap(x, 1.0 + Share(j), p);
  }

  lemma NearTight(v: real, x: real)
    requires Near(v, x, 19)
    ensures v <= 1.00000000000005 * x
  {
    RMulMono(x, 1.0 + Share(19), 1.00000000000005);
  }

  // ----- powers of ten -----

  lemma TenPower300()
    ensures Pow(10, 300) <= Pow(2, 1000)
  {
    PowOfPow(10, 3, 100);
    PowOfPow(2, 10, 100);
    assert Pow(10, 3) == 1000;
    assert Pow(2, 5) == 32;
    PowAdd(2, 5, 5);
    PowBaseMono(1000, 1024, 100);
  }

  lemma {:induction false} PowBaseMono(a: nat, b: nat, n: nat)
    requires a <= b
    ensures Pow(a, n) <= Pow(b, n)
  {
    if n > 0 {
      PowBaseMono(a, b, n - 1);
      PowStep(a, n - 1);
      PowStep(b, n - 1);
      MulMono(a, Pow(a, n - 1), Pow(b, n - 1));
      MulMono(Pow(b, n - 1), a, b);
      MulComm(Pow(b, n - 1), a);
      MulComm(Pow(b, n - 1), b);
    }
  }

  lemma TenRange(e: int)
    requires -300 <= e <= 300
    ensures RPow(2, -1000) <= RPow(10, e) <= RPow(2, 1000)
  {
    hide Pow, RPow;
    TenPower300();
    NatRPow(10, 300);
    NatRPow(2, 1000);
    RPowInverse(10, 300);
    RPowInverse(2, 1000);
    RPowPos(10, -300);
    RPowPos(2, -1000);
    RPowPos(10, 300);
    InverseOrder(RPow(10, 300), RPow(10, -300), RPow(2, 1000), RPow(2, -1000));
    RPowMono(10, -300, e);
    RPowMono(10, e, 300);
  }

  lemma InverseOrder(a: real, a1: real, b: real, b1: real)
    requires 0.0 < a <= b && a1 > 0.0 && b1 > 0.0 && a * a1 == 1.0 && b * b1 == 1.0
    ensures b1 <= a1
  {
    if b1 > a1 {
      RMulMono(a1, a, b);
      RCancel(b, a1, b1);
    }
  }

  /** A significand of 53 bits at any exponent of the range is a double. */
  lemma {:induction false} ExactDouble(M: nat, e: int) returns (n: Bits)
    requires 1 <= M < 2 * HIDDEN && -1074 <= e <= 900
    ensures n < INFINITY && DoubleValue(n) == (M as real) * RPow(2, e)
    decreases 2 * HIDDEN - M
  {
    hide RPow, DoubleValue;
    if M >= HIDDEN {
      n := (e + 1075) * HIDDEN + (M - HIDDEN);
      DivModUnique(n, HIDDEN, e + 1075, M - HIDDEN);
      ValueInGaps(n);
      RPowSucc(2, e - 1);
      HalfTwice(M as real, (2 * M) as real, RPow(2, e - 1), RPow(2, e));
    } else if e == -1074 {
      n := M;
      UnitsValue(M);
    } else {
      n := ExactDouble(2 * M, e - 1);
      RPowSucc(2, e - 1);
      HalfTwice(M as real, (2 * M) as real, RPow(2, e - 1), RPow(2, e));
    }
  }

  lemma HalfTwice(M: real, M2: real, g: real, u: real)
    requires M2 == 2.0 * M && u == 2.0 * g
    ensures M2 * g == M * u
  {
  }

  lemma RoundsExactly(M: nat, e: int, v: real, n: Bits)
    requires 1 <= M < 2 * HIDDEN && -1074 <= e <= 900 && v == (M as real) * RPow(2, e) && ReadsAs(v, n)
    ensures DoubleValue(n) == v && n < INFINITY
  {
    hide RPow, DoubleValue, ReadsAs;
    var m := ExactDouble(M, e);
    RoundsTo(v, n, m);
  }

  /** Powers of ten up to 10^22 are exact. */
  lemma TenExact(i: nat, n: Bits)
    requires i <= 22 && ReadsAs(RPow(10, i), n)
    ensures DoubleValue(n) == RPow(10, i) && n < INFINITY
  {
    hide Pow, RPow, DoubleValue, ReadsAs;
    TenSplit(i);
    NatRPow(5, i);
    PowPos(5, i);
    PowMono(5, i, 22);
    FiveTo22();
    RMulComm(RPow(2, i), RPow(5, i));
    RoundsExactly(Pow(5, i), i, RPow(10, i), n);
  }

  lemma RMulComm(a: real, b: real)
    ensures a * b == b * a
  {
  }

  lemma FiveTo22()
    ensures Pow(5, 22) < 2 * HIDDEN
  {
    assert Pow(5, 5) == 3125;
    PowAdd(5, 5, 6);
    PowAdd(5, 11, 11);
  }

  lemma ConstantNear(e: int, n: Bits)
    requires -300 <= e <= 300 && ReadsAs(RPow(10, e), n)
    ensures Near(DoubleValue(n), RPow(10, e), 1) && n < INFINITY
  {
    hide RPow, DoubleValue, ReadsAs;
    RPowPos(10, e);
    TenRange(e);
    NearSelf(RPow(10, e));
    NearRounded(RPow(10, e), RPow(10, e), 0, n);
  }

  method Multiply(a: Bits, b: Bits, nearest: real -> Bits) returns (n: Bits)
    requires Rounds(nearest)
    ensures DoubleValue(a) * DoubleValue(b) >= 0.0 && ReadsAs(DoubleValue(a) * DoubleValue(b), n)
  {
    hide DoubleValue, ReadsAs;
    NonNegative(a);
    NonNegative(b);
    RMulMono(DoubleValue(b), 0.0, DoubleValue(a));
    n := nearest(DoubleValue(a) * DoubleValue(b));
  }

  lemma NonNegative(n: Bits)
    ensures DoubleValue(n) >= 0.0
  {
    hide RPow, DoubleValue;
    ZeroValue();
    Ordered(0, n);
  }

  // ----- times a power of ten -----

  ghost function Tenfold(X: real, e: int): real { X * RPow(10, e) }

  /** X * 10^e stays in the range of normal doubles. */
  lemma TimesTenRange(X: real, lo: int, hi: int, e: int)
    requires RPow(10, lo) <= X <= RPow(10, hi) && -300 <= lo + e && hi + e <= 300 && lo <= hi
    ensures RPow(2, -1000) <= Tenfold(X, e) <= RPow(2, 1000)
  {
    hide RPow;
    TenRange(lo + e);
    TenRange(hi + e);
    RPowAdd(10, lo, e);
    RPowAdd(10, hi, e);
    RPowPos(10, e);
    RMulMono(RPow(10, e), RPow(10, lo), X);
    RMulMono(RPow(10, e), X, RPow(10, hi));
  }

  lemma TenTwice(X: real, a: int, b: int)
    ensures Tenfold(X, a) * RPow(10, b) == Tenfold(X, a + b)
  {
    hide RPow;
    RPowAdd(10, a, b);
    RMulAssoc(X, RPow(10, a), RPow(10, b));
  }

  lemma TenNested(X: real, a: int, b: int)
    ensures Tenfold(Tenfold(X, a), b) == Tenfold(X, a + b)
  {
    hide RPow;
    TenTwice(X, a, b);
  }

  lemma NoTens(X: real)
    ensures Tenfold(X, 0) == X
  {
    RPowZero(10);
  }

  lemma TimesTenIs(X: real, e: int)
    ensures Tenfold(X, e) == X * RPow(10, e)
  {
  }

  lemma ValueAtLeast(n: Bits, k: Bits)
    requires DoubleValue(n) >= DoubleValue(k)
    ensures n >= k
  {
    hide Magnitude, RPow;
    RPowPos(2, -1074);
    RCancelRight(RPow(2, -1074), Magnitude(n) as real, Magnitude(k) as real);
    if n < k { Increasing(n, k); }
  }

  lemma FieldAtLeast(n: Bits, k: nat)
    requires 1 <= k <= 2047 && DoubleValue(n) >= RPow(2, k - 1023)
    ensures ExpField(n) >= k
  {
    hide RPow, DoubleValue;
    BinadeValue(k);
    ValueAtLeast(n, k * HIDDEN);
    Fields(n);
  }

  lemma NearFinite(rv: Bits, X: real, j: nat)
    requires Near(DoubleValue(rv), X, j) && j <= 100 && RPow(10, 0) <= X <= RPow(10, 32)
    ensures 0 < rv < INFINITY && ExpField(rv) >= 1022
  {
    hide RPow, DoubleValue, Near;
    NearEnough(DoubleValue(rv), X, j);
    RPowZero(10);
    TenRange(32);
    BinadeValue(2047);
    RPowMono(2, 1001, 1024);
    RPowSucc(2, 1000);
    RPowSucc(2, -1);
    RPowZero(2);
    FieldAtLeast(rv, 1022);
    Fields(rv);
  }

  lemma NearNormal(rv: Bits, Z: real)
    requires Near(DoubleValue(rv), Z, 32) && RPow(2, -1000) <= Z <= RPow(2, 1000)
    ensures 0 < rv < INFINITY
  {
    hide RPow, DoubleValue, Near;
    NearEnough(DoubleValue(rv), Z, 32);
    ZeroValue();
    RPowPos(2, -1000);
    BinadeValue(2047);
    RPowMono(2, 1001, 1024);
    RPowSucc(2, 1000);
  }

  lemma Undo(d: real, m: real, a: real, b: real)
    requires d == m * a && a * b == 1.0
    ensures m == d * b
  {
    RMulAssoc(m, a, b);
  }

  lemma QuotientIs(a: real, c: real, c1: real)
    requires a >= 0.0 && c > 0.0 && c * c1 == 1.0
    ensures a / c == a * c1 && a / c >= 0.0
  {
    var q := a / c;
    assert q * c == a;
    RMulAssoc(q, c, c1);
    if q < 0.0 { RMulMono(c, q, 0.0); RCancelRight(c, q, 0.0); }
  }

  lemma QuotientBelow(a: real, c: real, q: real, b: real)
    requires c > 0.0 && q == a / c && a <= b * c
    ensures q <= b
  {
    assert q * c == a;
    RCancelRight(c, q, b);
  }

  lemma SameProduct(a: real, c: real, A: real, C: real)
    requires a == A && c == C
    ensures a * c == A * C
  {
  }

  /** X is H * 10^e1 for a head H of up to sixteen digits. */
  ghost predicate Headed(H: real) { RPow(10, 0) <= H <= RPow(10, 16) }

  lemma HeadIsHeaded(H: nat)
    requires 0 < H < 10_000_000_000_000_000
    ensures Headed(H as real)
  {
    hide Pow, RPow;
    RPowZero(10);
    NatRPow(10, 16);
    TenTo16();
  }

  lemma TenTo16()
    ensures Pow(10, 16) == 10_000_000_000_000_000
  {
    assert Pow(10, 4) == 10_000;
    PowAdd(10, 4, 4);
    PowAdd(10, 8, 8);
  }

  lemma TenTo3()
    ensures Pow(10, 3) == 1000
  {
  }

  lemma TenTo10()
    ensures Pow(2, 33) <= Pow(10, 10)
  {
    Pow32();
    PowStep(2, 32);
    assert Pow(10, 5) == 100_000;
    PowAdd(10, 5, 5);
  }

  lemma TwoTo10()
    ensures Pow(2, 10) == 1024 && Pow(2, 3) == 8
  {
    assert Pow(2, 5) == 32;
    PowAdd(2, 5, 5);
  }

  lemma EightIs()
    ensures Pow(2, 3) == 8
  {
  }

  lemma FourIs()
    ensures Pow(2, 2) == 4
  {
  }

  lemma SixteenIs()
    ensures Pow(2, 4) == 16
  {
  }

  lemma SmallTwos(j: nat)
    requires j <= 4
    ensures Pow(2, j) == if j == 0 then 1 else if j == 1 then 2 else if j == 2 then 4 else if j == 3 then 8 else 16
  {
    SixteenIs();
    EightIs();
    FourIs();
  }

  lemma FifteenDigits()
    ensures Pow(10, 15) == 1_000_000_000_000_000
  {
    assert Pow(10, 5) == 100_000;
    PowAdd(10, 5, 5);
    PowAdd(10, 10, 5);
  }

  lemma TenTo270()
    ensures RPow(10, -270) >= RPow(2, -900)
  {
    hide Pow, RPow;
    PowOfPow(10, 3, 90);
    PowOfPow(2, 10, 90);
    TenTo3();
    TwoTo10();
    PowBaseMono(1000, 1024, 90);
    NatRPow(10, 270);
    NatRPow(2, 900);
    RPowInverse(10, 270);
    RPowInverse(2, 900);
    RPowPos(10, -270);
    RPowPos(2, -900);
    RPowPos(10, 270);
    InverseOrder(RPow(10, 270), RPow(10, -270), RPow(2, 900), RPow(2, -900));
  }

  lemma TenTo240()
    ensures RPow(10, -240) <= RPow(2, -720)
  {
    hide Pow, RPow;
    PowOfPow(2, 3, 240);
    TwoTo10();
    PowBaseMono(8, 10, 240);
    NatRPow(10, 240);
    NatRPow(2, 720);
    RPowInverse(10, 240);
    RPowInverse(2, 720);
    RPowPos(10, -240);
    RPowPos(2, -720);
    RPowPos(2, 720);
    InverseOrder(RPow(2, 720), RPow(2, -720), RPow(10, 240), RPow(10, -240));
  }

  lemma TenTo490()
    ensures RPow(10, -490) <= RPow(2, -1076)
  {
    hide Pow, RPow;
    PowOfPow(10, 10, 49);
    PowOfPow(2, 33, 49);
    TenTo10();
    PowBaseMono(Pow(2, 33), Pow(10, 10), 49);
    PowMono(2, 1076, 1617);
    NatRPow(10, 490);
    NatRPow(2, 1076);
    RPowInverse(10, 490);
    RPowInverse(2, 1076);
    RPowPos(10, -490);
    RPowPos(2, -1076);
    RPowPos(2, 1076);
    InverseOrder(RPow(2, 1076), RPow(2, -1076), RPow(10, 490), RPow(10, -490));
  }

  lemma HugePower()
    ensures RPow(10, 320) >= RPow(2, 1024)
  {
    hide Pow, RPow;
    PowOfPow(10, 10, 32);
    PowOfPow(2, 33, 32);
    TenTo10();
    PowBaseMono(Pow(2, 33), Pow(10, 10), 32);
    NatRPow(10, 320);
    NatRPow(2, 1056);
    RPowMono(2, 1024, 1056);
  }
}
