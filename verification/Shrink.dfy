/**
 The starting approximation of fpconv_strtod for negative exponents: quotients by powers of ten, scaled when they are
 tiny, with the bits below the true last place cleared.
 */
module ShrinkingPowers {
  import opened Arith
  import opened Rational
  import opened Words
  import opened Ieee
  import opened DoubleBits
  import opened ShortestDigits
  import opened ScaledDoubles
  import opened Unscaling
  import opened Correction
  import opened Refinement
  import opened RelativeErrors
  import opened SmallestNormals
  import opened GrowingPowers

  // ----- products with tiny powers -----

  /** A tiny product: near the exact one, or below a quarter of the smallest double. */
  ghost predicate TinyProduct(n: Bits, Y: real) {
    n < INFINITY && if ExpField(n) >= 53 then Near(DoubleValue(n), Y, 40) else Y <= 0.9 * RPow(2, -969)
  }

  lemma TinyRounded(a: Bits, A: real, c: Bits, C: real, n: Bits, Y: real)
    requires Near(DoubleValue(a), A, 32) && Near(DoubleValue(c), C, 4) && Y == A * C && Y <= RPow(2, 1000)
    requires ReadsAs(DoubleValue(a) * DoubleValue(c), n)
    ensures TinyProduct(n, Y)
  {
    hide RPow, DoubleValue, ReadsAs, Near;
    var v := DoubleValue(a) * DoubleValue(c);
    NearTimes(DoubleValue(a), A, 32, DoubleValue(c), C, 4, v, Y);
    NearEnough(v, Y, 37);
    RPowMono(2, -1000, -970);
    RPowPos(2, -970);
    RPowSucc(2, -970);
    if Y >= RPow(2, -1000) {
      NearRounded(v, Y, 37, n);
      NearMore(DoubleValue(n), Y, 38, 40);
      NearEnough(DoubleValue(n), Y, 38);
      BinadeValue(53);
      Fields(n);
      if ExpField(n) < 53 { Ordered(n, 53 * HIDDEN); }
    } else {
      BinadeValue(24);
      RPowSucc(2, -1000);
      ReadsMono(v, n, 24 * HIDDEN);
      Fields(n);
    }
  }

  /** One factor of the loop, before the last table entry. */
  method TimesTiny(rv0: Bits, j: nat, nearest: real -> Bits, ghost X: real, ghost d: int) returns (rv: Bits)
    requires Rounds(nearest) && j <= 3 && 0 <= d < Pow(2, j) && RPow(10, -15) <= X <= RPow(10, 16)
    requires Near(DoubleValue(rv0), Tenfold(X, -16 * d), 4 + 7 * j)
    ensures Near(DoubleValue(rv), Tenfold(X, -16 * (d + Pow(2, j))), 4 + 7 * (j + 1))
    ensures j == 2 && LowStage(rv0, 2) ==> LowStage(rv, 3)
  {
    hide Pow, RPow, DoubleValue, ReadsAs, Near, Tenfold;
    PowMono(2, j, 3);
    EightIs();
    var c := TinyTen(j, nearest);
    rv := Multiply(rv0, c, nearest);
    ghost var p: int, x := Pow(2, j), Tenfold(X, -16 * (d + Pow(2, j)));
    TenTwice(X, -16 * d, -16 * p);
    TimesTenRange(X, -15, 16, -16 * (d + p));
    NearProduct(rv0, Tenfold(X, -16 * d), 4 + 7 * j, c, RPow(10, -16 * p), 4, rv, x);
    NearMore(DoubleValue(rv), x, 4 + 7 * j + 6, 4 + 7 * (j + 1));
    if j == 2 && LowStage(rv0, 2) {
      FourIs();
      SecondStage(rv0, c, rv);
    }
  }

  /** X * 10^e, held 2^106 times too large. */
  ghost function Raised(X: real, e: int): real { Tenfold(X, e) * RPow(2, 106) }

  /** And the last entry. */
  method TimesLastTiny(rv0: Bits, nearest: real -> Bits, ghost X: real, ghost d: int) returns (rv: Bits)
    requires Rounds(nearest) && 0 <= d < 16 && RPow(10, -15) <= X <= RPow(10, 16)
    requires Near(DoubleValue(rv0), Tenfold(X, -16 * d), 32)
    ensures TinyProduct(rv, Raised(X, -16 * (d + 16)))
    ensures LowStage(rv0, 4) ==> LowStage(rv, 5)
  {
    hide Pow, RPow, DoubleValue, ReadsAs, Near, Tenfold, TinyProduct, Raised;
    var c := TinyTen(4, nearest);
    rv := Multiply(rv0, c, nearest);
    RaisedIs(X, -16 * d);
    NotLarge(X, -16 * (d + 16));
    TinyRounded(rv0, Tenfold(X, -16 * d), c, RPow(10, -256) * RPow(2, 106), rv, Raised(X, -16 * (d + 16)));
    if LowStage(rv0, 4) { ThirdStage(rv0, c, rv); }
  }

  lemma RaisedIs(X: real, e: int)
    ensures Raised(X, e - 256) == Tenfold(X, e) * (RPow(10, -256) * RPow(2, 106))
  {
    hide RPow;
    TenTwice(X, e, -256);
    RMulAssoc(Tenfold(X, e), RPow(10, -256), RPow(2, 106));
  }

  lemma NotLarge(X: real, e: int)
    requires e <= -16 && RPow(10, -15) <= X <= RPow(10, 16)
    ensures Raised(X, e) <= RPow(2, 1000)
  {
    hide RPow;
    RPowPos(10, e);
    RPowPos(2, 106);
    RPowAdd(10, 16, e);
    RPowMono(10, 16 + e, 0);
    RPowZero(10);
    RMulMono(RPow(10, e), X, RPow(10, 16));
    RMulMono(RPow(2, 106), Tenfold(X, e), 1.0);
    RPowMono(2, 106, 1000);
  }

  /** Where the loop stands: the index follows from what is left. */
  lemma TinyIndex(j: nat, e: nat, d: nat, e0: nat)
    requires j <= 5 && e > 0 && d < Pow(2, j) && d + e * Pow(2, j) == e0 < 32
    ensures j <= 4 && (j == 4 ==> e == 1 && e0 == d + 16)
    ensures e0 == 20 ==> (e % 2 == 1 <==> j == 2 || j == 4)
  {
    hide Pow;
    if j == 5 {
      SmallTwos(4);
      PowStep(2, 4);
      MulMono(Pow(2, 5), 1, e);
      MulComm(Pow(2, 5), e);
    } else {
      SmallTwos(j);
    }
  }

  /** The loop over tinytens. */
  method TinyTens(rv0: Bits, e0: nat, nearest: real -> Bits, ghost X: real) returns (rv: Bits)
    requires Rounds(nearest) && 1 <= e0 < 32 && Near(DoubleValue(rv0), X, 4) && RPow(10, -15) <= X <= RPow(10, 16)
    ensures e0 < 16 ==> Near(DoubleValue(rv), Tenfold(X, -16 * (e0 as int)), 32)
    ensures e0 >= 16 ==> TinyProduct(rv, Raised(X, -16 * (e0 as int)))
    ensures e0 == 20 && LowStage(rv0, 0) ==> LowStage(rv, 5)
  {
    hide Pow, RPow, DoubleValue, ReadsAs, Near, Tenfold, TinyProduct, LowStage, Raised;
    var j, e := 0, e0;
    ghost var p: int, d: int := 1, 0;
    rv := rv0;
    PowUnit(2);
    NoTens(X);
    while e > 0
      invariant p == Pow(2, j) && 0 <= d < p && d + e * p == e0 && j <= 5 && e >= 0
      invariant j <= 4 ==> Near(DoubleValue(rv), Tenfold(X, -16 * d), 4 + 7 * j)
      invariant j == 5 ==> e == 0 && e0 >= 16 && TinyProduct(rv, Raised(X, -16 * (e0 as int)))
      invariant e0 == 20 && LowStage(rv0, 0) ==> LowStage(rv, j)
    {
      HalveExponent(e, p);
      PowStep(2, j);
      TinyIndex(j, e, d, e0);
      if e % 2 == 1 {
        if j < 4 {
          rv := TimesTiny(rv, j, nearest, X, d);
        } else {
          rv := TimesLastTiny(rv, nearest, X, d);
        }
        d := d + p;
      } else {
        NearMore(DoubleValue(rv), Tenfold(X, -16 * d), 4 + 7 * j, 4 + 7 * (j + 1));
        if e0 == 20 { SameStage(rv, j); }
      }
      j, e, p := j + 1, e / 2, 2 * p;
    }
    if j <= 4 { SmallTwos(j); }
    if j <= 4 { NearMore(DoubleValue(rv), Tenfold(X, -16 * d), 4 + 7 * j, 32); }
  }

  // ----- clearing the bits below the true last place -----

  lemma SameFieldLess(n: Bits, k: nat)
    requires 0 < ExpField(n) < 2047 && k <= Fraction(n)
    ensures ExpField(n - k) == ExpField(n) && Mantissa(n - k) == Mantissa(n) - k
    ensures DoubleValue(n) - DoubleValue(n - k) == (k as real) * RPow(2, ExpField(n) - 1075)
  {
    hide RPow, DoubleValue;
    Fields(n);
    DivModUnique(n - k, HIDDEN, ExpField(n), Fraction(n) - k);
    ValueInGaps(n);
    ValueInGaps(n - k);
    RPowSucc(2, ExpField(n) - 1076);
    LessUnits(Mantissa(n), k, Mantissa(n - k), RPow(2, ExpField(n) - 1076), RPow(2, ExpField(n) - 1075),
        DoubleValue(n), DoubleValue(n - k));
  }

  lemma LessUnits(M: nat, k: nat, M1: nat, g: real, u: real, d: real, d1: real)
    requires u == 2.0 * g && M1 == M - k && d == ((2 * M) as real) * g && d1 == ((2 * M1) as real) * g
    ensures d - d1 == (k as real) * u
  {
    HalfTwice(M as real, (2 * M) as real, g, u);
    HalfTwice(M1 as real, (2 * M1) as real, g, u);
    Minus(M as real, k as real, u);
  }

  /** The low j bits cleared: the number is whole in its true last place and less than a unit of it smaller. */
  lemma ClearedLow(n: Bits, j: nat)
    requires 1 <= j <= 52 && ExpField(n) == 107 - j
    ensures Pow(2, j) > 0
    ensures var m := n - n % Pow(2, j);
            && 0 < m < INFINITY && ExpField(m) == ExpField(n) && Held(m, SCALE)
            && Dist(DoubleValue(m), DoubleValue(n)) <= RPow(2, -968)
  {
    hide Pow, RPow, DoubleValue;
    PowPos(2, j);
    Fields(n);
    HiddenWhole(j);
    var p := Pow(2, j);
    LowOfSum(n, ExpField(n), Fraction(n), p, Pow(2, 52 - j));
    var k := n % p;
    SameFieldLess(n, k);
    Fields(n - k);
    NatRPow(2, j);
    RPowAdd(2, j, ExpField(n) - 1075);
    RPowPos(2, ExpField(n) - 1075);
    RMulMono(RPow(2, ExpField(n) - 1075), k as real, p as real);
    RMulMono(RPow(2, ExpField(n) - 1075), 0.0, k as real);
  }

  /** n mod p comes from the fraction alone, and the significand less it is a multiple of p. */
  lemma LowOfSum(n: nat, f: nat, r: nat, p: nat, q: nat)
    requires p > 0 && HIDDEN == q * p && n == f * HIDDEN + r && 0 <= r < HIDDEN
    ensures n % p == r % p <= r && (r + HIDDEN - r % p) % p == 0
  {
    var a, b := r / p, r % p;
    assert r == a * p + b;
    MulNonNeg(a, p);
    MulAssoc(f, q, p);
    assert n == (f * q + a) * p + b by { assert (f * q + a) * p == (f * q) * p + a * p; }
    DivModUnique(n, p, f * q + a, b);
    assert r + HIDDEN - b == (a + q) * p;
    DivModUnique(r + HIDDEN - b, p, a + q, 0);
  }

  lemma OneUnitHeld(n: Bits)
    requires 53 <= ExpField(n) <= 54
    ensures Held(55 * HIDDEN, SCALE) && ExpField(55 * HIDDEN) == 55
    ensures Dist(DoubleValue(55 * HIDDEN), DoubleValue(n)) <= RPow(2, -968)
  {
    hide RPow, DoubleValue;
    BinadeValue(55);
    HiddenPower();
    DivModUnique(HIDDEN, Pow(2, 52), 1, 0);
    NonNegative(n);
    Fields(n);
    Ordered(n, 55 * HIDDEN);
  }

  lemma ProductFields(n: Bits, w0: Word, w1: Word)
    requires n < INFINITY && w0 == n / BASE && w1 == n % BASE
    ensures n == w0 * BASE + w1 && w0 < 0x7ff0_0000 && ExpField(n) == w0 / EXP_MSK1
  {
    JoinFields(w0, w1);
  }

  lemma ClearHigh(w0: Word, w1: Word, n: Bits, j: nat)
    requires n == w0 * BASE + w1 && 32 <= j <= 52
    ensures Pow(2, j) > 0 && Pow(2, j - 32) > 0 && (w0 - w0 % Pow(2, j - 32)) * BASE == n - n % Pow(2, j)
  {
    hide Pow;
    PowPos(2, j);
    PowPos(2, j - 32);
    PowAdd(2, 32, j - 32);
    Pow32();
    var p, q, r := Pow(2, j - 32), w0 / Pow(2, j - 32), w0 % Pow(2, j - 32);
    assert w0 == q * p + r;
    assert (q * p) * BASE == q * (BASE * p) by { MulAssoc(q, p, BASE); MulComm(p, BASE); }
    MulMono(BASE, r, p - 1);
    MulComm(BASE, p - 1);
    DivModUnique(n, BASE * p, q, r * BASE + w1);
  }

  lemma ClearWord(w0: Word, w1: Word, n: Bits, j: nat)
    requires n == w0 * BASE + w1 && 1 <= j < 32
    ensures Pow(2, j) > 0 && w1 % Pow(2, j) == n % Pow(2, j) <= w1
  {
    hide Pow;
    PowPos(2, j);
    Pow32Split(j);
    MulComm(Pow(2, j), Pow(2, 32 - j));
    WordPart(n, w0, w1, Pow(2, j), Pow(2, 32 - j));
  }

  lemma WordPart(n: nat, w0: nat, w1: nat, p: nat, q: nat)
    requires p > 0 && BASE == q * p && n == w0 * BASE + w1
    ensures w1 % p == n % p <= w1
  {
    var a, b := w1 / p, w1 % p;
    assert w1 == a * p + b;
    MulNonNeg(a, p);
    MulAssoc(w0, q, p);
    assert n == (w0 * q + a) * p + b;
    DivModUnique(n, p, w0 * q + a, b);
  }

  lemma VanishedProduct(X: real, Y: real)
    requires Y == X * RPow(2, 106) && Y <= 0.9 * RPow(2, -969)
    ensures X <= 0.9 * RPow(2, -1075)
  {
    hide RPow;
    RPowAdd(2, -1075, 106);
    RPowPos(2, 106);
    Against(RPow(2, 106), X, 0.9 * RPow(2, -1075), Y, 0.9 * RPow(2, -969));
  }

  lemma WholeAlready(n: Bits)
    requires 107 <= ExpField(n) <= 2040
    ensures Held(n, SCALE) && Dist(DoubleValue(n), DoubleValue(n)) <= RPow(2, -968)
  {
    hide RPow, DoubleValue;
    Fields(n);
    PowUnit(2);
    RPowPos(2, -968);
  }

  lemma FieldLow(n: Bits, Y: real)
    requires Near(DoubleValue(n), Y, 40) && Y <= RPow(2, 1000)
    ensures ExpField(n) <= 2040
  {
    hide RPow, DoubleValue, Near;
    NearEnough(DoubleValue(n), Y, 40);
    BinadeValue(2040);
    RPowMono(2, 1001, 1017);
    RPowSucc(2, 1000);
    Fields(n);
    if ExpField(n) > 2040 { Ordered(2040 * HIDDEN, n); }
  }

  lemma ClearedNear(n: Bits, m: Bits, X: real, Y: real)
    requires Held(m, SCALE) && Near(DoubleValue(n), Y, 40) && Y == X * RPow(2, 106)
    requires Dist(DoubleValue(m), DoubleValue(n)) <= RPow(2, -968)
    ensures Dist(DoubleValue(Unscaled(m, SCALE)), X) <= RPow(2, -1074) + X * Share(40)
  {
    hide Pow, RPow, DoubleValue, Unscaled, Held, Share;
    HeldValue(m, SCALE);
    RPowAdd(2, -1074, 106);
    RPowPos(2, 106);
    UnscaledNear(DoubleValue(m), DoubleValue(n), DoubleValue(Unscaled(m, SCALE)), X, Y, RPow(2, 106), RPow(2, -1074),
        RPow(2, -968), Share(40));
  }

  lemma UnscaledNear(dm: real, dn: real, um: real, X: real, Y: real, p: real, u: real, up: real, e: real)
    requires p > 0.0 && dm == um * p && Y == X * p && up == u * p && Dist(dm, dn) <= up
             && Bounded(dn, Y, 1.0 - e, 1.0 + e)
    ensures Dist(um, X) <= u + X * e
  {
    var z, off := Y * e, X * e;
    assert Y * (1.0 - e) == Y - z && Y * (1.0 + e) == Y + z;
    assert z == off * p;
    var most := u + off;
    assert most * p == up + z;
    assert (um - X) * p == dm - Y && (X - um) * p == Y - dm;
    RCancelRight(p, um - X, most);
    RCancelRight(p, X - um, most);
  }

  /**
   The bits below the true last place of a scaled number are cleared; the smallest double is the least that is
   left.
   */
  method ClearWords(n: Bits) returns (m: Bits)
    requires n < INFINITY && 53 <= ExpField(n) <= 2040
    ensures Held(m, SCALE) && Dist(DoubleValue(m), DoubleValue(n)) <= RPow(2, -968) && (ExpField(m) >= 107 ==> m == n)
  {
    hide Pow, RPow, DoubleValue, Held;
    SplitWords(n);
    var w0, w1 := n / BASE, n % BASE;
    ProductFields(n, w0, w1);
    var j := 2 * 53 + 1 - w0 / EXP_MSK1;
    if j > 0 {
      if j >= 32 {
        if j >= 53 {
          OneUnitHeld(n);
          w0 := (53 + 2) * EXP_MSK1;
        } else {
          ClearedLow(n, j);
          ClearHigh(w0, w1, n, j);
          w0 := w0 - w0 % Pow(2, j - 32);
        }
        w1 := 0;
      } else {
        ClearedLow(n, j);
        ClearWord(w0, w1, n, j);
        w1 := w1 - w1 % Pow(2, j);
      }
    } else {
      WholeAlready(n);
    }
    m := w0 * BASE + w1;
  }

  /** From the product to what the loop can start from. */
  method ClearLow(n: Bits, ghost X: real, ghost Y: real) returns (s: Start)
    requires TinyProduct(n, Y) && Y == X * RPow(2, 106) && 0.0 < X <= RPow(2, -720) && Y <= RPow(2, 1000)
    requires ExpField(n) >= 107 ==> X >= RPow(2, -1022)
    ensures Approximates(s, X) && !s.Done?
  {
    hide Pow, RPow, DoubleValue, Near, Unscaled, Held;
    if n / HIDDEN < 53 {
      VanishedProduct(X, Y);
      return TooSmall;
    }
    FieldLow(n, Y);
    var m := ClearWords(n);
    ClearedNear(n, m, X, Y);
    s := Guess(m, SCALE);
  }

  // ----- negative exponents -----

  /** rv / tens[i]. */
  method OverTens(rv0: Bits, i: nat, nearest: real -> Bits, ghost H: real) returns (rv: Bits)
    requires Rounds(nearest) && i <= 15 && Headed(H) && Near(DoubleValue(rv0), H, 1)
    ensures Near(DoubleValue(rv), Tenfold(H, 0 - i), 4)
    ensures DoubleValue(rv0) <= 2225073858507.201 * RPow(10, i) ==> LowStage(rv, 0)
  {
    hide Pow, RPow, DoubleValue, ReadsAs, Near, Tenfold;
    RPowPos(10, i);
    RPowPos(10, 0 - i);
    RPowInverse(10, i);
    var c := nearest(RPow(10, i));
    assert ReadsAs(RPow(10, i), c);
    TenExact(i, c);
    NonNegative(rv0);
    QuotientIs(DoubleValue(rv0), DoubleValue(c), RPow(10, 0 - i));
    var x := DoubleValue(rv0) / DoubleValue(c);
    rv := nearest(x);
    assert ReadsAs(x, rv);
    NearSelf(RPow(10, 0 - i));
    TimesTenIs(H, 0 - i);
    NearTimes(DoubleValue(rv0), H, 1, RPow(10, 0 - i), RPow(10, 0 - i), 0, x, Tenfold(H, 0 - i));
    TimesTenRange(H, 0, 16, 0 - i);
    NearRounded(x, Tenfold(H, 0 - i), 2, rv);
    NearMore(DoubleValue(rv), Tenfold(H, 0 - i), 3, 4);
    if DoubleValue(rv0) <= 2225073858507.201 * RPow(10, i) {
      QuotientBelow(DoubleValue(rv0), DoubleValue(c), x, 2225073858507.201);
      FirstStage(x, rv);
    }
  }

  lemma ShrunkRange(H: real, i: nat)
    requires Headed(H) && i <= 15
    ensures RPow(10, -15) <= Tenfold(H, 0 - i) <= RPow(10, 16)
  {
    hide RPow;
    RPowPos(10, 0 - i);
    RMulMono(RPow(10, 0 - i), RPow(10, 0), H);
    RMulMono(RPow(10, 0 - i), H, RPow(10, 16));
    RPowAdd(10, 0, 0 - i);
    RPowAdd(10, 16, 0 - i);
    RPowMono(10, -15, 0 - i);
    RPowMono(10, 16 - i, 16);
  }

  lemma MinusculeNumber(H: real, e1: nat)
    requires Headed(H) && e1 >= 512
    ensures Tenfold(H, 0 - e1) <= RPow(2, -1076)
  {
    hide RPow;
    RPowPos(10, 0 - e1);
    RMulMono(RPow(10, 0 - e1), H, RPow(10, 16));
    RPowAdd(10, 16, 0 - e1);
    RPowMono(10, 16 - e1, -490);
    TenTo490();
  }

  /** Can a number below the smallest normal one be approximated by a normal one? The head would be one of three. */
  lemma EdgeHead(H: nat, e1: nat, rv: Bits, Z: real, Y: real)
    requires 0 < H < 10_000_000_000_000_000 && Z == Tenfold(H as real, 0 - e1) && Y == Z * RPow(2, 106)
    requires TinyProduct(rv, Y) && ExpField(rv) >= 107 && Z < RPow(2, -1022)
    ensures 321 <= e1 <= 323 && H * Pow(10, 323 - e1) <= 2225073858507201
  {
    hide Pow, RPow, DoubleValue, Tenfold;
    BinadeValue(107);
    Fields(rv);
    Ordered(107 * HIDDEN, rv);
    RPowAdd(2, -1022, 106);
    RPowPos(2, 106);
    EdgeReal(DoubleValue(rv), Y, Z, RPow(2, 106), RPow(2, -1022), RPow(2, -916), Share(40));
    HeadsBelow(H, e1);
  }

  lemma EdgeReal(d: real, Y: real, Z: real, p: real, s: real, sp: real, e: real)
    requires p > 0.0 && Y == Z * p && sp == s * p && d >= sp && 0.0 <= e <= 0.0000000000000356 && Y > 0.0
    requires Bounded(d, Y, 1.0 - e, 1.0 + e)
    ensures 0.99999999999996 * s <= Z
  {
    RMulMono(Y, 1.0 + e, 1.0000000000000356);
    assert Y * (1.0 + e) <= 1.0000000000000356 * Y;
    Against(p, 0.99999999999996 * s, Z, 0.99999999999996 * sp, Y);
  }

  /** No: on those the product comes out below it. */
  lemma EdgeSafe(H: nat, e1: nat, rv0: Bits, rv1: Bits, rv: Bits, Z: real, Y: real)
    requires 0 < H < 10_000_000_000_000_000 && Z == Tenfold(H as real, 0 - e1) && Y == Z * RPow(2, 106)
    requires TinyProduct(rv, Y) && (H < 2 * HIDDEN ==> DoubleValue(rv0) == H as real)
    requires e1 % 16 != 0 && DoubleValue(rv0) <= 2225073858507.201 * RPow(10, e1 % 16) ==> LowStage(rv1, 0)
    requires e1 / 16 == 20 && LowStage(rv1, 0) ==> LowStage(rv, 5)
    ensures ExpField(rv) >= 107 ==> Z >= RPow(2, -1022)
  {
    hide Pow, RPow, DoubleValue, Tenfold, TinyProduct;
    if ExpField(rv) >= 107 && Z < RPow(2, -1022) {
      EdgeHead(H, e1, rv, Z, Y);
      EdgeQuotient(H, e1);
      NotLow(rv);
    }
  }

  /** Which numbers are scaled. */
  lemma ScaleBounds(H: nat, e1: nat)
    requires 0 < H < 10_000_000_000_000_000
    ensures e1 < 256 ==> Tenfold(H as real, 0 - e1) >= RPow(2, -900)
    ensures e1 >= 256 ==> Tenfold(H as real, 0 - e1) <= RPow(2, -720)
  {
    hide Pow, RPow;
    HeadIsHeaded(H);
    var h := H as real;
    RPowPos(10, 0 - e1);
    RPowZero(10);
    if e1 < 256 {
      RMulMono(RPow(10, 0 - e1), 1.0, h);
      RPowMono(10, -270, 0 - e1);
      TenTo270();
    } else {
      RMulMono(RPow(10, 0 - e1), h, RPow(10, 16));
      RPowAdd(10, 16, 0 - e1);
      RPowMono(10, 16 - e1, -240);
      TenTo240();
    }
  }

  lemma RaisedProduct(H: nat, i: nat, e: nat, e1: nat)
    requires H > 0 && e1 == i + 16 * e
    ensures var X, Z := Tenfold(H as real, 0 - i), Tenfold(H as real, 0 - e1);
            && Tenfold(X, -16 * (e as int)) == Z && Z > 0.0
            && Raised(X, -16 * (e as int)) == Z * RPow(2, 106)
  {
    hide RPow;
    TenNested(H as real, 0 - i, -16 * (e as int));
    RPowPos(10, 0 - e1);
    Positive(H as real, RPow(10, 0 - e1));
  }

  /** rv * 10^-e1 for e1 > 0; H is the head as an integer. */
  method Shrink(rv0: Bits, e1: nat, nearest: real -> Bits, ghost H: nat) returns (s: Start)
    requires Rounds(nearest) && e1 > 0 && 0 < H < 10_000_000_000_000_000
    requires Near(DoubleValue(rv0), H as real, 1) && (H < 2 * HIDDEN ==> DoubleValue(rv0) == H as real)
    ensures Approximates(s, Tenfold(H as real, 0 - e1)) && !s.Done?
  {
    hide Pow, RPow, DoubleValue, ReadsAs, Near, Tenfold, Raised, TinyProduct, LowStage, Headed;
    var rv := rv0;
    var i, e := e1 % 16, e1 / 16;
    HeadIsHeaded(H);
    ghost var h, X, Z := H as real, Tenfold(H as real, 0 - i), Tenfold(H as real, 0 - e1);
    if i != 0 {
      rv := OverTens(rv0, i, nearest, h);
    } else {
      NoTens(h);
      NearMore(DoubleValue(rv), h, 1, 4);
    }
    ShrunkRange(h, i);
    RaisedProduct(H, i, e, e1);
    ScaleBounds(H, e1);
    if e == 0 {
      TimesTenRange(X, -15, 16, 0);
      NearMore(DoubleValue(rv), Z, 4, 32);
      NearNormal(rv, Z);
      return Guess(rv, 0);
    }
    if e >= 32 {
      MinusculeNumber(h, e1);
      RPowSucc(2, -1076);
      RPowPos(2, -1076);
      return TooSmall;
    }
    ghost var rv1 := rv;
    rv := TinyTens(rv, e, nearest, X);
    if e / 16 % 2 == 0 {
      TimesTenRange(X, -15, 16, -16 * (e as int));
      NearNormal(rv, Z);
      return Guess(rv, 0);
    }
    NotLarge(X, -16 * (e as int));
    EdgeSafe(H, e1, rv0, rv1, rv, Z, Raised(X, -16 * (e as int)));
    s := ClearLow(rv, Z, Raised(X, -16 * (e as int)));
  }
}
