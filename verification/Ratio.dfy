/** b2d and ratio: the quotient of two big integers as a double. */
module Ratios {
  import opened Arith
  import opened Rational
  import opened Words
  import opened Bignum
  import opened Division
  import opened Ieee
  import opened DoubleBits
  import opened ShortestDigits
  import opened ScaledDoubles
  import opened Refinement

  // ----- the leading bits -----

  lemma {:induction false} OrAbove(a: nat, b: nat, c: nat, k: nat)
    requires c < Pow(2, k)
    ensures Or(a * Pow(2, k), b * Pow(2, k) + c) == Or(a, b) * Pow(2, k) + c
    decreases k
  {
    hide Or, Pow;
    if k == 0 {
      PowUnit(2);
    } else {
      PowStep(2, k - 1);
      var p, r := Pow(2, k - 1), Or(a, b);
      Rotate(a, 2, p);
      Rotate(b, 2, p);
      Rotate(r, 2, p);
      HalfLess(c, p);
      OrAbove(a, b, c / 2, k - 1);
      OrDouble(a * p, b * p, c);
    }
  }

  lemma HalfLess(c: nat, p: nat)
    requires c < 2 * p
    ensures c / 2 < p && c == 2 * (c / 2) + c % 2
  {
  }

  lemma OrDouble(A: nat, B: nat, c: nat)
    ensures Or(2 * A, 2 * B + c) == 2 * Or(A, B + c / 2) + c % 2
  {
    var n := 2 * B + c;
    DivModUnique(n, 2, B + c / 2, c % 2);
    DivModUnique(2 * A, 2, A, 0);
    if A == 0 && n == 0 { OrZero(0); }
    if A == 0 { ZeroOr(B + c / 2); ZeroOr(n); }
    if n == 0 { OrZero(A); OrZero(2 * A); }
  }

  lemma {:induction false} ZeroOr(b: nat)
    ensures Or(0, b) == b
  {
    if b != 0 { ZeroOr(b / 2); }
  }

  /** Exp_1 | v where v has its bit 20 set: the exponent of 1 and the bits of v below. */
  lemma ExponentOne(v: nat)
    requires EXP_MSK1 <= v < 2 * EXP_MSK1
    ensures Or(0x3ff0_0000, v) == 0x3fe0_0000 + v
  {
    TwentyPower();
    hide Pow;
    OrAbove(0x3ff, 1, v - EXP_MSK1, 20);
    OrZero(0x1ff);
    assert Or(0x3ff, 1) == 2 * Or(0x1ff, 0) + 1;
  }

  /** The i-th word from the top, zero past the last. */
  function WordAt(s: seq<Word>, i: nat): Word { if i < |s| then s[|s| - 1 - i] else 0 }

  /** The top three words as one number. */
  function TopThree(s: seq<Word>): nat {
    (WordAt(s, 0) * BASE + WordAt(s, 1)) * BASE + WordAt(s, 2)
  }

  /** They give the number up to a unit of the third. */
  lemma TopThreeBounds(s: seq<Word>)
    requires s != []
    ensures TopThree(s) * Pow(BASE, |s|) <= Value(s) * Pow(BASE, 3) < (TopThree(s) + 1) * Pow(BASE, |s|)
  {
    hide Pow, Value, TopThree;
    if |s| >= 3 { TopOfMany(s); } else { TopOfFew(s); }
  }

  lemma CubeBase()
    ensures Pow(BASE, 1) == BASE && Pow(BASE, 2) == 0x1_0000_0000_0000_0000
    ensures Pow(BASE, 3) == 0x1_0000_0000_0000_0000_0000_0000
  {
    PowUnit(BASE);
    PowStep(BASE, 1);
    PowStep(BASE, 2);
  }

  lemma TopOfFew(s: seq<Word>)
    requires 1 <= |s| <= 2
    ensures TopThree(s) * Pow(BASE, |s|) <= Value(s) * Pow(BASE, 3) < (TopThree(s) + 1) * Pow(BASE, |s|)
  {
    hide Pow, Value;
    CubeBase();
    PowUnit(BASE);
    ValueNil();
    assert s[..|s|] == s && s[..0] == [];
    ValueSnoc(s, 0);
    if |s| == 2 { ValueSnoc(s, 1); }
  }

  lemma TopOfMany(s: seq<Word>)
    requires |s| >= 3
    ensures TopThree(s) * Pow(BASE, |s|) <= Value(s) * Pow(BASE, 3) < (TopThree(s) + 1) * Pow(BASE, |s|)
  {
    hide Pow, Value;
    var L := |s|;
    assert s[..L] == s;
    ValueSnoc(s, L - 1);
    ValueSnoc(s, L - 2);
    ValueSnoc(s, L - 3);
    ValueBound(s[..L - 3]);
    PowStep(BASE, L - 3);
    PowStep(BASE, L - 2);
    PowAdd(BASE, L - 3, 3);
    PowPos(BASE, L - 3);
    CubeBase();
    ThreeWords(s[L - 1], s[L - 2], s[L - 3], Pow(BASE, L - 3), Pow(BASE, L - 2), Pow(BASE, L - 1), Value(s[..L - 3]),
        Value(s));
    TimesCube(TopThree(s), Value(s), Pow(BASE, L - 3), Pow(BASE, 3), Pow(BASE, L));
  }

  lemma ThreeWords(x: nat, y: nat, z: nat, p: nat, p1: nat, p2: nat, low: nat, v: nat)
    requires p1 == BASE * p && p2 == BASE * p1 && low < p && v == low + z * p + y * p1 + x * p2
    ensures v == low + ((x * BASE + y) * BASE + z) * p
  {
    assert y * p1 == (y * BASE) * p by { MulAssoc(y, BASE, p); }
    assert x * p2 == (x * BASE * BASE) * p by { MulAssoc(x, BASE, BASE * p); MulAssoc(x * BASE, BASE, p); }
    assert ((x * BASE + y) * BASE + z) * p == (x * BASE * BASE) * p + (y * BASE) * p + z * p;
  }

  lemma TimesCube(t: nat, v: nat, p: nat, c: nat, pc: nat)
    requires pc == p * c && c > 0 && p > 0 && t * p <= v < t * p + p
    ensures t * pc <= v * c < (t + 1) * pc
  {
    MulAssoc(t, p, c);
    MulAssoc(t + 1, p, c);
    assert (t + 1) * p == t * p + p;
    MulMono(c, t * p, v);
    MulMono(c, v + 1, (t + 1) * p);
    MulComm(c, t * p); MulComm(c, v); MulComm(c, v + 1); MulComm(c, (t + 1) * p);
  }

  /** H and d1 are the top 53 bits of the three words, which stand above the bit of weight c. */
  ghost predicate Leading(H: nat, d1: Word, T: nat, c: nat) {
    EXP_MSK1 <= H < 2 * EXP_MSK1 && (H * BASE + d1) * c <= T < (H * BASE + d1 + 1) * c
  }

  /** Two words over p, where p * q is the base. */
  lemma TwoOver(y: Word, w: Word, p: nat, q: nat)
    requires p > 0 && p * q == BASE
    ensures y * BASE + w == (y / p * BASE + y % p * q + w / p) * p + w % p
  {
    var h, r := y / p, y % p;
    assert y == h * p + r;
    assert y * BASE == (h * BASE) * p + (r * q) * p by {
      MulAssoc(h, p, BASE); MulAssoc(h, BASE, p); MulComm(p, BASE);
      MulAssoc(r, q, p); MulComm(q, p);
      assert (h * p + r) * BASE == (h * p) * BASE + r * BASE;
    }
    assert (h * BASE + r * q + w / p) * p == (h * BASE) * p + (r * q) * p + w / p * p;
  }

  /** k leading zero bits, as Hi0bits counts them. */
  ghost predicate ZeroBits(y: Word, k: nat) { k < 32 && 0x8000_0000 <= y * Pow(2, k) < BASE }

  lemma Split32(k: nat, y: nat)
    requires k <= 11
    ensures Pow(2, 31 - k) == EXP_MSK1 * Pow(2, 11 - k) && Pow(2, k) * Pow(2, 31 - k) == 0x8000_0000
    ensures Pow(2, 11 - k) > 0 && Pow(2, k) > 0
  {
    hide Pow;
    PowPos(2, k);
    PowPos(2, 11 - k);
    PowAdd(2, 20, 11 - k);
    TwentyPower();
    PowAdd(2, k, 31 - k);
    PowStep(2, 31);
    Pow32();
  }

  /** Fewer than 11 leading zeros: two words are enough. */
  lemma LeadLow(y: Word, z: Word, w: Word, k: nat)
    requires k < 11 && ZeroBits(y, k)
    ensures var H, d1 := Shr(y, 11 - k), Or(Shl(y, 21 + k), Shr(z, 11 - k));
            d1 < BASE && Leading(H, d1, (y * BASE + z) * BASE + w, Pow(2, 43 - k))
  {
    hide Pow, Or;
    var p, q := Pow(2, 11 - k), Pow(2, 21 + k);
    Split32(k, y);
    Pow32Split(11 - k);
    ShlSplit(z, 21 + k);
    ShlSplit(y, 21 + k);
    OrShl(y, Shr(z, 11 - k), 21 + k);
    PowAdd(2, 11 - k, 32);
    Pow32();
    LeadRange(y, Pow(2, k), p, Pow(2, 31 - k));
    TwoOver(y, z, p, q);
    LeadTwo(y / p * BASE + y % p * q + z / p, y * BASE + z, z % p, p, w);
  }

  lemma LeadRange(y: Word, a: nat, p: nat, h: nat)
    requires p > 0 && a > 0 && h == EXP_MSK1 * p && a * h == 0x8000_0000 && 0x8000_0000 <= y * a < BASE
    ensures EXP_MSK1 <= y / p < 2 * EXP_MSK1
  {
    MulComm(a, h);
    MulComm(a, y);
    MulCancel(a, h, y);
    assert a * (2 * h) == BASE;
    MulCancel(a, y, 2 * h);
    var q, r := y / p, y % p;
    assert y == q * p + r;
    if q < EXP_MSK1 { MulMono(p, q + 1, EXP_MSK1); MulComm(p, q + 1); }
    if q >= 2 * EXP_MSK1 { MulMono(p, 2 * EXP_MSK1, q); MulComm(p, q); }
  }

  lemma LeadTwo(F: nat, v: nat, r: nat, p: nat, w: Word)
    requires p > 0 && r < p && v == F * p + r
    ensures F * (p * BASE) <= v * BASE + w < (F + 1) * (p * BASE)
  {
    MulAssoc(F, p, BASE);
    MulAssoc(F + 1, p, BASE);
    assert (F + 1) * p == F * p + p;
  }

  /** More than 11: three words. */
  lemma LeadHigh(y: Word, z: Word, w: Word, k: nat)
    requires 0 < k <= 20 && ZeroBits(y, 11 + k)
    ensures var d0, d1 := Or(Or(0x3ff0_0000, Shl(y, k)), Shr(z, 32 - k)), Or(Shl(z, k), Shr(w, 32 - k));
            && 0x3fe0_0000 <= d0 < BASE && d1 < BASE
            && Leading(d0 - 0x3fe0_0000, d1, (y * BASE + z) * BASE + w, Pow(2, 32 - k))
  {
    hide Pow, Or, Shl, ZeroBits;
    var p, q := Pow(2, 32 - k), Pow(2, k);
    PowPos(2, 32 - k);
    Pow32Split(k);
    ShlSplit(z, k);
    ShlSplit(w, k);
    OrShl(z, Shr(w, 32 - k), k);
    TopBits(y, k);
    HighWord(y, Shr(z, 32 - k), k);
    TwoOver(z, w, p, q);
    LeadThree(y, z, w, p, q, z / p, z % p * q + w / p);
  }

  lemma HighWord(y: Word, a: Word, k: nat)
    requires 0 < k <= 20 && a < Pow(2, k) && EXP_MSK1 <= y * Pow(2, k) < 2 * EXP_MSK1
    ensures Or(Or(0x3ff0_0000, y * Pow(2, k)), a) == 0x3fe0_0000 + y * Pow(2, k) + a
  {
    hide Pow, Or;
    ExponentOne(y * Pow(2, k));
    var h := 0x3fe * Pow(2, 20 - k) + y;
    assert h * Pow(2, k) == 0x3fe0_0000 + y * Pow(2, k) by {
      TwentyTimes(k);
      Distribute(0x3fe * Pow(2, 20 - k), y, Pow(2, k));
    }
    OrDisjoint(h, a, k);
  }

  lemma Distribute(a: int, b: int, q: int)
    ensures (a + b) * q == a * q + b * q
  {
  }

  lemma TwentyTimes(k: nat)
    requires k <= 20
    ensures (0x3fe * Pow(2, 20 - k)) * Pow(2, k) == 0x3fe0_0000
  {
    hide Pow;
    PowAdd(2, 20 - k, k);
    TwentyPower();
    MulAssoc(0x3fe, Pow(2, 20 - k), Pow(2, k));
  }

  lemma TopBits(y: Word, k: nat)
    requires 0 < k <= 20 && ZeroBits(y, 11 + k)
    ensures EXP_MSK1 <= y * Pow(2, k) <= 2 * EXP_MSK1 - Pow(2, k) && Shl(y, k) == y * Pow(2, k)
  {
    hide Pow;
    PowAdd(2, k, 11);
    PowAdd(2, 21 - k, k);
    PowStep(2, 20);
    TwentyPower();
    PowPos(2, k);
    assert Pow(2, 11) == 2048 by { TwoTo11(); }
    MulAssoc(y, Pow(2, k), 2048);
    var v, q := y * Pow(2, k), Pow(2, k);
    assert v < 2 * EXP_MSK1;
    MulCancel(q, y, Pow(2, 21 - k));
    MulComm(q, y);
    MulComm(q, Pow(2, 21 - k));
    MulMono(q, y + 1, Pow(2, 21 - k));
    MulComm(q, y + 1);
    SmallMod(v);
  }

  lemma TwoTo11()
    ensures Pow(2, 11) == 2048
  {
    assert Pow(2, 5) == 32;
    PowAdd(2, 5, 6);
  }

  lemma LeadThree(y: Word, z: Word, w: Word, p: nat, q: nat, a: nat, b: nat)
    requires p > 0 && p * q == BASE && z * BASE + w == (a * BASE + b) * p + w % p
    ensures ((y * q + a) * BASE + b) * p <= (y * BASE + z) * BASE + w < ((y * q + a) * BASE + b + 1) * p
  {
    var F := (y * q + a) * BASE + b;
    assert (y * BASE) * BASE == (y * q * BASE) * p by {
      MulAssoc(y, p, q); MulComm(y, p); MulAssoc(p, y, q);
      MulComm(y * q, BASE); MulAssoc(BASE, y * q, p); MulComm(y * q, p); MulComm(p, y * q);
    }
    assert F * p == (y * q * BASE) * p + (a * BASE + b) * p;
    assert (F + 1) * p == F * p + p;
  }

  /** The double in [1, 2) that has the leading 53 of the bits of v. */
  ghost predicate Starts(d0: Word, d1: Word, bits: int, v: nat) {
    && d0 < 0x7ff0_0000 && d0 / EXP_MSK1 == 1023
    && var F, u := Mantissa(Join(d0, d1)), RPow(2, bits - 53); (F as real) * u <= v as real < (F as real + 1.0) * u
  }

  lemma StartsWith(H: nat, d1: Word, s: seq<Word>, k: nat)
    requires s != [] && k < 32 && Leading(H, d1, TopThree(s), Pow(2, 43 - k))
    ensures 0x3fe0_0000 + H < BASE && Starts(0x3fe0_0000 + H, d1, 32 * |s| - k, Value(s))
  {
    hide Pow, Value, RPow, TopThree;
    var d0, F, L := 0x3fe0_0000 + H, H * BASE + d1, |s|;
    DivModUnique(d0, EXP_MSK1, 1023, H - EXP_MSK1);
    JoinFields(d0, d1);
    TopThreeBounds(s);
    PowBase(L);
    PowBase(3);
    Lift(F, TopThree(s), Value(s), Pow(2, 43 - k), Pow(2, 32 * L), Pow(2, 96));
    NatRPow(2, 43 - k);
    NatRPow(2, 32 * L);
    NatRPow(2, 96);
    RPowAdd(2, 43 - k, 32 * L);
    RPowAdd(2, 32 * L - k - 53, 96);
    RPowPos(2, 96);
    LiftReal(F, Value(s), Pow(2, 43 - k), Pow(2, 32 * L), Pow(2, 96), RPow(2, 32 * L - k - 53));
  }

  lemma Lift(F: nat, T: nat, v: nat, c: nat, p: nat, q: nat)
    requires F * c <= T < (F + 1) * c && T * p <= v * q < (T + 1) * p
    ensures (F * c) * p <= v * q < ((F + 1) * c) * p
  {
    MulMono(p, F * c, T);
    MulMono(p, T + 1, (F + 1) * c);
    MulComm(p, F * c); MulComm(p, T); MulComm(p, T + 1); MulComm(p, (F + 1) * c);
  }

  lemma LiftReal(F: nat, v: nat, c: nat, p: nat, q: nat, u: real)
    requires (F * c) * p <= v * q < ((F + 1) * c) * p
    requires q > 0 && (c as real) * (p as real) == u * (q as real)
    ensures (F as real) * u <= v as real < (F as real + 1.0) * u
  {
    CastMul(F * c, p); CastMul(F, c); CastMul(v, q); CastMul((F + 1) * c, p); CastMul(F + 1, c);
    LiftSides(F as real, v as real, c as real, p as real, q as real, u);
  }

  lemma LiftSides(F: real, v: real, c: real, p: real, q: real, u: real)
    requires (F * c) * p <= v * q < ((F + 1.0) * c) * p && q > 0.0 && c * p == u * q
    ensures F * u <= v < (F + 1.0) * u
  {
    assert (F * c) * p == (F * u) * q by { RMulAssoc(F, c, p); RMulAssoc(F, u, q); }
    assert ((F + 1.0) * c) * p == ((F + 1.0) * u) * q by { RMulAssoc(F + 1.0, c, p); RMulAssoc(F + 1.0, u, q); }
    RCancelRight(q, F * u, v);
    RCancelRight(q, v, (F + 1.0) * u);
  }

  const EXP_1: Word := 0x3ff0_0000

  /** b2d: the number is d * 2^(32 * wds - (32 - e) - 1) with d in [1, 2), up to what does not fit 53 bits. */
  method B2d(a: Bigint) returns (d0: Word, d1: Word, e: int)
    requires a.Valid() && a.Val() > 0
    ensures 1 <= e <= 32 && Starts(d0, d1, 32 * (a.wds - 1) + e, a.Val())
  {
    hide Pow, Value, Bigint.Val, Or, Shl, Shr, Starts, TopThree;
    ghost var s := a.x[..a.wds];
    TopNonzero(a);
    var i := a.wds - 1;
    var y := a.x[i];
    var k := Hi0bits(y);
    e := 32 - k;
    var z: Word := if i > 0 then a.x[i - 1] else 0;
    ghost var w: Word, k0 := WordAt(s, 2), k;
    TopThreeIs(a, y, z, w);
    if k < 11 {
      LeadLow(y, z, w, k);
      ExponentOne(Shr(y, 11 - k));
      d0 := Or(EXP_1, Shr(y, 11 - k));
      d1 := Or(Shl(y, 21 + k), Shr(z, 11 - k));
    } else {
      k := k - 11;
      if k != 0 {
        var w1: Word := if i > 1 then a.x[i - 2] else 0;
        LeadHigh(y, z, w, k);
        d0 := Or(Or(EXP_1, Shl(y, k)), Shr(z, 32 - k));
        d1 := Or(Shl(z, k), Shr(w1, 32 - k));
      } else {
        LeadEven(y, z, w);
        ExponentOne(y);
        d0 := Or(EXP_1, y);
        d1 := z;
      }
    }
    StartsWith(d0 - 0x3fe0_0000, d1, s, k0);
    StartsVal(a, s, d0, d1, 32 * a.wds - k0);
  }

  lemma StartsVal(a: Bigint, s: seq<Word>, d0: Word, d1: Word, bits: int)
    requires a.Valid() && s == a.x[..a.wds] && Starts(d0, d1, bits, Value(s))
    ensures Starts(d0, d1, bits, a.Val())
  {
  }

  lemma TopNonzero(a: Bigint)
    requires a.Valid() && a.Val() > 0
    ensures a.wds >= 1 && a.x[a.wds - 1] > 0
  {
    hide Pow;
    ValueNil();
    if a.wds == 1 {
      ValueSnoc(a.x[..1], 0);
      assert a.x[..1][..0] == [] && a.x[..1][..1] == a.x[..1];
    }
  }

  lemma TopThreeIs(a: Bigint, y: Word, z: Word, w: Word)
    requires a.Valid() && a.wds >= 1
    requires y == a.x[a.wds - 1] && z == (if a.wds > 1 then a.x[a.wds - 2] else 0) && w == WordAt(a.x[..a.wds], 2)
    ensures TopThree(a.x[..a.wds]) == (y * BASE + z) * BASE + w && w == if a.wds > 2 then a.x[a.wds - 3] else 0
  {
  }

  /** Exactly 11: the words as they are. */
  lemma LeadEven(y: Word, z: Word, w: Word)
    requires ZeroBits(y, 11)
    ensures Leading(y, z, (y * BASE + z) * BASE + w, Pow(2, 32))
  {
    TwoTo11();
    Pow32();
  }

  // ----- the quotient -----

  /** q is a / b up to 2^-48 of it. */
  ghost predicate NearRatio(q: real, a: nat, b: nat) {
    -(a as real) <= 281474976710656.0 * (q * b as real - a as real) <= a as real
  }

  /** A double in [1, 2) moved by k binades. */
  lemma StartsValue(d0: Word, d1: Word, k: nat)
    requires d0 < 0x7ff0_0000 && d0 / EXP_MSK1 == 1023 && k <= 56
    ensures var e0, F := d0 + k * EXP_MSK1, Mantissa(Join(d0, d1));
            && e0 < 0x7ff0_0000 && HIDDEN <= F < 2 * HIDDEN
            && DoubleValue(Join(e0, d1)) == (F as real) * RPow(2, k - 52)
  {
    hide RPow, DoubleValue;
    var e0 := d0 + k * EXP_MSK1;
    JoinFields(d0, d1);
    Fields(Join(d0, d1));
    DivModUnique(e0, EXP_MSK1, 1023 + k, d0 % EXP_MSK1);
    JoinFields(e0, d1);
    ValueInGaps(Join(e0, d1));
    RPowSucc(2, k - 53);
    var F := Mantissa(Join(d0, d1));
    TwiceAs(F as real, (2 * F) as real, RPow(2, k - 53), RPow(2, k - 52));
  }

  lemma TwiceAs(F: real, F2: real, g: real, u: real)
    requires F2 == 2.0 * F && u == 2.0 * g
    ensures F2 * g == F * u
  {
  }

  lemma StartsField(d0: Word, d1: Word, m: int, v: nat)
    requires Starts(d0, d1, m, v)
    ensures d0 < 0x7ff0_0000 && d0 / EXP_MSK1 == 1023
    ensures var F, u := Mantissa(Join(d0, d1)) as real, RPow(2, m - 53); F * u <= v as real < (F + 1.0) * u
  {
  }

  /** The bit counts of a and b differ by 0 to 56. */
  lemma BitCounts(a0: Word, a1: Word, m: int, a: nat, b0: Word, b1: Word, n: int, b: nat)
    requires Starts(a0, a1, m, a) && Starts(b0, b1, n, b) && 0 < b < a <= 72057594037927936 * b
    ensures 0 <= m - n <= 56
  {
    hide RPow, DoubleValue;
    BitRange(a0, a1, m, a);
    BitRange(b0, b1, n, b);
    if m < n { RPowMono(2, m, n - 1); }
    if m > n + 56 {
      RPowMono(2, n + 56, m - 1);
      RPowAdd(2, 56, n);
      TwoTo56();
    }
  }

  lemma TwoTo56()
    ensures RPow(2, 56) == 72057594037927936.0
  {
    HiddenPower();
    PowAdd(2, 52, 4);
    assert Pow(2, 4) == 16;
    NatRPow(2, 56);
  }

  lemma BitRange(d0: Word, d1: Word, m: int, v: nat)
    requires Starts(d0, d1, m, v)
    ensures RPow(2, m - 1) <= v as real < RPow(2, m)
  {
    hide RPow;
    StartsValue(d0, d1, 0);
    StartsField(d0, d1, m, v);
    RPowPos(2, m - 53);
    RPowAdd(2, 53, m - 53);
    RPowSucc(2, m - 1);
    HiddenReal();
    BitReal(Mantissa(Join(d0, d1)) as real, HIDDEN as real, RPow(2, m - 53), v as real, RPow(2, m - 1), RPow(2, m));
  }

  lemma BitReal(F: real, h: real, u: real, v: real, p: real, p2: real)
    requires h <= F <= 2.0 * h - 1.0 && u > 0.0 && F * u <= v < (F + 1.0) * u
    requires p2 == (2.0 * h) * u && p2 == 2.0 * p
    ensures p <= v < p2
  {
    RMulMono(u, h, F);
    RMulMono(u, F + 1.0, 2.0 * h);
    Doubled(h, 2.0 * h, u);
  }

  lemma Doubled(h: real, h2: real, u: real)
    requires h2 == 2.0 * h
    ensures h2 * u == 2.0 * (h * u)
  {
  }

  /** Two significands scaled to [1, 2) and to [2^k, 2^(k + 1)). */
  ghost predicate Operands2(A: real, B: real, k: nat, da: real, db: real) {
    && da == A * RPow(2, k - 52) && db == B * RPow(2, -52)
    && HIDDEN as real <= A < (2 * HIDDEN) as real && HIDDEN as real <= B < (2 * HIDDEN) as real
  }

  lemma OperandRange(A: real, B: real, k: nat, da: real, db: real)
    requires Operands2(A, B, k, da, db) && k <= 56
    ensures 1.0 <= db < 2.0 && 1.0 <= da < 144115188075855872.0
  {
    hide RPow;
    TwoTo52();
    RPowPos(2, -52);
    RPowAdd(2, k, -52);
    RPowMono(2, 0, k);
    RPowZero(2);
    RPowMono(2, k, 56);
    TwoTo56();
    Normal1(B, RPow(2, -52), db);
    RMulAssoc(A, RPow(2, k), RPow(2, -52));
    Normal1(A, RPow(2, -52), A * RPow(2, -52));
    var x, p := A * RPow(2, -52), RPow(2, k);
    assert da == x * p by { RMulAssoc(A, RPow(2, -52), p); }
    Between1(x, p, da);
  }

  lemma Between1(x: real, p: real, d: real)
    requires 1.0 <= x < 2.0 && 1.0 <= p <= 72057594037927936.0 && d == x * p
    ensures 1.0 <= d < 144115188075855872.0
  {
    Against(p, x, 1.0, d, p);
    Against(p, x, 2.0, d, 2.0 * p);
  }

  lemma TwoTo52()
    ensures (HIDDEN as real) * RPow(2, -52) == 1.0
  {
    HiddenPower();
    NatRPow(2, 52);
    RPowInverse(2, 52);
  }

  lemma Normal1(B: real, u: real, d: real)
    requires d == B * u && HIDDEN as real <= B < (2 * HIDDEN) as real && u > 0.0 && (HIDDEN as real) * u == 1.0
    ensures 1.0 <= d < 2.0
  {
    RMulMono(u, HIDDEN as real, B);
    RCancelRight(u, B, (2 * HIDDEN) as real);
  }

  lemma QuotientRange(x: real, da: real, db: real)
    requires 1.0 <= db < 2.0 && 1.0 <= da < 144115188075855872.0 && x * db == da
    ensures 0.5 < x < 144115188075855872.0
  {
    Against(db, x, 0.5, da, 0.5 * db);
    Against(db, x, 144115188075855872.0, da, 144115188075855872.0 * db);
  }

  /** The division rounds once. */
  lemma RatioNear(x: real, n: Bits, A: real, B: real, k: nat, da: real, db: real)
    requires Operands2(A, B, k, da, db) && k <= 56 && x * db == da && ReadsAs(x, n)
    ensures -DoubleValue(n) <= 9007199254740992.0 * (DoubleValue(n) - x) <= DoubleValue(n)
  {
    hide RPow, DoubleValue, ReadsAs, Operands2;
    OperandRange(A, B, k, da, db);
    QuotientRange(x, da, db);
    BinadeValue(1022);
    BinadeValue(1081);
    RPowMono(2, 57, 58);
    RPowSucc(2, 56);
    TwoTo56();
    RPowSucc(2, -1);
    RPowZero(2);
    ReadsMono(x, n, 1022 * HIDDEN);
    ReadsMono(x, n, 1081 * HIDDEN);
    Fields(n);
    RoundedNear(x, n);
    ManyUnits(n);
  }

  /** Truncating both operands and rounding the quotient is far below 2^-48. */
  lemma Near48(q: real, x: real, A: real, B: real, a: nat, b: nat, m: int, n: int, da: real, db: real)
    requires m >= n && Operands2(A, B, m - n, da, db) && x * db == da && q >= 0.0
    requires -q <= 9007199254740992.0 * (q - x) <= q
    requires A * RPow(2, m - 53) <= a as real < (A + 1.0) * RPow(2, m - 53)
    requires B * RPow(2, n - 53) <= b as real < (B + 1.0) * RPow(2, n - 53)
    ensures NearRatio(q, a, b)
  {
    hide RPow;
    RPowPos(2, n - 1);
    RPowPos(2, m - 53);
    RPowPos(2, n - 53);
    RPowAdd(2, -52, n - 1);
    RPowAdd(2, m - n - 52, n - 1);
    var a1, b1 := A * RPow(2, m - 53), B * RPow(2, n - 53);
    SameRatio(x, A, B, da, db, RPow(2, -52), RPow(2, m - n - 52), RPow(2, n - 1), a1, b1);
    Truncated(A, RPow(2, m - 53), a as real);
    Truncated(B, RPow(2, n - 53), b as real);
    ErrorTimes(q, x, b1, b as real, a1);
    ErrorSum(q * b1, q * b as real, a1, a as real);
  }

  lemma SameRatio(x: real, A: real, B: real, da: real, db: real, u: real, v: real, p: real, a1: real, b1: real)
    requires x * db == da && db == B * u && da == A * v && a1 == A * (v * p) && b1 == B * (u * p)
    ensures x * b1 == a1
  {
    RMulAssoc(B, u, p);
    RMulAssoc(x, db, p);
    RMulAssoc(A, v, p);
  }

  /** What is cut off is at most 2^-52. */
  lemma Truncated(A: real, u: real, a: real)
    requires A >= HIDDEN as real && u > 0.0 && A * u <= a < (A + 1.0) * u
    ensures 4503599627370496.0 * (a - A * u) <= A * u
  {
    RMulMono(u, 4503599627370496.0, A);
    assert (A + 1.0) * u == A * u + u;
  }

  lemma ErrorTimes(q: real, x: real, b1: real, b: real, a1: real)
    requires q >= 0.0 && b1 >= 0.0 && x * b1 == a1 && -q <= 9007199254740992.0 * (q - x) <= q
    requires b1 <= b && 4503599627370496.0 * (b - b1) <= b1
    ensures var y := q * b1; -y <= 9007199254740992.0 * (y - a1) <= y
    ensures var y, z := q * b1, q * b; y <= z && 4503599627370496.0 * (z - y) <= y
  {
    RMulMono(b1, -q, 9007199254740992.0 * (q - x));
    RMulMono(b1, 9007199254740992.0 * (q - x), q);
    assert (9007199254740992.0 * (q - x)) * b1 == 9007199254740992.0 * (q * b1 - a1);
    assert (-q) * b1 == -(q * b1);
    RMulMono(q, 4503599627370496.0 * (b - b1), b1);
    RMulMono(q, b1, b);
    assert (4503599627370496.0 * (b - b1)) * q == 4503599627370496.0 * (q * b - q * b1);
  }

  lemma ErrorSum(y: real, z: real, a1: real, a: real)
    requires -y <= 9007199254740992.0 * (y - a1) <= y && y <= z && 4503599627370496.0 * (z - y) <= y
    requires a1 <= a && 4503599627370496.0 * (a - a1) <= a1 && a >= 0.0
    ensures -a <= 281474976710656.0 * (z - a) <= a
  {
  }

  /** ratio: both numbers as doubles, the difference of their bit counts put back, and one division. */
  method BigRatio(a: Bigint, b: Bigint, nearest: real -> Bits) returns (q: real)
    requires Rounds(nearest) && a.Valid() && b.Valid() && 0 < b.Val() < a.Val() <= 72057594037927936 * b.Val()
    ensures NearRatio(q, a.Val(), b.Val())
  {
    hide Pow, RPow, Value, Bigint.Val, DoubleValue, ReadsAs, Starts, NearRatio, Join, Mantissa;
    var a0, a1, ka := B2d(a);
    var b0, b1, kb := B2d(b);
    var k := ka - kb + 32 * (a.wds - b.wds);
    ghost var m, n := 32 * (a.wds - 1) + ka, 32 * (b.wds - 1) + kb;
    assert k == m - n;
    BitCounts(a0, a1, m, a.Val(), b0, b1, n, b.Val());
    StartsField(a0, a1, m, a.Val());
    StartsField(b0, b1, n, b.Val());
    StartsValue(a0, a1, k);
    StartsValue(b0, b1, 0);
    ghost var A, B := Mantissa(Join(a0, a1)) as real, Mantissa(Join(b0, b1)) as real;
    if k > 0 {
      a0 := a0 + k * EXP_MSK1;
    } else {
      b0 := b0 - k * EXP_MSK1;
    }
    var da, db := DoubleValue(Join(a0, a1)), DoubleValue(Join(b0, b1));
    assert Operands2(A, B, k, da, db);
    OperandRange(A, B, k, da, db);
    q := DoubleValue(nearest(da / db));
    assert ReadsAs(da / db, nearest(da / db));
    RatioNear(da / db, nearest(da / db), A, B, k, da, db);
    Near48(q, da / db, A, B, a.Val(), b.Val(), m, n, da, db);
  }
}
