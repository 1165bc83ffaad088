/**
 The approximation of fpconv_strtod while bc.scale is 2P = 106: a tiny number is held 2^106 times too large, with the
 bits below its true last place clear. With bc.scale == 0 nothing changes.
 */
module ScaledDoubles {
  import opened Arith
  import opened Words
  import opened Ieee
  import opened DoubleBits
  import opened Scaling

  const SCALE := 106

  /** How many low bits of the held significand lie below the last place of the number it stands for. */
  ghost function Spare(n: Bits, scale: nat): nat {
    if ExpField(n) <= scale then scale + 1 - ExpField(n) else 0
  }

  /** The unit of the true last place in the held significand. */
  ghost function Place(n: Bits, scale: nat): (p: nat)
    ensures p > 0
  {
    PowPos(2, Spare(n, scale));
    Pow(2, Spare(n, scale))
  }

  /** The number that is held: n divided by 2^scale. */
  ghost function Unscaled(n: Bits, scale: nat): Bits {
    if ExpField(n) > scale then
      Fields(n);
      n - scale * HIDDEN
    else
      Lessened(Mantissa(n), Place(n, scale));
      Mantissa(n) / Place(n, scale)
  }

  lemma Lessened(a: nat, p: nat)
    requires p > 0
    ensures 0 <= a / p <= a
  {
    var q, r := a / p, a % p;
    assert a == q * p + r;
    MulMono(q, 1, p);
  }

  /**
   What the loop holds: unscaled, a normal double; scaled, a number that is at least the smallest double and whole in
   its true last place.
   */
  ghost predicate Held(n: Bits, scale: nat) {
    && n < INFINITY
    && if scale == 0 then ExpField(n) > 0
       else scale == SCALE && 55 <= ExpField(n) < 2046 && Mantissa(n) % Place(n, scale) == 0
  }

  lemma HeldFields(n: Bits, scale: nat)
    requires Held(n, scale)
    ensures ExpField(n) > 0 && Spare(n, scale) <= 52 && (scale == 0 || scale == SCALE)
    ensures HIDDEN <= Mantissa(n) < 2 * HIDDEN && Mantissa(n) == Fraction(n) + HIDDEN
  {
    hide Pow;
    Fields(n);
  }

  lemma Whole(n: Bits, scale: nat)
    requires Held(n, scale)
    ensures Mantissa(n) == (Mantissa(n) / Place(n, scale)) * Place(n, scale)
  {
    hide Pow;
    if Spare(n, scale) == 0 { PowUnit(2); }
    var p := Place(n, scale);
    assert Mantissa(n) == Mantissa(n) / p * p + Mantissa(n) % p;
  }

  /** The fields of the number held. */
  lemma UnscaledFields(n: Bits, scale: nat)
    requires Held(n, scale)
    ensures var m := Unscaled(n, scale);
            && 0 < m < INFINITY
            && (ExpField(n) > scale ==>
                  ExpField(m) == ExpField(n) - scale && Fraction(m) == Fraction(n) && Mantissa(m) == Mantissa(n))
            && (ExpField(n) <= scale ==>
                  m < HIDDEN && ExpField(m) == 0 && Mantissa(m) == m && m * Place(n, scale) == Mantissa(n))
  {
    hide Pow;
    Fields(n);
    HeldFields(n, scale);
    var m, f := Unscaled(n, scale), ExpField(n);
    if f > scale {
      DivModUnique(m, HIDDEN, f - scale, Fraction(n));
      assert m >= HIDDEN;
    } else {
      Whole(n, scale);
      PowMono(2, 1, Spare(n, scale));
      PowUnit(2);
      SmallQuotient(m, Place(n, scale), Mantissa(n));
      DivModUnique(m, HIDDEN, 0, m);
    }
  }

  lemma SmallQuotient(m: nat, p: nat, M: nat)
    requires m * p == M && p >= 2 && HIDDEN <= M < 2 * HIDDEN
    ensures 0 < m < HIDDEN
  {
    MulMono(m, 2, p);
    assert m == 0 ==> m * p == 0;
  }

  /** Its value is that of n, 2^scale times smaller. */
  lemma UnscaledMagnitude(n: Bits, scale: nat)
    requires Held(n, scale)
    ensures Magnitude(n) == Magnitude(Unscaled(n, scale)) * Pow(2, scale)
  {
    hide Pow;
    UnscaledFields(n, scale);
    HeldFields(n, scale);
    var m, f, s := Unscaled(n, scale), ExpField(n), Spare(n, scale);
    if f > scale {
      PowAdd(2, f - 1 - scale, scale);
      MulAssoc(Mantissa(n), Pow(2, f - 1 - scale), Pow(2, scale));
    } else {
      PowUnit(2);
      PowAdd(2, s, f - 1);
      MulAssoc(m, Pow(2, s), Pow(2, f - 1));
      assert Magnitude(m) == m;
    }
  }

  lemma UnscaledGap(n: Bits, scale: nat)
    requires Held(n, scale)
    ensures UlpExp(Unscaled(n, scale)) == if ExpField(n) > scale then UlpExp(n) - scale else 0
    ensures SpecialCase(Unscaled(n, scale)) <==> Fraction(n) == 0 && ExpField(n) > scale + 1
  {
    hide Pow;
    UnscaledFields(n, scale);
    HeldFields(n, scale);
  }

  /** A multiple of p below a larger multiple is at least p below it. */
  lemma NextMultiple(a: int, b: int, p: nat)
    requires p > 0 && a * p < b * p
    ensures a * p + p <= b * p
  {
    MulCancel(p, a, b);
    MulMono(p, a + 1, b);
    MulComm(p, a);
    MulComm(p, b);
  }

  lemma HiddenWhole(s: nat)
    requires s <= 52
    ensures HIDDEN == Pow(2, 52 - s) * Pow(2, s)
  {
    HiddenPower();
    PowAdd(2, 52 - s, s);
  }

  /** One unit in the true last place more, a carry into the exponent included. */
  lemma PlaceUp(n: Bits, scale: nat)
    requires Held(n, scale)
    ensures var n1 := n + Place(n, scale);
            && n1 <= INFINITY && Unscaled(n1, scale) == Unscaled(n, scale) + 1
            && (Fraction(n) + Place(n, scale) == HIDDEN <==> Fraction(n1) == 0)
            && (Fraction(n1) == 0 ==> n1 == (ExpField(n) + 1) * HIDDEN)
  {
    hide Pow;
    Fields(n);
    HeldFields(n, scale);
    UnscaledFields(n, scale);
    var s := Spare(n, scale);
    var p := Pow(2, s);
    PowPos(2, s);
    PowUnit(2);
    HiddenWhole(s);
    Whole(n, scale);
    var q := Mantissa(n) / p;
    assert HIDDEN * 2 == (Pow(2, 52 - s) * 2) * p by { MulAssoc(2, Pow(2, 52 - s), p); }
    NextMultiple(q, Pow(2, 52 - s) * 2, p);
    var n1 := n + p;
    if Fraction(n) + p < HIDDEN {
      DivModUnique(n1, HIDDEN, ExpField(n), Fraction(n) + p);
      if ExpField(n) <= scale {
        DivModUnique(Mantissa(n) + p, p, q + 1, 0);
      }
    } else {
      DivModUnique(n1, HIDDEN, ExpField(n) + 1, 0);
      if ExpField(n) <= scale { CarryUp(n, n1, scale, s); }
    }
  }

  lemma CarryUp(n: Bits, n1: Bits, scale: nat, s: nat)
    requires ExpField(n) <= scale && s == Spare(n, scale) <= 52 && ExpField(n1) == ExpField(n) + 1 && Fraction(n1) == 0
    requires n1 == ExpField(n1) * HIDDEN && Mantissa(n) + Pow(2, s) == 2 * HIDDEN
    ensures Unscaled(n1, scale) == Mantissa(n) / Pow(2, s) + 1
  {
    hide Pow;
    PowPos(2, s);
    PowPos(2, s - 1);
    HiddenWhole(s - 1);
    PowStep(2, s - 1);
    PowAdd(2, 53 - s, 0);
    var t := Pow(2, 52 - (s - 1));
    assert 2 * HIDDEN == t * Pow(2, s) by { Rotate(2, t, Pow(2, s - 1)); }
    DivModUnique(HIDDEN, Pow(2, s - 1), t, 0);
    LessOne(t, Pow(2, s));
    DivModUnique(Mantissa(n), Pow(2, s), t - 1, 0);
    if s == 1 { PowUnit(2); }
  }

  lemma LessOne(t: int, p: int)
    ensures t * p - p == (t - 1) * p
  {
  }

  /** One unit less, where no borrow from the exponent is needed. */
  lemma PlaceDown(n: Bits, scale: nat)
    requires Held(n, scale) && Fraction(n) > 0
    ensures var n1 := n - Place(n, scale);
            n1 > 0 && Unscaled(n1, scale) == Unscaled(n, scale) - 1 && ExpField(n1) == ExpField(n)
  {
    hide Pow;
    Fields(n);
    HeldFields(n, scale);
    UnscaledFields(n, scale);
    var s := Spare(n, scale);
    var p := Pow(2, s);
    PowPos(2, s);
    PowUnit(2);
    HiddenWhole(s);
    Whole(n, scale);
    var q := Mantissa(n) / p;
    NextMultiple(Pow(2, 52 - s), q, p);
    DivModUnique(n - p, HIDDEN, ExpField(n), Fraction(n) - p);
    if ExpField(n) <= scale {
      LessOne(q, p);
      DivModUnique(Mantissa(n) - p, p, q - 1, 0);
    }
  }

  /** drop_down: below a power of two the bits are all ones. */
  lemma PlaceBelow(n: Bits, scale: nat)
    requires Held(n, scale) && Fraction(n) == 0 && ExpField(n) > scale + 1
    ensures n > 0 && Unscaled(n - 1, scale) == Unscaled(n, scale) - 1 && Held(n - 1, scale) && Fraction(n - 1) > 0
    ensures ExpField(n - 1) == ExpField(n) - 1
  {
    Fields(n);
    DivModUnique(n - 1, HIDDEN, ExpField(n) - 1, HIDDEN - 1);
    PowUnit(2);
  }

  // ----- words -----

  /** The words of a number that the loop keeps. */
  ghost predicate HeldWords(w0: Word, w1: Word, scale: nat) {
    w0 < 0x7ff0_0000 && Held(Join(w0, w1), scale)
  }

  /** Unscaled powers of two lie above 2^-915: smaller numbers are scaled. */
  ghost predicate Kept(w0: Word, w1: Word, scale: nat) {
    HeldWords(w0, w1, scale) && (scale == 0 && w0 % EXP_MSK1 == 0 && w1 == 0 ==> w0 / EXP_MSK1 > 2 * 53 + 1)
  }

  /** The number they stand for. */
  ghost function UnscaledWords(w0: Word, w1: Word, scale: nat): Bits
    requires w0 < 0x7ff0_0000
  {
    Unscaled(Join(w0, w1), scale)
  }

  /** 2P + 1 - ((word0(rv) & Exp_mask) >> Exp_shift) where it matters, else 0. */
  function SpareBits(w0: Word, scale: nat): nat {
    if w0 / EXP_MSK1 <= scale then scale + 1 - w0 / EXP_MSK1 else 0
  }

  lemma HeldJoin(w0: Word, w1: Word, scale: nat)
    requires HeldWords(w0, w1, scale)
    ensures var n := Join(w0, w1);
            && ExpField(n) == w0 / EXP_MSK1 && Fraction(n) == w0 % EXP_MSK1 * BASE + w1
            && Mantissa(n) == (w0 % EXP_MSK1 + EXP_MSK1) * BASE + w1
            && Spare(n, scale) == SpareBits(w0, scale) <= 52
  {
    hide Pow;
    JoinFields(w0, w1);
    HeldFields(Join(w0, w1), scale);
  }

  /** Is the last place of the true number set? Lsb and Lsb1 of the loop, for either half of the significand. */
  method OddPlace(w0: Word, w1: Word, scale: nat) returns (odd: bool)
    requires HeldWords(w0, w1, scale)
    ensures odd <==> UnscaledWords(w0, w1, scale) % 2 == 1
  {
    hide Pow;
    HeldJoin(w0, w1, scale);
    var i := SpareBits(w0, scale);
    PowPos(2, i);
    if i < 32 {
      LowPlace(w0, w1, scale, i);
      odd := w1 / Pow(2, i) % 2 == 1;
    } else {
      PowPos(2, i - 32);
      HighPlace(w0, w1, scale, i);
      odd := if i < 52 then w0 / Pow(2, i - 32) % 2 == 1 else w0 / EXP_MSK1 != 0;
    }
  }

  /** The same test as bigcomp makes it. */
  method OddByField(w0: Word, w1: Word, scale: nat) returns (odd: bool)
    requires HeldWords(w0, w1, scale)
    ensures odd <==> UnscaledWords(w0, w1, scale) % 2 == 1
  {
    hide Pow;
    HeldJoin(w0, w1, scale);
    var i := SpareBits(w0, scale);
    PowPos(2, i);
    if i <= 31 {
      LowPlace(w0, w1, scale, i);
      odd := w1 / Pow(2, i) % 2 == 1;
    } else {
      PowPos(2, i - 32);
      HighPlace(w0, w1, scale, i);
      TwentyPower();
      odd := w0 / Pow(2, i - 32) % 2 == 1;
    }
  }

  lemma LowPlace(w0: Word, w1: Word, scale: nat, i: nat)
    requires HeldWords(w0, w1, scale) && i == SpareBits(w0, scale) < 32
    ensures Pow(2, i) > 0 && w1 / Pow(2, i) % 2 == UnscaledWords(w0, w1, scale) % 2
  {
    hide Pow;
    HeldJoin(w0, w1, scale);
    var n := Join(w0, w1);
    PowPos(2, i);
    UnscaledFields(n, scale);
    Pow32Split(i);
    PowStep(2, 31 - i);
    if i == 0 {
      PowUnit(2);
      assert n - scale * HIDDEN == 2 * (w0 * 0x8000_0000 - scale * (HIDDEN / 2)) + w1;
      EvenAdd(w0 * 0x8000_0000 - scale * (HIDDEN / 2), w1);
    } else {
      var H, p, t := w0 % EXP_MSK1 + EXP_MSK1, Pow(2, i), Pow(2, 31 - i);
      assert BASE == (2 * t) * p;
      LowParts(H, w1, t, p);
      EvenAdd(H * t, w1 / p);
    }
  }

  lemma EvenAdd(a: int, b: int)
    ensures (2 * a + b) % 2 == b % 2
  {
    var q, r := b / 2, b % 2;
    assert b == 2 * q + r;
    DivModUnique(2 * a + b, 2, a + q, r);
  }

  /** H * BASE + w, a multiple of p, divided by p, where BASE = 2 t p. */
  lemma LowParts(H: nat, w: nat, t: nat, p: nat)
    requires p > 0 && BASE == (2 * t) * p && (H * BASE + w) % p == 0
    ensures (H * BASE + w) / p == 2 * (H * t) + w / p
  {
    var q, r := w / p, w % p;
    assert w == q * p + r;
    assert H * BASE == (2 * (H * t)) * p by { MulAssoc(H, 2 * t, p); Rotate(H, 2, t); }
    DivModUnique(H * BASE + w, p, 2 * (H * t) + q, r);
  }

  lemma HighPlace(w0: Word, w1: Word, scale: nat, i: nat)
    requires HeldWords(w0, w1, scale) && i == SpareBits(w0, scale) >= 32
    ensures Pow(2, i - 32) > 0 && w1 == 0
    ensures i < 52 ==> w0 / Pow(2, i - 32) % 2 == UnscaledWords(w0, w1, scale) % 2
    ensures i == 52 ==> UnscaledWords(w0, w1, scale) == 1
  {
    hide Pow;
    HeldJoin(w0, w1, scale);
    var n := Join(w0, w1);
    UnscaledFields(n, scale);
    PowPos(2, i - 32);
    PowAdd(2, 32, i - 32);
    Pow32();
    var H, p := w0 % EXP_MSK1 + EXP_MSK1, Pow(2, i - 32);
    assert Pow(2, i) == BASE * p;
    HighParts(H, w1, p);
    if i < 52 {
      TwentySplit(i - 32);
      var t := Pow(2, 51 - i);
      assert EXP_MSK1 == (2 * t) * p;
      UpperParts(w0, H, w0 / EXP_MSK1 - 1, t, p);
      EvenAdd((w0 / EXP_MSK1 - 1) * t, H / p);
    } else {
      TwentySplit(20);
      PowUnit(2);
      DivModUnique(H, EXP_MSK1, 1, w0 % EXP_MSK1);
    }
  }

  lemma TwentySplit(k: nat)
    requires k <= 20
    ensures k < 20 ==> EXP_MSK1 == (2 * Pow(2, 19 - k)) * Pow(2, k)
    ensures k == 20 ==> EXP_MSK1 == Pow(2, k)
  {
    hide Pow;
    TwentyPower();
    if k < 20 {
      PowAdd(2, 20 - k, k);
      PowStep(2, 19 - k);
    }
  }

  lemma TwentyPower()
    ensures Pow(2, 20) == EXP_MSK1
  {
    assert Pow(2, 5) == 32;
    PowAdd(2, 5, 5);
    PowAdd(2, 10, 10);
  }

  /** H * BASE + w, a multiple of BASE * p with w < BASE. */
  lemma HighParts(H: nat, w: Word, p: nat)
    requires p > 0 && BASE * p > 0 && (H * BASE + w) % (BASE * p) == 0
    ensures w == 0 && H % p == 0 && (H * BASE + w) / (BASE * p) == H / p
  {
    var q, r := H / p, H % p;
    assert H == q * p + r;
    assert H * BASE + w == q * (BASE * p) + (r * BASE + w) by { Rotate(q, BASE, p); MulComm(q * p, BASE); }
    MulMono(BASE, r, p - 1);
    DivModUnique(H * BASE + w, BASE * p, q, r * BASE + w);
  }

  lemma UpperParts(w: nat, H: nat, f: nat, t: nat, p: nat)
    requires p > 0 && EXP_MSK1 == (2 * t) * p && w == f * EXP_MSK1 + H && H % p == 0
    ensures w / p == 2 * (f * t) + H / p
  {
    var q := H / p;
    assert H == q * p;
    assert f * EXP_MSK1 == (2 * (f * t)) * p by { MulAssoc(f, 2 * t, p); Rotate(f, 2, t); }
    DivModUnique(w, p, 2 * (f * t) + q, 0);
  }

  /** Adding a unit of the true last place to the words, as a 64-bit integer. */
  method AddPlace(w0: Word, w1: Word, scale: nat) returns (u0: Word, u1: Word)
    requires HeldWords(w0, w1, scale)
    ensures u0 < 0x7ff0_0000 || (u0 == 0x7ff0_0000 && u1 == 0)
    ensures Join(u0, u1) == Join(w0, w1) + Place(Join(w0, w1), scale)
    ensures u0 == 0x7ff0_0000 ==> scale == 0 && w0 == 0x7fef_ffff && w1 == 0xffff_ffff
    ensures Unscaled(Join(u0, u1), scale) == UnscaledWords(w0, w1, scale) + 1
  {
    hide Pow, Unscaled;
    HeldJoin(w0, w1, scale);
    PlaceUp(Join(w0, w1), scale);
    var v := w0 * BASE + w1 + Pow(2, SpareBits(w0, scale));
    SplitWords(v);
    PowUnit(2);
    PowMono(2, SpareBits(w0, scale), 52);
    HiddenPower();
    u0, u1 := v / BASE, v % BASE;
  }

  /** And subtracting one, where the significand is not all zeros. */
  method SubPlace(w0: Word, w1: Word, scale: nat) returns (u0: Word, u1: Word)
    requires HeldWords(w0, w1, scale) && (w0 % EXP_MSK1 != 0 || w1 != 0)
    ensures u0 < 0x7ff0_0000 && Join(u0, u1) == Join(w0, w1) - Place(Join(w0, w1), scale)
    ensures Unscaled(Join(u0, u1), scale) == UnscaledWords(w0, w1, scale) - 1
  {
    hide Pow, Unscaled;
    HeldJoin(w0, w1, scale);
    PlaceDown(Join(w0, w1), scale);
    var v := w0 * BASE + w1 - Pow(2, SpareBits(w0, scale));
    SplitWords(v);
    u0, u1 := v / BASE, v % BASE;
  }

  lemma SplitWords(v: Bits)
    ensures 0 <= v / BASE <= 0x7ff0_0000 && v == v / BASE * BASE + v % BASE
    ensures v / BASE == 0x7ff0_0000 ==> v % BASE == 0
  {
    var q, r := v / BASE, v % BASE;
    assert v == q * BASE + r;
  }
}
