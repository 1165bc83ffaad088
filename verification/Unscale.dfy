/** Dividing by 2^scale at the end of fpconv_strtod: exact for all words that its loop ends with. */
module Unscaling {
  import opened Arith
  import opened Rational
  import opened Ieee
  import opened Scaling
  import opened ShortestDigits
  import opened ScaledDoubles

  /** n is its number times 2^scale exactly: no bit below the true last place is set. */
  ghost predicate Exact(n: Bits, scale: nat) {
    DoubleValue(n) == DoubleValue(Unscaled(n, scale)) * RPow(2, scale)
  }

  /** k exponent steps down divide by 2^k. */
  lemma ShiftValue(n: Bits, k: nat)
    requires ExpField(n) > k
    ensures var m := n - k * HIDDEN;
            && 0 < m && ExpField(m) == ExpField(n) - k && Fraction(m) == Fraction(n) && Mantissa(m) == Mantissa(n)
            && HalfGapUp(m) == HalfGapUp(n) - k && DoubleValue(n) == DoubleValue(m) * RPow(2, k)
  {
    hide RPow;
    Fields(n);
    DivModUnique(n - k * HIDDEN, HIDDEN, ExpField(n) - k, Fraction(n));
    var m := n - k * HIDDEN;
    hide DoubleValue;
    ValueInGaps(n);
    ValueInGaps(m);
    RPowAdd(2, HalfGapUp(m), k);
    RMulAssoc((2 * Mantissa(m)) as real, RPow(2, HalfGapUp(m)), RPow(2, k));
  }

  lemma HeldValue(n: Bits, scale: nat)
    requires Held(n, scale)
    ensures Exact(n, scale)
    ensures DoubleValue(n) == DoubleValue(Unscaled(n, scale)) * RPow(2, scale)
  {
    hide RPow, Pow, Magnitude, Unscaled;
    UnscaledMagnitude(n, scale);
    NatRPow(2, scale);
    CastMul(Magnitude(Unscaled(n, scale)), Pow(2, scale));
    Swap(Magnitude(Unscaled(n, scale)) as real, Pow(2, scale) as real, RPow(2, -1074));
  }

  lemma Swap(a: real, b: real, c: real)
    ensures (a * b) * c == (a * c) * b
  {
  }

  /** The next number up is held as well. */
  lemma HeldUp(n: Bits, scale: nat)
    requires Held(n, scale) && scale == SCALE && ExpField(n) <= 107
    ensures var n1 := n + Place(n, scale);
            n1 <= INFINITY && Held(n1, scale) && Unscaled(n1, scale) == Unscaled(n, scale) + 1
  {
    hide Pow, Unscaled;
    PlaceUp(n, scale);
    Fields(n);
    HeldFields(n, scale);
    var s := Spare(n, scale);
    var p, n1 := Pow(2, s), n + Pow(2, s);
    PowPos(2, s);
    PowUnit(2);
    HiddenWhole(s);
    if Fraction(n) + p < HIDDEN {
      DivModUnique(n1, HIDDEN, ExpField(n), Fraction(n) + p);
      Whole(n, scale);
      DivModUnique(Mantissa(n) + p, p, Mantissa(n) / p + 1, 0);
    } else {
      PlaceFits(n, scale);
      DivModUnique(n1, HIDDEN, ExpField(n) + 1, 0);
      var s1 := if s > 0 then s - 1 else 0;
      PowPos(2, s1);
      HiddenWhole(s1);
      DivModUnique(HIDDEN, Pow(2, s1), Pow(2, 52 - s1), 0);
    }
  }

  lemma PlaceFits(n: Bits, scale: nat)
    requires Held(n, scale) && Fraction(n) + Place(n, scale) >= HIDDEN
    ensures Fraction(n) + Place(n, scale) == HIDDEN
  {
    hide Pow;
    Fields(n);
    HeldFields(n, scale);
    PlaceUp(n, scale);
    var s := Spare(n, scale);
    HiddenWhole(s);
    Whole(n, scale);
    var p, q := Pow(2, s), Mantissa(n) / Pow(2, s);
    assert HIDDEN * 2 == (Pow(2, 52 - s) * 2) * p by { MulAssoc(2, Pow(2, 52 - s), p); }
    if Mantissa(n) < 2 * HIDDEN { NextMultiple(q, Pow(2, 52 - s) * 2, p); }
  }

  /** Where the places are the held ones. */
  lemma AboveExact(n: Bits, scale: nat)
    requires ExpField(n) > scale
    ensures Exact(n, scale)
  {
    hide RPow, DoubleValue;
    ShiftValue(n, scale);
  }

  lemma UpExact(n: Bits, scale: nat)
    requires Held(n, scale)
    ensures var n1 := n + Place(n, scale); n1 <= INFINITY && Exact(n1, scale)
  {
    hide Pow, RPow, DoubleValue, Unscaled;
    PlaceUp(n, scale);
    HeldFields(n, scale);
    if scale == SCALE && ExpField(n) <= 106 {
      HeldUp(n, scale);
      HeldValue(n + Place(n, scale), scale);
    } else {
      UpField(n, scale);
      AboveExact(n + Place(n, scale), scale);
    }
  }

  lemma UpField(n: Bits, scale: nat)
    requires Held(n, scale) && n + Place(n, scale) <= INFINITY && ExpField(n) > scale
    ensures ExpField(n + Place(n, scale)) > scale
  {
    hide Pow;
    Fields(n);
    Fields(n + Place(n, scale));
  }

  lemma DownExact(n: Bits, scale: nat)
    requires Held(n, scale) && Fraction(n) > 0
    ensures var n1 := n - Place(n, scale); n1 > 0 && Exact(n1, scale)
  {
    hide Pow, RPow, DoubleValue, Unscaled;
    PlaceDown(n, scale);
    HeldFields(n, scale);
    var n1 := n - Place(n, scale);
    if ExpField(n) > scale {
      AboveExact(n1, scale);
    } else {
      DownWhole(n, scale);
      HeldValue(n1, scale);
    }
  }

  lemma DownWhole(n: Bits, scale: nat)
    requires Held(n, scale) && Fraction(n) > 0 && ExpField(n) <= scale && n - Place(n, scale) > 0
    requires ExpField(n - Place(n, scale)) == ExpField(n)
    ensures Held(n - Place(n, scale), scale)
  {
    hide Pow;
    Fields(n);
    Fields(n - Place(n, scale));
    HeldFields(n, scale);
    Whole(n, scale);
    var p := Place(n, scale);
    var q := Mantissa(n) / p;
    LessOne(q, p);
    DivModUnique(Mantissa(n) - p, p, q - 1, 0);
  }

  /** A power of two at or above the smallest held number. */
  lemma BinadeExact(f: nat, scale: nat)
    requires f <= 2047 && (scale == 0 || scale == SCALE) && (if scale == 0 then f > 0 else f >= 55)
    ensures f * HIDDEN <= INFINITY && Exact(f * HIDDEN, scale)
  {
    hide Pow, RPow, DoubleValue, Unscaled;
    var n := f * HIDDEN;
    DivModUnique(n, HIDDEN, f, 0);
    if f > scale {
      AboveExact(n, scale);
    } else {
      var s := Spare(n, scale);
      HiddenWhole(s);
      PowPos(2, s);
      DivModUnique(HIDDEN, Pow(2, s), Pow(2, 52 - s), 0);
      HeldValue(n, scale);
    }
  }

  lemma ZeroExact(scale: nat)
    requires scale == 0 || scale == SCALE
    ensures Exact(0, scale) && Unscaled(0, scale) == 0
  {
    hide RPow;
    var p := Place(0, scale);
    DivModUnique(0, p, 0, 0);
    assert Magnitude(0) == 0;
  }
}
