/**
 Positive doubles as the 64-bit integers of their two words, their exact values, and
 rounding to nearest with ties to even (section 4.3.1 of IEEE 754-2008).
 */
module Ieee {
  import opened Arith
  import opened Rational

  const HIDDEN: int := 0x10_0000_0000_0000    // 2^52, the weight of one exponent step
  const INFINITY: int := 0x7ff0_0000_0000_0000

  /** The words of a finite positive double, or of infinity, read as one integer. */
  type Bits = n: int | 0 <= n <= INFINITY

  function ExpField(n: Bits): nat { n / HIDDEN }

  function Fraction(n: Bits): nat { n % HIDDEN }

  /** The integer significand: the fraction with its hidden bit, if any. */
  function Mantissa(n: Bits): nat {
    if ExpField(n) == 0 then Fraction(n) else Fraction(n) + HIDDEN
  }

  /** The unit in the last place of n is 2^UlpExp(n), in units of 2^-1074. */
  function UlpExp(n: Bits): nat {
    if ExpField(n) == 0 then 0 else ExpField(n) - 1
  }

  /**
   The value of n in units of 2^-1074, an integer for every double. The infinity pattern is
   given the value 2^1024 it would have with a larger exponent range: a number that would
   round to it overflows.
   */
  function Magnitude(n: Bits): nat { Mantissa(n) * Pow(2, UlpExp(n)) }

  function DoubleValue(n: Bits): real {
    (Magnitude(n) as real) * RPow(2, -1074)
  }

  lemma Fields(n: Bits)
    ensures n == ExpField(n) * HIDDEN + Fraction(n) && 0 <= Fraction(n) < HIDDEN
    ensures ExpField(n) <= 2047
  {
  }

  /** The next pattern up is the next value up: one unit in the last place away. */
  lemma NextUp(n: Bits)
    requires n < INFINITY
    ensures Magnitude(n + 1) == Magnitude(n) + Pow(2, UlpExp(n))
  {
    Fields(n);
    var e, f := ExpField(n), Fraction(n);
    if f + 1 < HIDDEN {
      DivModUnique(n + 1, HIDDEN, e, f + 1);
    } else {
      DivModUnique(n + 1, HIDDEN, e + 1, 0);
      if e > 0 {
        assert Pow(2, e) == 2 * Pow(2, e - 1);
        assert HIDDEN * Pow(2, e) == (2 * HIDDEN) * Pow(2, e - 1);
      }
    }
  }

  lemma HiddenPower()
    ensures Pow(2, 52) == HIDDEN
  {
    assert Pow(2, 13) == 8192;
    PowAdd(2, 13, 13);
    PowAdd(2, 26, 26);
  }

  lemma InfinityMagnitude()
    ensures Magnitude(INFINITY) == Pow(2, 2098)
  {
    hide Pow;
    HiddenPower();
    assert Mantissa(INFINITY) == HIDDEN && UlpExp(INFINITY) == 2046;
    PowAdd(2, 52, 2046);
  }

  lemma {:induction false} Increasing(m: Bits, n: Bits)
    requires m < n
    ensures Magnitude(m) < Magnitude(n)
    decreases n - m
  {
    PowPos(2, UlpExp(n - 1));
    NextUp(n - 1);
    if m < n - 1 {
      Increasing(m, n - 1);
    }
  }

  ghost function Dist(x: real, y: real): real { if x < y then y - x else x - y }

  /**
   Rounding to nearest: no double is closer to x than n, and one equally close gives way
   to an n whose last significand bit is zero. x is in units of 2^-1074.
   */
  ghost predicate Nearest(x: real, n: Bits) {
    forall m: Bits {:trigger Magnitude(m)} ::
      && Dist(x, Magnitude(n) as real) <= Dist(x, Magnitude(m) as real)
      && (m != n && Dist(x, Magnitude(n) as real) == Dist(x, Magnitude(m) as real) ==> n % 2 == 0)
  }

  /** The rounding interval: half way to either neighbour, ends included for even n. */
  ghost predicate InInterval(x: real, n: Bits) {
    && (n > 0 ==> var gap := (Magnitude(n) - Magnitude(n - 1)) as real; var d := 2.0 * (Magnitude(n) as real - x);
                  d < gap || (d == gap && n % 2 == 0))
    && (n < INFINITY ==> var gap := (Magnitude(n + 1) - Magnitude(n)) as real;
                         var d := 2.0 * (x - Magnitude(n) as real);
                         d < gap || (d == gap && n % 2 == 0))
  }

  /** Only the two neighbours matter. */
  lemma NearestIffInterval(x: real, n: Bits)
    ensures Nearest(x, n) <==> InInterval(x, n)
  {
    hide Magnitude;
    if Nearest(x, n) {
      if n > 0 { Increasing(n - 1, n); assert Dist(x, Magnitude(n) as real) <= Dist(x, Magnitude(n - 1) as real); }
      if n < INFINITY {
        Increasing(n, n + 1);
        assert Dist(x, Magnitude(n) as real) <= Dist(x, Magnitude(n + 1) as real);
      }
      assert InInterval(x, n);
    }
    if InInterval(x, n) {
      forall m: Bits
        ensures Dist(x, Magnitude(n) as real) <= Dist(x, Magnitude(m) as real)
        ensures m != n && Dist(x, Magnitude(n) as real) == Dist(x, Magnitude(m) as real) ==> n % 2 == 0
      {
        if m < n {
          if m < n - 1 { Increasing(m, n - 1); }
          Increasing(n - 1, n);
        } else if m > n {
          if m > n + 1 { Increasing(n + 1, m); }
          Increasing(n, n + 1);
        }
      }
    }
  }

  /** Rounding to nearest even is a function: no number reads as two doubles. */
  lemma NearestUnique(x: real, n: Bits, m: Bits)
    requires Nearest(x, n) && Nearest(x, m)
    ensures n == m
  {
    if n < m { NearestOrdered(x, n, m); }
    if m < n { NearestOrdered(x, m, n); }
  }

  lemma NearestOrdered(x: real, n: Bits, m: Bits)
    requires Nearest(x, n) && n < m
    ensures !Nearest(x, m)
  {
    hide Magnitude;
    Increasing(n, n + 1);
    if n + 1 < m { Increasing(n + 1, m); }
    var dn, dm := Dist(x, Magnitude(n) as real), Dist(x, Magnitude(m) as real);
    assert dn <= Dist(x, Magnitude(n + 1) as real);
    assert dn <= dm && (dn == dm ==> n % 2 == 0);
  }
}
