/** Shortest digit generation: what the stopping tests of dtoa mean for the decimal produced. */
module FreeTheory {
  import opened Arith

  /**
   The interval [b/S - lo/S, b/S + hi/S], ends included when closed. Grid point r / t lies
   in it; all quantities are cleared of denominators.
   */
  datatype Interval = Interval(b: nat, S: nat, lo: nat, hi: nat, closed: bool) {
    ghost predicate Proper() {
      0 < lo < b && 0 < hi && S <= b < 10 * S
    }

    ghost predicate Below(r: int, t: nat) {
      b * t - r * S < lo * t || (b * t - r * S == lo * t && closed)
    }

    ghost predicate Above(r: int, t: nat) {
      r * S - b * t < hi * t || (r * S - b * t == hi * t && closed)
    }

    ghost predicate Has(r: int, t: nat) {
      Below(r, t) && Above(r, t)
    }

    /** Distance of r / t from b / S, times S t. */
    ghost function Off(r: int, t: nat): nat {
      if r * S < b * t then b * t - r * S else r * S - b * t
    }

    /** No grid point of the same denominator in the interval is closer. */
    ghost predicate Closest(r: int, t: nat) {
      forall q: int {:trigger Has(q, t)} :: Has(q, t) ==> Off(r, t) <= Off(q, t)
    }

    /** N * 10^-f lies in the interval. */
    ghost predicate HasDecimal(N: nat, f: int) {
      if f >= 0 then Has(N, Pow(10, f)) else Has(N * Pow(10, -f), 1)
    }
  }

  /** Both grid neighbours of b t / S miss the interval, so every grid point does. */
  ghost predicate Beyond(rem: int, S: int, lo: int, hi: int, closed: bool) {
    && (lo < rem || (lo == rem && !closed))
    && (rem + hi < S || (rem + hi == S && !closed))
  }

  lemma NoneOnGrid(v: Interval, t: nat, D: int, rem: int, r: int)
    requires v.b * t == D * v.S + rem && 0 <= rem < v.S && t > 0
    requires Beyond(rem, v.S, v.lo * t, v.hi * t, v.closed)
    ensures !v.Has(r, t)
  {
    if r <= D { MulMono(v.S, r, D); } else { MulMono(v.S, D + 1, r); }
  }

  /** Refining the grid keeps the point. */
  lemma ScaledSide(x: int, y: int, z: int, m: nat)
    requires m > 0
    ensures x * m - y * m < z * m <==> x - y < z
    ensures x * m - y * m == z * m <==> x - y == z
  {
    assert (x - y) * m == x * m - y * m;
    MulCancel(m, x - y, z);
    MulComm(m, x - y);
    MulComm(m, z);
  }

  lemma Refine(v: Interval, r: int, t: nat, m: nat)
    requires v.Has(r, t) && m > 0
    ensures v.Has(r * m, t * m)
  {
    MulAssoc(v.b, t, m);
    MulAssoc(v.lo, t, m);
    MulAssoc(v.hi, t, m);
    MulAssoc(m, r, v.S);
    MulComm(m, r);
    MulComm(m, r * v.S);
    ScaledSide(v.b * t, r * v.S, v.lo * t, m);
    ScaledSide(r * v.S, v.b * t, v.hi * t, m);
  }

  /** The first grid, of whole units: if v has any point below 1 then 1 itself is in v. */
  lemma OneIfLess(v: Interval, N: nat, t: nat)
    requires v.Proper() && v.Has(N, t) && N < t
    ensures v.Has(1, 1)
  {
    MulMonoStrict(v.S, N, t);
    assert (v.b - v.S) * t < v.lo * t by {
      assert (v.b - v.S) * t == v.b * t - t * v.S;
    }
    MulCancel(t, v.b - v.S, v.lo);
  }

  /** A decimal of few digits in the interval puts a point of the coarser grid 10^-m into it. */
  lemma OnCoarseGrid(v: Interval, m: nat, N: nat, f: int) returns (r: int)
    requires v.Proper() && N < Pow(10, m + 1) && v.HasDecimal(N, f)
    ensures v.Has(r, Pow(10, m))
  {
    PowPos(10, m);
    if f <= m {
      var t := if f >= 0 then Pow(10, f) else 1;
      var q := if f >= 0 then N else N * Pow(10, -f);
      var g := if f >= 0 then m - f else m;
      PowPos(10, g);
      Refine(v, q, t, Pow(10, g));
      if f >= 0 { PowAdd(10, f, g); }
      r := q * Pow(10, g);
    } else {
      PowMono(10, m + 1, f);
      OneIfLess(v, N, Pow(10, f));
      Refine(v, 1, 1, Pow(10, m));
      r := 1 * Pow(10, m);
    }
  }

  /**
   Shortness. If the grid of denominator 10^(n-2) misses the interval, so does every
   decimal of fewer than n digits.
   */
  lemma NoShorter(v: Interval, n: nat, N: nat, f: int)
    requires v.Proper() && n >= 1 && N < Pow(10, n - 1)
    requires n >= 2 ==> forall r: int {:trigger v.Has(r, Pow(10, n - 2))} :: !v.Has(r, Pow(10, n - 2))
    ensures !v.HasDecimal(N, f)
  {
    if v.HasDecimal(N, f) {
      if n == 1 {
        if f >= 0 { PowPos(10, f); }
        NotZero(v, if f >= 0 then Pow(10, f) else 1);
      } else {
        var r := OnCoarseGrid(v, n - 2, N, f);
      }
      assert false;
    }
  }

  lemma NotZero(v: Interval, t: nat)
    requires v.Proper() && t > 0
    ensures !v.Has(0, t)
  {
    MulMonoStrict(t, v.lo, v.b);
  }

  /** Which of the two grid neighbours the stopping tests choose. */
  datatype Choice = Next | Keep | Up

  /**
   What each choice must satisfy, for remainder rem after digit dig: Keep and Up stay in
   the interval and take the nearer neighbour when both lie in it, except that a final '9'
   whose successor lies exactly on the upper end is rounded up regardless.
   */
  ghost predicate Sound(c: Choice, rem: int, S: int, lo: int, hi: int, closed: bool, dig: int) {
    var below := rem < lo || (rem == lo && closed);
    var above := S - rem < hi || (S - rem == hi && closed);
    match c
    case Next => !below && !above
    case Keep => below && (above ==> rem <= S - rem)
    case Up => above && (below ==> S - rem <= rem || (dig == 9 && S - rem == hi && closed))
  }

  /** A sound Keep or Up gives a grid point of the interval, closest unless it is the rounded-up '9'. */
  lemma SoundResult(v: Interval, t: nat, D: int, rem: int, c: Choice, dig: int)
    requires v.Proper() && t > 0 && c != Next
    requires v.b * t == D * v.S + rem && 0 <= rem < v.S
    requires Sound(c, rem, v.S, v.lo * t, v.hi * t, v.closed, dig)
    ensures var r := if c == Up then D + 1 else D;
            v.Has(r, t) && (v.Closest(r, t) || (dig == 9 && c == Up && v.S - rem == v.hi * t && v.closed))
  {
    MulNonNeg(v.lo, t);
    MulNonNeg(v.hi, t);
    MulPos(v.lo, t);
    MulPos(v.hi, t);
    var r := if c == Up then D + 1 else D;
    assert (D + 1) * v.S == D * v.S + v.S;
    assert v.Has(r, t);
    forall q: int | v.Has(q, t)
      ensures v.Off(r, t) <= v.Off(q, t) || (dig == 9 && c == Up && v.S - rem == v.hi * t && v.closed)
    {
      if q < D { MulMono(v.S, q + 1, D); assert (q + 1) * v.S == q * v.S + v.S; }
      if q > D + 1 { MulMono(v.S, D + 2, q); assert (D + 2) * v.S == D * v.S + 2 * v.S; }
    }
  }

  /** A digit 9 after a continued remainder is never rounded up. */
  lemma NoNine(rem: int, S: int, lo: int, hi: int, closed: bool, c: Choice, prev: int)
    requires Beyond(prev, S, lo, hi, closed) && 10 * prev == 9 * S + rem
    requires Sound(c, rem, S, 10 * lo, 10 * hi, closed, 9)
    ensures c != Up
  {
  }
}
