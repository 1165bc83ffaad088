/** dtoa in mode 2 past its floating-point shortcuts: correct rounding to a number of significant digits. */
module PreciseDigits {
  import opened Arith
  import opened Rational
  import opened Words
  import opened Bignum
  import opened Pow5
  import opened Ieee
  import opened DoubleBits
  import opened Decimal
  import opened FixedDigits
  import opened Scaling
  import opened ShortestDigits

  /** R is d in units of 10^e, to the nearest integer, ties to even. */
  ghost predicate NearestMultiple(R: int, e: int, d: real) {
    && 2.0 * Dist(d, DecimalValue(R, e)) <= RPow(10, e)
    && (2.0 * Dist(d, DecimalValue(R, e)) == RPow(10, e) ==> R % 2 == 0)
  }

  /** v is R units of 10^e, the place where d has the given number of significant digits, and nearest to d. */
  ghost predicate RoundedAt(v: real, precision: nat, d: real, R: int, e: int) {
    RPow(10, e + precision - 1) <= d < RPow(10, e + precision) && v == DecimalValue(R, e) && NearestMultiple(R, e, d)
  }

  /** v is d rounded half even to a number of significant digits, counted from d's own first digit. */
  ghost predicate RoundedValue(v: real, precision: nat, d: real) {
    exists R: int, e: int :: RoundedAt(v, precision, d, R, e)
  }

  /** The digits are d correctly rounded to ilim significant digits, trailing zeros suppressed. */
  ghost predicate RoundedTo(d: real, ilim: nat, digits: seq<char>, k: int) {
    && digits != [] && AllDigits(digits) && digits[0] != '0' && digits[|digits| - 1] != '0' && |digits| <= ilim
    && RoundedValue(Printed(digits, k), ilim, d)
  }

  /** Rounding to even with the products as reals. */
  lemma HalfEvenCast(R: int, N: int, S: int)
    requires HalfEven(R, N, S)
    ensures var u := (N as real) - (R as real) * (S as real);
            && 2.0 * u <= S as real && -2.0 * u <= S as real
            && (2.0 * u == S as real || -2.0 * u == S as real ==> R % 2 == 0)
  {
    CastMul(R, S);
    HalfEvenLinear(R, N, S, R * S);
  }

  lemma HalfEvenLinear(R: int, N: int, S: int, RS: int)
    requires RS == R * S && HalfEven(R, N, S)
    ensures var u := (N as real) - (RS as real);
            && 2.0 * u <= S as real && -2.0 * u <= S as real
            && (2.0 * u == S as real || -2.0 * u == S as real ==> R % 2 == 0)
  {
    assert (N as real) - (RS as real) == (N - RS) as real;
  }

  /** The integer rounding is the rounding of d on the grid 10^(k - m). */
  lemma HalfEvenReal(R: int, B: nat, S: nat, k: int, m: nat, d: real)
    requires S > 0 && Ratio(B, S, k, d) && HalfEven(R, B * Pow(10, m), S)
    ensures NearestMultiple(R, k - m, d)
  {
    hide RPow, Pow, HalfEven;
    HalfEvenCast(R, B * Pow(10, m), S);
    CastMul(B, Pow(10, m));
    RPowPos(10, k - m);
    PowPos(10, m);
    RPowAdd(10, k - m, m);
    NatRPow(10, m);
    HalfReal(B as real, R as real, S as real, Pow(10, m) as real, RPow(10, k), RPow(10, k - m), d);
  }

  /** 2 |B t - R S| against S is 2 |d - R q| against q, where p = q t and B p = S d. */
  lemma HalfReal(B: real, R: real, S: real, t: real, p: real, q: real, d: real)
    requires S > 0.0 && t > 0.0 && q > 0.0 && p == q * t && B * p == S * d
    ensures 2.0 * (B * t - R * S) <= S <==> 2.0 * (d - R * q) <= q
    ensures 2.0 * (B * t - R * S) == S <==> 2.0 * (d - R * q) == q
    ensures 2.0 * (R * S - B * t) <= S <==> 2.0 * (R * q - d) <= q
    ensures 2.0 * (R * S - B * t) == S <==> 2.0 * (R * q - d) == q
  {
    var u := B * t - R * S;
    assert q * u == S * (d - R * q) by {
      assert q * (B * t) == B * (q * t);
      assert q * (R * S) == S * (R * q);
    }
    HalfSide(q, u, S, d - R * q);
    HalfSide(q, -u, S, R * q - d);
  }

  lemma HalfSide(q: real, u: real, S: real, y: real)
    requires q > 0.0 && S > 0.0 && q * u == S * y
    ensures 2.0 * u <= S <==> 2.0 * y <= q
    ensures 2.0 * u == S <==> 2.0 * y == q
  {
    assert q * (2.0 * u) == S * (2.0 * y);
    CancelBoth(q, 2.0 * u, S, S, 2.0 * y, q);
  }

  lemma RoundedReal(B: nat, S: nat, ilim: nat, digits: seq<char>, kf: int, k: int, d: real)
    requires S > 0 && Ratio(B, S, kf, d) && RPow(10, kf) <= d < RPow(10, kf + 1)
    requires Rounded(B, S, ilim, digits, kf, k)
    ensures RoundedTo(d, ilim, digits, k)
  {
    hide RPow, Pow, DigitsVal, Ratio, NearestMultiple, HalfEven, DecimalValue;
    var D, n := DigitsVal(digits), |digits|;
    var R := D * Pow(10, k - kf) * Pow(10, ilim - n);
    HalfEvenReal(R, B, S, kf, ilim - 1, d);
    PrintedIs(D, n, ilim, kf, k);
    assert kf - (ilim - 1) == kf - ilim + 1;
    assert RoundedAt(Printed(digits, k), ilim, d, R, kf - ilim + 1);
  }

  /** The digits printed, padded to ilim places. */
  lemma PrintedIs(D: nat, n: nat, ilim: nat, kf: int, k: int)
    requires kf <= k && n <= ilim
    ensures DecimalValue(D, k - n + 1) == DecimalValue(D * Pow(10, k - kf) * Pow(10, ilim - n), kf - ilim + 1)
  {
    hide Pow, RPow;
    CoarseValue(D * Pow(10, k - kf), kf - ilim + 1, ilim - n);
    CoarseValue(D, kf - n + 1, k - kf);
    assert kf - n + 1 == kf - ilim + 1 + (ilim - n);
    assert kf - n + 1 + (k - kf) == k - n + 1;
  }

  /**
   dtoa in mode 2 (ndigits >= 1), given the estimate k0: s receives the double correctly
   rounded to ndigits significant digits, the first of weight 10^k.
   */
  method DtoaPrecise(w0: Word, w1: Word, ndigits: nat, k0: int, kCheck: bool, cache: Cache, s: array<char>)
    returns (n: nat, k: int)
    requires w0 < 0x7ff0_0000 && Join(w0, w1) > 0 && cache.Valid() && 1 <= ndigits < s.Length
    requires Estimate(k0, kCheck, DoubleValue(Join(w0, w1))) && s !in cache.Repr
    modifies cache.Repr, s
    ensures cache.Valid() && fresh(cache.Repr - old(cache.Repr))
    ensures n <= ndigits && RoundedTo(DoubleValue(Join(w0, w1)), ndigits, s[..n], k)
  {
    hide Pow, RPow, Value, Ratio, DoubleValue, Bigint.Val, Cache.Valid, Cache.Node, Estimate, Rounded, RoundedTo;
    ghost var d := DoubleValue(Join(w0, w1));
    var b, S, mlo, mhi;
    b, S, mlo, mhi, k := Scale(w0, w1, k0, kCheck, false, cache);
    ghost var kf, vb, vS := k, b.Val(), S.Val();
    n, k := FixedFormat(b, S, ndigits, k, s);
    RoundedReal(vb, vS, ndigits, s[..n], kf, k, d);
  }
}
