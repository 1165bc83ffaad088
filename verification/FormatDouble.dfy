/** dtoa and fpconv_g_fmt together: the text of a double denotes it correctly rounded, and short decimals survive. */
module FormatDoubles {
  import opened Arith
  import opened Rational
  import opened Words
  import opened Pow5
  import opened Ieee
  import opened DoubleBits
  import opened Decimal
  import opened Scaling
  import opened ShortestDigits
  import opened PreciseDigits
  import opened StrBufs
  import opened JsonStrings
  import opened NumberGrammar
  import opened Scanner
  import opened ScanNumber
  import opened GFmt

  // ----- the range of decimal exponents -----

  lemma {:induction false} EightTen(n: nat)
    ensures Pow(2, 3 * n) <= Pow(10, n)
  {
    if n > 0 {
      EightTen(n - 1);
      PowAdd(2, 3, 3 * (n - 1));
      assert Pow(2, 3) == 8 by { PowUnit(2); }
      PowStep(10, n - 1);
    }
  }

  lemma TenBeyond(n: nat)
    ensures RPow(10, n) >= RPow(2, 3 * n) && RPow(10, 0 - n) <= RPow(2, 0 - 3 * n)
  {
    hide Pow, RPow;
    EightTen(n);
    NatRPow(10, n);
    NatRPow(2, 3 * n);
    RPowInverse(10, n);
    RPowInverse(2, 3 * n);
    RPowPos(10, 0 - n);
    PowPos(2, 3 * n);
    Inverses(RPow(10, n), RPow(10, 0 - n), RPow(2, 3 * n), RPow(2, 0 - 3 * n));
  }

  lemma Inverses(a: real, b: real, c: real, d: real)
    requires a >= c > 0.0 && b > 0.0 && a * b == 1.0 && c * d == 1.0
    ensures b <= d
  {
    RMulMono(b, c, a);
    RCancel(c, b, d);
  }

  lemma DoubleRange(n: Bits)
    requires 0 < n < INFINITY
    ensures RPow(2, -1074) <= DoubleValue(n) < RPow(2, 1024)
  {
    hide Pow, RPow, Magnitude;
    RPowPos(2, -1074);
    Increasing(0, n);
    Increasing(n, INFINITY);
    assert Magnitude(0) == 0 by { ZeroMagnitude(); }
    InfinityMagnitude();
    NatRPow(2, 2098);
    RPowAdd(2, 2098, -1074);
    var m, top := Magnitude(n), Pow(2, 2098);
    assert RPow(2, 1024) == (top as real) * RPow(2, -1074);
    UnitRange(m, top, RPow(2, -1074));
    assert DoubleValue(n) == (m as real) * RPow(2, -1074);
  }

  lemma UnitRange(m: int, top: int, u: real)
    requires 1 <= m < top && u > 0.0
    ensures u <= (m as real) * u < (top as real) * u
  {
    Between(1.0, m as real, top as real, u);
  }

  lemma Between(a: real, b: real, c: real, u: real)
    requires a <= b < c && u > 0.0
    ensures a * u <= b * u < c * u
  {
  }

  lemma ZeroMagnitude()
    ensures Magnitude(0) == 0
  {
  }

  lemma DigitRange(d: real, k: int)
    requires RPow(2, -1074) <= d < RPow(2, 1024) && RPow(10, k) <= d < RPow(10, k + 1)
    ensures -400 < k < 400
  {
    hide RPow;
    if k >= 400 {
      TenBeyond(400);
      RPowMono(10, 400, k);
      RPowMono(2, 1024, 1200);
    } else if k <= -400 {
      TenBeyond(399);
      RPowMono(10, k + 1, -399);
      RPowMono(2, -1197, -1074);
    }
  }

  /** The first digit has weight 10^k. */
  lemma PrintedRange(digits: seq<char>, k: int)
    requires digits != [] && AllDigits(digits) && digits[0] != '0'
    ensures RPow(10, k) <= Printed(digits, k) < RPow(10, k + 1)
  {
    hide Pow, RPow, DigitsVal;
    var n, u := |digits|, RPow(10, k - |digits| + 1);
    DigitsLead(digits);
    DigitsBound(digits);
    RPowPos(10, k - n + 1);
    NatRPow(10, n - 1);
    NatRPow(10, n);
    RPowAdd(10, n - 1, k - n + 1);
    RPowAdd(10, n, k - n + 1);
    assert n - 1 + (k - n + 1) == k && n + (k - n + 1) == k + 1;
    Between(Pow(10, n - 1) as real, DigitsVal(digits) as real, Pow(10, n) as real, u);
  }

  /** Rounding moves the first digit by at most one place. */
  lemma RoundedRange(v: real, precision: nat, d: real, R: int, e: int, k: int)
    requires precision >= 1 && RoundedAt(v, precision, d, R, e) && RPow(10, k) <= v < RPow(10, k + 1)
    ensures e + precision - 2 <= k <= e + precision
  {
    hide RPow, DecimalValue;
    var f := e + precision - 1;
    RPowMono(10, e, f);
    RPowSucc(10, f - 1);
    RPowSucc(10, f);
    RPowSucc(10, f + 1);
    RPowPos(10, f - 1);
    if k > f + 1 { RPowMono(10, f + 2, k); }
    if k < f - 1 { RPowMono(10, k + 1, f - 1); }
  }

  lemma ExponentRange(n: Bits, precision: nat, digits: seq<char>, k: int)
    requires 0 < n < INFINITY && precision >= 1 && RoundedTo(DoubleValue(n), precision, digits, k)
    ensures -400 <= k <= 400
  {
    hide RPow, DoubleValue, RoundedAt, Printed;
    var d := DoubleValue(n);
    var R, e :| RoundedAt(Printed(digits, k), precision, d, R, e);
    PrintedRange(digits, k);
    RoundedRange(Printed(digits, k), precision, d, R, e, k);
    DoubleRange(n);
    RoundedSize(Printed(digits, k), precision, d, R, e);
    DigitRange(d, e + precision - 1);
  }

  lemma RoundedSize(v: real, precision: nat, d: real, R: int, e: int)
    requires RoundedAt(v, precision, d, R, e)
    ensures RPow(10, e + precision - 1) <= d < RPow(10, e + precision)
  {
  }

  // ----- formatting -----

  /** Where a number v is written with an exponent: below 10^-4, and from the precision's power of ten on. */
  ghost predicate Scientific(v: real, precision: nat) { v < RPow(10, -4) || v >= RPow(10, precision) }

  /**
   The exponent, if there is one, has a sign and at least two digits and follows a single digit before the point; no
   fraction ends in zero.
   */
  ghost predicate Shaped(text: Bytes, num: Number)
    requires num.Decimal?
  {
    && (num.fp != [] ==> num.fp[|num.fp| - 1] != '0')
    && ('e' in text ==> |num.ip| == 1 && num.ip != "0" && exists k :: TailAt(text, k))
  }

  predicate TailAt(text: Bytes, k: nat) {
    && k + 4 <= |text| && text[k] == 'e' && (text[k + 1] == '+' || text[k + 1] == '-') && AllDigits(text[k + 2..])
    && (|text| > k + 4 ==> text[k + 2] != '0')
  }

  /** text is a JSON number, read as a whole, with the sign, and denoting d rounded half even. */
  ghost predicate Prints(text: Bytes, sign: bool, d: real, precision: nat) {
    var num := Greedy(text);
    && JsonNumber(text) && num.Decimal? && num.negative == sign && num.len == |text|
    && (if d == 0.0 then NumberValue(num) == 0.0
        else RoundedValue(NumberValue(num), precision, d) && ('e' in text <==> Scientific(NumberValue(num), precision))
             && Shaped(text, num))
  }

  lemma NoLetter(s: Bytes)
    requires AllDigits(s)
    ensures 'e' !in s && 'e' !in "." && 'e' !in "0." && 'e' !in "-" && 'e' !in ""
  {
  }

  /** The layout with an exponent is the one with the letter. */
  lemma LetterIn(d: Bytes, decpt: int, precision: nat, t: Bytes)
    requires FromDtoa(d, decpt) && precision >= 1
    ensures 'e' in Layout(d, decpt, precision, t) <==> Exponential(decpt, precision)
  {
    hide Exponential, Parts, PointText, ExpText;
    LayoutParts(d, decpt, precision, t);
    PartsSome(d, decpt, precision);
    var (ip, fp, e) := Parts(d, decpt, precision);
    NoLetter(ip);
    NoLetter(fp);
    LetterText(fp, e, Exponential(decpt, precision), t);
  }

  lemma LetterText(fp: Bytes, e: int, exponential: bool, t: Bytes)
    requires AllDigits(fp)
    ensures 'e' !in PointText(fp) && ('e' in ExpText(e, exponential, t) <==> exponential)
  {
    NoLetter(fp);
    if exponential { assert ExpText(e, exponential, t)[0] == 'e'; }
  }

  /** It is chosen by the size of the number. */
  lemma ExponentChosen(text: Bytes, sign: bool, d: Bytes, decpt: int, precision: nat, t: Bytes)
    requires FromDtoa(d, decpt) && d[0] != '0' && precision >= 1
    requires text == (if sign then "-" else "") + Layout(d, decpt, precision, t)
    ensures 'e' in text <==> Scientific(DecimalValue(DigitsVal(d), decpt - |d|), precision)
  {
    hide RPow, Layout, DigitsVal, DecimalValue;
    LetterIn(d, decpt, precision, t);
    NoLetter([]);
    PrintedRange(d, decpt - 1);
    assert Printed(d, decpt - 1) == DecimalValue(DigitsVal(d), decpt - |d|);
    if decpt <= -4 { RPowMono(10, decpt, -4); } else { RPowMono(10, -4, decpt - 1); }
    if decpt > precision { RPowMono(10, precision, decpt - 1); } else { RPowMono(10, decpt, precision); }
  }

  lemma Denotes(text: Bytes, sign: bool, d: Bytes, decpt: int, precision: nat, t: Bytes)
    requires FromDtoa(d, decpt) && precision >= 1 && text == (if sign then "-" else "") + Layout(d, decpt, precision, t)
    requires Exponential(decpt, precision) ==> IsExponent(t, Magnify(decpt - 1))
    ensures var num := Greedy(text);
            && JsonNumber(text) && num.Decimal? && num.negative == sign && num.len == |text|
            && NumberValue(num) == DecimalValue(DigitsVal(d), decpt - |d|)
  {
    hide DigitsVal, DecimalValue, Layout, Greedy, JsonNumber, Exponential, IsExponent, Parts;
    FormatIsJson(sign, d, decpt, precision, t);
    FormatRescans(sign, d, decpt, precision, t, []);
    assert text + [] == text;
    PartsValue(d, decpt, precision);
  }

  /** dtoa's digits end in none that is superfluous, and so do the parts. */
  lemma TextShaped(text: Bytes, sign: bool, d: Bytes, decpt: int, precision: nat, t: Bytes)
    requires FromDtoa(d, decpt) && d[0] != '0' && d[|d| - 1] != '0' && precision >= 1
    requires text == (if sign then "-" else "") + Layout(d, decpt, precision, t)
    requires Exponential(decpt, precision) ==> IsExponent(t, Magnify(decpt - 1))
    ensures Greedy(text).Decimal? && Shaped(text, Greedy(text))
  {
    hide DigitsVal, Layout, Greedy, Exponential, IsExponent, PointText;
    FormatRescans(sign, d, decpt, precision, t, []);
    assert text + [] == text;
    var (ip, fp, e) := Parts(d, decpt, precision);
    LetterIn(d, decpt, precision, t);
    NoLetter([]);
    if Exponential(decpt, precision) {
      LayoutParts(d, decpt, precision, t);
      ExponentTail(t, e);
      TailPlace(if sign then "-" else "", ip + PointText(fp), if e < 0 then '-' else '+', t, text);
    }
  }

  lemma TailPlace(minus: Bytes, body: Bytes, sign: Byte, t: Bytes, text: Bytes)
    requires text == minus + (body + ("e" + [sign] + t)) && (sign == '+' || sign == '-')
    requires AllDigits(t) && |t| >= 2 && (|t| > 2 ==> t[0] != '0')
    ensures exists k :: TailAt(text, k)
  {
    var k := |minus + body|;
    assert text == (minus + body) + ("e" + [sign] + t);
    TailHere(text, k, sign, t);
  }

  lemma ExponentTail(t: Bytes, e: int)
    requires IsExponent(t, Magnify(e))
    ensures AllDigits(t) && |t| >= 2 && (|t| > 2 ==> t[0] != '0')
  {
    hide DigitsVal;
  }

  lemma TailHere(text: Bytes, k: nat, sign: Byte, t: Bytes)
    requires k <= |text| && text[k..] == "e" + [sign] + t && (sign == '+' || sign == '-')
    requires AllDigits(t) && |t| >= 2 && (|t| > 2 ==> t[0] != '0')
    ensures TailAt(text, k)
  {
    assert text[k] == text[k..][0] && text[k + 1] == text[k..][1] && text[k + 2..] == text[k..][2..] == t;
    assert text[k + 2] == t[0];
  }

  lemma ZeroValue(e: int)
    ensures DecimalValue(DigitsVal("0"), e) == 0.0
  {
    assert "0"[..0] == [];
  }

  /** The text of a finite double: its magnitude's words go to dtoa in mode 2, and the digits to the layout. */
  method FormatDouble(b: array<Byte>, sign: bool, w0: Word, w1: Word, precision: nat, k0: int, kCheck: bool,
      cache: Cache)
    returns (len: nat)
    requires w0 < 0x7ff0_0000 && 1 <= precision && precision + 8 < b.Length && cache.Valid() && b !in cache.Repr
    requires Join(w0, w1) > 0 ==> Estimate(k0, kCheck, DoubleValue(Join(w0, w1)))
    modifies b, cache.Repr
    ensures cache.Valid() && fresh(cache.Repr - old(cache.Repr))
    ensures len < b.Length && b[len] == '\0' && Prints(b[..len], sign, DoubleValue(Join(w0, w1)), precision)
  {
    hide Pow, RPow, DoubleValue, Estimate, Cache.Valid, Layout, Exponential, IsExponent, JsonNumber, DigitsVal;
    hide DecimalValue;
    hide Greedy, RoundedValue;
    var d, decpt := "0", 1;
    if w0 == 0 && w1 == 0 {
      ZeroDouble();
      ZeroValue(0);
    } else {
      var s := new char[precision + 1];
      var n, k := DtoaPrecise(w0, w1, precision, k0, kCheck, cache, s);
      d, decpt := s[..n], k + 1;
      ExponentRange(Join(w0, w1), precision, d, k);
      DoubleRange(Join(w0, w1));
      RPowPos(2, -1074);
    }
    ghost var t;
    len, t := Format(b, sign, d, decpt, precision);
    Denotes(b[..len], sign, d, decpt, precision, t);
    if d[0] != '0' {
      ExponentChosen(b[..len], sign, d, decpt, precision, t);
      TextShaped(b[..len], sign, d, decpt, precision, t);
    }
  }

  lemma ZeroDouble()
    ensures DoubleValue(0) == 0.0
  {
    ZeroMagnitude();
  }

  // ----- short decimals survive -----

  /** A normalized double is closer than 2^-53 of itself to what reads as it. */
  lemma CloseTo(x: real, n: Bits)
    requires HIDDEN <= n < INFINITY && ReadsAs(x, n)
    ensures 9007199254740992.0 * Dist(x, DoubleValue(n)) <= DoubleValue(n)
  {
    hide RPow, DoubleValue, ReadsAs, HalfGapUp, HalfGapDown;
    ReadsAsIff(x, n);
    GapRange(n);
    NormalGaps(n);
  }

  lemma NormalGaps(n: Bits)
    requires HIDDEN <= n < INFINITY
    ensures 9007199254740992.0 * RPow(2, HalfGapUp(n)) <= DoubleValue(n)
  {
    hide RPow, DoubleValue, HalfGapUp, HalfGapDown;
    ValueInGaps(n);
    RPowPos(2, HalfGapUp(n));
    assert Ieee.Mantissa(n) >= HIDDEN;
    RMulMono(RPow(2, HalfGapUp(n)), 9007199254740992.0, (2 * Ieee.Mantissa(n)) as real);
  }

  /** At most 15 digits cannot end below the last place of so near a double. */
  lemma NotFiner(D: int, P: int, u: real, x: real, d: real)
    requires 0 < D < P <= 1_000_000_000_000_000 && u > 0.0 && x == (D as real) * u && (P as real) * u <= d
    ensures 9007199254740992.0 * Dist(x, d) > d
  {
    assert ((P - 1) as real) * u == (P as real) * u - u;
    RMulMono(u, D as real, (P - 1) as real);
    RMulMono(u, P as real, 1000000000000000.0);
    FarBelow((D as real) * u, (P as real) * u, u, d);
  }

  lemma FarBelow(x: real, y: real, u: real, d: real)
    requires 0.0 < u && x <= y - u && y <= 1000000000000000.0 * u && y <= d
    ensures 9007199254740992.0 * Dist(x, d) > d
  {
  }

  lemma GridGap(N: int, R: int, q: real, x: real, v: real)
    requires q > 0.0 && x == (N as real) * q && v == (R as real) * q
    ensures x == v || Dist(x, v) >= q
  {
    if N < R { GridStep(N as real, R as real, q, x, v); }
    if R < N { GridStep(R as real, N as real, q, v, x); }
  }

  lemma GridStep(a: real, b: real, q: real, x: real, v: real)
    requires q > 0.0 && a + 1.0 <= b && x == a * q && v == b * q
    ensures x + q <= v
  {
    assert v - x == (b - a) * q;
    RMulMono(q, 1.0, b - a);
  }

  lemma Nearby(x: real, v: real, d: real, y: real, q: real)
    requires q > 0.0 && 0.0 < d < y <= 1000000000000000.0 * q
    requires 9007199254740992.0 * Dist(x, d) <= d && 2.0 * Dist(d, v) <= q
    ensures Dist(x, v) < q
  {
  }

  /** On the same grid, the nearest grid point is the number itself. */
  lemma SameGrid(N: int, R: int, P: int, q: real, x: real, v: real, d: real)
    requires q > 0.0 && x == (N as real) * q && v == (R as real) * q && 0 < P <= 1_000_000_000_000_000
    requires 0.0 < d < (P as real) * q && 9007199254740992.0 * Dist(x, d) <= d && 2.0 * Dist(d, v) <= q
    ensures x == v
  {
    RMulMono(q, P as real, 1000000000000000.0);
    Nearby(x, v, d, (P as real) * q, q);
    GridGap(N, R, q, x, v);
  }

  lemma AtMost15(precision: nat)
    requires precision <= 15
    ensures Pow(10, precision) <= 1_000_000_000_000_000
  {
    PowMono(10, precision, 15);
    assert Pow(10, 5) == 100_000;
    PowAdd(10, 5, 5);
    PowAdd(10, 10, 5);
  }

  /**
   A decimal with no more significant digits than the precision, at most 15, that reads as a normalized double
   is what that double's text denotes.
   */
  lemma DecimalSurvives(D: nat, e: int, n: Bits, v: real, precision: nat)
    requires precision <= 15 && 0 < D < Pow(10, precision) && HIDDEN <= n < INFINITY
    requires ReadsAs(DecimalValue(D, e), n) && RoundedValue(v, precision, DoubleValue(n))
    ensures v == DecimalValue(D, e)
  {
    hide Pow, RPow, DoubleValue, ReadsAs, DecimalValue, RoundedAt;
    var x, d := DecimalValue(D, e), DoubleValue(n);
    var R, g :| RoundedAt(v, precision, d, R, g);
    CloseTo(x, n);
    AtMost15(precision);
    PowPos(10, precision);
    if e < g { BelowGrid(D, e, v, precision, d, R, g); } else { OnGrid(D, e, v, precision, d, R, g); }
  }

  /** The last place of the decimal is below that of the double: it is too far from it. */
  lemma BelowGrid(D: nat, e: int, v: real, precision: nat, d: real, R: int, g: int)
    requires e < g && 0 < D < Pow(10, precision) <= 1_000_000_000_000_000 && RoundedAt(v, precision, d, R, g)
    ensures 9007199254740992.0 * Dist(DecimalValue(D, e), d) > d
  {
    hide Pow, RPow;
    RPowPos(10, e);
    NatRPow(10, precision);
    RPowAdd(10, precision, e);
    RPowMono(10, precision + e, g + precision - 1);
    NotFiner(D, Pow(10, precision), RPow(10, e), DecimalValue(D, e), d);
  }

  lemma OnGrid(D: nat, e: int, v: real, precision: nat, d: real, R: int, g: int)
    requires e >= g && 0 < Pow(10, precision) <= 1_000_000_000_000_000 && RoundedAt(v, precision, d, R, g)
    requires 9007199254740992.0 * Dist(DecimalValue(D, e), d) <= d
    ensures v == DecimalValue(D, e)
  {
    hide Pow, RPow;
    RPowPos(10, g);
    NatRPow(10, precision);
    RPowAdd(10, precision, g);
    RPowPos(10, g + precision - 1);
    CoarseValue(D, g, e - g);
    assert g + (e - g) == e;
    SameGrid(D * Pow(10, e - g), R, Pow(10, precision), RPow(10, g), DecimalValue(D, e), v, d);
  }
}
