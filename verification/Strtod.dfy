/** fpconv_strtod as a whole: scanner, first approximation, correction, and the final division. */
module Strtod {
  import opened Arith
  import opened Rational
  import opened Words
  import opened Pow5
  import opened Ieee
  import opened DoubleBits
  import opened Decimal
  import opened Scaling
  import opened ShortestDigits
  import opened ScaledDoubles
  import opened Unscaling
  import opened Correction
  import opened Refinement
  import opened CorrectionLoop
  import opened RelativeErrors
  import opened GrowingPowers
  import opened ShrinkingPowers
  import opened StartingPoint
  import opened Midpoint
  import opened JsonStrings
  import opened Scanner
  import opened ScanNumber
  import opened ReadBack
  import opened HexLiterals
  import opened LongDecimals

  /** The first sixteen digits, from the two words. */
  lemma HeadIsPrefix(c: seq<char>, k: nat)
    requires AllDigits(c) && c != [] && c[0] != '0' && k == Min(16, |c|)
    ensures 0 < Head(c) < 1_000_000_000 && 0 <= Second(c) < 10_000_000
    ensures HeadNumber(Head(c), Second(c), k) == DigitsVal(c[..k]) < Pow(10, k)
  {
    hide DigitsVal, Pow;
    var l := Min(9, |c|);
    HeadFits(c);
    SecondFits(c);
    PrefixPositive(c, l);
    DigitsBound(c[..k]);
    if k > 9 {
      assert c[..k] == c[..9] + c[9..k];
      DigitsConcat(c[..9], c[9..k]);
    } else {
      assert c[..k] == c[..l];
    }
  }

  /** X are the first sixteen digits, t those compared with, x all of them. */
  ghost predicate Leads(X: real, t: real, x: real) { 0.0 < X <= t <= x <= 1.00000000000001 * X }

  lemma HeadLeads(c: seq<char>, e: int, k: nat)
    requires AllDigits(c) && c != [] && c[0] != '0' && k == Min(16, |c|)
    ensures Leads(Tenfold(DigitsVal(c[..k]) as real, e + |c| - k), Taken(c, e), DecimalValue(DigitsVal(c), e))
    ensures |c| <= 16 ==> Tenfold(DigitsVal(c[..k]) as real, e + |c| - k) == DecimalValue(DigitsVal(c), e)
  {
    hide DigitsVal, Pow, RPow, DecimalValue, Prefix, Tenfold, Taken;
    PrefixPositive(c, k);
    PrefixTenfold(c, k, e);
    RPowPos(10, e + |c| - 1);
    if |c| <= 16 {
      assert c[..k] == c;
      TakenShort(c, e);
      PrefixWhole(c, e);
    } else {
      PrefixBounds(c, 16, e);
      RPowAdd(10, 15, e + |c| - 16);
      NatRPow(10, 15);
      FifteenDigits();
      TakenBetween(c, e);
    }
  }

  lemma PrefixTenfold(c: seq<char>, k: nat, e: int)
    requires k <= |c|
    ensures Prefix(c, k, e) == Tenfold(DigitsVal(c[..k]) as real, e + |c| - k)
  {
    hide RPow, DigitsVal;
  }

  lemma TakenShort(c: seq<char>, e: int)
    requires |c| <= 16
    ensures Taken(c, e) == DecimalValue(DigitsVal(c), e)
  {
  }

  lemma PrefixWhole(c: seq<char>, e: int)
    requires AllDigits(c) && c != [] && c[0] != '0'
    ensures Prefix(c, |c|, e) == DecimalValue(DigitsVal(c), e) > 0.0
  {
    hide DigitsVal, RPow;
    PrefixPositive(c, |c|);
    RPowPos(10, e);
    RMulMono(RPow(10, e), 1.0, DigitsVal(c) as real);
  }

  lemma TakenBetween(c: seq<char>, e: int)
    requires AllDigits(c) && |c| > 16 && c[0] != '0'
    ensures Prefix(c, 16, e) <= Taken(c, e) <= DecimalValue(DigitsVal(c), e)
  {
    hide DigitsVal, RPow, DecimalValue, Prefix;
    PrefixBounds(c, 16, e);
    if |c| > STRTOD_DIGLIM {
      PrefixBounds(c, 18, e);
      PrefixOfPrefix(c, e);
    }
  }

  lemma PrefixOfPrefix(c: seq<char>, e: int)
    requires AllDigits(c) && |c| > 18 && c[0] != '0'
    ensures Prefix(c, 16, e) <= Prefix(c, 18, e)
  {
    hide DigitsVal, RPow;
    var d := c[..18];
    assert d[..16] == c[..16];
    PrefixBounds(d, 16, e + |c| - 18);
  }

  /** The last nonzero one of the first k digits. */
  lemma {:induction false} LastNonzero(c: seq<char>, k: nat) returns (i: nat)
    requires 1 <= k <= |c| && c[0] != '0'
    ensures 1 <= i <= k && c[i - 1] != '0' && forall j :: i <= j < k ==> c[j] == '0'
  {
    if c[k - 1] != '0' {
      i := k;
    } else {
      i := LastNonzero(c, k - 1);
    }
  }

  /** Where digits are cut and the last of them matters, the decimal is little more than the cut one. */
  lemma CutApart(m: Mantissa, data: Bytes, e: int)
    requires Inside(m, data) && m.nd > STRTOD_DIGLIM && Clean(Digits(m, data), m.nz1, m.y) && m.nd - m.nz1 > 18
    ensures var c := Digits(m, data);
            var q := RPow(10, e + m.nd - 18);
            Cut(DecimalValue(DigitsVal(c), e), Taken(c, e), q) && RPow(10, NextPlace(m, e) + 1) <= q
  {
    hide RPow, Pow, DigitsVal, DecimalValue, Head, Digits, Cut, Taken;
    CountedLength(m, data);
    FirstNonzero(m, data);
    var i := LastNonzero(Digits(m, data), 18);
    CutFacts(m, data, e, i);
  }

  lemma FirstNonzero(m: Mantissa, data: Bytes)
    requires Inside(m, data) && Clean(Digits(m, data), m.nz1, m.y)
    ensures Digits(m, data) != [] && Digits(m, data)[0] != '0'
  {
    hide Head;
  }

  /** Past the range: infinity is right. */
  lemma BigAnswers(m: Mantissa, data: Bytes, e: int, X: real)
    requires Inside(m, data) && m.nd > 0 && Clean(Digits(m, data), m.nz1, m.y) && X >= RPow(2, 1024)
    requires var c := Digits(m, data); Leads(X, Taken(c, e), DecimalValue(DigitsVal(c), e))
    ensures var c := Digits(m, data); Answers(Overflow, 0, DecimalValue(DigitsVal(c), e), Misjudged(m, c, e))
  {
    hide RPow, DoubleValue, DigitsVal, DecimalValue, Digits, Taken, ReadsAs, Flawed, NextPlace, Clean;
    var c := Digits(m, data);
    var x, t := DecimalValue(DigitsVal(c), e), Taken(c, e);
    CountedLength(m, data);
    TopOfRange();
    InfiniteReads(x);
    if |c| > STRTOD_DIGLIM && |c| - m.nz1 > 18 {
      CutApart(m, data, e);
      OverAnswers(0, x, t, RPow(10, e + m.nd - 18), NextPlace(m, e));
    }
  }

  lemma TopOfRange()
    ensures DoubleValue(LARGEST) + RPow(2, HalfGapUp(LARGEST)) < RPow(2, 1024)
  {
    hide RPow, DoubleValue;
    LargestIs();
    NextValue(LARGEST);
    BinadeValue(2047);
    RPowPos(2, HalfGapUp(LARGEST));
  }

  /** Below it: zero is right. */
  lemma SmallAnswers(m: Mantissa, data: Bytes, e: int, X: real)
    requires Inside(m, data) && m.nd > 0 && Clean(Digits(m, data), m.nz1, m.y) && X <= 0.9 * RPow(2, -1075)
    requires var c := Digits(m, data); Leads(X, Taken(c, e), DecimalValue(DigitsVal(c), e))
    ensures var c := Digits(m, data); Answers(Accept(0, 0), SCALE, DecimalValue(DigitsVal(c), e), Misjudged(m, c, e))
  {
    hide RPow, DoubleValue, DigitsVal, DecimalValue, Digits, Taken, ReadsAs, Flawed, NextPlace, Clean;
    var c := Digits(m, data);
    var x, t := DecimalValue(DigitsVal(c), e), Taken(c, e);
    CountedLength(m, data);
    RPowPos(2, -1075);
    ZeroExact(SCALE);
    ZeroReads(x);
    if |c| > STRTOD_DIGLIM && |c| - m.nz1 > 18 {
      CutApart(m, data, e);
      GoneAnswers(SCALE, x, t, RPow(10, e + m.nd - 18), NextPlace(m, e));
    }
  }

  /** An approximation is one that the loop can start from. */
  lemma StartRight(n: Bits, scale: nat, w0: Word, w1: Word, X: real, t: real, x: real)
    requires Approximates(Guess(n, scale), X) && Leads(X, t, x) && w0 == n / BASE && w1 == n % BASE
    ensures Kept(w0, w1, scale) && Starting(UnscaledWords(w0, w1, scale), t, scale)
  {
    hide RPow, DoubleValue, Near, Unscaled, Held, Close, Suits, Share;
    if scale == 0 {
      StartUnscaled(n, X, t, x);
      ProductFields(n, w0, w1);
    } else {
      HeldBelow(n, scale);
      ProductFields(n, w0, w1);
      StartScaled(n, X, t, x);
    }
  }

  lemma StartUnscaled(n: Bits, X: real, t: real, x: real)
    requires Approximates(Guess(n, 0), X) && Leads(X, t, x)
    ensures ExpField(n) > 108 && Held(n, 0) && Unscaled(n, 0) == n && Close(3, n, t) && Suits(t, 0, n)
  {
    hide RPow, DoubleValue, Near, Share;
    RPowPos(2, -900);
    RPowMono(2, -910, -900);
    if Near(DoubleValue(n), X, 32) {
      NearEnough(DoubleValue(n), X, 32);
      NearClose(DoubleValue(n), X);
      RPowMono(2, -914, -901);
      RPowSucc(2, -901);
      FieldAtLeast(n, 109);
      FewUnits(n);
    } else {
      LargestIs();
      NextValue(LARGEST);
      BinadeValue(2047);
      FewUnits(LARGEST);
      ManyUnits(LARGEST);
      RPowSucc(2, 1024);
      RPowPos(2, 1024);
    }
    Fields(n);
  }

  lemma NearClose(v: real, x: real)
    requires Near(v, x, 32)
    ensures -0.0000000000001 * x <= v - x <= 0.0000000000001 * x
  {
    RMulMono(x, 1.0 + Share(32), 1.0000000000001);
    RMulMono(x, 0.9999999999999, 1.0 - Share(32));
  }

  lemma StartScaled(n: Bits, X: real, t: real, x: real)
    requires Approximates(Guess(n, SCALE), X) && Leads(X, t, x)
    ensures Close(3, Unscaled(n, SCALE), t) && Suits(t, SCALE, Unscaled(n, SCALE))
  {
    hide RPow, DoubleValue, Unscaled;
    var m := Unscaled(n, SCALE);
    UnscaledFields(n, SCALE);
    FewUnits(m);
    RPowMono(2, -1075, HalfGapUp(m));
    RPowSucc(2, -1075);
    RPowMono(2, -719, -700);
    RPowSucc(2, -720);
    RMulMono(X, Share(40), 0.0000000000001);
    Fields(n);
  }

  lemma DoneAnswers(n: Bits, m: Mantissa, c: seq<char>, e: int)
    requires Approximates(Done(n), DecimalValue(DigitsVal(c), e)) && |c| <= 15
    ensures n / BASE < BASE
    ensures Answers(Accept(n / BASE, n % BASE), 0, DecimalValue(DigitsVal(c), e), Misjudged(m, c, e))
  {
    hide RPow, DoubleValue, DigitsVal, ReadsAs;
    SplitWords(n);
    ProductFields(n, n / BASE, n % BASE);
    UnscaledIs(n);
    AboveExact(n, 0);
  }

  /** The correction from the scanned digits on. */
  method CorrectDigits(data: Bytes, m: Mantissa, e: int, shl32: Word, nearest: real -> Bits, cache: Cache)
    returns (r: Outcome, scale: nat)
    requires Inside(m, data) && m.nd > 0 && Placed(m) && Clean(Digits(m, data), m.nz1, m.y) && cache.Valid()
    requires Rounds(nearest) && m.z == Second(Digits(m, data))
    modifies cache.Repr
    ensures cache.Valid() && fresh(cache.Repr - old(cache.Repr)) && (scale == 0 || scale == SCALE)
    ensures var c := Digits(m, data); Answers(r, scale, DecimalValue(DigitsVal(c), e), Misjudged(m, c, e))
  {
    hide Pow, RPow, DoubleValue, DecimalValue, DigitsVal, Cache.Valid, Head, Second, HeadNumber, Tenfold;
    hide Digits, Answers, Taken, Unscaled, Starting, Leads, Misjudged, Kept, Near, Held;
    ghost var c := Digits(m, data);
    CountedLength(m, data);
    CleanDigits(m, data);
    FirstNonzero(m, data);
    HeadIsPrefix(c, Min(16, m.nd));
    HeadLeads(c, e, Min(16, m.nd));
    var s := Begin(m.y, m.z, m.nd, e, nearest);
    ghost var X := Tenfold(DigitsVal(c[..Min(16, m.nd)]) as real, e + m.nd - Min(16, m.nd));
    match s {
      case TooBig =>
        BigAnswers(m, data, e, X);
        return Overflow, 0;
      case TooSmall =>
        SmallAnswers(m, data, e, X);
        return Accept(0, 0), SCALE;
      case Done(n) =>
        DoneAnswers(n, m, c, e);
        return Accept(n / BASE, n % BASE), 0;
      case Guess(n, scale0) =>
        SplitWords(n);
        StartRight(n, scale0, n / BASE, n % BASE, X, Taken(c, e), DecimalValue(DigitsVal(c), e));
        scale := scale0;
        r := CorrectFrom(data, m, e, n / BASE, n % BASE, scale, shl32, nearest, cache);
    }
  }

  /** The end: a scaled result is multiplied by 2^-106. */
  method Finish(r: Outcome, scale: nat, nearest: real -> Bits) returns (n: Bits)
    requires Rounds(nearest) && Final(r, scale) && (scale == 0 || scale == SCALE)
    ensures n == Result(r, scale)
  {
    hide RPow, DoubleValue, ReadsAs, Unscaled;
    match r {
      case Overflow => n := INFINITY;
      case Accept(w0, w1) =>
        n := Join(w0, w1);
        if scale != 0 {
          var t := Join(0x3ff0_0000 - 2 * 53 * EXP_MSK1, 0);
          assert t == 917 * HIDDEN;
          BinadeValue(917);
          RPowInverse(2, 106);
          Undo(DoubleValue(n), DoubleValue(Unscaled(n, scale)), RPow(2, 106), RPow(2, -106));
          var v := DoubleValue(n) * DoubleValue(t);
          NonNegative(Unscaled(n, scale));
          n := nearest(v);
          assert ReadsAs(v, n);
          Finite(w0, w1, scale);
          RoundsTo(v, n, UnscaledWords(w0, w1, scale));
        } else {
          RPowZero(2);
          ValueAtLeast(n, Unscaled(n, scale));
          ValueAtLeast(Unscaled(n, scale), n);
        }
    }
  }

  lemma Finite(w0: Word, w1: Word, scale: nat)
    requires w0 < 0x7ff0_0000
    ensures UnscaledWords(w0, w1, scale) < INFINITY
  {
    var n := Join(w0, w1);
    Fields(n);
    if ExpField(n) <= scale { Lessened(Ieee.Mantissa(n), Place(n, scale)); }
  }

  // ----- exponents beyond 19999 -----

  lemma TinyDecimal(D: nat, L: nat, k: int)
    requires 0 < D < Pow(10, L) && L + k <= -490
    ensures 0.0 < DecimalValue(D, k) <= RPow(2, -1076)
  {
    hide Pow, RPow;
    TenTo490();
    NatRPow(10, L);
    RPowPos(10, k);
    RPowAdd(10, L, k);
    RPowMono(10, L + k, -490);
    Positive(D as real, RPow(10, k));
    RMulMono(RPow(10, k), D as real, Pow(10, L) as real);
  }

  lemma HugeDecimal(D: nat, k: int)
    requires D > 0 && k >= 321
    ensures DecimalValue(D, k) >= 10.0 * RPow(2, 1024)
  {
    hide RPow;
    HugePower();
    RPowSucc(10, 320);
    RPowMono(10, 321, k);
    RPowPos(10, k);
    RMulMono(RPow(10, k), 1.0, D as real);
  }

  /** The number and what is counted of it, as multiples of the same digits. */
  lemma SameDigits(r: Scanned, data: Bytes, start: nat, n: Number)
    requires Right(r, data, start, n) && n.Decimal? && r.Found? && AllDigits(n.ip + n.fp)
    ensures Inside(r.m, data)
    ensures var D := DigitsVal(n.ip + n.fp);
            && 0 < D < Pow(10, |n.ip| + |n.fp|) && NumberValue(n) == DecimalValue(D, n.exp - |n.fp|)
            && DecimalValue(DigitsVal(Digits(r.m, data)), r.e) == DecimalValue(D, Cap(n.exp) - |n.fp|)
  {
    hide Pow, RPow, DigitsVal, Digits, Clean, DecimalValue;
    var c, k := DigitsVal(Digits(r.m, data)), |n.fp| - r.m.nf;
    CleanPositive(r.m, data);
    ScaleValue(c, r.e, Cap(n.exp) - |n.fp|, k);
    PowPos(10, k);
    MulPos(c, Pow(10, k));
    DigitsBound(n.ip + n.fp);
  }

  lemma GreedyDigits(t: Bytes)
    ensures var n := Greedy(t); n.Decimal? ==> AllDigits(n.ip + n.fp)
  {
    hide Run, Exponent, SkipBlank;
  }

  /** Zero is read where the exponent is below -19999, and is right. */
  lemma CappedSmall(s: Scanned, data: Bytes, start: nat, num: Number)
    requires Right(s, data, start, num) && num.Decimal? && s.Found? && Inside(s.m, data) && num.exp < -19999
    requires |num.ip| <= 19500 && AllDigits(num.ip + num.fp)
    ensures var c := Digits(s.m, data);
            && ReadsAs(DecimalValue(DigitsVal(c), s.e), 0) && !Misjudged(s.m, c, s.e) && ReadsAs(NumberValue(num), 0)
  {
    hide Pow, RPow, DigitsVal, Digits, Clean, DecimalValue, ReadsAs, Misjudged, Tenfold, Taken, Counts, DoubleValue;
    var c := Digits(s.m, data);
    var D, L, x := DigitsVal(num.ip + num.fp), |num.ip| + |num.fp|, DecimalValue(DigitsVal(c), s.e);
    SameDigits(s, data, start, num);
    TinyDecimal(D, L, -19999 - |num.fp|);
    TinyDecimal(D, L, num.exp - |num.fp|);
    RPowSucc(2, -1076);
    RPowPos(2, -1076);
    ZeroReads(x);
    ZeroReads(NumberValue(num));
    ScannedClean(s, data, start, num);
    CleanDigits(s.m, data);
    CountedLength(s.m, data);
    FirstNonzero(s.m, data);
    HeadLeads(c, s.e, Min(16, s.m.nd));
    SmallAnswers(s.m, data, s.e, Tenfold(DigitsVal(c[..Min(16, s.m.nd)]) as real, s.e + s.m.nd - Min(16, s.m.nd)));
    ZeroResult(x, Misjudged(s.m, c, s.e));
  }

  lemma ZeroResult(x: real, misjudged: bool)
    requires Answers(Accept(0, 0), SCALE, x, misjudged)
    ensures ReadsAs(x, 0) <==> !misjudged
  {
    hide ReadsAs, Unscaled;
    ZeroExact(SCALE);
  }

  lemma InfiniteResult(x: real, misjudged: bool)
    requires Answers(Overflow, 0, x, misjudged)
    ensures ReadsAs(x, INFINITY) <==> !misjudged
  {
    hide ReadsAs;
  }

  /** And infinity where it is beyond 19999. */
  lemma CappedBig(s: Scanned, data: Bytes, start: nat, num: Number)
    requires Right(s, data, start, num) && num.Decimal? && s.Found? && Inside(s.m, data) && num.exp > 19999
    requires |num.fp| <= 19500 && AllDigits(num.ip + num.fp)
    ensures var c := Digits(s.m, data);
            && ReadsAs(DecimalValue(DigitsVal(c), s.e), INFINITY) && !Misjudged(s.m, c, s.e)
            && ReadsAs(NumberValue(num), INFINITY)
  {
    hide Pow, RPow, DigitsVal, Digits, Clean, DecimalValue, ReadsAs, Misjudged, Tenfold, Taken, Counts, DoubleValue;
    var c := Digits(s.m, data);
    var D, x := DigitsVal(num.ip + num.fp), DecimalValue(DigitsVal(c), s.e);
    SameDigits(s, data, start, num);
    HugeDecimal(D, 19999 - |num.fp|);
    HugeDecimal(D, num.exp - |num.fp|);
    RPowPos(2, 1024);
    TopOfRange();
    InfiniteReads(x);
    InfiniteReads(NumberValue(num));
    ScannedClean(s, data, start, num);
    CleanDigits(s.m, data);
    CountedLength(s.m, data);
    FirstNonzero(s.m, data);
    HeadLeads(c, s.e, Min(16, s.m.nd));
    BigAnswers(s.m, data, s.e, Tenfold(DigitsVal(c[..Min(16, s.m.nd)]) as real, s.e + s.m.nd - Min(16, s.m.nd)));
    InfiniteResult(x, Misjudged(s.m, c, s.e));
  }

  lemma ScannedClean(s: Scanned, data: Bytes, start: nat, num: Number)
    requires Right(s, data, start, num) && num.Decimal? && s.Found?
    ensures Inside(s.m, data) && Clean(Digits(s.m, data), s.m.nz1, s.m.y) && s.m.nd > 0
  {
    hide Clean, DigitsVal;
  }

  /** No more digits are counted than written. */
  lemma CountedFew(s: Scanned, data: Bytes, start: nat, num: Number)
    requires Right(s, data, start, num) && num.Decimal? && s.Found? && AllDigits(num.ip + num.fp)
    ensures Inside(s.m, data) && |Digits(s.m, data)| <= |num.ip| + |num.fp|
  {
    hide Pow, RPow, DigitsVal, Digits, DecimalValue, Head;
    ScannedClean(s, data, start, num);
    var c, L := Digits(s.m, data), |num.ip| + |num.fp|;
    CleanDigits(s.m, data);
    FirstNonzero(s.m, data);
    DigitsLead(c);
    DigitsBound(num.ip + num.fp);
    PowPos(10, |num.fp| - s.m.nf);
    MulMono(DigitsVal(c), 1, Pow(10, |num.fp| - s.m.nf));
    if |c| > L { PowMono(10, L, |c| - 1); }
  }

  /** Up to forty digits are read right, whatever the exponent. */
  lemma FortyDigits(s: Scanned, data: Bytes, start: nat, num: Number, n: Bits)
    requires Right(s, data, start, num) && num.Decimal? && s.Found? && Inside(s.m, data) && AllDigits(num.ip + num.fp)
    requires var c := Digits(s.m, data); ReadsAs(DecimalValue(DigitsVal(c), s.e), n) <==> !Misjudged(s.m, c, s.e)
    ensures |num.ip| + |num.fp| <= 40 ==> ReadsAs(NumberValue(num), n)
  {
    hide DigitsVal, DecimalValue, ReadsAs, Digits, Clean, Counts, NumberValue, Flawed, Taken, NextPlace, Right;
    if |num.ip| + |num.fp| <= 40 {
      CountedFew(s, data, start, num);
      NumberRead(s, data, start, num, n);
    }
  }

  /** What a decimal text is read as, whatever its exponent, as long as neither side of the point has 19500 digits. */
  lemma NumberRead(s: Scanned, data: Bytes, start: nat, num: Number, n: Bits)
    requires Right(s, data, start, num) && num.Decimal? && s.Found? && Inside(s.m, data)
    requires |num.ip| <= 19500 && |num.fp| <= 19500 && AllDigits(num.ip + num.fp)
    requires var c := Digits(s.m, data); ReadsAs(DecimalValue(DigitsVal(c), s.e), n) <==> !Misjudged(s.m, c, s.e)
    ensures num.exp > 19999 ==> n == INFINITY && ReadsAs(NumberValue(num), n)
    ensures num.exp < -19999 ==> n == 0 && ReadsAs(NumberValue(num), n)
    ensures -19999 <= num.exp <= 19999 ==>
              (ReadsAs(NumberValue(num), n) <==> !Misjudged(s.m, Digits(s.m, data), s.e))
  {
    hide DigitsVal, DecimalValue, ReadsAs, Misjudged, Digits, Clean, Counts, NumberValue;
    var x := DecimalValue(DigitsVal(Digits(s.m, data)), s.e);
    if num.exp > 19999 {
      CappedBig(s, data, start, num);
      ReadsUnique(x, n, INFINITY);
    } else if num.exp < -19999 {
      CappedSmall(s, data, start, num);
      ReadsUnique(x, n, 0);
    } else {
      ScannedValue(s, data, start, num);
    }
  }

  /**
   fpconv_strtod, from the text to the double and to where reading ends: nearest is the rounding of the processor,
   shl32 what it makes of a shift by 32. The sign is the scanner's, and n its magnitude.
   */
  method ReadNumber(data: Bytes, start: nat, shl32: Word, nearest: real -> Bits, cache: Cache)
    returns (s: Scanned, n: nat, end: nat)
    requires Terminated(data) && start < |data| && cache.Valid() && Rounds(nearest)
    modifies cache.Repr
    ensures cache.Valid() && fresh(cache.Repr - old(cache.Repr))
    ensures Right(s, data, start, Greedy(From(data, start)))
    ensures s.Nothing? ==> n == 0 && end == start
    ensures s.Zero? ==> n == 0 && end == s.end
    ensures s.Found? ==> Inside(s.m, data) && n <= INFINITY && end == s.end
    ensures var num := Greedy(From(data, start));
            s.Found? ==> var c := Digits(s.m, data);
                         && (ReadsAs(DecimalValue(DigitsVal(c), s.e), n) <==> !Misjudged(s.m, c, s.e))
                         && (DecimalValue(DigitsVal(c), s.e) == NumberValue(num) <==> -19999 <= num.exp <= 19999)
                         && (|num.ip| <= 19500 && |num.fp| <= 19500 ==>
                               && (num.exp > 19999 ==> n == INFINITY && ReadsAs(NumberValue(num), n))
                               && (num.exp < -19999 ==> n == 0 && ReadsAs(NumberValue(num), n)))
                         && (|num.ip| + |num.fp| <= 40 ==> ReadsAs(NumberValue(num), n))
    ensures s.Hex? ==> var h := LiteralAt(From(data, s.at));
                       && end == (if h.ip + h.fp == [] then s.at - 1 else s.at + h.len)
                       && (n <= INFINITY && ReadsAs(LiteralValue(h), n) <==> !Untrue(h))
  {
    hide From, Greedy, Head, Second, DigitsVal, DecimalValue, Clean, Pow, RPow, DoubleValue, Taken, Misjudged, Digits;
    hide Cache.Valid, Unscaled, HalfGapUp, ReadsAs, Exact, LiteralAt, Untrue, LiteralValue, NumberValue;
    s := Scan(data, start);
    ghost var num := Greedy(From(data, start));
    match s {
      case Nothing =>
        n, end := 0, start;
      case Zero(_, e) =>
        n, end := 0, e;
      case Hex(_, at) =>
        var w0, w1;
        w0, w1, end := GetHex(data, at);
        n := w0 * BASE + w1;
      case Found(_, m, e, e1) =>
        var r, scale := CorrectDigits(data, m, e, shl32, nearest, cache);
        n := Finish(r, scale, nearest);
        end := e1;
        ScannedValue(s, data, start, num);
        GreedyDigits(From(data, start));
        if |num.ip| <= 19500 && |num.fp| <= 19500 { NumberRead(s, data, start, num, n); }
        FortyDigits(s, data, start, num, n);
    }
  }
}
