/** Texts that fpconv_strtod reads as another double than the nearest, and one whose exponent it caps. */
module MisreadTexts {
  import opened Arith
  import opened Rational
  import opened Words
  import opened Pow5
  import opened Ieee
  import opened DoubleBits
  import opened Decimal
  import opened ShortestDigits
  import opened Correction
  import opened Refinement
  import opened RelativeErrors
  import opened Midpoint
  import opened JsonStrings
  import opened Scanner
  import opened ScanNumber
  import opened ReadBack
  import opened LongDecimals
  import opened Strtod
  import opened BigcompInstance
  import opened SmallestNormals
  import opened NumberRoundTrips

  // ----- the scanner on digits and an exponent -----

  lemma GreedyWhole(c: Bytes, t: Bytes, exp: int)
    requires AllDigits(c) && c != [] && c[0] != '0' && Peek(t, 0) == 'e' && Exponent(t) == (exp, |t|)
    ensures Greedy(c + t) == Decimal(false, c, [], exp, |c| + |t|)
  {
    hide Run, Exponent;
    var s := c + t;
    RunIs(c, t);
    assert Peek(s, 0) == c[0] && IsDigit(c[0]);
    assert s[|c|..] == t && t[0..] == t;
  }

  /** What the scanner leaves of such a text. */
  lemma WholeScanned(s: Scanned, data: Bytes, c: Bytes, exp: int, len: nat)
    requires AllDigits(c) && c != [] && c[0] != '0' && c[|c| - 1] != '0' && -19999 <= exp <= 19999
    requires Right(s, data, 0, Decimal(false, c, [], exp, len))
    ensures s.Found? && Inside(s.m, data) && s.m.nz1 == 0 && s.e == exp
    ensures var d := Digits(s.m, data);
            |d| == |c| == s.m.nd && DigitsVal(d) == DigitsVal(c) && AllDigits(d) && d[0] != '0'
    ensures NextPlace(s.m, s.e) == exp - 1
  {
    hide Pow, DigitsVal, Head, Second, Digits;
    assert c + [] == c;
    if s.Found? {
      var d := Digits(s.m, data);
      CountedLength(s.m, data);
      PowUnit(10);
      assert DigitsVal(d) == DigitsVal(c);
      SameLength(d, c);
      EndsNonzero(c);
      if s.m.nz1 > 0 { LastZero(d); }
    }
  }

  lemma SameLength(a: Bytes, b: Bytes)
    requires AllDigits(a) && AllDigits(b) && a != [] && b != [] && a[0] != '0' && b[0] != '0'
             && DigitsVal(a) == DigitsVal(b)
    ensures |a| == |b|
  {
    hide Pow, DigitsVal;
    DigitsLead(a);
    DigitsLead(b);
    DigitsBound(a);
    DigitsBound(b);
    if |a| < |b| { PowMono(10, |a|, |b| - 1); }
    if |b| < |a| { PowMono(10, |b|, |a| - 1); }
  }

  lemma LastZero(c: Bytes)
    requires c != [] && c[|c| - 1] == '0'
    ensures DigitsVal(c) % 10 == 0
  {
    var k := |c| - 1;
    DivModUnique(DigitsVal(c), 10, DigitsVal(c[..k]), 0);
  }

  // ----- the last test of bigcomp -----

  lemma Exponent52()
    ensures Exponent("e-52") == (-52, 4)
  {
    var t := "e-52";
    assert t[2..] == "52";
    assert "52" + [] == "52";
    RunIs("52", []);
    assert "52"[..1] == "5" && "5"[..0] == [] && "52" == "5" + "2";
  }

  const FLAWED: Bytes := DIGITS + "e-52" + "\0"

  lemma FlawedText()
    ensures Terminated(FLAWED) && Greedy(From(FLAWED, 0)) == Decimal(false, DIGITS, [], -52, 57)
  {
    hide Greedy, Exponent;
    DigitsEnd();
    Exponent52();
    assert From(FLAWED, 0) == DIGITS + "e-52";
    GreedyWhole(DIGITS, "e-52", -52);
  }

  /** The text lies just below the half-way point above 1 + 2^-52, and is read as the double above that. */
  method WrongRead(shl32: Word, nearest: real -> Bits, cache: Cache) returns (n: Bits)
    requires cache.Valid() && Rounds(nearest)
    modifies cache.Repr
    ensures cache.Valid() && fresh(cache.Repr - old(cache.Repr))
    ensures var x := NumberValue(Greedy(From(FLAWED, 0))); ReadsAs(x, Join(W0, W1)) && !ReadsAs(x, n)
  {
    hide Pow, RPow, DoubleValue, DigitsVal, DecimalValue, ReadsAs, Greedy, From, Misjudged, Cache.Valid, Clean, Digits;
    hide NextPlace;
    FlawedText();
    DigitsEnd();
    var s, end;
    s, n, end := ReadNumber(FLAWED, 0, shl32, nearest, cache);
    WholeScanned(s, FLAWED, DIGITS, -52, 57);
    FlawedMisjudged(s.m, Digits(s.m, FLAWED), s.e);
  }

  lemma FlawedMisjudged(m: Mantissa, c: Bytes, e: int)
    requires |c| == 53 && m.nz1 == 0 && e == -52 && NextPlace(m, e) == -53 && DigitsVal(c) == DigitsVal(DIGITS)
    ensures Misjudged(m, c, e)
    ensures var x := NumberValue(Decimal(false, DIGITS, [], -52, 57));
            x == DecimalValue(DigitsVal(c), e) && ReadsAs(x, Join(W0, W1))
  {
    hide RPow, DoubleValue, DigitsVal, ReadsAs, NextPlace, HalfWayUp, OneMoreDigit;
    OddDouble();
    JustBelow();
    assert |DIGITS| == 53;
    assert DIGITS + [] == DIGITS;
    var x := DecimalValue(DigitsVal(c), e);
    assert x == LongDecimal(DIGITS, 0);
    Between(x, Join(W0, W1));
    assert OneMoreDigit(x, -53, HalfWayUp(Join(W0, W1)));
  }

  // ----- a decimal that vanishes by being cut -----

  /** 45 digits whose first 18 lie below half the smallest double, 2^-1075 = 2.4703282292062327208...e-324. */
  const VANISHING_DIGITS: Bytes := "24703" + "28229206" + "23272088" + "28439643" + "41106861" + "82529902"
  const VANISHING_NUMBER: nat := 24703_28229206_23272088_28439643_41106861_82529902
  const VANISHING_HEAD: nat := 247_032_822_920_623_272

  lemma VanishingDigits()
    ensures |VANISHING_DIGITS| == 45 && DigitsVal(VANISHING_DIGITS) == VANISHING_NUMBER
    ensures AllDigits(VANISHING_DIGITS) && VANISHING_DIGITS[0] != '0' && VANISHING_DIGITS[44] != '0'
  {
    hide DigitsVal;
    FirstFive();
    var a := "24703" + "28229206" + "23272088";
    assert DigitsVal(a) == 24703_28229206_23272088 by {
      Eight("24703", "28229206");
      Eight("24703" + "28229206", "23272088");
    }
    Eight(a, "28439643");
    Eight(a + "28439643", "41106861");
    Eight(a + "28439643" + "41106861", "82529902");
  }

  lemma FirstFive()
    ensures DigitsVal("24703") == 24703
  {
    hide DigitsVal;
    NoDigits();
    BigcompInstance.Append([], '2');
    assert [] + ['2'] == "2";
    Four("2", "4703");
    assert "2" + "4703" == "24703";
  }

  lemma Exponent368()
    ensures Exponent("e-368") == (-368, 5)
  {
    var t := "e-368";
    assert t[2..] == "368";
    assert "368" + [] == "368";
    RunIs("368", []);
    assert "368"[..2] == "36" && "36"[..1] == "3" && "3"[..0] == [];
  }

  const VANISHING: Bytes := VANISHING_DIGITS + "e-368" + "\0"

  lemma VanishingText()
    ensures Terminated(VANISHING) && Greedy(From(VANISHING, 0)) == Decimal(false, VANISHING_DIGITS, [], -368, 50)
  {
    hide Greedy, Exponent, DigitsVal;
    VanishingDigits();
    Exponent368();
    assert From(VANISHING, 0) == VANISHING_DIGITS + "e-368";
    GreedyWhole(VANISHING_DIGITS, "e-368", -368);
  }

  /** K * 10^-k and 2^-p, compared as integers. */
  lemma DecimalAgainst(K: nat, k: nat, p: nat)
    requires p >= k
    ensures K * Pow(2, p - k) < Pow(5, k) ==> DecimalValue(K, 0 - k) < RPow(2, 0 - p)
    ensures K * Pow(2, p - k) > Pow(5, k) ==> DecimalValue(K, 0 - k) > RPow(2, 0 - p)
  {
    hide Pow, RPow;
    TenSplit(0 - k);
    RPowInverse(5, k);
    RPowPos(5, k);
    RPowPos(2, 0 - p);
    NatRPow(5, k);
    NatRPow(2, p - k);
    CastMul(K, Pow(2, p - k));
    RPowAdd(2, p - k, 0 - p);
    AgainstReal(K as real, RPow(2, 0 - k), RPow(5, k), RPow(5, 0 - k), RPow(2, p - k), RPow(2, 0 - p),
        RPow(10, 0 - k), DecimalValue(K, 0 - k), (K * Pow(2, p - k)) as real);
  }

  lemma AgainstReal(K: real, u: real, f: real, f1: real, w: real, q: real, t: real, v: real, n: real)
    requires t == u * f1 && f * f1 == 1.0 && u == w * q && q > 0.0 && f > 0.0 && v == K * t && n == K * w
    ensures n < f ==> v < q
    ensures n > f ==> v > q
  {
    assert v * f == n * q by {
      assert (K * (u * f1)) * f == (K * u) * (f * f1);
      assert K * (w * q) == (K * w) * q;
    }
    RCancelRight(q, n, f);
    RCancelRight(q, f, n);
    RCancelRight(f, v, q);
    RCancelRight(f, q, v);
    RMulComm(f, q);
  }

  /** 5^(323 + j) from the bounds of 5^323. */
  lemma FivesMore(j: nat, f: nat)
    requires f == Pow(5, j) && f > 0
    ensures (FIVES323 * f) * Pow(2, 500) <= Pow(5, 323 + j) < ((FIVES323 + 2) * f) * Pow(2, 500)
  {
    hide Pow;
    Five323();
    PowAdd(5, 323, j);
    PowPos(2, 500);
    CoarserBelow(Pow(5, 323), Pow(2, 500), f, 1, FIVES323, FIVES323 * f);
    CoarserAbove(Pow(5, 323), Pow(2, 500), f, 1, FIVES323 + 2, (FIVES323 + 2) * f);
  }

  lemma SmallFives()
    ensures Pow(5, 18) == 3814697265625 && Pow(5, 45) == 28421709430404007434844970703125
  {
    assert Pow(5, 4) == 625;
    PowAdd(5, 4, 4);
    PowAdd(5, 8, 1);
    PowAdd(5, 9, 9);
    PowAdd(5, 18, 18);
    PowAdd(5, 36, 9);
  }

  lemma TwosFrom(j: nat, g: nat)
    requires j <= 234 && g == Pow(2, j)
    ensures Pow(2, 500 + j) == g * Pow(2, 500)
  {
    PowAdd(2, j, 500);
  }

  lemma VanishingBounds()
    ensures DecimalValue(VANISHING_HEAD, -341) < RPow(2, -1075) < DecimalValue(VANISHING_NUMBER, -368) < RPow(2, -1074)
  {
    hide Pow, RPow, DecimalValue;
    SmallFives();
    FivesMore(18, Pow(5, 18));
    FivesMore(45, Pow(5, 45));
    TwoTo200s();
    TwosFrom(234, Pow(2, 234));
    TwosFrom(207, Pow(2, 207));
    TwosFrom(206, Pow(2, 206));
    PowPos(2, 500);
    var P := Pow(2, 500);
    LessTimes(VANISHING_HEAD, Pow(2, 234), FIVES323 * Pow(5, 18), P);
    MoreTimes(VANISHING_NUMBER, Pow(2, 207), (FIVES323 + 2) * Pow(5, 45), P);
    LessTimes(VANISHING_NUMBER, Pow(2, 206), FIVES323 * Pow(5, 45), P);
    DecimalAgainst(VANISHING_HEAD, 341, 1075);
    DecimalAgainst(VANISHING_NUMBER, 368, 1075);
    DecimalAgainst(VANISHING_NUMBER, 368, 1074);
  }

  lemma TwoTo200s()
    ensures VANISHING_HEAD * Pow(2, 234) < FIVES323 * Pow(5, 18)
    ensures VANISHING_NUMBER * Pow(2, 207) > (FIVES323 + 2) * Pow(5, 45)
    ensures VANISHING_NUMBER * Pow(2, 206) < FIVES323 * Pow(5, 45)
  {
    hide Pow;
    SmallFives();
    TwoTo100();
    TwoTo6();
    PowAdd(2, 100, 100);
    PowAdd(2, 200, 6);
    PowStep(2, 206);
    PowAdd(2, 200, 34);
    Pow32();
    PowStep(2, 32);
    PowStep(2, 33);
  }

  lemma TwoTo6()
    ensures Pow(2, 6) == 64
  {
  }

  lemma LessTimes(K: nat, g: nat, L: nat, P: nat)
    requires K * g < L && P > 0
    ensures K * (g * P) < L * P
  {
    MulAssoc(K, g, P);
    MulMono(P, K * g + 1, L);
    MulComm(P, K * g + 1);
    MulComm(P, L);
    assert (K * g + 1) * P == (K * g) * P + P;
  }

  lemma MoreTimes(K: nat, g: nat, L: nat, P: nat)
    requires K * g > L && P > 0
    ensures K * (g * P) > L * P
  {
    MulAssoc(K, g, P);
    MulMono(P, L + 1, K * g);
    MulComm(P, K * g);
    MulComm(P, L + 1);
    assert (L + 1) * P == L * P + P;
  }

  /** The text lies above half the smallest double, and reads as the smallest double, and does not come out as that. */
  method WrongZero(shl32: Word, nearest: real -> Bits, cache: Cache) returns (n: Bits)
    requires cache.Valid() && Rounds(nearest)
    modifies cache.Repr
    ensures cache.Valid() && fresh(cache.Repr - old(cache.Repr))
    ensures var x := NumberValue(Greedy(From(VANISHING, 0))); ReadsAs(x, 1) && !ReadsAs(x, n)
  {
    hide Pow, RPow, DoubleValue, DigitsVal, DecimalValue, ReadsAs, Greedy, From, Misjudged, Cache.Valid, Clean, Digits;
    hide NextPlace;
    VanishingText();
    VanishingDigits();
    var s, end;
    s, n, end := ReadNumber(VANISHING, 0, shl32, nearest, cache);
    WholeScanned(s, VANISHING, VANISHING_DIGITS, -368, 50);
    VanishingMisjudged(s.m, Digits(s.m, VANISHING), s.e);
  }

  lemma VanishingMisjudged(m: Mantissa, c: Bytes, e: int)
    requires |c| == 45 && AllDigits(c) && c[0] != '0' && m.nz1 == 0 && e == -368
    requires DigitsVal(c) == DigitsVal(VANISHING_DIGITS)
    ensures Misjudged(m, c, e)
    ensures var x := NumberValue(Decimal(false, VANISHING_DIGITS, [], -368, 50));
            x == DecimalValue(DigitsVal(c), e) && ReadsAs(x, 1)
  {
    hide Pow, RPow, DigitsVal, ReadsAs, DecimalValue, Flawed, NextPlace;
    VanishingDigits();
    VanishingBounds();
    assert VANISHING_DIGITS + [] == VANISHING_DIGITS;
    TakenHead(c, e);
    SmallestReads(DecimalValue(DigitsVal(c), e));
  }

  lemma TakenHead(c: Bytes, e: int)
    requires |c| == 45 && AllDigits(c) && c[0] != '0' && e == -368 && DigitsVal(c) == VANISHING_NUMBER
    ensures Taken(c, e) == DecimalValue(VANISHING_HEAD, -341)
  {
    hide Pow, RPow, DigitsVal, DecimalValue;
    var a, b := PrefixDigits(c, 18);
    TenTo27();
    DivModUnique(VANISHING_NUMBER, Pow(10, 27), a, b);
  }

  lemma TenTo27()
    ensures Pow(10, 27) == 1_000_000_000_000_000_000_000_000_000
  {
    assert Pow(10, 4) == 10_000;
    PowAdd(10, 4, 5);
    PowAdd(10, 9, 9);
    PowAdd(10, 18, 9);
    assert Pow(10, 5) == 100_000;
  }

  lemma SmallestReads(x: real)
    requires RPow(2, -1075) < x < RPow(2, -1074)
    ensures ReadsAs(x, 1)
  {
    hide RPow, DoubleValue;
    UnitsValue(1);
    RPowSucc(2, -1075);
    RPowPos(2, -1075);
    ReadsSame(x, 1);
  }

  // ----- an exponent that is capped -----

  function Zeros(n: nat): (s: Bytes)
    ensures |s| == n && forall i :: 0 <= i < n ==> s[i] == '0'
  {
    seq(n, i => '0')
  }

  lemma Exponent20001()
    ensures Exponent("e20001") == (20001, 6)
  {
    var t := "e20001";
    assert t[1..] == "20001";
    assert "20001" + [] == "20001";
    RunIs("20001", []);
    assert DigitsVal("20001") == 20001 by {
      assert "20001"[..4] == "2000" && "2000"[..3] == "200" && "200"[..2] == "20" && "20"[..1] == "2" && "2"[..0] == [];
    }
  }

  /** 0.000...0001e20001 with 20000 zeros denotes 1; the scanner makes it 10^-2. */
  lemma CappedExponent(data: Bytes, r: Scanned)
    requires data == "0." + Zeros(20000) + "1" + "e20001" + "\0" && Right(r, data, 0, Greedy(From(data, 0)))
    ensures NumberValue(Greedy(From(data, 0))) == 1.0
    ensures r.Found? && Inside(r.m, data) && DecimalValue(DigitsVal(Digits(r.m, data)), r.e) == RPow(10, -2)
  {
    hide Pow, RPow, DigitsVal, Digits, Clean, Greedy, From, DecimalValue;
    var fp := Zeros(20000) + "1";
    var num := Greedy(From(data, 0));
    CappedGreedy(data, fp);
    CappedValue(fp);
    assert ("0" + fp)[20001] == '1';
    var c, k := DigitsVal(Digits(r.m, data)), |fp| - r.m.nf;
    PowPos(10, k);
    OneProduct(c, Pow(10, k));
    if k > 0 {
      PowStep(10, k - 1);
      TenNotOne(Pow(10, k - 1));
    }
    assert r.e == -2;
    OneUnitValue(-2);
  }

  lemma OneUnitValue(e: int)
    ensures DecimalValue(1, e) == RPow(10, e)
  {
  }

  lemma OneProduct(c: int, p: nat)
    requires c * p == 1
    ensures c == 1 && p == 1
  {
    if c <= 0 { MulMono(p, c, 0); MulComm(p, c); }
    if c >= 2 && p >= 1 { MulMono(p, 2, c); MulComm(p, c); }
  }

  lemma TenNotOne(p: nat)
    ensures 10 * p != 1
  {
  }

  lemma CappedValue(fp: Bytes)
    requires fp == Zeros(20000) + "1"
    ensures AllDigits(fp) && |fp| == 20001 && DigitsVal("0" + fp) == 1
    ensures NumberValue(Decimal(false, "0", fp, 20001, 20009)) == 1.0
  {
    hide DigitsVal, RPow;
    RPowZero(10);
    var z := "0" + Zeros(20000);
    assert "0" + fp == z + "1" + [];
    DropZeros(z, "1", []);
    OneValue();
    PowUnit(10);
  }

  lemma CappedGreedy(data: Bytes, fp: Bytes)
    requires fp == Zeros(20000) + "1" && data == "0." + Zeros(20000) + "1" + "e20001" + "\0"
    ensures Greedy(From(data, 0)) == Decimal(false, "0", fp, 20001, 20009)
  {
    hide Run, Exponent, DigitsVal;
    var s := From(data, 0);
    var t := "e20001";
    assert s == "0" + ("." + fp + t);
    RunIs("0", "." + fp + t);
    assert s[1..] == "." + fp + t;
    assert s[1..][1..] == fp + t;
    RunIs(fp, t);
    assert s[1..][1 + |fp|..] == t;
    Exponent20001();
  }
}
