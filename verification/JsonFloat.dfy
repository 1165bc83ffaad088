/** Which of the floats that strict decoding accepts are numbers of the JSON grammar. */
module JsonFloats {
  import opened JsonStrings
  import opened JsonGrammar
  import opened JsonTokens
  import opened Decimal
  import opened NumberGrammar
  import D = DecimalTexts
  import S = Scanner

  lemma {:induction false} RunLength(p: Bytes)
    ensures |S.Run(p)| == DigitRun(p, 10)
  {
    hide DigitIn;
    DecimalDigit(Peek(p, 0));
    if IsDigit(Peek(p, 0)) {
      RunLength(p[1..]);
    }
  }

  /** An integer that ends where it ends, in terms of the part after the sign. */
  lemma WholeRun(s: Bytes, k: nat)
    requires k <= |s| && WholeInt(s, k)
    ensures var g := SignLength(s); g < k && JsonInt(s[g..k]) && S.Run(s[g..]) == s[g..k] && !Refused(s[g..])
  {
    hide DigitRun, WholeInt, JsonInt, Refused, S.Run;
    var g := SignLength(s);
    WholeParts(s, k);
    WholeDigitsIff(s[g..], k - g);
    RunLength(s[g..]);
    assert s[g..][..k - g] == s[g..k];
  }

  /** The sign, the integer and the mark that a float token starts with. */
  lemma FloatStart(s: Bytes, cfg: DecodeConfig) returns (k: nat)
    requires !cfg.invalidNumbers && TokenAt(s, cfg).tok.TNumber?
    ensures var g := SignLength(s);
            && g < k < |s| && FloatMark(s[k]) && JsonInt(s[g..k]) && S.Run(s[g..]) == s[g..k] && !Refused(s[g..])
  {
    hide TokenAt, WholeInt, JsonInt, Refused, S.Run;
    StrictFloat(s, cfg);
    k :| k <= |s| && WholeInt(s, k) && FloatMark(Peek(s[k..], 0));
    WholeRun(s, k);
  }

  /** Where its parts are: k is the place of the mark, and what follows starts at q. */
  function AfterFraction(s: Bytes, k: nat): (q: nat)
    requires k < |s|
    ensures k <= q <= |s| && (s[k] == '.' <==> k < q)
  {
    if s[k] == '.' then k + 1 + |S.Run(s[k + 1..])| else k
  }

  /** What fpconv_strtod reads from there. */
  lemma FloatParts(s: Bytes, k: nat)
    requires SignLength(s) < k < |s| && FloatMark(s[k]) && JsonInt(s[SignLength(s)..k])
    requires S.Run(s[SignLength(s)..]) == s[SignLength(s)..k] && !Refused(s[SignLength(s)..])
    ensures var g, q := SignLength(s), AfterFraction(s, k);
            var (e, l) := S.Exponent(s[q..]);
            S.Greedy(s) == S.Decimal(g == 1, s[g..k], if s[k] == '.' then s[k + 1..q] else [], e, q + l)
  {
    hide S.Run, S.Exponent, S.Unsigned, JsonInt, FloatMark;
    var g := SignLength(s);
    var p, ip, tail := s[g..], s[g..k], s[k..];
    FirstDigit(s, g, k);
    assert p[|ip|..] == tail && tail[0] == s[k];
    if s[k] == '.' {
      var fp := S.Run(s[k + 1..]);
      assert tail[1..] == s[k + 1..] && tail[1 + |fp|..] == s[k + 1 + |fp|..];
      assert fp == s[k + 1..k + 1 + |fp|];
      D.WithPoint(p, ip, tail, fp, tail[1 + |fp|..]);
    } else {
      D.WithoutPoint(p, ip, tail);
    }
    GreedySigned(s, g);
  }

  lemma FirstDigit(s: Bytes, g: nat, k: nat)
    requires g < k <= |s| && JsonInt(s[g..k]) && !Refused(s[g..])
    ensures IsDigit(s[g]) && (s[g..][0] == '0' ==> Peek(s[g..], 1) != 'x' && Peek(s[g..], 1) != 'X')
  {
    assert s[g] == s[g..k][0];
  }

  lemma GreedySigned(s: Bytes, g: nat)
    requires g == SignLength(s) < |s| && IsDigit(s[g])
    ensures S.Greedy(s) == S.Signed(S.Unsigned(s[g..]), g == 1, g)
  {
    hide S.Unsigned;
    assert S.SkipBlank(s) == s;
    assert g == 0 ==> s[g..] == s;
  }

  lemma ExponentText(u: Bytes)
    ensures S.Exponent(u).1 <= |u| && JsonExp(u[..S.Exponent(u).1])
  {
    var (e, l) := S.Exponent(u);
    if l > 0 {
      var sign := if Peek(u, 1) == '-' || Peek(u, 1) == '+' then 1 else 0;
      assert u[..l][1 + sign..] == S.Run(u[1 + sign..]);
    } else {
      assert u[..l] == [];
    }
  }

  /** A point and what digits follow it, perhaps none; or nothing. */
  predicate PointDigits(frac: Bytes) { frac == [] || (frac[0] == '.' && AllDigits(frac[1..])) }

  lemma TailStart(frac: Bytes, exp: Bytes)
    requires JsonFrac(frac) && JsonExp(exp)
    ensures var tail := frac + exp;
            && !IsDigit(Peek(tail, 0)) && (Peek(tail, 0) == '.' ==> |tail| > 1 && IsDigit(tail[1]))
  {
    if frac != [] {
      assert frac[1] == frac[1..][0];
    } else {
      assert frac + exp == exp;
    }
  }

  /** In a number a digit follows the point. */
  lemma PointDigit(t: Bytes, g: nat, q: nat)
    requires JsonNumber(t) && g == SignLength(t) < q < |t| && t[q] == '.' && AllDigits(t[g..q])
    ensures q + 1 < |t| && IsDigit(t[q + 1])
  {
    hide JsonFrac, JsonExp, S.Run;
    var minus, whole, frac, exp :|
      t == minus + whole + frac + exp && (minus == "" || minus == "-") && JsonInt(whole) && JsonFrac(frac)
      && JsonExp(exp);
    assert t[|minus|] == whole[0];
    assert |minus| == g;
    var tail := frac + exp;
    TailStart(frac, exp);
    assert t[g..] == whole + tail == t[g..q] + t[q..];
    SameTail(whole, tail, t[g..q], t[q..]);
  }

  lemma SameTail(a: Bytes, x: Bytes, b: Bytes, y: Bytes)
    requires a + x == b + y && AllDigits(a) && AllDigits(b) && !IsDigit(Peek(x, 0)) && !IsDigit(Peek(y, 0))
    ensures x == y
  {
    hide S.Run;
    S.RunIs(a, x);
    S.RunIs(b, y);
    assert (a + x)[|a|..] == x && (b + y)[|b|..] == y;
  }

  /** minus, integer, fraction and exponent where they stand. */
  lemma IsNumber(t: Bytes, g: nat, k: nat, q: nat)
    requires g == SignLength(t) < k <= q <= |t| && JsonInt(t[g..k]) && JsonFrac(t[k..q]) && JsonExp(t[q..])
    ensures JsonNumber(t)
  {
    var minus := if g == 1 then "-" else "";
    assert t[..g] == minus;
    assert t == t[..g] + t[g..k] + t[k..q] + t[q..];
    NumberOf(minus, t[g..k], t[k..q], t[q..]);
  }

  lemma NumberOf(minus: Bytes, whole: Bytes, frac: Bytes, exp: Bytes)
    requires (minus == "" || minus == "-") && JsonInt(whole) && JsonFrac(frac) && JsonExp(exp)
    ensures JsonNumber(minus + whole + frac + exp)
  {
    hide JsonInt, JsonFrac, JsonExp;
  }

  /** The text up to end is a number unless its point stands alone. */
  lemma NumberIff(s: Bytes, g: nat, k: nat, end: nat)
    requires g == SignLength(s) < k < |s| && FloatMark(s[k]) && JsonInt(s[g..k])
    requires AfterFraction(s, k) <= end <= |s| && JsonExp(s[AfterFraction(s, k)..end])
    ensures JsonNumber(s[..end]) <==> s[k] != '.' || AfterFraction(s, k) > k + 1
  {
    hide S.Run, JsonNumber, JsonInt, JsonExp;
    var q, t := AfterFraction(s, k), s[..end];
    assert SignLength(t) == g && t[g..k] == s[g..k] && t[q..] == s[q..end];
    if s[k] == '.' {
      var fp := S.Run(s[k + 1..]);
      assert fp == s[k + 1..][..|fp|];
      assert t[k..q] == ['.'] + fp;
      assert |fp| == 0 && k + 1 < end ==>
               !IsDigit(t[k + 1]) by { assert k + 1 < |s| ==> Peek(s[k + 1..], 0) == s[k + 1]; }
      if q > k + 1 {
        assert t[k..q][1..] == fp;
        IsNumber(t, g, k, q);
      } else if JsonNumber(t) {
        IntDigits(t[g..k]);
        PointDigit(t, g, k);
      }
    } else {
      assert t[k..q] == [];
      IsNumber(t, g, k, q);
    }
  }

  lemma IntDigits(d: Bytes)
    requires JsonInt(d)
    ensures AllDigits(d)
  {
  }

  lemma FloatRest(s: Bytes, cfg: DecodeConfig)
    requires !cfg.invalidNumbers && TokenAt(s, cfg).tok.TNumber? && cfg.strtod(s).len <= |s|
    ensures TokenAt(s, cfg).rest == s[cfg.strtod(s).len..]
  {
    hide LetThrough, Strtoll, TokenAt;
    OnlyLetThrough(s, cfg);
  }

  /**
   A float that strict decoding accepts is read with the extent that fpconv_strtod gives it. It is a number of the
   grammar if and only if the point, if there is one, is followed by a digit.
   */
  lemma StrictFloatIsNumber(s: Bytes, cfg: DecodeConfig)
    requires !cfg.invalidNumbers && TokenAt(s, cfg).tok.TNumber?
    requires S.Greedy(s).Decimal? ==> cfg.strtod(s).len == S.Greedy(s).len
    ensures var n := S.Greedy(s);
            && n.Decimal? && n.ip != [] && SignLength(s) + |n.ip| <= n.len <= |s| && SignLength(s) + |n.ip| < |s|
            && TokenAt(s, cfg).rest == s[n.len..]
            && (JsonNumber(s[..n.len]) <==> s[SignLength(s) + |n.ip|] != '.' || n.fp != [])
  {
    hide TokenAt, S.Greedy, S.Run, S.Exponent, Refused, JsonNumber, JsonInt, FloatMark, JsonExp, AfterFraction;
    var g := SignLength(s);
    var k := FloatStart(s, cfg);
    FloatParts(s, k);
    var q := AfterFraction(s, k);
    var (e, l) := S.Exponent(s[q..]);
    ExponentText(s[q..]);
    assert s[q..][..l] == s[q..q + l];
    NumberIff(s, g, k, q + l);
    FloatRest(s, cfg);
  }

  lemma ExponentTaken(exp: Bytes, rest: Bytes)
    requires JsonExp(exp) && Delimited(rest)
    ensures S.Exponent(exp + rest).1 == |exp|
  {
    hide S.Run;
    if exp == [] {
      assert exp + rest == rest;
    } else {
      var u := exp + rest;
      var sign := if Peek(exp, 1) == '+' || Peek(exp, 1) == '-' then 1 else 0;
      assert Peek(u, 0) == exp[0] && Peek(u, 1) == exp[1];
      assert u[1 + sign..] == exp[1 + sign..] + rest;
      S.RunIs(exp[1 + sign..], rest);
    }
  }

  lemma FractionTaken(s: Bytes, k: nat, frac: Bytes, more: Bytes)
    requires PointDigits(frac) && k < |s| && s[k..] == frac + more && !IsDigit(Peek(more, 0)) && Peek(more, 0) != '.'
    ensures AfterFraction(s, k) == k + |frac| && s[k + |frac|..] == more
  {
    hide S.Run;
    assert s[k] == s[k..][0];
    if frac != [] {
      assert s[k + 1..] == s[k..][1..] == frac[1..] + more;
      S.RunIs(frac[1..], more);
    }
    assert s[k + |frac|..] == s[k..][|frac|..];
  }

  /** The integer that such a text starts with, and the mark after it. */
  lemma IntTaken(minus: Bytes, whole: Bytes, tail: Bytes)
    requires (minus == "" || minus == "-") && JsonInt(whole) && FloatMark(Peek(tail, 0)) && tail != []
    ensures var s, k := minus + whole + tail, |minus| + |whole|;
            && SignLength(s) == |minus| && s[|minus|..k] == whole && s[k..] == tail && WholeInt(s, k)
            && S.Run(s[|minus|..]) == whole && !Refused(s[|minus|..]) && |minus| < k < |s| && FloatMark(s[k])
  {
    hide S.Run;
    var s, g, k := minus + whole + tail, |minus|, |minus| + |whole|;
    assert s[g] == whole[0];
    assert s[..k] == minus + whole && s[..k][g..] == whole && s[g..] == whole + tail && s[g..][1] == s[g + 1];
    S.RunIs(whole, tail);
    assert SignLength(s[..k]) == g;
    assert |whole| > 1 ==> s[g + 1] == whole[1];
  }

  /** fpconv_strtod reads it to its end. */
  lemma GreedyTaken(minus: Bytes, whole: Bytes, frac: Bytes, exp: Bytes, rest: Bytes)
    requires (minus == "" || minus == "-") && JsonInt(whole) && PointDigits(frac) && JsonExp(exp) && Delimited(rest)
    requires frac + exp != []
    ensures var s, k := minus + whole + (frac + exp + rest), |minus| + |whole|;
            && k < |s| && WholeInt(s, k) && FloatMark(Peek(s[k..], 0))
            && S.Greedy(s).Decimal? && S.Greedy(s).len == k + |frac| + |exp|
  {
    hide S.Greedy, S.Run, S.Exponent, Refused, AfterFraction, JsonInt, PointDigits, JsonExp, WholeInt, FloatMark;
    hide Delimited, Peek, IsDigit, SignLength;
    var tail := frac + exp + rest;
    var s, k := minus + whole + tail, |minus| + |whole|;
    TailMark(frac, exp, rest);
    IntTaken(minus, whole, tail);
    FloatParts(s, k);
    assert tail == frac + (exp + rest);
    TailTaken(s, k, frac, exp, rest);
  }

  lemma TailTaken(s: Bytes, k: nat, frac: Bytes, exp: Bytes, rest: Bytes)
    requires PointDigits(frac) && JsonExp(exp) && Delimited(rest) && k < |s| && s[k..] == frac + (exp + rest)
    ensures AfterFraction(s, k) == k + |frac| && S.Exponent(s[k + |frac|..]).1 == |exp|
  {
    hide AfterFraction, PointDigits, JsonExp, Delimited, S.Exponent;
    MoreStart(exp, rest);
    FractionTaken(s, k, frac, exp + rest);
    ExponentTaken(exp, rest);
  }

  /** It is a float token, and taken whole, with either setting for invalid numbers. */
  lemma FloatTaken(minus: Bytes, whole: Bytes, frac: Bytes, exp: Bytes, rest: Bytes, cfg: DecodeConfig)
    requires (minus == "" || minus == "-") && JsonInt(whole) && PointDigits(frac) && JsonExp(exp) && Delimited(rest)
    requires frac + exp != []
    requires var s := minus + whole + (frac + exp + rest);
             S.Greedy(s).Decimal? ==> cfg.strtod(s).len == S.Greedy(s).len
    ensures var s := minus + whole + (frac + exp + rest);
            && S.Greedy(s).Decimal? && S.Greedy(s).len == |minus| + |whole| + |frac| + |exp|
            && TokenAt(s, cfg) == Lexed(TNumber(cfg.strtod(s).x), [], rest, |s|)
  {
    hide S.Greedy, JsonInt, PointDigits, JsonExp, WholeInt, FloatMark, Delimited, LetThrough, NumberToken, TokenAt;
    var s, k := minus + whole + (frac + exp + rest), |minus| + |whole|;
    GreedyTaken(minus, whole, frac, exp, rest);
    WholeIntIff(s, k);
    AnyLetThrough(s, cfg);
    NumberStrict(s, cfg);
    NumberRest(s, cfg);
    assert s[k + |frac| + |exp|..] == rest;
  }

  lemma AnyLetThrough(s: Bytes, cfg: DecodeConfig)
    requires LetThrough(s)
    ensures TokenAt(s, cfg) == NumberToken(s, cfg)
  {
    hide NumberToken, IsInvalidNumber, StringBody;
  }

  lemma NumberRest(s: Bytes, cfg: DecodeConfig)
    requires NumberToken(s, cfg).tok.TNumber? && cfg.strtod(s).len <= |s|
    ensures var l := NumberToken(s, cfg); l.text == [] && l.rest == s[cfg.strtod(s).len..] && l.left == |s|
  {
    hide Strtoll;
  }

  lemma NumberInteger(s: Bytes, cfg: DecodeConfig)
    requires NumberToken(s, cfg).tok.TInteger?
    ensures var l := NumberToken(s, cfg); l.text == [] && l.left == |s|
  {
    hide Strtoll;
  }

  /** An integer of the grammar is an integer token. */
  lemma IntegerTaken(minus: Bytes, whole: Bytes, rest: Bytes, cfg: DecodeConfig)
    requires (minus == "" || minus == "-") && JsonInt(whole) && Delimited(rest)
    ensures var s := minus + whole + rest;
            TokenAt(s, cfg) == Lexed(TInteger(Clamp(IntValue(minus + whole))), [], rest, |s|)
  {
    hide JsonInt, WholeInt, LetThrough, NumberToken, TokenAt, Clamp, IntValue, DigitRun;
    var s, k := minus + whole + rest, |minus| + |whole|;
    WholeBefore(minus, whole, rest);
    WholeIntIff(s, k);
    AnyLetThrough(s, cfg);
    NumberStrict(s, cfg);
    NumberInteger(s, cfg);
    assert s[..k] == minus + whole && s[k..] == rest;
  }

  lemma WholeBefore(minus: Bytes, whole: Bytes, rest: Bytes)
    requires (minus == "" || minus == "-") && JsonInt(whole) && Delimited(rest)
    ensures var s, k := minus + whole + rest, |minus| + |whole|;
            WholeInt(s, k) && !FloatMark(Peek(s[k..], 0)) && SignLength(s) == |minus| && |minus| < k
  {
    var s, g, k := minus + whole + rest, |minus|, |minus| + |whole|;
    assert s[g] == whole[0] && s[..k] == minus + whole && s[..k][g..] == whole && s[k..] == rest;
    assert SignLength(s[..k]) == g;
  }

  /** Whole numbers of the grammar with a fraction or an exponent are accepted as floats, and taken whole. */
  lemma NumberTaken(t: Bytes, rest: Bytes, cfg: DecodeConfig)
    requires JsonNumber(t) && !SignedInt(t) && Delimited(rest)
    requires S.Greedy(t + rest).Decimal? ==> cfg.strtod(t + rest).len == S.Greedy(t + rest).len
    ensures TokenAt(t + rest, cfg).tok.TNumber? && TokenAt(t + rest, cfg).rest == rest
  {
    hide TokenAt, S.Greedy, JsonNumber, JsonInt, JsonFrac, JsonExp, SignedInt, Delimited;
    var minus, whole, frac, exp := PartsOf(t);
    var s := t + rest;
    assert s == minus + whole + (frac + exp + rest);
    if frac + exp == [] {
      assert t == minus + whole;
      PlainInt(minus, whole);
    } else {
      assert PointDigits(frac) by { FracPoint(frac); }
      FloatTaken(minus, whole, frac, exp, rest, cfg);
    }
  }

  lemma FracPoint(frac: Bytes)
    requires JsonFrac(frac)
    ensures PointDigits(frac)
  {
  }

  lemma PlainInt(minus: Bytes, whole: Bytes)
    requires (minus == "" || minus == "-") && JsonInt(whole)
    ensures SignedInt(minus + whole)
  {
    var t := minus + whole;
    assert t[|minus|] == whole[0] && t[|minus|..] == whole;
    assert SignLength(t) == |minus|;
  }

  lemma PartsOf(t: Bytes) returns (minus: Bytes, whole: Bytes, frac: Bytes, exp: Bytes)
    requires JsonNumber(t)
    ensures t == minus + whole + frac + exp && (minus == "" || minus == "-")
    ensures JsonInt(whole) && JsonFrac(frac) && JsonExp(exp)
  {
    hide JsonInt, JsonFrac, JsonExp;
    minus, whole, frac, exp :|
      t == minus + whole + frac + exp && (minus == "" || minus == "-") && JsonInt(whole) && JsonFrac(frac)
      && JsonExp(exp);
  }

  lemma MoreStart(exp: Bytes, rest: Bytes)
    requires JsonExp(exp) && Delimited(rest)
    ensures !IsDigit(Peek(exp + rest, 0)) && Peek(exp + rest, 0) != '.'
  {
    if exp == [] { assert exp + rest == rest; }
  }

  lemma TailMark(frac: Bytes, exp: Bytes, rest: Bytes)
    requires PointDigits(frac) && JsonExp(exp) && frac + exp != []
    ensures frac + exp + rest != [] && FloatMark(Peek(frac + exp + rest, 0))
  {
    if frac != [] {
      assert (frac + exp + rest)[0] == frac[0];
    } else {
      assert frac + exp + rest == exp + rest;
    }
  }

  /** 1. is accepted as a float, and is no number. */
  lemma BarePoint(cfg: DecodeConfig)
    requires !cfg.invalidNumbers && cfg.strtod("1.]").len == 2
    ensures TokenAt("1.]", cfg).tok.TNumber? && TokenAt("1.]", cfg).rest == "]" && !JsonNumber("1.")
  {
    hide JsonNumber;
    var s := "1.]";
    assert s[1..] == ".]" && s[2..] == "]" && s[..1] == "1";
    RunLength(s);
    S.RunIs("1", ".]");
    assert "1" + ".]" == s;
    assert WholeInt(s, 1) && FloatMark(Peek(s[1..], 0));
    StrictFloat(s, cfg);
    FloatRest(s, cfg);
    assert "1."[0..1] == "1";
    if JsonNumber("1.") { PointDigit("1.", 0, 1); }
  }
}
