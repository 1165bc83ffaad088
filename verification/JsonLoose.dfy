/** The numbers beyond the JSON grammar that the decoder takes by default, and no others. */
module LooseNumbers {
  import opened StrBufs
  import opened JsonStrings
  import opened JsonEncoder
  import opened JsonGrammar
  import opened JsonTokens
  import opened Decimal
  import opened NumberGrammar
  import opened JsonFloats
  import D = DecimalTexts
  import H = HexLiterals
  import HexDigits
  import S = Scanner

  /** The place of a digit in 0123456789abcdef, in either case, looked for from v on. */
  function PlaceFrom(c: Byte, v: nat): nat
    requires v < 16
    decreases 16 - v
  {
    if v == 15 || HexDigitIs(c, v) then v else PlaceFrom(c, v + 1)
  }

  function ValueIn(d: Bytes, base: nat): int {
    if d == [] then 0 else ValueIn(d[..|d| - 1], base) * base + PlaceFrom(d[|d| - 1], 0)
  }

  predicate DigitOfBase(c: Byte, base: nat) { HexDigitIs(c, PlaceFrom(c, 0)) && PlaceFrom(c, 0) < base }

  predicate DigitsOfBase(d: Bytes, base: nat) {
    d != [] && forall i :: 0 <= i < |d| ==> DigitOfBase(d[i], base)
  }

  /** 0x stands in front of hexadecimal digits; octal ones start with 0, decimal ones do not. */
  predicate BasePrefix(prefix: Bytes, base: nat, first: Byte) {
    || (base == 16 && (prefix == "0x" || prefix == "0X")) || (base == 8 && prefix == "" && first == '0')
    || (base == 10 && prefix == "" && first != '0')
  }

  /** The digits in front of the point or mark of a float: decimal ones, and if they start with 0 octal ones only. */
  predicate FloatDigits(whole: Bytes) {
    DigitsOfBase(whole, if whole != [] && whole[0] == '0' then 8 else 10)
  }

  /** A binary exponent or nothing. */
  predicate HexExp(x: Bytes) {
    var sign := if Peek(x, 1) == '+' || Peek(x, 1) == '-' then 1 else 0;
    x == "" || (|x| >= 2 + sign && (x[0] == 'p' || x[0] == 'P') && AllDigits(x[1 + sign..]))
  }

  datatype Loose =
    | Based(sign: Bytes, prefix: Bytes, d: Bytes, base: nat)
    | Tens(sign: Bytes, whole: Bytes, frac: Bytes, exp: Bytes)
    | Sixteens(sign: Bytes, prefix: Bytes, whole: Bytes, places: Bytes, exp: Bytes)

  predicate LooseOk(n: Loose) {
    && D.SignText(n.sign)
    && match n
       case Based(_, prefix, d, base) => DigitsOfBase(d, base) && BasePrefix(prefix, base, d[0])
       case Tens(_, whole, frac, exp) => FloatDigits(whole) && PointDigits(frac) && JsonExp(exp) && frac + exp != []
       case Sixteens(_, prefix, whole, places, exp) =>
         (prefix == "0x" || prefix == "0X") && whole != [] && H.AllHex(whole) && H.AllHex(places) && HexExp(exp)
  }

  function LooseText(n: Loose): Bytes {
    match n
    case Based(sign, prefix, d, _) => sign + (prefix + d)
    case Tens(sign, whole, frac, exp) => sign + (whole + (frac + exp))
    case Sixteens(sign, prefix, whole, places, exp) => sign + (prefix + (whole + ("." + (places + exp))))
  }

  /** An integer as a 64-bit integer, or the nearest there is. */
  function To64(n: int): Int64 {
    if n < -9_223_372_036_854_775_808 then -9_223_372_036_854_775_808
    else if n > 9_223_372_036_854_775_807 then 9_223_372_036_854_775_807
    else assert InInt64(n); n
  }

  function LooseInteger(n: Loose): Int64
    requires n.Based?
  {
    To64(if n.sign == "-" then -ValueIn(n.d, n.base) else ValueIn(n.d, n.base))
  }

  /** What a number beyond the grammar is as a token, val telling what double a text is read as. */
  function LooseToken(n: Loose, val: Bytes -> Double): Token {
    if n.Based? then TInteger(LooseInteger(n)) else TNumber(val(LooseText(n)))
  }

  /** What is assumed of fpconv_strtod: it takes what the scanner or gethex takes, and val gives the double. */
  ghost predicate Reads(cfg: DecodeConfig, val: Bytes -> Double) {
    forall s: Bytes {:trigger cfg.strtod(s)} ::
      && (var n := S.Greedy(s); n.Decimal? && n.len <= |s| ==> cfg.strtod(s) == Strtod(val(s[..n.len]), n.len))
      && (var n := S.Greedy(s); n.Hexadecimal? && n.len <= |s| ==> HexRead(cfg.strtod(s), s, n.len, val))
  }

  /** The end of a hexadecimal number whose digits start at k. */
  ghost predicate HexRead(r: Strtod, s: Bytes, k: nat, val: Bytes -> Double)
    requires k <= |s|
  {
    var h := H.LiteralAt(s[k..]);
    h.ip != [] && k + h.len <= |s| ==> r == Strtod(val(s[..k + h.len]), k + h.len)
  }

  // ----- digits -----

  lemma {:induction false} PlaceFinds(c: Byte, k: nat, v: nat)
    requires k <= v < 16 && HexDigitIs(c, v)
    ensures PlaceFrom(c, k) == v
    decreases v - k
  {
    hide HexDigitIs;
    HexDigitIff(c, v);
    HexDigitIff(c, k);
    if k < v { PlaceFinds(c, k + 1, v); }
  }

  lemma DigitIs(c: Byte, base: nat)
    requires base <= 16
    ensures DigitOfBase(c, base) <==> DigitIn(c, base) >= 0
    ensures DigitOfBase(c, base) ==> PlaceFrom(c, 0) == DigitIn(c, base)
  {
    hide HexDigitIs, HexDigit2Int, PlaceFrom;
    if HexDigit2Int(c) >= 0 {
      HexDigitIff(c, HexDigit2Int(c));
      PlaceBound(c, HexDigit2Int(c));
      PlaceFinds(c, 0, HexDigit2Int(c));
    } else {
      HexDigitIff(c, PlaceFrom(c, 0));
    }
  }

  lemma PlaceBound(c: Byte, v: int)
    requires HexDigitIs(c, v)
    ensures 0 <= v < 16
  {
  }

  lemma {:induction false} ValueIs(d: Bytes, base: nat)
    requires base <= 16 && forall i :: 0 <= i < |d| ==> DigitOfBase(d[i], base)
    ensures RunValue(d, base) == ValueIn(d, base)
  {
    hide DigitOfBase, PlaceFrom, DigitIn;
    if d != [] {
      ValueIs(d[..|d| - 1], base);
      DigitIs(d[|d| - 1], base);
    }
  }

  lemma DigitsIn(d: Bytes, base: nat)
    requires base <= 16
    ensures (forall i :: 0 <= i < |d| ==> DigitOfBase(d[i], base)) <==>
            (forall i :: 0 <= i < |d| ==> DigitIn(d[i], base) >= 0)
  {
    hide DigitOfBase, DigitIn;
    forall i | 0 <= i < |d| ensures DigitOfBase(d[i], base) <==> DigitIn(d[i], base) >= 0 { DigitIs(d[i], base); }
  }

  lemma BaseBound(prefix: Bytes, base: nat, c: Byte)
    requires BasePrefix(prefix, base, c)
    ensures base == 8 || base == 10 || base == 16
  {
  }

  /** No digit of the base, and no x after a zero. */
  predicate Stops(rest: Bytes, base: nat) {
    (rest == [] || DigitIn(rest[0], base) < 0) && Peek(rest, 0) != 'x' && Peek(rest, 0) != 'X'
  }

  // ----- every such number is taken -----

  lemma UnsignedIn(prefix: Bytes, d: Bytes, base: nat, rest: Bytes)
    requires DigitsOfBase(d, base) && BasePrefix(prefix, base, d[0]) && Stops(rest, base)
    ensures JsonGrammar.Unsigned(prefix + d + rest) == (ValueIn(d, base), |prefix| + |d|)
    ensures prefix + d + rest != [] && IsDigit((prefix + d + rest)[0]) && |prefix| + |d| > 0
  {
    hide RunValue, ValueIn, DigitRun, DigitIn, JsonGrammar.Unsigned, DigitsOfBase, Stops;
    SomeDigits(d, base);
    BaseBound(prefix, base, d[0]);
    RunIn(d, base, rest);
    if base == 16 {
      HexUnsigned(prefix, d, rest);
    } else {
      assert prefix + d + rest == d + rest;
      PlainUnsigned(d, rest, base);
    }
  }

  lemma RunIn(d: Bytes, base: nat, rest: Bytes)
    requires DigitsOfBase(d, base) && Stops(rest, base) && base <= 16
    ensures DigitRun(d + rest, base) == |d| > 0 && RunValue(d, base) == ValueIn(d, base)
    ensures DigitIn(d[0], base) >= 0 && (|d| > 1 ==> DigitIn(d[1], base) >= 0)
  {
    hide RunValue, ValueIn, DigitRun, DigitIn, DigitOfBase;
    DigitsIn(d, base);
    RunEnds(d, rest, base);
    ValueIs(d, base);
  }

  lemma HexUnsigned(prefix: Bytes, d: Bytes, rest: Bytes)
    requires (prefix == "0x" || prefix == "0X") && d != [] && DigitRun(d + rest, 16) == |d| && DigitIn(d[0], 16) >= 0
    ensures JsonGrammar.Unsigned(prefix + d + rest) == (RunValue(d, 16), 2 + |d|) && (prefix + d + rest)[0] == '0'
  {
    hide RunValue, DigitRun, HexDigit2Int;
    var t := prefix + d + rest;
    assert t[0] == '0' && t[1] == prefix[1] && t[2] == d[0];
    assert t[2..] == d + rest && t[2..][..|d|] == d;
  }

  lemma PlainUnsigned(d: Bytes, rest: Bytes, base: nat)
    requires d != [] && DigitRun(d + rest, base) == |d| && DigitIn(d[0], base) >= 0
    requires base == if d[0] == '0' then 8 else 10
    requires Stops(rest, base) && (|d| > 1 ==> DigitIn(d[1], base) >= 0)
    ensures JsonGrammar.Unsigned(d + rest) == (RunValue(d, base), |d|) && IsDigit((d + rest)[0])
  {
    hide RunValue, DigitRun, DigitIn;
    var t := d + rest;
    DecimalDigit(d[0]);
    assert t[0] == d[0] && t[..|d|] == d;
    assert Peek(t, 1) == if |d| > 1 then d[1] else Peek(rest, 0);
    if |d| > 1 { NoMark(d[1], base); }
  }

  lemma NoMark(c: Byte, base: nat)
    requires DigitIn(c, base) >= 0 && base <= 10
    ensures c != 'x' && c != 'X'
  {
  }

  lemma StartsSigned(sign: Bytes, t: Bytes)
    requires D.SignText(sign) && t != [] && IsDigit(t[0])
    ensures Peek(sign + t, 0) == (if sign == "" then t[0] else sign[0]) && (sign + t)[|sign|..] == t
  {
    if sign == "" { assert sign + t == t; }
  }

  lemma SignedOf(sign: Bytes, t: Bytes, v: int, n: nat)
    requires D.SignText(sign) && t != [] && IsDigit(t[0]) && JsonGrammar.Unsigned(t) == (v, n) && n > 0
    ensures Strtoll(sign + t) == Converted(Clamp(if sign == "-" then -v else v), |sign| + n)
  {
    hide JsonGrammar.Unsigned, Clamp;
    StartsSigned(sign, t);
  }

  lemma LenientToken(sign: Bytes, t: Bytes, cfg: DecodeConfig)
    requires cfg.invalidNumbers && D.SignText(sign) && t != [] && IsDigit(t[0])
    ensures TokenAt(sign + t, cfg) == NumberToken(sign + t, cfg)
  {
    hide NumberToken, StringBody;
    StartsSigned(sign, t);
  }

  lemma DelimiterStops(rest: Bytes, base: nat)
    requires Delimited(rest)
    ensures Stops(rest, base) && !FloatMark(Peek(rest, 0))
  {
  }

  lemma MarkStops(rest: Bytes, base: nat)
    requires FloatMark(Peek(rest, 0)) && (base <= 10 || Peek(rest, 0) == '.')
    ensures Stops(rest, base)
  {
  }

  /** A plus sign, hexadecimal digits after 0x, octal digits after 0. */
  lemma BasedTaken(n: Loose, rest: Bytes, cfg: DecodeConfig, val: Bytes -> Double)
    requires cfg.invalidNumbers && n.Based? && LooseOk(n) && Delimited(rest)
    ensures var s := LooseText(n) + rest; TokenAt(s, cfg) == Lexed(LooseToken(n, val), [], rest, |s|)
  {
    hide ValueIn, Clamp, DigitsOfBase, TokenAt, Strtoll, JsonGrammar.Unsigned, Delimited, Stops, BasePrefix, FloatMark;
    hide To64, IsDigit;
    var t := n.prefix + n.d + rest;
    var s, k := n.sign + t, |n.prefix| + |n.d|;
    assert LooseText(n) + rest == s;
    DelimiterStops(rest, n.base);
    UnsignedIn(n.prefix, n.d, n.base, rest);
    SignedOf(n.sign, t, ValueIn(n.d, n.base), k);
    LenientToken(n.sign, t, cfg);
    assert s[|n.sign| + k..] == rest;
    IntegerToken(s, |n.sign| + k, cfg);
    Clamped(if n.sign == "-" then -ValueIn(n.d, n.base) else ValueIn(n.d, n.base));
  }

  lemma Clamped(n: int)
    ensures Clamp(n) == To64(n)
  {
  }

  lemma IntegerToken(s: Bytes, k: nat, cfg: DecodeConfig)
    requires Strtoll(s).len == k > 0 && !FloatMark(Peek(s[k..], 0))
    ensures NumberToken(s, cfg) == Lexed(TInteger(Strtoll(s).value), [], s[k..], |s|)
  {
    hide Strtoll;
    assert Peek(s, k) == Peek(s[k..], 0);
  }

  lemma FloatToken(s: Bytes, k: nat, cfg: DecodeConfig)
    requires Strtoll(s).len == k > 0 && FloatMark(Peek(s[k..], 0)) && cfg.strtod(s).len <= |s|
    ensures NumberToken(s, cfg) == Lexed(TNumber(cfg.strtod(s).x), [], s[cfg.strtod(s).len..], |s|)
  {
    hide Strtoll;
    assert Peek(s, k) == Peek(s[k..], 0);
  }

  lemma FloatPlain(whole: Bytes)
    requires FloatDigits(whole)
    ensures whole != [] && AllDigits(whole) && BasePrefix("", if whole[0] == '0' then 8 else 10, whole[0])
  {
    hide DigitOfBase, DigitIn;
    var base := if whole != [] && whole[0] == '0' then 8 else 10;
    DigitsIn(whole, base);
    forall i | 0 <= i < |whole| ensures IsDigit(whole[i]) { DecimalDigit(whole[i]); }
  }

  /** An exponent of the JSON grammar, letter by letter. */
  lemma ExpParts(exp: Bytes) returns (letter: Byte, sign: Bytes, d: Bytes)
    requires JsonExp(exp) && exp != []
    ensures D.ExponentPart(exp, letter, sign, d)
  {
    var k := if Peek(exp, 1) == '+' || Peek(exp, 1) == '-' then 2 else 1;
    letter, sign, d := exp[0], exp[1..k], exp[k..];
    assert exp == [exp[0]] + exp[1..k] + exp[k..];
    assert k == 2 ==> exp[1..k] == [exp[1]];
  }

  lemma EndsNumber(rest: Bytes)
    requires Delimited(rest)
    ensures D.Ended(rest) && !IsDigit(Peek(rest, 0))
  {
  }

  lemma Pointed(frac: Bytes) returns (point: bool, fp: Bytes)
    requires PointDigits(frac)
    ensures AllDigits(fp) && (!point ==> fp == []) && frac == if point then "." + fp else ""
  {
    point := frac != [];
    fp := if point then frac[1..] else [];
    assert point ==> frac == [frac[0]] + frac[1..];
  }

  lemma TensBody(sign: Bytes, whole: Bytes, frac: Bytes, exp: Bytes, rest: Bytes)
    requires D.SignText(sign) && AllDigits(whole) && whole != [] && PointDigits(frac) && JsonExp(exp) && Delimited(rest)
    ensures var body := whole + frac + exp;
            var g := S.Greedy("" + sign + (body + rest));
            g.Decimal? && g.len == |sign| + |body|
  {
    hide S.Greedy, AllDigits, JsonExp, Delimited, D.Ended, PointDigits, D.SignText, IsDigit, D.ExponentPart;
    NoBlanks();
    EndsNumber(rest);
    var point, fp := Pointed(frac);
    if exp == [] {
      D.PlainRead("", sign, whole, point, fp, rest);
      assert whole + frac + exp == whole + frac;
    } else {
      var letter, esign, d := ExpParts(exp);
      D.ScientificRead("", sign, whole, point, fp, exp, letter, esign, d, rest);
    }
  }

  lemma NoBlanks()
    ensures D.Blanks("")
  {
  }

  lemma Grouped(sign: Bytes, whole: Bytes, frac: Bytes, exp: Bytes, rest: Bytes)
    ensures sign + (whole + (frac + exp)) + rest == "" + sign + (whole + frac + exp + rest)
  {
    assert whole + (frac + exp) == whole + frac + exp;
  }

  /** fpconv_strtod takes all of it. */
  lemma TensGreedy(n: Loose, rest: Bytes)
    requires n.Tens? && LooseOk(n) && Delimited(rest)
    ensures var g := S.Greedy(LooseText(n) + rest); g.Decimal? && g.len == |LooseText(n)|
  {
    hide S.Greedy, FloatDigits, JsonExp, Delimited, PointDigits, D.SignText;
    FloatPlain(n.whole);
    TensBody(n.sign, n.whole, n.frac, n.exp, rest);
    Grouped(n.sign, n.whole, n.frac, n.exp, rest);
  }

  lemma TensTaken(n: Loose, rest: Bytes, cfg: DecodeConfig, val: Bytes -> Double)
    requires cfg.invalidNumbers && n.Tens? && LooseOk(n) && Delimited(rest) && Reads(cfg, val)
    ensures var s := LooseText(n) + rest; TokenAt(s, cfg) == Lexed(LooseToken(n, val), [], rest, |s|)
  {
    hide S.Greedy, FloatMark, JsonExp, PointDigits, Delimited, TokenAt, Strtoll, JsonGrammar.Unsigned, Stops, ValueIn;
    hide BasePrefix, DigitsOfBase, IsDigit, HexRead;
    FloatPlain(n.whole);
    var tail := n.frac + n.exp + rest;
    var t := "" + n.whole + tail;
    var s, base := n.sign + t, if n.whole[0] == '0' then 8 else 10;
    assert LooseText(n) + rest == s;
    TailMark(n.frac, n.exp, rest);
    MarkStops(tail, base);
    UnsignedIn("", n.whole, base, tail);
    SignedOf(n.sign, t, ValueIn(n.whole, base), |n.whole|);
    LenientToken(n.sign, t, cfg);
    assert s[|n.sign| + |n.whole|..] == tail;
    TensGreedy(n, rest);
    assert s[..|LooseText(n)|] == LooseText(n) && s[|LooseText(n)|..] == rest;
    assert cfg.strtod(s) == Strtod(val(LooseText(n)), |LooseText(n)|);
    FloatToken(s, |n.sign| + |n.whole|, cfg);
  }

  lemma HexExpParts(x: Bytes) returns (letter: Byte, sign: Bytes, d: Bytes)
    requires HexExp(x) && x != []
    ensures H.PowerPart(x, letter, sign, d)
  {
    var k := if Peek(x, 1) == '+' || Peek(x, 1) == '-' then 2 else 1;
    letter, sign, d := x[0], x[1..k], x[k..];
    assert x == [x[0]] + x[1..k] + x[k..];
    assert k == 2 ==> x[1..k] == [x[1]];
  }

  lemma EndsHex(rest: Bytes)
    requires Delimited(rest)
    ensures !HexDigits.IsHex(Peek(rest, 0)) && Peek(rest, 0) != '.' && Peek(rest, 0) != 'p' && Peek(rest, 0) != 'P'
    ensures !IsDigit(Peek(rest, 0))
  {
  }

  /** gethex takes all of it. */
  lemma SixteensLiteral(whole: Bytes, places: Bytes, exp: Bytes, rest: Bytes)
    requires H.AllHex(whole) && H.AllHex(places) && HexExp(exp) && Delimited(rest)
    ensures var body := whole + ("." + (places + exp));
            var h := H.LiteralAt(body + rest);
            h.ip == whole && h.len == |body|
  {
    hide H.LiteralAt, H.AllHex, Delimited, HexExp, H.LiteralValue, HexDigits.HexVal, HexDigits.IsHex;
    EndsHex(rest);
    if exp == [] {
      H.WholeRead(whole, true, places, rest);
      assert whole + ("." + (places + exp)) == whole + ("." + places);
    } else {
      var letter, sign, d := HexExpParts(exp);
      H.LiteralRead(whole, true, places, exp, letter, sign, d, rest);
      assert whole + ("." + (places + exp)) == whole + ("." + places) + exp;
    }
  }

  lemma AllHexIn(d: Bytes)
    ensures H.AllHex(d) <==> forall i :: 0 <= i < |d| ==> DigitOfBase(d[i], 16)
  {
    hide DigitOfBase, HexDigit2Int;
    DigitsIn(d, 16);
    forall i | 0 <= i < |d| ensures DigitIn(d[i], 16) >= 0 <==> HexDigits.IsHex(d[i]) { HexDigitIff(d[i], 0); }
  }

  lemma SixteensTaken(n: Loose, rest: Bytes, cfg: DecodeConfig, val: Bytes -> Double)
    requires cfg.invalidNumbers && n.Sixteens? && LooseOk(n) && Delimited(rest) && Reads(cfg, val)
    ensures var s := LooseText(n) + rest; TokenAt(s, cfg) == Lexed(LooseToken(n, val), [], rest, |s|)
  {
    hide S.Greedy, FloatMark, HexExp, Delimited, TokenAt, Strtoll, JsonGrammar.Unsigned, Stops, ValueIn, DigitOfBase;
    hide H.AllHex, H.LiteralAt, IsDigit;
    var body := n.whole + ("." + (n.places + n.exp));
    var tail := "." + (n.places + n.exp) + rest;
    var t := n.prefix + n.whole + tail;
    var s, k := n.sign + t, |n.sign| + 2;
    SixteensTexts(n.sign, n.prefix, n.whole, n.places + n.exp, rest);
    AllHexIn(n.whole);
    PointMark(n.places + n.exp + rest);
    MarkStops(tail, 16);
    UnsignedIn(n.prefix, n.whole, 16, tail);
    SignedOf(n.sign, t, ValueIn(n.whole, 16), 2 + |n.whole|);
    LenientToken(n.sign, t, cfg);
    D.HexStart("", n.sign, n.prefix[1], body + rest);
    SixteensLiteral(n.whole, n.places, n.exp, rest);
    assert HexRead(cfg.strtod(s), s, k, val);
    FloatToken(s, k + |n.whole|, cfg);
  }

  /** One text, cut at five places. */
  lemma SixteensTexts(sign: Bytes, prefix: Bytes, whole: Bytes, more: Bytes, rest: Bytes)
    requires prefix == "0x" || prefix == "0X"
    ensures var body, tail, k := whole + ("." + more), "." + more + rest, |sign| + 2;
            var s, text := sign + (prefix + whole + tail), sign + (prefix + body);
            && s == text + rest && s == "" + sign + (['0', prefix[1]] + (body + rest))
            && k + |whole| <= |s| && s[k + |whole|..] == tail && s[k..] == body + rest
            && k + |body| == |text| <= |s| && s[..|text|] == text && s[|text|..] == rest
  {
    var body, tail := whole + ("." + more), "." + more + rest;
    assert whole + tail == body + rest;
    assert prefix == ['0', prefix[1]];
    assert prefix + whole + tail == prefix + (body + rest);
    assert sign + (prefix + (body + rest)) == sign + (prefix + body) + rest;
  }

  lemma PointMark(more: Bytes)
    ensures FloatMark(Peek("." + more, 0)) && Peek("." + more, 0) == '.'
  {
  }

  /** Every number of the kinds above is one token, and taken whole. */
  lemma LooseTaken(n: Loose, rest: Bytes, cfg: DecodeConfig, val: Bytes -> Double)
    requires cfg.invalidNumbers && LooseOk(n) && Delimited(rest) && Reads(cfg, val)
    ensures var s := LooseText(n) + rest; TokenAt(s, cfg) == Lexed(LooseToken(n, val), [], rest, |s|)
  {
    hide LooseOk, LooseText, LooseToken, TokenAt, Delimited, Reads;
    match n
    case Based(_, _, _, _) => BasedTaken(n, rest, cfg, val);
    case Tens(_, _, _, _) => TensTaken(n, rest, cfg, val);
    case Sixteens(_, _, _, _, _) => SixteensTaken(n, rest, cfg, val);
  }

  /** It starts with a sign or a digit. */
  lemma LooseStart(n: Loose, rest: Bytes)
    requires LooseOk(n)
    ensures var c := Peek(LooseText(n) + rest, 0); c == '+' || c == '-' || IsDigit(c)
  {
    hide DigitsOfBase, BasePrefix, FloatDigits, H.AllHex, HexExp, JsonExp, PointDigits, AllDigits, IsDigit, D.SignText;
    match n
    case Based(sign, prefix, d, base) =>
      DigitsStart(prefix, d, base);
      HeadOf(sign, prefix + d, rest);
    case Tens(sign, whole, frac, exp) =>
      FloatPlain(whole);
      FirstOf(whole);
      assert (whole + (frac + exp))[0] == whole[0];
      HeadOf(sign, whole + (frac + exp), rest);
    case Sixteens(sign, prefix, whole, places, exp) =>
      PrefixStart(prefix, whole + ("." + (places + exp)));
      HeadOf(sign, prefix + (whole + ("." + (places + exp))), rest);
  }

  lemma HeadOf(sign: Bytes, t: Bytes, rest: Bytes)
    requires D.SignText(sign) && t != [] && IsDigit(t[0])
    ensures var c := Peek(sign + t + rest, 0); c == '+' || c == '-' || IsDigit(c)
  {
    StartsSigned(sign, t);
    assert (sign + t + rest)[0] == (sign + t)[0];
  }

  lemma PrefixStart(prefix: Bytes, more: Bytes)
    requires prefix == "0x" || prefix == "0X"
    ensures IsDigit((prefix + more)[0])
  {
  }

  lemma DigitsStart(prefix: Bytes, d: Bytes, base: nat)
    requires DigitsOfBase(d, base) && BasePrefix(prefix, base, d[0])
    ensures prefix + d != [] && IsDigit((prefix + d)[0])
  {
    hide DigitOfBase;
    BaseDigits(prefix, d, base);
  }

  // ----- and no others -----

  lemma NumberOnly(s: Bytes, cfg: DecodeConfig)
    requires TokenAt(s, cfg).tok.TInteger? || TokenAt(s, cfg).tok.TNumber?
    ensures TokenAt(s, cfg) == NumberToken(s, cfg) && Strtoll(s).len > 0
    ensures TokenAt(s, cfg).tok.TNumber? <==> FloatMark(Peek(s[Strtoll(s).len..], 0))
  {
    hide TokenAt, Strtoll;
    NumberChosen(s, cfg);
    var k := Strtoll(s).len;
    assert Peek(s, k) == Peek(s[k..], 0);
  }

  lemma NumberChosen(s: Bytes, cfg: DecodeConfig)
    requires TokenAt(s, cfg).tok.TInteger? || TokenAt(s, cfg).tok.TNumber?
    ensures TokenAt(s, cfg) == NumberToken(s, cfg)
  {
    hide NumberToken, StringBody, IsInvalidNumber;
  }

  /** What strtoll takes after the sign. */
  lemma UnsignedParts(t: Bytes) returns (prefix: Bytes, d: Bytes, base: nat)
    requires JsonGrammar.Unsigned(t).1 > 0
    ensures var (v, n) := JsonGrammar.Unsigned(t);
            && DigitsOfBase(d, base) && BasePrefix(prefix, base, d[0]) && t[..n] == prefix + d && v == ValueIn(d, base)
            && (t[n..] == [] || DigitIn(t[n], base) < 0)
  {
    hide RunValue, ValueIn, DigitIn, DigitOfBase;
    var n := JsonGrammar.Unsigned(t).1;
    if Peek(t, 0) == '0' && (Peek(t, 1) == 'x' || Peek(t, 1) == 'X') && HexDigit2Int(Peek(t, 2)) >= 0 {
      prefix, d, base := t[..2], t[2..][..n - 2], 16;
      HexSome(t);
      assert n < |t| ==> t[n] == t[2..][n - 2];
      assert t[..2] == [t[0], t[1]] && t[..n] == t[..2] + t[2..][..n - 2];
    } else {
      prefix, d, base := "", t[..n], if Peek(t, 0) == '0' then 8 else 10;
      assert t[..n] == "" + t[..n];
    }
    DigitsIn(d, base);
    ValueIs(d, base);
  }

  lemma HexSome(t: Bytes)
    requires HexDigit2Int(Peek(t, 2)) >= 0
    ensures |t| > 2 && DigitRun(t[2..], 16) > 0
  {
  }

  lemma StrtollParts(s: Bytes) returns (sign: Bytes, prefix: Bytes, d: Bytes, base: nat)
    requires Strtoll(s).len > 0
    ensures var r := Strtoll(s);
            && D.SignText(sign) && DigitsOfBase(d, base) && BasePrefix(prefix, base, d[0])
            && s == sign + (prefix + d) + s[r.len..] && r.len == |sign + (prefix + d)|
            && r.value == Clamp(if sign == "-" then -ValueIn(d, base) else ValueIn(d, base))
            && (s[r.len..] == [] || DigitIn(s[r.len], base) < 0)
  {
    hide ValueIn, DigitIn, DigitsOfBase, BasePrefix, JsonGrammar.Unsigned, Clamp, Strtoll;
    var g, v, n := SignOf(s);
    sign := s[..g];
    prefix, d, base := UnsignedParts(s[g..]);
    CutTwice(s, g, n);
  }

  lemma SignOf(s: Bytes) returns (g: nat, v: int, n: nat)
    requires Strtoll(s).len > 0
    ensures g + n <= |s| && D.SignText(s[..g]) && JsonGrammar.Unsigned(s[g..]) == (v, n) && n > 0
    ensures Strtoll(s) == Converted(Clamp(if s[..g] == "-" then -v else v), g + n)
  {
    hide JsonGrammar.Unsigned, Clamp;
    g := if Peek(s, 0) == '-' || Peek(s, 0) == '+' then 1 else 0;
    var r := JsonGrammar.Unsigned(s[g..]);
    v, n := r.0, r.1;
    assert g == 1 ==> s[..g] == [s[0]];
  }

  lemma CutTwice(s: Bytes, g: nat, n: nat)
    requires g + n <= |s|
    ensures s == s[..g] + s[g..][..n] + s[g + n..] && s[g..][n..] == s[g + n..]
    ensures g + n < |s| ==> s[g..][n] == s[g + n]
  {
  }

  lemma MarkSome(tail: Bytes)
    requires FloatMark(Peek(tail, 0))
    ensures tail != []
  {
  }

  lemma MarkNoDigit(c: Byte)
    requires FloatMark(c)
    ensures !IsDigit(c) && (DigitIn(c, 16) < 0 ==> c == '.')
  {
  }

  lemma BaseDigits(prefix: Bytes, d: Bytes, base: nat)
    requires DigitsOfBase(d, base) && BasePrefix(prefix, base, d[0])
    ensures base != 16 ==> AllDigits(d) && prefix == "" && FloatDigits(d)
    ensures base == 16 ==> H.AllHex(d) && (prefix == "0x" || prefix == "0X")
  {
    hide DigitOfBase, DigitIn, HexDigits.IsHex;
    DigitsIn(d, base);
    if base == 16 {
      AllHexIn(d);
    } else {
      forall i | 0 <= i < |d| ensures IsDigit(d[i]) { DecimalDigit(d[i]); }
    }
  }

  /** What fpconv_strtod takes of decimal digits and what follows them. */
  lemma TensAt(sign: Bytes, d: Bytes, tail: Bytes) returns (frac: Bytes, exp: Bytes)
    requires D.SignText(sign) && d != [] && AllDigits(d) && FloatMark(Peek(tail, 0))
    ensures PointDigits(frac) && JsonExp(exp) && |frac + exp| <= |tail| && tail[..|frac + exp|] == frac + exp
    ensures var g := S.Greedy(sign + (d + tail)); g.Decimal? && g.len == |sign| + |d| + |frac + exp|
  {
    hide S.Run, S.Exponent, S.Unsigned, S.Greedy, JsonExp, AllDigits, PointDigits, D.SignText, IsDigit;
    var t := d + tail;
    assert t[|d|..] == tail && t[0] == d[0];
    NoBlanks();
    FirstOf(d);
    MarkSome(tail);
    MarkNoDigit(tail[0]);
    S.RunIs(d, tail);
    NoHex(d, tail);
    var fp, more;
    frac, fp, more := PointTaken(tail);
    ExponentText(more);
    exp := more[..S.Exponent(more).1];
    if tail[0] == '.' {
      D.WithPoint(t, d, tail, fp, more);
    } else {
      D.WithoutPoint(t, d, more);
    }
    CutAfter(tail, frac, more, exp);
    D.GreedyRead("", sign, t);
    assert sign + t == "" + sign + t;
  }

  lemma PointTaken(tail: Bytes) returns (frac: Bytes, fp: Bytes, more: Bytes)
    requires tail != []
    ensures PointDigits(frac) && tail == frac + more && more == tail[|frac|..]
    ensures if tail[0] == '.' then fp == S.Run(tail[1..]) && |frac| == 1 + |fp| else frac == []
  {
    hide S.Run;
    if tail[0] == '.' {
      fp := S.Run(tail[1..]);
      frac := "." + fp;
      assert tail == ['.'] + tail[1..] && tail[1..] == fp + tail[1..][|fp|..];
    } else {
      frac, fp := [], [];
    }
    more := tail[|frac|..];
  }

  lemma CutAfter(tail: Bytes, frac: Bytes, more: Bytes, exp: Bytes)
    requires tail == frac + more && |exp| <= |more| && exp == more[..|exp|]
    ensures |frac + exp| <= |tail| && tail[..|frac + exp|] == frac + exp
  {
  }

  lemma FirstOf(d: Bytes)
    requires d != [] && AllDigits(d)
    ensures IsDigit(d[0])
  {
  }

  lemma NoHex(d: Bytes, tail: Bytes)
    requires d != [] && AllDigits(d) && FloatMark(Peek(tail, 0))
    ensures Peek(d + tail, 0) == '0' ==> Peek(d + tail, 1) != 'x' && Peek(d + tail, 1) != 'X'
  {
    D.NotHex(d, tail);
  }

  lemma PowerText(u: Bytes) returns (x: Bytes)
    ensures HexExp(x) && |x| <= |u| && u[..|x|] == x
    ensures var p := H.PowerAt(u); |x| == (if p.Power? then p.len else 0)
  {
    hide S.Run;
    var p := H.PowerAt(u);
    if p.Power? {
      var sign := if Peek(u, 1) == '-' || Peek(u, 1) == '+' then 1 else 0;
      x := u[..p.len];
      assert x[1 + sign..] == S.Run(u[1 + sign..]);
    } else {
      x := [];
    }
  }

  /** What gethex takes of hexadecimal digits and what follows them. */
  lemma SixteensAt(d: Bytes, tail: Bytes) returns (places: Bytes, exp: Bytes)
    requires H.AllHex(d) && d != [] && Peek(tail, 0) == '.'
    ensures H.AllHex(places) && HexExp(exp) && |places + exp| < |tail|
    ensures tail[..1 + |places + exp|] == "." + (places + exp)
    ensures var h := H.LiteralAt(d + tail); h.ip == d && h.len == |d| + 1 + |places + exp|
  {
    hide H.HexRun, H.PowerAt, H.AllHex, HexExp, H.LiteralAt;
    H.PointIsNot();
    H.StopsAt(d, tail);
    places := H.HexRun(tail[1..]);
    var more := tail[1 + |places|..];
    exp := PowerText(more);
    PointCut(d, tail, places, exp);
    H.WithPoint(d + tail, d, tail, places, more);
  }

  lemma PointCut(d: Bytes, tail: Bytes, places: Bytes, exp: Bytes)
    requires Peek(tail, 0) == '.' && |places| < |tail| && tail[1..][..|places|] == places
    requires var more := tail[1 + |places|..]; |exp| <= |more| && more[..|exp|] == exp
    ensures (d + tail)[|d|..] == tail && |places + exp| < |tail| && tail[..1 + |places + exp|] == "." + (places + exp)
  {
    var more := tail[1 + |places|..];
    assert tail == ['.'] + tail[1..] && tail[1..] == places + more && more == exp + more[|exp|..];
    assert tail == "." + (places + exp) + more[|exp|..];
  }

  lemma BasedAt(s: Bytes, sign: Bytes, prefix: Bytes, d: Bytes, base: nat, val: Bytes -> Double)
    requires D.SignText(sign) && DigitsOfBase(d, base) && BasePrefix(prefix, base, d[0])
    ensures var n := Based(sign, prefix, d, base);
            && LooseOk(n) && LooseText(n) == sign + (prefix + d)
            && LooseToken(n, val) == TInteger(Clamp(if sign == "-" then -ValueIn(d, base) else ValueIn(d, base)))
  {
    hide ValueIn, DigitsOfBase, BasePrefix, D.SignText;
    Clamped(if sign == "-" then -ValueIn(d, base) else ValueIn(d, base));
  }

  lemma MarkLeft(tail: Bytes)
    requires FloatMark(Peek(tail, 0))
    ensures !Delimited(tail)
  {
  }

  /** Whatever is a number token by default is a number of the kinds above, as long as it ends where it ends. */
  lemma LooseAt(s: Bytes, cfg: DecodeConfig, val: Bytes -> Double) returns (n: Loose)
    requires cfg.invalidNumbers && Reads(cfg, val)
    requires TokenAt(s, cfg).tok.TInteger? || TokenAt(s, cfg).tok.TNumber?
    ensures var l := TokenAt(s, cfg);
            LooseOk(n) && s == LooseText(n) + l.rest && (Delimited(l.rest) ==> l.tok == LooseToken(n, val))
  {
    hide TokenAt, Strtoll, Reads, LooseOk, LooseText, LooseToken, DigitsOfBase, BasePrefix, Delimited, FloatMark;
    hide ValueIn, NumberToken, DigitIn, D.SignText, Clamp;
    NumberOnly(s, cfg);
    var k := Strtoll(s).len;
    var sign, prefix, d, base := StrtollParts(s);
    BasedAt(s, sign, prefix, d, base, val);
    if TokenAt(s, cfg).tok.TInteger? {
      n := Based(sign, prefix, d, base);
      IntegerToken(s, k, cfg);
    } else {
      MarkSome(s[k..]);
      MarkNoDigit(Peek(s[k..], 0));
      if base == 16 {
        n := SixteensToken(s, sign, prefix, d, cfg, val);
      } else {
        n := TensToken(s, sign, prefix, d, base, cfg, val);
      }
    }
  }

  lemma TensToken(s: Bytes, sign: Bytes, prefix: Bytes, d: Bytes, base: nat, cfg: DecodeConfig, val: Bytes -> Double)
    returns (n: Loose)
    requires cfg.invalidNumbers && Reads(cfg, val) && D.SignText(sign) && DigitsOfBase(d, base)
             && BasePrefix(prefix, base, d[0]) && base != 16
    requires var k := Strtoll(s).len; k == |sign + (prefix + d)| && k <= |s| && s == sign + (prefix + d) + s[k..]
                                      && FloatMark(Peek(s[k..], 0))
    ensures var l := NumberToken(s, cfg);
            LooseOk(n) && s == LooseText(n) + l.rest && (Delimited(l.rest) ==> l.tok == LooseToken(n, val))
  {
    hide Strtoll, DigitsOfBase, BasePrefix, Delimited, FloatMark, ValueIn, NumberToken, S.Greedy, HexRead, AllDigits;
    hide PointDigits, JsonExp, FloatDigits, D.SignText;
    BaseDigits(prefix, d, base);
    BasedAt(s, sign, prefix, d, base, val);
    SomeDigits(d, base);
    var k, tail := Strtoll(s).len, s[Strtoll(s).len..];
    var frac, exp := TensAt(sign, d, tail);
    assert s == sign + (d + tail);
    var end := k + |frac + exp|;
    TensCut(s, sign, d, tail, frac + exp);
    assert cfg.strtod(s) == Strtod(val(s[..end]), end);
    FloatToken(s, k, cfg);
    if frac + exp == [] {
      n := Based(sign, prefix, d, base);
      MarkLeft(tail);
    } else {
      n := Tens(sign, d, frac, exp);
    }
  }

  lemma SomeDigits(d: Bytes, base: nat)
    requires DigitsOfBase(d, base)
    ensures d != []
  {
  }

  lemma TensCut(s: Bytes, sign: Bytes, d: Bytes, tail: Bytes, x: Bytes)
    requires s == sign + (d + tail) && |x| <= |tail| && tail[..|x|] == x
    ensures var end := |sign| + |d| + |x|;
            end <= |s| && s[..end] == sign + (d + x) && s == sign + (d + x) + s[end..]
            && s[end..] == tail[|x|..]
  {
    assert tail == x + tail[|x|..];
  }

  lemma SixteensToken(s: Bytes, sign: Bytes, prefix: Bytes, d: Bytes, cfg: DecodeConfig, val: Bytes -> Double)
    returns (n: Loose)
    requires cfg.invalidNumbers && Reads(cfg, val) && D.SignText(sign) && DigitsOfBase(d, 16)
             && BasePrefix(prefix, 16, d[0])
    requires var k := Strtoll(s).len; k == |sign + (prefix + d)| && k <= |s| && s == sign + (prefix + d) + s[k..]
                                      && Peek(s[k..], 0) == '.'
    ensures var l := NumberToken(s, cfg);
            LooseOk(n) && s == LooseText(n) + l.rest && l.tok == LooseToken(n, val)
  {
    hide Strtoll, DigitsOfBase, BasePrefix, ValueIn, NumberToken, S.Greedy, H.LiteralAt, H.AllHex, HexExp, D.SignText;
    BaseDigits(prefix, d, 16);
    SomeDigits(d, 16);
    var k, tail := Strtoll(s).len, s[Strtoll(s).len..];
    var places, exp := SixteensAt(d, tail);
    n := Sixteens(sign, prefix, d, places, exp);
    SixteensSplit(s, sign, prefix, d, tail, places + exp);
    NoBlanks();
    D.HexStart("", sign, prefix[1], d + tail);
    assert HexRead(cfg.strtod(s), s, |sign| + 2, val);
    FloatToken(s, k, cfg);
  }

  lemma SixteensSplit(s: Bytes, sign: Bytes, prefix: Bytes, d: Bytes, tail: Bytes, x: Bytes)
    requires (prefix == "0x" || prefix == "0X") && s == sign + (prefix + d) + tail
    requires |x| < |tail| && tail[..1 + |x|] == "." + x
    ensures var k, text := |sign| + 2, sign + (prefix + (d + ("." + x)));
            && s == "" + sign + (['0', prefix[1]] + (d + tail)) && k <= |s| && s[k..] == d + tail
            && k + |d| + 1 + |x| == |text| <= |s| && s[..|text|] == text && s == text + s[|text|..]
  {
    assert tail == "." + x + tail[1 + |x|..];
    assert prefix == ['0', prefix[1]];
    SixteensTexts(sign, prefix, d, x, tail[1 + |x|..]);
  }
}
