/** Reading back the tokens that the encoder writes. */
module JsonTokens {
  import opened StrBufs
  import opened JsonStrings
  import opened Decimal
  import opened NumberGrammar
  import opened JsonEncoder
  import opened JsonGrammar

  /** The white space of section 2 of RFC 4627. */
  predicate IsWhite(c: Byte) { c == ' ' || c == '\t' || c == '\n' || c == '\r' }

  predicate White(s: Bytes) { forall i :: 0 <= i < |s| ==> IsWhite(s[i]) }

  /** What can follow a value: white space, punctuation that ends or separates values, or the end. */
  predicate Delimited(rest: Bytes) {
    var c := Peek(rest, 0);
    IsWhite(c) || c == ',' || c == ']' || c == '}' || c == '\0'
  }

  /** White space in front of a token is skipped, all of it. */
  lemma {:induction false} WhiteSkipped(w: Bytes, s: Bytes, cfg: DecodeConfig)
    requires White(w)
    ensures Lex(w + s, cfg) == Lex(s, cfg)
  {
    hide TokenAt;
    if w == [] {
      assert w + s == s;
    } else {
      assert IsWhite(w[0]) && (w + s)[1..] == w[1..] + s;
      WhiteSkipped(w[1..], s, cfg);
    }
  }

  /** And nothing else is: a token starts where the white space ends. */
  lemma {:induction false} OnlyWhite(s: Bytes, cfg: DecodeConfig) returns (w: Bytes, t: Bytes)
    ensures s == w + t && White(w) && !IsWhite(Peek(t, 0)) && Lex(s, cfg) == TokenAt(t, cfg)
    decreases |s|
  {
    hide TokenAt;
    if s != [] && IsWhite(s[0]) {
      w, t := OnlyWhite(s[1..], cfg);
      assert s == [s[0]] + (w + t);
      w := [s[0]] + w;
      assert s == w + t;
    } else {
      w, t := [], s;
    }
  }

  lemma LexPlain(s: Bytes, cfg: DecodeConfig)
    requires !IsSpace(Peek(s, 0))
    ensures Lex(s, cfg) == TokenAt(s, cfg)
  {
  }

  lemma LexSingle(c: Byte, rest: Bytes, cfg: DecodeConfig)
    requires c != '\0' && Ch2Token(c).Single?
    ensures Lex([c] + rest, cfg) == Lexed(Ch2Token(c).tok, [], rest, 1 + |rest|)
  {
    var s := [c] + rest;
    assert s[1..] == rest && Peek(s, 0) == c;
    LexPlain(s, cfg);
  }

  lemma LexString(s: Bytes, rest: Bytes, cfg: DecodeConfig)
    ensures Lex(StringText(s) + rest, cfg) == Lexed(TString(|s|), s, rest, |StringText(s)| + |rest|)
  {
    hide EscapeAll, StringBody, WordToken;
    var t := StringText(s) + rest;
    assert t[1..] == EscapeAll(s) + "\"" + rest && Peek(t, 0) == '"';
    StringRoundTrip(s, rest);
    LexPlain(t, cfg);
  }

  lemma LexWord(word: Bytes, rest: Bytes, cfg: DecodeConfig)
    requires word == "true" || word == "false" || word == "null"
    ensures Lex(word + rest, cfg) ==
            Lexed(if word == "null" then TNull else TBoolean(word == "true"), [], rest, |word| + |rest|)
  {
    var s := word + rest;
    assert s[..|word|] == word && s[|word|..] == rest && Peek(s, 0) == word[0];
    assert s[0] == word[0];
    LexPlain(s, cfg);
    if word == "false" { NotWord(s, "true"); }
    if word == "null" { NotWord(s, "true"); NotWord(s, "false"); }
  }

  lemma NotWord(s: Bytes, word: Bytes)
    requires s != [] && word != [] && s[0] != word[0]
    ensures !StartsWith(s, word)
  {
    assert |word| <= |s| ==> s[..|word|][0] == s[0];
  }

  // ----- integers -----

  lemma LastDigit(n: nat)
    ensures var c := Chr('0' as int + n % 10);
            '0' <= c <= '9' && DigitIn(c, 10) == n % 10 && (c == '0' <==> n % 10 == 0)
  {
  }

  lemma {:induction false} DigitsShape(n: nat)
    ensures var s := DecimalDigits(n);
            && (forall i :: 0 <= i < |s| ==> DigitIn(s[i], 10) >= 0 && '0' <= s[i] <= '9')
            && (s[0] == '0' <==> n == 0) && (n == 0 ==> s == "0")
  {
    hide DigitIn;
    LastDigit(n);
    if n >= 10 {
      DigitsShape(n / 10);
    }
  }

  lemma {:induction false} DigitsValue(n: nat)
    ensures RunValue(DecimalDigits(n), 10) == n
  {
    hide DigitIn, RunValue;
    LastDigit(n);
    var c, head := Chr('0' as int + n % 10), if n < 10 then [] else DecimalDigits(n / 10);
    assert DecimalDigits(n) == head + [c];
    RunSnoc(head, c, 10);
    if n >= 10 { DigitsValue(n / 10); } else { RunNil(10); }
  }

  lemma RunNil(base: nat)
    ensures RunValue([], base) == 0
  {
  }

  lemma RunSnoc(s: Bytes, c: Byte, base: nat)
    ensures RunValue(s + [c], base) == RunValue(s, base) * base + DigitIn(c, base)
  {
    assert (s + [c])[..|s|] == s;
  }

  /** The run of digits ends where the first other byte is. */
  lemma {:induction false} RunEnds(s: Bytes, rest: Bytes, base: nat)
    requires forall i :: 0 <= i < |s| ==> DigitIn(s[i], base) >= 0
    requires rest == [] || DigitIn(rest[0], base) < 0
    ensures DigitRun(s + rest, base) == |s|
  {
    if s == [] {
      assert s + rest == rest;
    } else {
      assert (s + rest)[1..] == s[1..] + rest;
      RunEnds(s[1..], rest, base);
    }
  }

  lemma DelimiterNoDigit(rest: Bytes)
    requires Delimited(rest)
    ensures rest == [] || HexDigit2Int(rest[0]) < 0
  {
  }

  /** Decimal digits are read in base ten, except that zero alone goes through base eight. */
  lemma UnsignedBack(m: nat, rest: Bytes)
    requires Delimited(rest)
    ensures Unsigned(DecimalDigits(m) + rest) == (m, |DecimalDigits(m)|)
  {
    hide DigitRun, RunValue, DecimalDigits;
    var digits := DecimalDigits(m);
    DigitsShape(m);
    DigitsValue(m);
    DelimiterNoDigit(rest);
    RunEnds(digits, rest, 10);
    var t := digits + rest;
    assert t[0] == digits[0] && t[..|digits|] == digits;
    if m == 0 {
      ZeroRun();
      assert digits == "0" && Peek(t, 1) == Peek(rest, 0);
      RunEnds(digits, rest, 8);
    }
  }

  /** strtoll reads a 64-bit integer back. */
  lemma StrtollBack(n: Int64, rest: Bytes)
    requires Delimited(rest)
    ensures Strtoll(IntegerText(n) + rest) == Converted(n, |IntegerText(n)|)
  {
    hide Unsigned, Clamp, DecimalDigits;
    ClampIn(n);
    var k: int := n;
    var m := if k < 0 then -k else k;
    UnsignedBack(m, rest);
    NoSign(m, rest);
    if k < 0 {
      assert ("-" + DecimalDigits(m) + rest)[1..] == DecimalDigits(m) + rest;
    } else {
      assert (DecimalDigits(m) + rest)[0..] == DecimalDigits(m) + rest;
    }
  }

  lemma NoSign(m: nat, rest: Bytes)
    ensures DecimalDigits(m) != [] && '0' <= Peek(DecimalDigits(m) + rest, 0) <= '9'
  {
    hide DecimalDigits;
    DigitsShape(m);
    assert (DecimalDigits(m) + rest)[0] == DecimalDigits(m)[0];
  }

  lemma ZeroRun()
    ensures RunValue("0", 8) == 0 && DigitIn('0', 8) == 0
  {
    assert "0"[..0] == [];
    assert RunValue([], 8) == 0;
  }

  lemma ClampIn(n: Int64)
    ensures Clamp(n) == n
  {
    assert InInt64(n);
  }

  lemma LexInteger(n: Int64, rest: Bytes, cfg: DecodeConfig)
    requires Delimited(rest)
    ensures Lex(IntegerText(n) + rest, cfg) == Lexed(TInteger(n), [], rest, |IntegerText(n)| + |rest|)
  {
    hide Strtoll, DecimalDigits;
    var s, text := IntegerText(n) + rest, IntegerText(n);
    IntegerStart(n, rest);
    LexPlain(s, cfg);
    StrtollBack(n, rest);
    assert s[|text|..] == rest && Peek(s, |text|) == Peek(rest, 0);
  }

  /** The text of an integer begins like a number, and not like one that strict decoding refuses. */
  lemma IntegerStart(n: Int64, rest: Bytes)
    requires Delimited(rest)
    ensures var s := IntegerText(n) + rest;
            (Peek(s, 0) == '-' || '0' <= Peek(s, 0) <= '9') && !IsInvalidNumber(s) && IntegerText(n) != []
  {
    hide DecimalDigits, RunValue, DigitIn, StartsNoCase;
    var k: int := n;
    var m := if k < 0 then -k else k;
    var digits := DecimalDigits(m);
    DigitsShape(m);
    var s, t := IntegerText(n) + rest, digits + rest;
    assert t[0] == digits[0];
    if k < 0 { assert s[1..] == t; } else { assert s == t; }
    if m == 0 { assert Peek(t, 1) == Peek(rest, 0); }
  }

  // ----- strict decoding of numbers -----

  function SignLength(t: Bytes): nat { if Peek(t, 0) == '-' then 1 else 0 }

  /** [ minus ] int: no plus sign and no leading zeros. */
  predicate SignedInt(t: Bytes) { JsonInt(t[SignLength(t)..]) }

  /** The number it denotes. */
  function IntValue(t: Bytes): int {
    var d := t[SignLength(t)..];
    if Peek(t, 0) == '-' then -RunValue(d, 10) else RunValue(d, 10)
  }

  predicate FloatMark(c: Byte) { c == '.' || c == 'e' || c == 'E' }

  lemma DecimalDigit(c: Byte)
    ensures DigitIn(c, 10) >= 0 <==> IsDigit(c)
    ensures DigitIn(c, 8) >= 0 ==> IsDigit(c)
  {
  }

  /** The run of decimal digits is the one place where digits end. */
  lemma RunIs(p: Bytes, n: nat)
    requires n <= |p|
    ensures DigitRun(p, 10) == n <==>
            (forall i :: 0 <= i < n ==> IsDigit(p[..n][i])) && !IsDigit(Peek(p[n..], 0))
  {
    hide DigitIn, DigitRun;
    forall c: Byte ensures DigitIn(c, 10) >= 0 <==> IsDigit(c) { DecimalDigit(c); }
    if (forall i :: 0 <= i < n ==> IsDigit(p[..n][i])) && !IsDigit(Peek(p[n..], 0)) {
      assert p == p[..n] + p[n..];
      RunEnds(p[..n], p[n..], 10);
    }
    assert n < |p| ==> Peek(p[n..], 0) == p[n];
  }

  predicate Refused(p: Bytes) {
    Peek(p, 0) == '0' && (Peek(p, 1) == 'x' || Peek(p, 1) == 'X' || IsDigit(Peek(p, 1)))
  }

  /** What strict decoding lets through to strtoll is read in base ten. */
  lemma UnsignedStrict(p: Bytes)
    requires !Refused(p)
    ensures var n := DigitRun(p, 10);
            Unsigned(p) == (RunValue(p[..n], 10), n) && (n > 0 && p[0] == '0' ==> n == 1)
  {
    hide DigitRun, RunValue, DigitIn;
    if Peek(p, 0) == '0' {
      forall c: Byte ensures (DigitIn(c, 10) >= 0 <==> IsDigit(c)) && (DigitIn(c, 8) >= 0 ==> IsDigit(c)) {
        DecimalDigit(c);
      }
      LoneZero();
      assert p == "0" + p[1..];
      assert p[1..] != [] ==> p[1..][0] == Peek(p, 1);
      RunEnds("0", p[1..], 10);
      RunEnds("0", p[1..], 8);
      assert p[..1] == "0";
    }
  }

  lemma LoneZero()
    ensures RunValue("0", 8) == RunValue("0", 10) == 0 && DigitIn('0', 8) == DigitIn('0', 10) == 0
  {
    assert "0"[..0] == [];
    assert RunValue([], 8) == 0 && RunValue([], 10) == 0;
  }

  /** s starts like a number and strict decoding does not refuse it. */
  predicate LetThrough(s: Bytes) {
    (Peek(s, 0) == '-' || IsDigit(Peek(s, 0))) && !IsInvalidNumber(s)
  }

  lemma Middle(s: Bytes, g: nat, n: nat)
    requires g + n <= |s|
    ensures s[..g + n][g..] == s[g..][..n]
  {
  }

  lemma StrtollStrict(s: Bytes)
    requires LetThrough(s)
    ensures var n := DigitRun(s[SignLength(s)..], 10);
            var k := SignLength(s) + n;
            Strtoll(s) == if n == 0 then Converted(0, 0) else Converted(Clamp(IntValue(s[..k])), k)
  {
    hide DigitRun, RunValue, Unsigned, Clamp, StartsNoCase;
    var p := s[SignLength(s)..];
    UnsignedStrict(p);
    var n := DigitRun(p, 10);
    Middle(s, SignLength(s), n);
  }

  /** -0 or 0. */
  predicate IntIsZero(t: Bytes) { t[SignLength(t)..] == "0" }

  predicate HexMark(c: Byte) { c == 'x' || c == 'X' }

  /** An integer of the grammar that ends where it ends: no digit follows, and no x after a zero. */
  predicate WholeInt(s: Bytes, k: nat)
    requires k <= |s|
  {
    var next := Peek(s[k..], 0);
    SignedInt(s[..k]) && !IsDigit(next) && !(IntIsZero(s[..k]) && HexMark(next))
  }

  /** The same for the part after the sign. */
  predicate WholeDigits(p: Bytes, n: nat)
    requires n <= |p|
  {
    var next := Peek(p[n..], 0);
    JsonInt(p[..n]) && !IsDigit(next) && !(p[..n] == "0" && HexMark(next))
  }

  lemma WholeDigitsIff(p: Bytes, n: nat)
    requires n <= |p|
    ensures WholeDigits(p, n) <==> !Refused(p) && n == DigitRun(p, 10) > 0
  {
    hide DigitRun;
    RunIs(p, n);
    if n > 0 {
      assert Peek(p, 0) == p[..n][0];
      assert Peek(p, 1) == if n > 1 then p[..n][1] else Peek(p[n..], 0);
    }
  }

  lemma WholeParts(s: Bytes, k: nat)
    requires k <= |s|
    ensures var g := SignLength(s); WholeInt(s, k) <==> g <= k && WholeDigits(s[g..], k - g)
  {
    hide JsonInt, IsDigit, HexMark, SignLength;
    var g, t := SignLength(s), s[..k];
    SignFits(s);
    SignFits(t);
    if g <= k {
      SignKept(s, k);
      Cut(s, g, k);
    } else {
      SignMissing(s, k);
    }
    NoDigits();
  }

  lemma SignFits(s: Bytes)
    ensures SignLength(s) <= |s| && SignLength(s) <= 1
  {
  }

  lemma SignMissing(s: Bytes, k: nat)
    requires k < SignLength(s) && k <= |s|
    ensures s[..k] == [] && SignLength(s[..k]) == 0 && s[..k][SignLength(s[..k])..] == []
  {
  }

  lemma Cut(s: Bytes, g: nat, k: nat)
    requires g <= k <= |s|
    ensures s[..k][g..] == s[g..][..k - g] && s[g..][k - g..] == s[k..]
  {
  }

  lemma SignKept(s: Bytes, k: nat)
    requires SignLength(s) <= k <= |s|
    ensures SignLength(s[..k]) <= SignLength(s)
    ensures SignLength(s[..k]) < SignLength(s) ==> k == 0
    ensures k > 0 ==> SignLength(s[..k]) == SignLength(s)
    ensures k == 0 ==> s[..k] == []
  {
  }

  lemma NoDigits()
    ensures !JsonInt([])
  {
  }

  lemma LetThroughIff(s: Bytes)
    ensures var p := s[SignLength(s)..]; IsDigit(Peek(p, 0)) ==> (LetThrough(s) <==> !Refused(p))
  {
    hide StartsNoCase;
  }

  lemma WholeIntIff(s: Bytes, k: nat)
    requires k <= |s|
    ensures WholeInt(s, k) <==>
            LetThrough(s) && k == SignLength(s) + DigitRun(s[SignLength(s)..], 10) > SignLength(s)
  {
    hide DigitRun, WholeInt, WholeDigits, LetThrough, Refused;
    var g := SignLength(s);
    WholeParts(s, k);
    WholeDigitsIff(s[g..], if g <= k then k - g else 0);
    if g < k {
      RunIs(s[g..], k - g);
      LetThroughIff(s);
      assert Peek(s[g..], 0) == s[g..][..k - g][0];
    } else if g == k {
      assert !WholeDigits(s[g..], 0);
    }
  }

  lemma NumberStrict(s: Bytes, cfg: DecodeConfig)
    requires LetThrough(s)
    ensures var l, g := NumberToken(s, cfg), SignLength(s);
            var k := g + DigitRun(s[g..], 10);
            if k == g then l.tok.TError?
            else if FloatMark(Peek(s[k..], 0)) then l.tok == TNumber(cfg.strtod(s).x)
            else l.tok == TInteger(Clamp(IntValue(s[..k]))) && l.rest == s[k..]
  {
    hide DigitRun, Strtoll, IsInvalidNumber, Clamp, IntValue;
    var k := SignLength(s) + DigitRun(s[SignLength(s)..], 10);
    StrtollStrict(s);
    assert Peek(s[k..], 0) == Peek(s, k);
  }

  /** Only what starts like a number and is not refused reaches strtoll. */
  lemma OnlyLetThrough(s: Bytes, cfg: DecodeConfig)
    requires !cfg.invalidNumbers
    ensures var tok := TokenAt(s, cfg).tok;
            if LetThrough(s) then TokenAt(s, cfg) == NumberToken(s, cfg) else !tok.TInteger? && !tok.TNumber?
  {
    hide NumberToken, IsInvalidNumber, StringBody;
  }

  /** What strict decoding makes of a token that could be a number. */
  lemma StrictToken(s: Bytes, cfg: DecodeConfig)
    requires !cfg.invalidNumbers
    ensures var l, g := TokenAt(s, cfg), SignLength(s);
            var k := g + DigitRun(s[g..], 10);
            if LetThrough(s) && k > g then
              if FloatMark(Peek(s[k..], 0)) then l.tok == TNumber(cfg.strtod(s).x)
              else l.tok == TInteger(Clamp(IntValue(s[..k]))) && l.rest == s[k..]
            else !l.tok.TInteger? && !l.tok.TNumber?
  {
    hide DigitRun, TokenAt, NumberToken, LetThrough, Clamp, IntValue, FloatMark;
    OnlyLetThrough(s, cfg);
    if LetThrough(s) { NumberStrict(s, cfg); }
  }

  /** With strict decoding, exactly the integers of the grammar become integers, with their clamped value. */
  lemma StrictInteger(s: Bytes, cfg: DecodeConfig, k: nat, n: Int64)
    requires !cfg.invalidNumbers && k <= |s|
    ensures var l := TokenAt(s, cfg);
            l.tok == TInteger(n) && l.rest == s[k..] <==>
            WholeInt(s, k) && !FloatMark(Peek(s[k..], 0)) && n == Clamp(IntValue(s[..k]))
  {
    hide TokenAt, Clamp, IntValue, DigitRun, WholeInt, LetThrough;
    WholeIntIff(s, k);
    StrictToken(s, cfg);
    var m := SignLength(s) + DigitRun(s[SignLength(s)..], 10);
    assert |s[k..]| == |s| - k && |s[m..]| == |s| - m;
  }

  /** And exactly those followed by a point or an exponent are handed to fpconv_strtod. */
  lemma StrictFloat(s: Bytes, cfg: DecodeConfig)
    requires !cfg.invalidNumbers
    ensures TokenAt(s, cfg).tok.TNumber? <==>
            exists k: nat :: k <= |s| && WholeInt(s, k) && FloatMark(Peek(s[k..], 0))
  {
    hide TokenAt, Clamp, IntValue, DigitRun, WholeInt, LetThrough;
    StrictToken(s, cfg);
    var m := SignLength(s) + DigitRun(s[SignLength(s)..], 10);
    WholeIntIff(s, m);
    forall k: nat | k <= |s| && WholeInt(s, k) ensures k == m { WholeIntIff(s, k); }
  }
}
