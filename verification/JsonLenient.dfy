/** What decoding by default does not do as documented: names of non-numbers, leading zeros, hexadecimal exponents. */
module LenientDecoding {
  import opened StrBufs
  import opened JsonStrings
  import opened JsonGrammar
  import opened JsonParse
  import opened JsonTokens
  import opened Decimal
  import opened LooseNumbers
  import opened JsonTexts
  import opened JsonReading
  import D = DecimalTexts
  import H = HexLiterals
  import N = ScanNumber

  /** NaN, Infinity and whatever else starts with n or i, with a sign or not, is no value anywhere, null aside. */
  lemma NamesRefused(sign: Bytes, name: Bytes, cfg: DecodeConfig, depth: nat)
    requires D.SignText(sign) && name != [] && name[0] in "nNiI" && !StartsWith(sign + name, "null")
    ensures Advances(TokenAt(sign + name, cfg)) && ParseToken(TokenAt(sign + name, cfg), cfg, depth).Failed?
  {
    hide TokenAt;
    TokenAdvances(sign + name, cfg);
    NameToken(sign, name, cfg);
  }

  lemma NameToken(sign: Bytes, name: Bytes, cfg: DecodeConfig)
    requires D.SignText(sign) && name != [] && name[0] in "nNiI" && !StartsWith(sign + name, "null")
    ensures TokenAt(sign + name, cfg).tok.TError?
  {
    hide StringBody, IsInvalidNumber, Strtoll, StartsWith;
    var s := sign + name;
    NoDigitsThere(sign, name);
    assert sign == "" ==> s == name;
    assert s[0] == if sign == "" then name[0] else sign[0];
    OtherWord(s, "true");
    OtherWord(s, "false");
  }

  lemma OtherWord(s: Bytes, word: Bytes)
    requires word != [] && Peek(s, 0) != word[0]
    ensures !StartsWith(s, word)
  {
    if |word| <= |s| { assert s[..|word|][0] == s[0]; }
  }

  lemma NoDigitsThere(sign: Bytes, name: Bytes)
    requires D.SignText(sign) && name != [] && name[0] in "nNiI"
    ensures Strtoll(sign + name).len == 0
  {
    var s := sign + name;
    if sign == "" { assert s == name && s[0..] == name; } else { assert s[0] == sign[0] && s[1..] == name; }
    NoDigitRun(name);
  }

  lemma NoDigitRun(name: Bytes)
    requires name != [] && name[0] in "nNiI"
    ensures JsonGrammar.Unsigned(name).1 == 0
  {
  }

  // ----- leading zeros -----

  /** Read in base eight, a number is smaller, unless its last digit stands alone behind zeros. */
  lemma {:induction false} OctalLess(d: Bytes)
    requires AllDigits(d)
    ensures 0 <= ValueIn(d, 8) <= DigitsVal(d)
    ensures d != [] ==> (ValueIn(d, 8) == DigitsVal(d) <==> N.AllZeros(d[..|d| - 1]))
  {
    hide PlaceFrom;
    if d != [] {
      var f, c := d[..|d| - 1], d[|d| - 1];
      OctalLess(f);
      assert IsDigit(c);
      DecimalPlace(c);
      ZeroValue(f);
    }
  }

  lemma DecimalPlace(c: Byte)
    requires IsDigit(c)
    ensures PlaceFrom(c, 0) == DigitOf(c)
  {
    PlaceFinds(c, 0, DigitOf(c));
  }

  lemma {:induction false} ZeroValue(d: Bytes)
    requires AllDigits(d)
    ensures DigitsVal(d) == 0 <==> N.AllZeros(d)
  {
    if d != [] {
      ZeroValue(d[..|d| - 1]);
      assert IsDigit(d[|d| - 1]);
      assert N.AllZeros(d) <==> N.AllZeros(d[..|d| - 1]) && d[|d| - 1] == '0';
    }
  }

  /** A number that ends before the text does, at something that is not white. */
  lemma LeftOver(s: Bytes, k: nat, cfg: DecodeConfig)
    requires 0 < k < |s| && Strtoll(s).len == k && TokenAt(s, cfg) == NumberToken(s, cfg) && !IsWhite(s[0])
    requires !FloatMark(s[k]) && !IsWhite(s[k]) && s[k] != '\0'
    ensures Decode(s, cfg).Refused?
  {
    hide TokenAt, Strtoll, FloatMark;
    assert s[k..][0] == s[k];
    IntegerToken(s, k, cfg);
    LexPlain(s, cfg);
    LexPlain(s[k..], cfg);
    if TokenAt(s[k..], cfg).tok.TEnd? { EndAt(s[k..], cfg); }
  }

  /**
   Decimal digits that start with 0: refused if an 8 or 9 is among them, and otherwise read in base eight. That is the
   decimal number they look like only if nothing but zeros stands before the last digit.
   */
  lemma LeadingZero(d: Bytes, cfg: DecodeConfig, val: Bytes -> Double)
    requires cfg.invalidNumbers && Reads(cfg, val) && d != [] && AllDigits(d) && d[0] == '0'
    ensures if forall i :: 0 <= i < |d| ==> d[i] <= '7' then
              && Decode(d, cfg) == Decoded(Int(To64(ValueIn(d, 8))))
              && (ValueIn(d, 8) == DigitsVal(d) <==> N.AllZeros(d[..|d| - 1]))
            else Decode(d, cfg).Refused?
  {
    hide ValueIn, To64, Decode, Reads, N.AllZeros, DigitsVal;
    OctalLess(d);
    if forall i :: 0 <= i < |d| ==> d[i] <= '7' {
      OctalDecodes(d, cfg, val);
    } else {
      EightRefused(d, cfg);
    }
  }

  lemma EightRefused(d: Bytes, cfg: DecodeConfig)
    requires cfg.invalidNumbers && d != [] && AllDigits(d) && d[0] == '0'
    requires !(forall i :: 0 <= i < |d| ==> d[i] <= '7')
    ensures Decode(d, cfg).Refused?
  {
    hide Decode, Strtoll, TokenAt, NumberToken;
    var k := EightAt(d);
    assert "" + d == d;
    LenientToken("", d, cfg);
    DigitPlain(d[k]);
    LeftOver(d, k, cfg);
  }

  /** 0123 comes out as 83. */
  lemma OctalInput(cfg: DecodeConfig, val: Bytes -> Double)
    requires cfg.invalidNumbers && Reads(cfg, val)
    ensures Decode("0123", cfg) == Decoded(Int(83))
  {
    hide Decode, Reads, ValueIn;
    OctalDecodes("0123", cfg, val);
    EightyThree();
  }

  lemma EightyThree()
    ensures ValueIn("0123", 8) == 83
  {
    hide PlaceFrom;
    DecimalPlace('0'); DecimalPlace('1'); DecimalPlace('2'); DecimalPlace('3');
    assert "0123"[..3] == "012" && "012"[..2] == "01" && "01"[..1] == "0" && "0"[..0] == [];
    assert ValueIn("0", 8) == 0 && ValueIn("01", 8) == 1 && ValueIn("012", 8) == 10;
  }

  lemma DigitPlain(c: Byte)
    requires IsDigit(c)
    ensures !FloatMark(c) && !IsWhite(c) && c != '\0'
  {
  }

  lemma OctalDecodes(d: Bytes, cfg: DecodeConfig, val: Bytes -> Double)
    requires cfg.invalidNumbers && Reads(cfg, val) && d != [] && d[0] == '0'
    requires forall i :: 0 <= i < |d| ==> '0' <= d[i] <= '7'
    ensures Decode(d, cfg) == Decoded(Int(To64(ValueIn(d, 8))))
  {
    hide ValueIn, To64, Decode, Reads, LooseOk, LooseText, White, TextOf;
    var n := Based("", "", d, 8);
    OctalOk(d);
    LooseAlone(n, cfg.maxDepth);
    TextDecodes(d, "", JLoose(n), "", "", cfg, val);
  }

  lemma LooseAlone(n: Loose, d: nat)
    requires LooseOk(n)
    ensures TextOf(LooseText(n), "", JLoose(n), "", "", d, true)
  {
    hide LooseOk, LooseText;
    assert "" + LooseText(n) + "" + "" == LooseText(n);
  }

  lemma OctalOk(d: Bytes)
    requires d != [] && d[0] == '0' && forall i :: 0 <= i < |d| ==> '0' <= d[i] <= '7'
    ensures var n := Based("", "", d, 8); LooseOk(n) && LooseText(n) == d && White("")
  {
    hide PlaceFrom, HexDigitIs;
    forall i | 0 <= i < |d| ensures DigitOfBase(d[i], 8) { DecimalPlace(d[i]); OctalPlace(d[i]); }
    assert "" + ("" + d) == d;
  }

  lemma OctalPlace(c: Byte)
    requires '0' <= c <= '7'
    ensures HexDigitIs(c, DigitOf(c)) && DigitOf(c) < 8
  {
  }

  /** Where strtoll stops. */
  lemma EightAt(d: Bytes) returns (k: nat)
    requires d != [] && AllDigits(d) && d[0] == '0' && !(forall i :: 0 <= i < |d| ==> d[i] <= '7')
    ensures 0 < k < |d| && Strtoll(d).len == k
  {
    hide RunValue, DigitRun, Clamp;
    k := DigitRun(d, 8);
    assert d[0..] == d;
    assert IsDigit(d[0]) && (|d| > 1 ==> IsDigit(d[1]));
    forall i | 0 <= i < k ensures d[i] <= '7' { OctalOnly(d[i]); }
  }

  lemma OctalOnly(c: Byte)
    requires DigitIn(c, 8) >= 0
    ensures c <= '7'
  {
  }

  // ----- hexadecimal numbers with an exponent -----

  /** Without a point they are refused. */
  lemma HexPower(prefix: Bytes, d: Bytes, exp: Bytes, cfg: DecodeConfig)
    requires (prefix == "0x" || prefix == "0X") && d != [] && H.AllHex(d) && HexExp(exp) && exp != []
    ensures Decode(prefix + d + exp, cfg).Refused?
  {
    hide DigitOfBase, H.AllHex, Decode, Strtoll, TokenAt, NumberToken, ValueIn, JsonGrammar.Unsigned, IsInvalidNumber;
    var s, k := prefix + d + exp, 2 + |d|;
    AllHexIn(d);
    UnsignedIn(prefix, d, 16, exp);
    SignedOf("", s, ValueIn(d, 16), k);
    assert "" + s == s && s[k] == exp[0] && s[0] == '0';
    if cfg.invalidNumbers {
      LenientToken("", s, cfg);
      LeftOver(s, k, cfg);
    } else {
      StrictHex(s, cfg);
    }
  }

  lemma StrictHex(s: Bytes, cfg: DecodeConfig)
    requires !cfg.invalidNumbers && |s| > 1 && s[0] == '0' && (s[1] == 'x' || s[1] == 'X')
    ensures Decode(s, cfg).Refused?
  {
    LexPlain(s, cfg);
  }
}
