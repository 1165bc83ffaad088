/** The decoder accepts exactly the texts of the grammar within its depth limit, and gives them their meaning. */
module JsonReading {
  import opened StrBufs
  import opened JsonStrings
  import opened Unicode
  import opened Decimal
  import opened NumberGrammar
  import opened JsonEncoder
  import opened JsonGrammar
  import opened JsonParse
  import opened JsonTokens
  import opened JsonFloats
  import opened LooseNumbers
  import D = DecimalTexts
  import H = HexLiterals
  import S = Scanner
  import opened JsonTexts

  // ----- every such text is accepted -----

  lemma {:induction false} DigitsRun(d: Bytes)
    requires AllDigits(d)
    ensures RunValue(d, 10) == DigitsVal(d)
  {
    if d != [] {
      var i := |d| - 1;
      DigitsRun(d[..i]);
      DecimalDigit(d[i]);
      assert IsDigit(d[i]);
    }
  }

  lemma IntegerIs(minus: Bytes, whole: Bytes)
    requires (minus == "" || minus == "-") && JsonInt(whole)
    ensures Clamp(IntValue(minus + whole)) == To64(IntegerOf(minus, whole))
  {
    hide RunValue, DigitsVal;
    var t := minus + whole;
    assert t[|minus|] == whole[0] && t[|minus|..] == whole;
    assert SignLength(t) == |minus|;
    DigitsRun(whole);
  }

  lemma NumberRead(x: Json, rest: Bytes, cfg: DecodeConfig, val: Bytes -> Double, depth: nat)
    requires (x.JInt? || x.JFloat?) && WellFormed(x) && Delimited(rest) && Reads(cfg, val)
    ensures ParseToken(Lex(Flat(x) + rest, cfg), cfg, depth) == Got(Meaning(x, val), rest)
  {
    hide Lex, TokenAt, S.Greedy, JsonInt, PointDigits, JsonExp, Clamp, IntValue, To64, IntegerOf, Delimited;
    match x
    case JInt(minus, whole) =>
      IntegerTaken(minus, whole, rest, cfg);
      IntegerIs(minus, whole);
      NumberStart(minus, whole, rest);
      LexPlain(Flat(x) + rest, cfg);
    case JFloat(minus, whole, frac, exp) =>
      var s, t := minus + whole + (frac + exp + rest), minus + whole + (frac + exp);
      assert s == t + rest && |t| == |minus| + |whole| + |frac| + |exp| && s[..|t|] == t;
      GreedyTaken(minus, whole, frac, exp, rest);
      assert cfg.strtod(s) == Strtod(val(t), |t|);
      FloatTaken(minus, whole, frac, exp, rest, cfg);
      NumberStart(minus, whole, frac + exp + rest);
      LexPlain(s, cfg);
  }

  lemma LooseRead(n: Loose, rest: Bytes, cfg: DecodeConfig, val: Bytes -> Double, depth: nat)
    requires LooseOk(n) && Delimited(rest) && Reads(cfg, val) && cfg.invalidNumbers
    ensures ParseToken(Lex(LooseText(n) + rest, cfg), cfg, depth) == Got(Meaning(JLoose(n), val), rest)
  {
    hide Lex, TokenAt, LooseOk, LooseText, LooseInteger, Delimited, Reads;
    LooseTaken(n, rest, cfg, val);
    LooseStart(n, rest);
    LexPlain(LooseText(n) + rest, cfg);
  }

  lemma NumberStart(minus: Bytes, whole: Bytes, rest: Bytes)
    requires (minus == "" || minus == "-") && JsonInt(whole)
    ensures !IsSpace(Peek(minus + whole + rest, 0))
  {
    assert (minus + whole + rest)[0] == (minus + whole)[0];
    assert (minus + whole)[|minus|] == whole[0];
  }

  lemma StringRead(ps: seq<Piece>, rest: Bytes, cfg: DecodeConfig)
    requires PiecesOk(ps)
    ensures var b := PiecesBytes(ps);
            Lex("\"" + PiecesText(ps) + "\"" + rest, cfg) ==
            Lexed(TString(|b|), b, rest, 2 + |PiecesText(ps)| + |rest|)
  {
    hide PiecesText, PiecesBytes, StringBody, WordToken, PieceOk;
    var s := "\"" + PiecesText(ps) + "\"" + rest;
    assert s[1..] == PiecesText(ps) + "\"" + rest && Peek(s, 0) == '"';
    PiecesRead(ps, rest);
    LexPlain(s, cfg);
  }

  /** After white space in front of it. */
  lemma SingleRead(w: Bytes, c: Byte, rest: Bytes, cfg: DecodeConfig)
    requires White(w) && c != '\0' && Ch2Token(c).Single?
    ensures Lex(w + [c] + rest, cfg) == Lexed(Ch2Token(c).tok, [], rest, 1 + |rest|)
  {
    hide Lex;
    assert w + [c] + rest == w + ([c] + rest);
    WhiteSkipped(w, [c] + rest, cfg);
    LexSingle(c, rest, cfg);
  }

  /** What comes after a value. */
  lemma ClosingRead(w: Bytes, c: Byte, more: Bytes, cfg: DecodeConfig)
    requires White(w) && (c == ',' || c == ']' || c == '}')
    ensures Delimited(w + ([c] + more))
    ensures Lex(w + ([c] + more), cfg) == Lexed(Ch2Token(c).tok, [], more, 1 + |more|) && Ch2Token(c).Single?
  {
    hide Lex;
    assert w + ([c] + more) == w + [c] + more;
    SingleRead(w, c, more, cfg);
    if w != [] { assert (w + ([c] + more))[0] == w[0]; }
  }

  lemma {:induction false} ValueRead(x: Json, rest: Bytes, cfg: DecodeConfig, val: Bytes -> Double, depth: nat)
    requires WellFormed(x) && Delimited(rest) && Reads(cfg, val) && depth <= cfg.maxDepth
             && Within(x, cfg.maxDepth - depth, cfg.invalidNumbers)
    ensures ParseToken(Lex(Flat(x) + rest, cfg), cfg, depth) == Got(Meaning(x, val), rest)
    decreases x
  {
    hide Lex, PiecesText, PiecesBytes, ParseElements, ParseMembers, FlatElements, FlatMembers, Reads, Delimited;
    hide ElementsMap, MembersMap, White, PiecesOk, JsonInt, JsonExp, PointDigits, IntegerOf, To64, LooseOk, LooseText;
    hide LooseInteger;
    match x
    case JNull => LexWord("null", rest, cfg);
    case JBool(b) => LexWord(if b then "true" else "false", rest, cfg);
    case JInt(_, _) => NumberRead(x, rest, cfg, val, depth);
    case JFloat(_, _, _, _) => NumberRead(x, rest, cfg, val, depth);
    case JLoose(n) => LooseRead(n, rest, cfg, val, depth);
    case JString(ps) => StringRead(ps, rest, cfg);
    case JNoElements(gap) =>
      assert Flat(x) + rest == "[" + (gap + "]" + rest);
      LexSingle('[', gap + "]" + rest, cfg);
      SingleRead(gap, ']', rest, cfg);
    case JNoMembers(gap) =>
      assert Flat(x) + rest == "{" + (gap + "}" + rest);
      LexSingle('{', gap + "}" + rest, cfg);
      SingleRead(gap, '}', rest, cfg);
    case JArray(es) =>
      assert Flat(x) + rest == "[" + (FlatElements(es) + rest);
      LexSingle('[', FlatElements(es) + rest, cfg);
      ElementsRead(es, rest, cfg, val, depth + 1, map[], 1);
      NotClosed(FlatElements(es) + rest, cfg, depth + 1);
    case JObject(ms) =>
      assert Flat(x) + rest == "{" + (FlatMembers(ms) + rest);
      LexSingle('{', FlatMembers(ms) + rest, cfg);
      MembersRead(ms, rest, cfg, val, depth + 1, map[]);
      NotClosed(FlatMembers(ms) + rest, cfg, depth + 1);
  }

  lemma NotClosed(s: Bytes, cfg: DecodeConfig, depth: nat)
    ensures ParseElements(Lex(s, cfg), cfg, map[], 1, depth).Got? ==> !Lex(s, cfg).tok.TArrEnd?
    ensures ParseMembers(Lex(s, cfg), cfg, map[], depth).Got? ==> !Lex(s, cfg).tok.TObjEnd?
  {
    hide Lex;
    var l := Lex(s, cfg);
    if l.tok.TArrEnd? { assert ParseToken(l, cfg, depth).Failed?; }
    if l.tok.TObjEnd? { assert ParseMember(l, cfg, depth).Failed?; }
  }

  lemma {:induction false} ElementsRead(es: Elements, rest: Bytes, cfg: DecodeConfig, val: Bytes -> Double, depth: nat,
      m: map<Key, Tree>, i: nat)
    requires ElementsOk(es) && Reads(cfg, val) && depth <= cfg.maxDepth
             && ElementsWithin(es, cfg.maxDepth - depth, cfg.invalidNumbers)
    ensures ParseElements(Lex(FlatElements(es) + rest, cfg), cfg, m, i, depth) ==
            Got(Node(ElementsMap(es, val, m, i)), rest)
    decreases es
  {
    hide Lex, ParseToken, ParseElements, Flat, Reads, Delimited, Meaning, White, WellFormed, Within;
    var c, more := if es.LastElement? then ']' else ',', if es.LastElement? then rest else FlatElements(es.es) + rest;
    var tail := [c] + more;
    var s := Flat(es.x) + (es.after + tail);
    assert FlatElements(es) + rest == es.before + s;
    WhiteSkipped(es.before, s, cfg);
    ClosingRead(es.after, c, more, cfg);
    ValueRead(es.x, es.after + tail, cfg, val, depth);
    ElementsStep(Lex(s, cfg), cfg, m, i, depth);
    if es.Element? {
      ElementsRead(es.es, rest, cfg, val, depth, m[IntKey(i) := Meaning(es.x, val)], i + 1);
    }
  }

  /** A member is read from the front, and what follows it is left. */
  lemma MemberJoined(before: Bytes, quoted: Bytes, gap: Bytes, gap2: Bytes, text: Bytes, after: Bytes, tail: Bytes,
      rest: Bytes)
    ensures before + quoted + gap + ":" + gap2 + text + after + tail + rest ==
            before + (quoted + (gap + ":" + (gap2 + (text + (after + (tail + rest))))))
  {
    var a := after + (tail + rest);
    assert after + tail + rest == a;
    assert text + after + tail + rest == text + a;
    var b := gap2 + (text + a);
    assert gap2 + text + after + tail + rest == b;
    assert gap + ":" + gap2 + text + after + tail + rest == gap + ":" + b;
    assert quoted + gap + ":" + gap2 + text + after + tail + rest == quoted + (gap + ":" + b);
  }

  lemma MembersParts(ms: Members)
    requires MembersOk(ms)
    ensures FlatMembers(ms) == ms.before + ("\"" + PiecesText(ms.name) + "\"") + ms.gap + ":" + ms.gap2 + Flat(ms.x)
            + ms.after + (if ms.LastMember? then "}" else "," + FlatMembers(ms.ms))
  {
    hide Flat, PiecesText, PiecesOk, WellFormed, White;
  }

  lemma MembersSpread(ms: Members, c: Byte, more: Bytes, rest: Bytes)
    requires MembersOk(ms) && c == (if ms.LastMember? then '}' else ',')
    requires more == if ms.LastMember? then rest else FlatMembers(ms.ms) + rest
    ensures FlatMembers(ms) + rest ==
            ms.before + ("\"" + PiecesText(ms.name) + "\"" +
                         (ms.gap + ":" + (ms.gap2 + (Flat(ms.x) + (ms.after + ([c] + more))))))
  {
    hide Flat, PiecesText, FlatMembers, WellFormed, White, PiecesOk;
    var last := if ms.LastMember? then "}" else "," + FlatMembers(ms.ms);
    MemberJoined(ms.before, "\"" + PiecesText(ms.name) + "\"", ms.gap, ms.gap2, Flat(ms.x), ms.after, last, rest);
    assert [c] + more == last + rest;
    MembersParts(ms);
  }

  lemma {:induction false} MembersRead(ms: Members, rest: Bytes, cfg: DecodeConfig, val: Bytes -> Double, depth: nat,
      m: map<Key, Tree>)
    requires MembersOk(ms) && Reads(cfg, val) && depth <= cfg.maxDepth
             && MembersWithin(ms, cfg.maxDepth - depth, cfg.invalidNumbers)
    ensures ParseMembers(Lex(FlatMembers(ms) + rest, cfg), cfg, m, depth) == Got(Node(MembersMap(ms, val, m)), rest)
    decreases ms
  {
    hide Lex, ParseToken, ParseMembers, ParseMember, Flat, Reads, Delimited, Meaning, White, WellFormed, Within;
    hide PiecesText, PiecesBytes, PiecesOk, FlatMembers;
    var c, more := if ms.LastMember? then '}' else ',', if ms.LastMember? then rest else FlatMembers(ms.ms) + rest;
    var tail := [c] + more;
    var value := ms.gap2 + (Flat(ms.x) + (ms.after + tail));
    var quoted := "\"" + PiecesText(ms.name) + "\"";
    var s := quoted + (ms.gap + ":" + value);
    MembersSpread(ms, c, more, rest);
    WhiteSkipped(ms.before, s, cfg);
    ClosingRead(ms.after, c, more, cfg);
    ValueRead(ms.x, ms.after + tail, cfg, val, depth);
    WhiteSkipped(ms.gap2, Flat(ms.x) + (ms.after + tail), cfg);
    MemberRead(ms.name, ms.gap, value, cfg, depth, Meaning(ms.x, val), ms.after + tail);
    MembersStep(Lex(s, cfg), cfg, m, depth);
    if ms.Member? {
      MembersRead(ms.ms, rest, cfg, val, depth, m[StrKey(PiecesBytes(ms.name)) := Meaning(ms.x, val)]);
    }
  }

  /** Name, colon and value. */
  lemma MemberRead(name: seq<Piece>, gap: Bytes, value: Bytes, cfg: DecodeConfig, depth: nat, t: Tree, rest: Bytes)
    requires PiecesOk(name) && White(gap) && ParseToken(Lex(value, cfg), cfg, depth) == Got(t, rest)
    ensures var l := Lex("\"" + PiecesText(name) + "\"" + (gap + ":" + value), cfg);
            l.tok.TString? && l.text == PiecesBytes(name) && ParseMember(l, cfg, depth) == Got(t, rest)
  {
    hide Lex, PiecesText, PiecesBytes, ParseToken, PiecesOk;
    StringRead(name, gap + ":" + value, cfg);
    SingleRead(gap, ':', value, cfg);
  }

  lemma ElementsStep(l: Lexed, cfg: DecodeConfig, m: map<Key, Tree>, i: nat, depth: nat)
    requires Advances(l) && ParseToken(l, cfg, depth).Got?
    ensures var p := ParseToken(l, cfg, depth);
            var e := Lex(p.rest, cfg);
            ParseElements(l, cfg, m, i, depth) ==
            if e.tok.TArrEnd? then Got(Node(m[IntKey(i) := p.t]), e.rest)
            else if e.tok.TComma? then ParseElements(Lex(e.rest, cfg), cfg, m[IntKey(i) := p.t], i + 1, depth)
            else Failed(Expected(CommaOrArrayEnd, e.tok, e.left))
  {
    hide Lex, ParseToken;
  }

  lemma MembersStep(l: Lexed, cfg: DecodeConfig, m: map<Key, Tree>, depth: nat)
    requires Advances(l) && ParseMember(l, cfg, depth).Got?
    ensures var p := ParseMember(l, cfg, depth);
            var e := Lex(p.rest, cfg);
            ParseMembers(l, cfg, m, depth) ==
            if e.tok.TObjEnd? then Got(Node(m[StrKey(l.text) := p.t]), e.rest)
            else if e.tok.TComma? then ParseMembers(Lex(e.rest, cfg), cfg, m[StrKey(l.text) := p.t], depth)
            else Failed(Expected(CommaOrObjectEnd, e.tok, e.left))
  {
    hide Lex, ParseMember;
  }

  // ----- and no other -----

  lemma SingleAt(s: Bytes, cfg: DecodeConfig, c: Byte)
    requires c != '\0' && Ch2Token(c).Single? && TokenAt(s, cfg).tok == Ch2Token(c).tok
    ensures s != [] && s[0] == c && TokenAt(s, cfg).rest == s[1..]
  {
    hide StringBody, NumberToken, IsInvalidNumber;
    NumberKind(s, cfg);
  }

  lemma EndAt(s: Bytes, cfg: DecodeConfig)
    requires TokenAt(s, cfg).tok.TEnd?
    ensures Peek(s, 0) == '\0'
  {
    hide StringBody, NumberToken, IsInvalidNumber;
    NumberKind(s, cfg);
  }

  lemma StringAt(s: Bytes, cfg: DecodeConfig)
    requires TokenAt(s, cfg).tok.TString?
    ensures var l := TokenAt(s, cfg); s != [] && s[0] == '"' && StringBody(s[1..]) == Text(l.text, l.rest)
  {
    hide StringBody, NumberToken, IsInvalidNumber;
    NumberKind(s, cfg);
  }

  lemma WordAt(s: Bytes, cfg: DecodeConfig)
    ensures var l := TokenAt(s, cfg);
            && (l.tok == TBoolean(true) ==> s == "true" + l.rest)
            && (l.tok == TBoolean(false) ==> s == "false" + l.rest)
            && (l.tok.TNull? ==> s == "null" + l.rest)
  {
    hide StringBody, NumberToken, IsInvalidNumber;
    NumberKind(s, cfg);
    Starts(s, "true"); Starts(s, "false"); Starts(s, "null");
  }

  lemma NumberKind(s: Bytes, cfg: DecodeConfig)
    ensures var tok := NumberToken(s, cfg).tok; tok.TError? || tok.TNumber? || tok.TInteger?
  {
    hide Strtoll;
  }

  lemma Starts(s: Bytes, word: Bytes)
    ensures StartsWith(s, word) ==> s == word + s[|word|..]
  {
  }

  lemma IntegerAt(s: Bytes, cfg: DecodeConfig) returns (minus: Bytes, whole: Bytes)
    requires !cfg.invalidNumbers && TokenAt(s, cfg).tok.TInteger?
    ensures var l := TokenAt(s, cfg);
            && (minus == "" || minus == "-") && JsonInt(whole) && s == minus + whole + l.rest
            && l.tok.n == To64(IntegerOf(minus, whole))
  {
    hide TokenAt, DigitRun, LetThrough, Clamp, IntValue, FloatMark, JsonInt, WholeInt, To64, IntegerOf;
    StrictToken(s, cfg);
    var g := SignLength(s);
    var k := g + DigitRun(s[g..], 10);
    WholeIntIff(s, k);
    WholeRun(s, k);
    minus, whole := s[..g], s[g..k];
    assert s[..k] == minus + whole && s == s[..k] + s[k..];
    IntegerIs(minus, whole);
  }

  /** Where the parts of a float are, and where it ends. */
  lemma FloatCut(s: Bytes, cfg: DecodeConfig) returns (k: nat, q: nat, end: nat)
    requires !cfg.invalidNumbers && TokenAt(s, cfg).tok.TNumber?
    ensures SignLength(s) < k <= q <= end <= |s| && k < |s| && JsonInt(s[SignLength(s)..k]) && FloatMark(s[k])
    ensures PointDigits(s[k..q]) && JsonExp(s[q..end]) && S.Greedy(s).Decimal? && S.Greedy(s).len == end
    ensures TokenAt(s, cfg).tok.x == cfg.strtod(s).x
  {
    hide TokenAt, S.Greedy, S.Run, S.Exponent, JsonTokens.Refused, JsonInt, FloatMark, JsonExp, AfterFraction;
    hide PointDigits;
    hide LetThrough, IntValue, Clamp, DigitRun;
    k := FloatStart(s, cfg);
    FloatParts(s, k);
    AfterPoint(s, k);
    q := AfterFraction(s, k);
    var l := S.Exponent(s[q..]).1;
    ExponentText(s[q..]);
    end := q + l;
    SliceOf(s, q, l);
    StrictToken(s, cfg);
  }

  lemma SliceOf(s: Bytes, q: nat, l: nat)
    requires q + l <= |s|
    ensures s[q..][..l] == s[q..q + l]
  {
  }

  lemma FloatAt(s: Bytes, cfg: DecodeConfig, val: Bytes -> Double)
    returns (minus: Bytes, whole: Bytes, frac: Bytes, exp: Bytes)
    requires !cfg.invalidNumbers && TokenAt(s, cfg).tok.TNumber? && Delimited(TokenAt(s, cfg).rest) && Reads(cfg, val)
    ensures var l := TokenAt(s, cfg);
            && (minus == "" || minus == "-") && JsonInt(whole) && PointDigits(frac) && JsonExp(exp) && frac + exp != []
            && s == minus + whole + (frac + exp) + l.rest && l.tok.x == val(minus + whole + (frac + exp))
  {
    hide TokenAt, S.Greedy, JsonInt, FloatMark, JsonExp, PointDigits, Delimited;
    var g := SignLength(s);
    var k, q, end := FloatCut(s, cfg);
    assert cfg.strtod(s) == Strtod(val(s[..end]), end);
    FloatRest(s, cfg);
    minus, whole, frac, exp := s[..g], s[g..k], s[k..q], s[q..end];
    MarkTaken(s, k, end);
    assert frac + exp == s[k..end];
    assert s[..end] == minus + whole + (frac + exp) && s == s[..end] + s[end..];
  }

  lemma AfterPoint(s: Bytes, k: nat)
    requires k < |s|
    ensures PointDigits(s[k..AfterFraction(s, k)])
  {
    hide S.Run;
    if s[k] == '.' {
      var q := AfterFraction(s, k);
      assert s[k..q][1..] == s[k + 1..q] == S.Run(s[k + 1..]);
    }
  }

  /** Before something that can follow a value, more than the mark is taken. */
  lemma MarkTaken(s: Bytes, k: nat, end: nat)
    requires k <= end <= |s| && k < |s| && FloatMark(s[k]) && Delimited(s[end..])
    ensures k < end
  {
    assert s[k..][0] == s[k];
  }

  lemma DelimitedAt(w: Bytes, t: Bytes, cfg: DecodeConfig)
    requires White(w)
    requires var tok := TokenAt(t, cfg).tok; tok.TComma? || tok.TArrEnd? || tok.TObjEnd? || tok.TEnd?
    ensures Delimited(w + t)
  {
    hide StringBody, NumberToken, IsInvalidNumber;
    NumberKind(t, cfg);
    if w != [] { assert (w + t)[0] == w[0]; } else { assert w + t == t; }
  }

  lemma Joined(s: Bytes, w: Bytes, u: Bytes, f: Bytes, rest: Bytes)
    requires s == w + u && u == f + rest
    ensures s == w + f + rest
  {
  }

  lemma NumberAccepted(s: Bytes, cfg: DecodeConfig, val: Bytes -> Double) returns (x: Json)
    requires Reads(cfg, val) && Delimited(TokenAt(s, cfg).rest)
    requires TokenAt(s, cfg).tok.TInteger? || TokenAt(s, cfg).tok.TNumber?
    ensures var l := TokenAt(s, cfg);
            && WellFormed(x) && s == Flat(x) + l.rest && Within(x, 0, cfg.invalidNumbers)
            && Meaning(x, val) == if l.tok.TInteger? then Int(l.tok.n) else Real(l.tok.x)
  {
    hide TokenAt, Reads, Delimited, JsonInt, JsonExp, PointDigits, To64, IntegerOf, LooseOk, LooseText, LooseInteger;
    if cfg.invalidNumbers {
      var n := LooseAt(s, cfg, val);
      x := JLoose(n);
    } else if TokenAt(s, cfg).tok.TInteger? {
      var minus, whole := IntegerAt(s, cfg);
      x := JInt(minus, whole);
    } else {
      var minus, whole, frac, exp := FloatAt(s, cfg, val);
      x := JFloat(minus, whole, frac, exp);
    }
  }

  lemma {:induction false} ValueAccepted(s: Bytes, cfg: DecodeConfig, val: Bytes -> Double, depth: nat)
    returns (w: Bytes, x: Json)
    requires Reads(cfg, val) && depth <= cfg.maxDepth
    requires ParseToken(Lex(s, cfg), cfg, depth).Got? && Delimited(ParseToken(Lex(s, cfg), cfg, depth).rest)
    ensures var r := ParseToken(Lex(s, cfg), cfg, depth);
            && White(w) && WellFormed(x) && s == w + Flat(x) + r.rest && Meaning(x, val) == r.t
            && Within(x, cfg.maxDepth - depth, cfg.invalidNumbers)
    decreases |s|, 0
  {
    hide Lex, TokenAt, PiecesText, PiecesBytes, ParseElements, ParseMembers, FlatElements, FlatMembers, Reads;
    hide Delimited, StringBody;
    hide ElementsMap, MembersMap, White, PiecesOk, JsonInt, JsonExp, PointDigits, To64, IntegerOf;
    var u;
    w, u := OnlyWhite(s, cfg);
    var l := Lex(s, cfg);
    match l.tok
    case TString(_) =>
      StringAt(u, cfg);
      var ps := ReadPieces(u[1..]);
      x := JString(ps);
      Quoted(u, PiecesText(ps), l.rest);
      Joined(s, w, u, Flat(x), l.rest);
    case TNumber(_) =>
      x := NumberAccepted(u, cfg, val);
      Joined(s, w, u, Flat(x), l.rest);
    case TInteger(_) =>
      x := NumberAccepted(u, cfg, val);
      Joined(s, w, u, Flat(x), l.rest);
    case TBoolean(b) =>
      WordAt(u, cfg);
      x := JBool(b);
      Joined(s, w, u, Flat(x), l.rest);
    case TNull =>
      WordAt(u, cfg);
      x := JNull;
      Joined(s, w, u, Flat(x), l.rest);
    case TObjBegin =>
      SingleAt(u, cfg, '{');
      x := ObjectAccepted(u[1..], cfg, val, depth);
      assert u == "{" + u[1..];
      Joined(s, w, u, Flat(x), ParseObject(u[1..], cfg, depth).rest);
    case TArrBegin =>
      SingleAt(u, cfg, '[');
      x := ArrayAccepted(u[1..], cfg, val, depth);
      assert u == "[" + u[1..];
      Joined(s, w, u, Flat(x), ParseArray(u[1..], cfg, depth).rest);
  }

  lemma {:induction false} ArrayAccepted(s: Bytes, cfg: DecodeConfig, val: Bytes -> Double, depth: nat)
    returns (x: Json)
    requires Reads(cfg, val) && depth <= cfg.maxDepth && ParseArray(s, cfg, depth).Got?
    ensures var r := ParseArray(s, cfg, depth);
            && WellFormed(x) && "[" + s == Flat(x) + r.rest && Meaning(x, val) == r.t
            && Within(x, cfg.maxDepth - depth, cfg.invalidNumbers)
    decreases |s|, 2
  {
    hide Lex, TokenAt, ParseElements, FlatElements, Reads, ElementsMap, White;
    var l := Lex(s, cfg);
    if l.tok.TArrEnd? {
      var gap, u := OnlyWhite(s, cfg);
      SingleAt(u, cfg, ']');
      x := JNoElements(gap);
      assert "[" + s == "[" + gap + "]" + l.rest;
    } else {
      var es := ElementsAccepted(s, cfg, val, depth + 1, map[], 1);
      x := JArray(es);
      assert "[" + s == "[" + FlatElements(es) + ParseArray(s, cfg, depth).rest;
    }
  }

  lemma {:induction false} ObjectAccepted(s: Bytes, cfg: DecodeConfig, val: Bytes -> Double, depth: nat)
    returns (x: Json)
    requires Reads(cfg, val) && depth <= cfg.maxDepth && ParseObject(s, cfg, depth).Got?
    ensures var r := ParseObject(s, cfg, depth);
            && WellFormed(x) && "{" + s == Flat(x) + r.rest && Meaning(x, val) == r.t
            && Within(x, cfg.maxDepth - depth, cfg.invalidNumbers)
    decreases |s|, 2
  {
    hide Lex, TokenAt, ParseMembers, FlatMembers, Reads, MembersMap, White;
    var l := Lex(s, cfg);
    if l.tok.TObjEnd? {
      var gap, u := OnlyWhite(s, cfg);
      SingleAt(u, cfg, '}');
      x := JNoMembers(gap);
      assert "{" + s == "{" + gap + "}" + l.rest;
    } else {
      var ms := MembersAccepted(s, cfg, val, depth + 1, map[]);
      x := JObject(ms);
      assert "{" + s == "{" + FlatMembers(ms) + ParseObject(s, cfg, depth).rest;
    }
  }

  /** White space, the byte c and what follows it. */
  lemma Punctuation(s: Bytes, cfg: DecodeConfig, c: Byte) returns (w: Bytes)
    requires c != '\0' && Ch2Token(c).Single? && Lex(s, cfg).tok == Ch2Token(c).tok
    ensures White(w) && s == w + [c] + Lex(s, cfg).rest && (c != ':' && c != '[' && c != '{' ==> Delimited(s))
  {
    hide Lex, TokenAt, White, Delimited;
    var u;
    w, u := OnlyWhite(s, cfg);
    SingleAt(u, cfg, c);
    if c != ':' && c != '[' && c != '{' {
      assert c == ',' || c == ']' || c == '}';
      DelimitedAt(w, u, cfg);
    }
  }

  lemma {:induction false} ElementsAccepted(s: Bytes, cfg: DecodeConfig, val: Bytes -> Double, depth: nat,
      m: map<Key, Tree>, i: nat)
    returns (es: Elements)
    requires Reads(cfg, val) && depth <= cfg.maxDepth
    requires ParseElements(Lex(s, cfg), cfg, m, i, depth).Got?
    ensures var r := ParseElements(Lex(s, cfg), cfg, m, i, depth);
            && ElementsOk(es) && s == FlatElements(es) + r.rest && r.t == Node(ElementsMap(es, val, m, i))
            && ElementsWithin(es, cfg.maxDepth - depth, cfg.invalidNumbers)
    decreases |s|, 1
  {
    hide Lex, ParseToken, ParseElements, Flat, Reads, Delimited, Meaning, White, WellFormed, Within;
    ElementThere(Lex(s, cfg), cfg, m, i, depth);
    var p := ParseToken(Lex(s, cfg), cfg, depth);
    var e := Lex(p.rest, cfg);
    ElementsStep(Lex(s, cfg), cfg, m, i, depth);
    var after := Punctuation(p.rest, cfg, if e.tok.TArrEnd? then ']' else ',');
    var before, x := ValueAccepted(s, cfg, val, depth);
    if e.tok.TArrEnd? {
      es := LastElement(before, x, after);
      assert s == before + Flat(x) + after + "]" + e.rest;
    } else {
      var more := ElementsAccepted(e.rest, cfg, val, depth, m[IntKey(i) := p.t], i + 1);
      es := Element(before, x, after, more);
      assert s == before + Flat(x) + after + ("," + FlatElements(more)) +
                  ParseElements(Lex(s, cfg), cfg, m, i, depth).rest;
    }
  }

  lemma ElementThere(l: Lexed, cfg: DecodeConfig, m: map<Key, Tree>, i: nat, depth: nat)
    requires Advances(l) && ParseElements(l, cfg, m, i, depth).Got?
    ensures ParseToken(l, cfg, depth).Got?
    ensures var e := Lex(ParseToken(l, cfg, depth).rest, cfg); e.tok.TArrEnd? || e.tok.TComma?
  {
    hide Lex, ParseToken;
  }

  lemma MemberThere(l: Lexed, cfg: DecodeConfig, m: map<Key, Tree>, depth: nat)
    requires Advances(l) && ParseMembers(l, cfg, m, depth).Got?
    ensures ParseMember(l, cfg, depth).Got? && l.tok.TString? && Lex(l.rest, cfg).tok.TColon?
    ensures ParseMember(l, cfg, depth) == ParseToken(Lex(Lex(l.rest, cfg).rest, cfg), cfg, depth)
    ensures var e := Lex(ParseMember(l, cfg, depth).rest, cfg); e.tok.TObjEnd? || e.tok.TComma?
  {
    hide Lex, ParseToken;
  }

  lemma {:induction false} MembersAccepted(s: Bytes, cfg: DecodeConfig, val: Bytes -> Double, depth: nat,
      m: map<Key, Tree>)
    returns (ms: Members)
    requires Reads(cfg, val) && depth <= cfg.maxDepth
    requires ParseMembers(Lex(s, cfg), cfg, m, depth).Got?
    ensures var r := ParseMembers(Lex(s, cfg), cfg, m, depth);
            && MembersOk(ms) && s == FlatMembers(ms) + r.rest && r.t == Node(MembersMap(ms, val, m))
            && MembersWithin(ms, cfg.maxDepth - depth, cfg.invalidNumbers)
    decreases |s|, 1
  {
    hide Lex, ParseToken, ParseMembers, ParseMember, Flat, Reads, Delimited, Meaning, White, WellFormed, Within;
    hide PiecesText;
    hide PiecesBytes, PiecesOk;
    var l := Lex(s, cfg);
    MemberThere(l, cfg, m, depth);
    var before, name := NameAccepted(s, cfg);
    var gap := Punctuation(l.rest, cfg, ':');
    var p := ParseMember(l, cfg, depth);
    var e := Lex(p.rest, cfg);
    MembersStep(l, cfg, m, depth);
    var after := Punctuation(p.rest, cfg, if e.tok.TObjEnd? then '}' else ',');
    var gap2, x := ValueAccepted(Lex(l.rest, cfg).rest, cfg, val, depth);
    var quoted := "\"" + PiecesText(name) + "\"";
    var tail: Bytes;
    if e.tok.TObjEnd? {
      ms := LastMember(before, name, gap, gap2, x, after);
      tail := "}";
    } else {
      var more := MembersAccepted(e.rest, cfg, val, depth, m[StrKey(l.text) := p.t]);
      ms := Member(before, name, gap, gap2, x, after, more);
      tail := "," + FlatMembers(more);
    }
    var rest := ParseMembers(l, cfg, m, depth).rest;
    assert p.rest == after + (tail + rest);
    MemberJoined(before, quoted, gap, gap2, Flat(x), after, tail, rest);
    Nested(s, before, quoted, l.rest, gap, Lex(l.rest, cfg).rest, gap2, Flat(x), p.rest);
  }

  lemma Nested(s: Bytes, before: Bytes, quoted: Bytes, r1: Bytes, gap: Bytes, r2: Bytes, gap2: Bytes, text: Bytes,
      r3: Bytes)
    requires s == before + quoted + r1 && r1 == gap + ":" + r2 && r2 == gap2 + text + r3
    ensures s == before + (quoted + (gap + ":" + (gap2 + (text + r3))))
  {
    assert gap2 + text + r3 == gap2 + (text + r3);
    assert before + quoted + r1 == before + (quoted + r1);
  }

  lemma Quoted(u: Bytes, text: Bytes, rest: Bytes)
    requires u != [] && u[0] == '"' && u[1..] == text + "\"" + rest
    ensures u == "\"" + text + "\"" + rest
  {
    assert u == "\"" + u[1..];
  }

  lemma NameAccepted(s: Bytes, cfg: DecodeConfig) returns (before: Bytes, name: seq<Piece>)
    requires Lex(s, cfg).tok.TString?
    ensures var l := Lex(s, cfg);
            && White(before) && PiecesOk(name) && s == before + ("\"" + PiecesText(name) + "\"") + l.rest
            && l.text == PiecesBytes(name)
  {
    hide Lex, TokenAt, White, PiecesText, PiecesBytes, PiecesOk, StringBody;
    var u;
    before, u := OnlyWhite(s, cfg);
    StringAt(u, cfg);
    name := ReadPieces(u[1..]);
    Quoted(u, PiecesText(name), Lex(s, cfg).rest);
    Joined(s, before, u, "\"" + PiecesText(name) + "\"", Lex(s, cfg).rest);
  }

  // ----- the whole text -----

  predicate NoNul(s: Bytes) { forall i :: 0 <= i < |s| ==> s[i] != '\0' }

  lemma DigitsNoNul(d: Bytes)
    ensures AllDigits(d) || PointDigits(d) || JsonExp(d) || White(d) ==> NoNul(d)
  {
    if PointDigits(d) && d != [] { DigitsAfter(d, 1); }
    if JsonExp(d) && d != [] { DigitsAfter(d, if Peek(d, 1) == '+' || Peek(d, 1) == '-' then 2 else 1); }
  }

  lemma DigitsAfter(d: Bytes, k: nat)
    requires k <= 2 && k <= |d| && AllDigits(d[k..]) && (k > 0 ==> d[0] != '\0') && (k > 1 ==> d[1] != '\0')
    ensures NoNul(d)
  {
    forall i | 0 <= i < |d| ensures d[i] != '\0' {
      if i >= k { assert d[i] == d[k..][i - k]; }
    }
  }

  lemma LooseNoNul(n: Loose)
    requires LooseOk(n)
    ensures NoNul(LooseText(n)) && LooseText(n) != []
  {
    hide NoNul, DigitsOfBase, BasePrefix, FloatDigits, H.AllHex, HexExp, JsonExp, PointDigits, AllDigits, D.SignText;
    SignNoNul(n.sign);
    match n
    case Based(sign, prefix, d, base) =>
      BasedNoNul(prefix, d, base);
      BothNoNul(sign, prefix + d);
    case Tens(sign, whole, frac, exp) =>
      FloatPlain(whole);
      DigitsNoNul(whole);
      DigitsNoNul(frac);
      DigitsNoNul(exp);
      BothNoNul(frac, exp);
      BothNoNul(whole, frac + exp);
      BothNoNul(sign, whole + (frac + exp));
    case Sixteens(sign, prefix, whole, places, exp) =>
      PrefixNoNul(prefix);
      AllHexNoNul(whole);
      AllHexNoNul(places);
      HexExpNoNul(exp);
      BothNoNul(places, exp);
      BothNoNul(".", places + exp);
      BothNoNul(whole, "." + (places + exp));
      BothNoNul(prefix, whole + ("." + (places + exp)));
      BothNoNul(sign, prefix + (whole + ("." + (places + exp))));
  }

  lemma BothNoNul(a: Bytes, b: Bytes)
    requires NoNul(a) && NoNul(b)
    ensures NoNul(a + b)
  {
  }

  lemma SignNoNul(sign: Bytes)
    requires D.SignText(sign)
    ensures NoNul(sign)
  {
  }

  lemma PrefixNoNul(prefix: Bytes)
    requires prefix == "0x" || prefix == "0X"
    ensures NoNul(prefix) && NoNul(".")
  {
  }

  lemma BasedNoNul(prefix: Bytes, d: Bytes, base: nat)
    requires DigitsOfBase(d, base) && BasePrefix(prefix, base, d[0])
    ensures NoNul(prefix + d) && prefix + d != []
  {
    hide NoNul, H.AllHex, AllDigits;
    SomeDigits(d, base);
    BaseDigits(prefix, d, base);
    if base == 16 {
      AllHexNoNul(d);
      PrefixNoNul(prefix);
      BothNoNul(prefix, d);
    } else {
      DigitsNoNul(d);
      assert prefix + d == d;
    }
  }

  lemma HexExpNoNul(exp: Bytes)
    requires HexExp(exp)
    ensures NoNul(exp)
  {
    if exp != [] { DigitsAfter(exp, if Peek(exp, 1) == '+' || Peek(exp, 1) == '-' then 2 else 1); }
  }

  lemma AllHexNoNul(d: Bytes)
    requires H.AllHex(d)
    ensures NoNul(d)
  {
  }

  lemma HexNoNul(s: Bytes, n: int)
    requires HexUnit(s, n)
    ensures NoNul(s)
  {
  }

  lemma PieceNoNul(p: Piece)
    requires PieceOk(p)
    ensures NoNul(PieceText(p))
  {
    hide HexUnit;
    match p
    case Plain(_) =>
    case Letter(i) => LetterRead(i); NulIsNone();
    case Escaped(n, esc) =>
      if n <= 0xffff {
        HexNoNul(esc[2..], n);
        assert esc == esc[..2] + esc[2..];
      } else {
        HexNoNul(esc[2..6], 0xd800 + (n - 0x1_0000) / 0x400);
        HexNoNul(esc[8..], 0xdc00 + (n - 0x1_0000) % 0x400);
        assert esc == esc[..2] + esc[2..6] + esc[6..8] + esc[8..];
      }
  }

  lemma NulIsNone()
    ensures Escape2Char('\0') == '\0'
  {
  }

  lemma {:induction false} PiecesNoNul(ps: seq<Piece>)
    requires PiecesOk(ps)
    ensures NoNul(PiecesText(ps))
    decreases |ps|
  {
    hide PieceText, PieceOk;
    if ps != [] {
      PieceNoNul(ps[0]);
      PiecesNoNul(ps[1..]);
    }
  }

  lemma {:induction false} ValueNoNul(x: Json)
    requires WellFormed(x)
    ensures NoNul(Flat(x)) && Flat(x) != []
    decreases x
  {
    hide PointDigits, JsonExp, PiecesText, PiecesOk, White;
    match x
    case JNull =>
    case JBool(_) =>
    case JInt(_, whole) => DigitsNoNul(whole);
    case JFloat(_, whole, frac, exp) => DigitsNoNul(whole); DigitsNoNul(frac); DigitsNoNul(exp);
    case JLoose(n) => LooseNoNul(n);
    case JString(ps) => PiecesNoNul(ps);
    case JNoElements(gap) => DigitsNoNul(gap);
    case JArray(es) => ElementsNoNul(es);
    case JNoMembers(gap) => DigitsNoNul(gap);
    case JObject(ms) => MembersNoNul(ms);
  }

  lemma {:induction false} ElementsNoNul(es: Elements)
    requires ElementsOk(es)
    ensures NoNul(FlatElements(es))
    decreases es
  {
    hide White, Flat, WellFormed;
    DigitsNoNul(es.before);
    ValueNoNul(es.x);
    DigitsNoNul(es.after);
    if es.Element? { ElementsNoNul(es.es); }
  }

  lemma {:induction false} MembersNoNul(ms: Members)
    requires MembersOk(ms)
    ensures NoNul(FlatMembers(ms))
    decreases ms
  {
    hide White, Flat, WellFormed, PiecesText, PiecesOk;
    DigitsNoNul(ms.before);
    PiecesNoNul(ms.name);
    DigitsNoNul(ms.gap);
    DigitsNoNul(ms.gap2);
    ValueNoNul(ms.x);
    DigitsNoNul(ms.after);
    if ms.Member? { MembersNoNul(ms.ms); }
  }

  /**
   s is the value x between white space, its tables at most d deep. A NUL ends a text, as long as two bytes stand
   before it: a second byte NUL is taken for another encoding.
   */
  predicate TextOf(s: Bytes, w: Bytes, x: Json, w2: Bytes, tail: Bytes, d: nat, loose: bool) {
    && White(w) && WellFormed(x) && White(w2) && Within(x, d, loose) && s == w + Flat(x) + w2 + tail
    && (tail == [] || (tail[0] == '\0' && |w + Flat(x) + w2| >= 2))
  }

  lemma {:induction false} WhiteEnds(w: Bytes, tail: Bytes, cfg: DecodeConfig)
    requires White(w) && Peek(tail, 0) == '\0'
    ensures Lex(w + tail, cfg).tok.TEnd? && Delimited(w + tail)
  {
    hide Lex;
    WhiteSkipped(w, tail, cfg);
    NulEnds(tail, cfg);
    if w != [] { assert (w + tail)[0] == w[0]; } else { assert w + tail == tail; }
  }

  lemma NulEnds(s: Bytes, cfg: DecodeConfig)
    requires Peek(s, 0) == '\0'
    ensures Lex(s, cfg).tok == TEnd
  {
    hide WordToken, StringToken;
    LexPlain(s, cfg);
  }

  /** Every text of a value within the limit decodes to what it denotes, with either setting for numbers. */
  lemma TextDecodes(s: Bytes, w: Bytes, x: Json, w2: Bytes, tail: Bytes, cfg: DecodeConfig, val: Bytes -> Double)
    requires TextOf(s, w, x, w2, tail, cfg.maxDepth, cfg.invalidNumbers) && Reads(cfg, val)
    ensures Decode(s, cfg) == Decoded(Meaning(x, val))
  {
    hide Lex, Flat, WellFormed, Within, White, Reads, Meaning, ParseToken, Delimited;
    var rest := w2 + tail;
    assert s == w + (Flat(x) + rest);
    WhiteSkipped(w, Flat(x) + rest, cfg);
    WhiteEnds(w2, tail, cfg);
    ValueRead(x, rest, cfg, val, 0);
    ValueNoNul(x);
    DigitsNoNul(w);
    DigitsNoNul(w2);
    var p := w + Flat(x) + w2;
    assert NoNul(p);
    assert s == p + tail;
  }

  /** With strict numbers, whatever is decoded is such a text. */
  lemma DecodesText(s: Bytes, cfg: DecodeConfig, val: Bytes -> Double)
    returns (w: Bytes, x: Json, w2: Bytes, tail: Bytes)
    requires Reads(cfg, val) && Decode(s, cfg).Decoded?
    ensures TextOf(s, w, x, w2, tail, cfg.maxDepth, cfg.invalidNumbers) && Decode(s, cfg) == Decoded(Meaning(x, val))
  {
    hide Lex, Flat, WellFormed, Within, White, Reads, Meaning, ParseToken, Delimited, TokenAt;
    var rest := ParseToken(Lex(s, cfg), cfg, 0).rest;
    w2, tail := OnlyWhite(rest, cfg);
    EndAt(tail, cfg);
    DelimitedAt(w2, tail, cfg);
    w, x := ValueAccepted(s, cfg, val, 0);
    var p := w + Flat(x) + w2;
    assert s == p + tail;
    ValueNoNul(x);
    SecondByte(p, tail);
  }

  lemma SecondByte(p: Bytes, tail: Bytes)
    ensures |p| == 1 && tail != [] ==> (p + tail)[1] == tail[0]
  {
  }

  /** The decoder with strict numbers: exactly the texts of the grammar within the limit, and what they denote. */
  lemma DecodeIff(s: Bytes, t: Tree, cfg: DecodeConfig, val: Bytes -> Double)
    requires Reads(cfg, val)
    ensures Decode(s, cfg) == Decoded(t) <==>
            exists w, x, w2, tail :: TextOf(s, w, x, w2, tail, cfg.maxDepth, cfg.invalidNumbers) && Meaning(x, val) == t
  {
    hide Decode, Meaning, Reads, Flat, WellFormed, Within, White;
    if Decode(s, cfg) == Decoded(t) {
      var w, x, w2, tail := DecodesText(s, cfg, val);
    }
    forall w, x, w2, tail | TextOf(s, w, x, w2, tail, cfg.maxDepth, cfg.invalidNumbers) && Meaning(x, val) == t
      ensures Decode(s, cfg) == Decoded(t)
    {
      TextDecodes(s, w, x, w2, tail, cfg, val);
    }
  }
}
