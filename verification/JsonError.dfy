/** The complaints of the decoder: up to the token complained of the text can still become a value. */
module DecodeErrors {
  import opened JsonStrings
  import opened Decimal
  import opened NumberGrammar
  import opened JsonEncoder
  import opened JsonGrammar
  import opened JsonParse
  import opened JsonTokens
  import opened JsonFloats
  import opened LooseNumbers
  import S = Scanner
  import opened JsonTexts
  import opened JsonReading

  /** Does the token answer to what was wanted? */
  predicate Fits(what: Wanted, tok: Token) {
    match what
    case KeyString => tok.TString?
    case ColonSign => tok.TColon?
    case CommaOrObjectEnd => tok.TComma? || tok.TObjEnd?
    case CommaOrArrayEnd => tok.TComma? || tok.TArrEnd?
    case AnyValue =>
      tok.TString? || tok.TNumber? || tok.TInteger? || tok.TBoolean? || tok.TNull? || tok.TObjBegin? || tok.TArrBegin?
    case TheEnd => tok.TEnd?
  }

  /** The texts that a complaint asks for: y is any value that is no table. */
  ghost predicate Wish(e: ParseError, c: Bytes, y: Json) {
    match e
    case Expected(KeyString, _, _) => c == "\""
    case Expected(ColonSign, _, _) => c == ":"
    case Expected(CommaOrObjectEnd, _, _) => c == "," || c == "}"
    case Expected(CommaOrArrayEnd, _, _) => c == "," || c == "]"
    case Expected(AnyValue, _, _) => WellFormed(y) && Within(y, 0, false) && c == Flat(y)
    case Expected(TheEnd, _, _) => c == ""
    case _ => c == ""
  }

  /** The complaint is about t, where p ends. */
  ghost predicate About(e: ParseError, p: Bytes, t: Bytes, cfg: DecodeConfig) {
    match e
    case Expected(what, found, left) =>
      TokenAt(t, cfg).tok == found && TokenAt(t, cfg).left == left && !Fits(what, found)
    case TooDeep(depth, left) =>
      depth == cfg.maxDepth + 1 && left == |t| && p != [] && (p[|p| - 1] == '[' || p[|p| - 1] == '{')
    case WideEncoding => false
  }

  /** The depth that what was read so far needs: one more than allowed if that is the complaint. */
  function Needs(e: ParseError, d: nat): nat { if e.TooDeep? then d + 1 else d }

  /** A value that was read, whatever follows it. */
  lemma ValueBefore(s: Bytes, cfg: DecodeConfig, val: Bytes -> Double, depth: nat) returns (w: Bytes, x: Json)
    requires Reads(cfg, val) && depth <= cfg.maxDepth
    requires ParseToken(Lex(s, cfg), cfg, depth).Got?
    ensures White(w) && WellFormed(x) && Within(x, cfg.maxDepth - depth, cfg.invalidNumbers)
    ensures s == w + Flat(x) + ParseToken(Lex(s, cfg), cfg, depth).rest
  {
    hide Lex, TokenAt, PiecesText, ParseElements, ParseMembers, FlatElements, FlatMembers, Reads, Meaning;
    hide StringBody, White, PiecesOk, JsonInt, JsonExp, PointDigits, LooseOk, LooseText, ElementsWithin, MembersWithin;
    var u;
    w, u := OnlyWhite(s, cfg);
    var l := Lex(s, cfg);
    match l.tok
    case TString(_) =>
      StringAt(u, cfg);
      var ps := ReadPieces(u[1..]);
      x := JString(ps);
      Quoted(u, PiecesText(ps), l.rest);
      Joined(s, w, u, Flat(x), l.rest);
    case TNumber(_) =>
      x := NumberBefore(u, cfg, val);
      Joined(s, w, u, Flat(x), l.rest);
    case TInteger(_) =>
      x := NumberBefore(u, cfg, val);
      Joined(s, w, u, Flat(x), l.rest);
    case TBoolean(b) =>
      WordAt(u, cfg);
      x := JBool(b);
      Joined(s, w, u, Flat(x), l.rest);
    case TNull =>
      WordAt(u, cfg);
      x := JNull;
      Joined(s, w, u, Flat(x), l.rest);
    case TObjBegin =>
      SingleAt(u, cfg, '{');
      x := ObjectAccepted(u[1..], cfg, val, depth);
      assert u == "{" + u[1..];
      Joined(s, w, u, Flat(x), ParseObject(u[1..], cfg, depth).rest);
    case TArrBegin =>
      SingleAt(u, cfg, '[');
      x := ArrayAccepted(u[1..], cfg, val, depth);
      assert u == "[" + u[1..];
      Joined(s, w, u, Flat(x), ParseArray(u[1..], cfg, depth).rest);
  }

  lemma NumberBefore(s: Bytes, cfg: DecodeConfig, val: Bytes -> Double) returns (x: Json)
    requires Reads(cfg, val) && (TokenAt(s, cfg).tok.TInteger? || TokenAt(s, cfg).tok.TNumber?)
    ensures WellFormed(x) && s == Flat(x) + TokenAt(s, cfg).rest && Within(x, 0, cfg.invalidNumbers)
  {
    hide TokenAt, Reads, JsonInt, LooseOk, LooseText;
    if cfg.invalidNumbers {
      var n := LooseAt(s, cfg, val);
      x := JLoose(n);
    } else if TokenAt(s, cfg).tok.TInteger? {
      var minus, whole := IntegerAt(s, cfg);
      x := JInt(minus, whole);
    } else {
      x := FloatBefore(s, cfg, val);
    }
  }

  lemma FloatBefore(s: Bytes, cfg: DecodeConfig, val: Bytes -> Double) returns (x: Json)
    requires !cfg.invalidNumbers && TokenAt(s, cfg).tok.TNumber? && Reads(cfg, val)
    ensures WellFormed(x) && s == Flat(x) + TokenAt(s, cfg).rest && Within(x, 0, false)
  {
    hide TokenAt, S.Greedy, JsonInt, FloatMark, JsonExp, PointDigits;
    var g := SignLength(s);
    var k, q, end := FloatCut(s, cfg);
    assert cfg.strtod(s) == Strtod(val(s[..end]), end);
    FloatRest(s, cfg);
    var minus, whole, frac, exp := s[..g], s[g..k], s[k..q], s[q..end];
    assert s == minus + whole + (frac + exp) + s[end..];
    if frac + exp == [] {
      x := JInt(minus, whole);
      assert minus + whole + (frac + exp) == minus + whole;
    } else {
      x := JFloat(minus, whole, frac, exp);
    }
  }

  lemma Deeper(w: Bytes, b: Bytes, p: Bytes, t: Bytes, c: Bytes, u: Bytes, f: Bytes, s1: Bytes, s: Bytes)
    requires s1 == p + t && s == w + (b + s1) && b + p + c + u == f
    ensures s == w + (b + p) + t && w + (b + p) + c + u == w + f
  {
  }

  lemma AboutLonger(e: ParseError, w: Bytes, p: Bytes, t: Bytes, cfg: DecodeConfig)
    requires About(e, p, t, cfg)
    ensures About(e, w + p, t, cfg)
  {
    hide TokenAt;
    if p != [] { assert (w + p)[|w + p| - 1] == p[|p| - 1]; }
  }

  /** A value that is refused: where, and how what stands before that goes on to a value. */
  lemma {:induction false} ValueFails(s: Bytes, cfg: DecodeConfig, val: Bytes -> Double, depth: nat, c: Bytes, y: Json)
    returns (p: Bytes, t: Bytes, u: Bytes, w: Bytes, x: Json)
    requires Reads(cfg, val) && depth <= cfg.maxDepth
    requires ParseToken(Lex(s, cfg), cfg, depth).Failed? && Wish(ParseToken(Lex(s, cfg), cfg, depth).error, c, y)
    ensures var e := ParseToken(Lex(s, cfg), cfg, depth).error;
            && s == p + t && About(e, p, t, cfg) && White(w) && WellFormed(x) && p + c + u == w + Flat(x)
            && Within(x, Needs(e, cfg.maxDepth - depth), cfg.invalidNumbers)
    decreases |s|, 0
  {
    hide Lex, TokenAt, ParseArray, ParseObject, Reads, White, WellFormed, Flat, About, Within, Wish;
    var v;
    w, v := OnlyWhite(s, cfg);
    var l := Lex(s, cfg);
    if l.tok.TArrBegin? {
      SingleAt(v, cfg, '[');
      p, t, u, x := ArrayFails(v[1..], cfg, val, depth, c, y);
      assert s == w + ("[" + v[1..]);
      Deeper(w, "[", p, t, c, u, Flat(x), v[1..], s);
      AboutLonger(ParseArray(v[1..], cfg, depth).error, w, "[" + p, t, cfg);
      p := w + ("[" + p);
    } else if l.tok.TObjBegin? {
      SingleAt(v, cfg, '{');
      p, t, u, x := ObjectFails(v[1..], cfg, val, depth, c, y);
      assert s == w + ("{" + v[1..]);
      Deeper(w, "{", p, t, c, u, Flat(x), v[1..], s);
      AboutLonger(ParseObject(v[1..], cfg, depth).error, w, "{" + p, t, cfg);
      p := w + ("{" + p);
    } else {
      p, t, u, x := w, v, [], y;
      NoValue(l, w, v, cfg, depth, c, y);
      assert p + c + u == w + Flat(x);
      WithinMore(y, 0, cfg.maxDepth - depth, false, cfg.invalidNumbers);
    }
  }

  lemma NoValue(l: Lexed, w: Bytes, v: Bytes, cfg: DecodeConfig, depth: nat, c: Bytes, y: Json)
    requires Advances(l) && TokenAt(v, cfg) == l && !l.tok.TArrBegin? && !l.tok.TObjBegin?
    requires ParseToken(l, cfg, depth).Failed? && Wish(ParseToken(l, cfg, depth).error, c, y)
    ensures About(ParseToken(l, cfg, depth).error, w, v, cfg) && WellFormed(y) && Within(y, 0, false) && c == Flat(y)
    ensures ParseToken(l, cfg, depth).error.Expected?
  {
    hide TokenAt, WellFormed, Within, Flat;
  }

  lemma {:induction false} ArrayFails(s: Bytes, cfg: DecodeConfig, val: Bytes -> Double, depth: nat, c: Bytes, y: Json)
    returns (p: Bytes, t: Bytes, u: Bytes, x: Json)
    requires Reads(cfg, val) && depth <= cfg.maxDepth
    requires ParseArray(s, cfg, depth).Failed? && Wish(ParseArray(s, cfg, depth).error, c, y)
    ensures var e := ParseArray(s, cfg, depth).error;
            && s == p + t && About(e, "[" + p, t, cfg) && WellFormed(x) && "[" + p + c + u == Flat(x)
            && Within(x, Needs(e, cfg.maxDepth - depth), cfg.invalidNumbers)
    decreases |s|, 2
  {
    hide Lex, TokenAt, ParseElements, FlatElements, Reads;
    if depth + 1 > cfg.maxDepth {
      p, t, u, x := [], s, "]", JNoElements("");
    } else {
      var es;
      p, t, u, es := ElementsFails(s, cfg, val, depth + 1, map[], 1, c, y);
      x := JArray(es);
      AboutLonger(ParseArray(s, cfg, depth).error, "[", p, t, cfg);
      assert "[" + p + c + u == "[" + (p + c + u);
    }
  }

  lemma {:induction false} ObjectFails(s: Bytes, cfg: DecodeConfig, val: Bytes -> Double, depth: nat, c: Bytes, y: Json)
    returns (p: Bytes, t: Bytes, u: Bytes, x: Json)
    requires Reads(cfg, val) && depth <= cfg.maxDepth
    requires ParseObject(s, cfg, depth).Failed? && Wish(ParseObject(s, cfg, depth).error, c, y)
    ensures var e := ParseObject(s, cfg, depth).error;
            && s == p + t && About(e, "{" + p, t, cfg) && WellFormed(x) && "{" + p + c + u == Flat(x)
            && Within(x, Needs(e, cfg.maxDepth - depth), cfg.invalidNumbers)
    decreases |s|, 2
  {
    hide Lex, TokenAt, ParseMembers, FlatMembers, Reads;
    if depth + 1 > cfg.maxDepth {
      p, t, u, x := [], s, "}", JNoMembers("");
    } else {
      var ms;
      p, t, u, ms := MembersFails(s, cfg, val, depth + 1, map[], c, y);
      x := JObject(ms);
      AboutLonger(ParseObject(s, cfg, depth).error, "{", p, t, cfg);
      assert "{" + p + c + u == "{" + (p + c + u);
    }
  }

  lemma ElementsError(l: Lexed, cfg: DecodeConfig, m: map<Key, Tree>, i: nat, depth: nat)
    requires Advances(l) && ParseElements(l, cfg, m, i, depth).Failed?
    ensures var r, p := ParseElements(l, cfg, m, i, depth), ParseToken(l, cfg, depth);
            if p.Failed? then r.error == p.error
            else
              var e := Lex(p.rest, cfg);
              if e.tok.TComma? then r == ParseElements(Lex(e.rest, cfg), cfg, m[IntKey(i) := p.t], i + 1, depth)
              else !e.tok.TArrEnd? && r.error == Expected(CommaOrArrayEnd, e.tok, e.left)
  {
    hide Lex, ParseToken;
  }

  /** The text of elements with a first one as given. */
  lemma FirstElement(before: Bytes, x: Json, after: Bytes)
    requires White(before) && WellFormed(x) && White(after)
    ensures var es := LastElement(before, x, after);
            ElementsOk(es) && FlatElements(es) == before + Flat(x) + after + "]"
    ensures forall fs :: ElementsOk(fs) ==>
              var es := Element(before, x, after, fs);
              ElementsOk(es) && FlatElements(es) == before + Flat(x) + after + ("," + FlatElements(fs))
  {
    hide White, WellFormed, Flat;
  }

  /** An element that can stand last. */
  lemma NullElement() returns (es: Elements)
    ensures ElementsOk(es) && es.LastElement? && ElementsWithin(es, 0, false) && FlatElements(es) == "null]"
  {
    es := LastElement("", JNull, "");
  }

  lemma {:induction false} ElementsFails(s: Bytes, cfg: DecodeConfig, val: Bytes -> Double, depth: nat,
      m: map<Key, Tree>, i: nat, c: Bytes, y: Json)
    returns (p: Bytes, t: Bytes, u: Bytes, es: Elements)
    requires Reads(cfg, val) && depth <= cfg.maxDepth
    requires var r := ParseElements(Lex(s, cfg), cfg, m, i, depth); r.Failed? && Wish(r.error, c, y)
    ensures var e := ParseElements(Lex(s, cfg), cfg, m, i, depth).error;
            && s == p + t && About(e, p, t, cfg) && ElementsOk(es) && p + c + u == FlatElements(es)
            && ElementsWithin(es, Needs(e, cfg.maxDepth - depth), cfg.invalidNumbers)
    decreases |s|, 1
  {
    hide Lex, TokenAt, ParseToken, ParseElements, Reads, White, WellFormed, Flat, Within, FlatElements, ElementsOk;
    var l := Lex(s, cfg);
    ElementsError(l, cfg, m, i, depth);
    var error := ParseElements(l, cfg, m, i, depth).error;
    NoGap();
    var r := ParseToken(l, cfg, depth);
    if r.Failed? {
      var u1, w, x;
      p, t, u1, w, x := ValueFails(s, cfg, val, depth, c, y);
      es, u := LastElement(w, x, ""), u1 + "]";
      FirstElement(w, x, "");
      ClosedBy("", p, c, u1, w, Flat(x), "]");
      assert "" + p == p && "" + w == w;
      return;
    }
    var w, x := ValueBefore(s, cfg, val, depth);
    var after, v := OnlyWhite(r.rest, cfg);
    var e := Lex(r.rest, cfg);
    FirstElement(w, x, after);
    var q := w + Flat(x) + after;
    assert s == q + v;
    WithinMore(x, cfg.maxDepth - depth, cfg.maxDepth - depth + 1, cfg.invalidNumbers, cfg.invalidNumbers);
    if e.tok.TComma? {
      SingleAt(v, cfg, ',');
      var p1, fs;
      p1, t, u, fs := ElementsFails(v[1..], cfg, val, depth, m[IntKey(i) := r.t], i + 1, c, y);
      es := Element(w, x, after, fs);
      assert s == q + ("," + v[1..]);
      Front(",", p1, c, u);
      Deeper(q, ",", p1, t, c, u, "," + FlatElements(fs), v[1..], s);
      p := q + ("," + p1);
      assert p == (q + ",") + p1;
      AboutLonger(error, q + ",", p1, t, cfg);
    } else {
      p, t := q, v;
      if c == "," {
        var fs := NullElement();
        es, u := Element(w, x, after, fs), FlatElements(fs);
        ElementsWithinMore(fs, 0, cfg.maxDepth - depth, false, cfg.invalidNumbers);
        Front(q, ",", u, "");
      } else {
        es, u := LastElement(w, x, after), "";
      }
    }
  }

  lemma MembersError(l: Lexed, cfg: DecodeConfig, m: map<Key, Tree>, depth: nat)
    requires Advances(l) && ParseMembers(l, cfg, m, depth).Failed?
    ensures var r := ParseMembers(l, cfg, m, depth);
            if !l.tok.TString? then r.error == Expected(KeyString, l.tok, l.left)
            else
              var k := Lex(l.rest, cfg);
              if !k.tok.TColon? then r.error == Expected(ColonSign, k.tok, k.left)
              else
                var v := ParseToken(Lex(k.rest, cfg), cfg, depth);
                if v.Failed? then r.error == v.error
                else
                  var e := Lex(v.rest, cfg);
                  if e.tok.TComma? then r == ParseMembers(Lex(e.rest, cfg), cfg, m[StrKey(l.text) := v.t], depth)
                  else !e.tok.TObjEnd? && r.error == Expected(CommaOrObjectEnd, e.tok, e.left)
  {
    hide Lex, ParseToken;
  }

  /** The text of members with a first one as given. */
  lemma FirstMember(head: Bytes, before: Bytes, name: seq<Piece>, gap: Bytes, gap2: Bytes, x: Json, after: Bytes)
    requires White(before) && PiecesOk(name) && White(gap) && White(gap2) && WellFormed(x) && White(after)
    requires head == before + ("\"" + PiecesText(name) + "\"") + gap + ":"
    ensures var ms := LastMember(before, name, gap, gap2, x, after);
            MembersOk(ms) && FlatMembers(ms) == head + gap2 + Flat(x) + after + "}"
    ensures forall ns :: MembersOk(ns) ==>
              var ms := Member(before, name, gap, gap2, x, after, ns);
              MembersOk(ms) && FlatMembers(ms) == head + gap2 + Flat(x) + after + ("," + FlatMembers(ns))
  {
    hide White, PiecesOk, PiecesText, WellFormed, Flat;
  }

  /** A member that was started and can be finished. */
  lemma NullMember(before: Bytes, name: seq<Piece>, gap: Bytes) returns (ms: Members)
    requires White(before) && PiecesOk(name) && White(gap)
    ensures MembersOk(ms) && ms.LastMember? && MembersWithin(ms, 0, false)
    ensures FlatMembers(ms) == before + ("\"" + PiecesText(name) + "\"") + gap + ":" + "null}"
  {
    hide White, PiecesOk, PiecesText;
    NoGap();
    ms := LastMember(before, name, gap, "", JNull, "");
    FirstMember(before + ("\"" + PiecesText(name) + "\"") + gap + ":", before, name, gap, "", JNull, "");
  }

  lemma NoGap()
    ensures White("") && PiecesOk([]) && PiecesText([]) == ""
  {
  }

  lemma {:induction false} MembersFails(s: Bytes, cfg: DecodeConfig, val: Bytes -> Double, depth: nat,
      m: map<Key, Tree>, c: Bytes, y: Json)
    returns (p: Bytes, t: Bytes, u: Bytes, ms: Members)
    requires Reads(cfg, val) && depth <= cfg.maxDepth
    requires var r := ParseMembers(Lex(s, cfg), cfg, m, depth); r.Failed? && Wish(r.error, c, y)
    ensures var e := ParseMembers(Lex(s, cfg), cfg, m, depth).error;
            && s == p + t && About(e, p, t, cfg) && MembersOk(ms) && p + c + u == FlatMembers(ms)
            && MembersWithin(ms, Needs(e, cfg.maxDepth - depth), cfg.invalidNumbers)
    decreases |s|, 1, 1
  {
    hide Lex, TokenAt, ParseToken, ParseMembers, Reads, White, WellFormed, Flat, Within, PiecesText, PiecesOk;
    hide FlatMembers, MembersOk;
    var l := Lex(s, cfg);
    MembersError(l, cfg, m, depth);
    NoGap();
    if !l.tok.TString? {
      p, t := OnlyWhite(s, cfg);
      ms := NullMember(p, [], "");
      MembersWithinMore(ms, 0, cfg.maxDepth - depth, false, cfg.invalidNumbers);
      u := "\":null}";
      return;
    }
    var before, name := NameAccepted(s, cfg);
    var gap, v := OnlyWhite(l.rest, cfg);
    var head := before + ("\"" + PiecesText(name) + "\"") + gap;
    assert s == head + v;
    if !Lex(l.rest, cfg).tok.TColon? {
      ms := NullMember(before, name, gap);
      MembersWithinMore(ms, 0, cfg.maxDepth - depth, false, cfg.invalidNumbers);
      p, t, u := head, v, "null}";
    } else {
      SingleAt(v, cfg, ':');
      assert s == head + ":" + v[1..];
      p, t, u, ms := AfterColon(s, v[1..], cfg, val, depth, m, c, y, before, name, gap);
    }
  }

  /** From the value of a member on. */
  lemma {:induction false} AfterColon(s: Bytes, s2: Bytes, cfg: DecodeConfig, val: Bytes -> Double, depth: nat,
      m: map<Key, Tree>, c: Bytes, y: Json, before: Bytes, name: seq<Piece>, gap: Bytes)
    returns (p: Bytes, t: Bytes, u: Bytes, ms: Members)
    requires Reads(cfg, val) && depth <= cfg.maxDepth
    requires White(before) && PiecesOk(name) && White(gap)
    requires var l := Lex(s, cfg);
             var r := ParseMembers(l, cfg, m, depth);
             && r.Failed? && Wish(r.error, c, y) && l.tok.TString?
             && Lex(l.rest, cfg).tok.TColon? && s2 == Lex(l.rest, cfg).rest
    requires s == before + ("\"" + PiecesText(name) + "\"") + gap + ":" + s2
    ensures var e := ParseMembers(Lex(s, cfg), cfg, m, depth).error;
            && s == p + t && About(e, p, t, cfg) && MembersOk(ms) && p + c + u == FlatMembers(ms)
            && MembersWithin(ms, Needs(e, cfg.maxDepth - depth), cfg.invalidNumbers)
    decreases |s|, 1, 0
  {
    hide Lex, TokenAt, ParseToken, ParseMembers, Reads, White, WellFormed, Flat, Within, PiecesText, PiecesOk;
    hide FlatMembers, MembersOk;
    var l := Lex(s, cfg);
    MembersError(l, cfg, m, depth);
    var error := ParseMembers(l, cfg, m, depth).error;
    var head := before + ("\"" + PiecesText(name) + "\"") + gap + ":";
    NoGap();
    var r := ParseToken(Lex(s2, cfg), cfg, depth);
    if r.Failed? {
      var p1, u1, w, x;
      p1, t, u1, w, x := ValueFails(s2, cfg, val, depth, c, y);
      ms := LastMember(before, name, gap, w, x, "");
      FirstMember(head, before, name, gap, w, x, "");
      p, u := head + p1, u1 + "}";
      AboutLonger(error, head, p1, t, cfg);
      ClosedBy(head, p1, c, u1, w, Flat(x), "}");
      return;
    }
    var w, x := ValueBefore(s2, cfg, val, depth);
    var after, v := OnlyWhite(r.rest, cfg);
    var e := Lex(r.rest, cfg);
    FirstMember(head, before, name, gap, w, x, after);
    var q := head + w + Flat(x) + after;
    Onward(s, head, s2, w, Flat(x), r.rest, after, v);
    WithinMore(x, cfg.maxDepth - depth, cfg.maxDepth - depth + 1, cfg.invalidNumbers, cfg.invalidNumbers);
    if e.tok.TComma? {
      SingleAt(v, cfg, ',');
      var p1, ns;
      p1, t, u, ns := MembersFails(v[1..], cfg, val, depth, m[StrKey(l.text) := r.t], c, y);
      ms := Member(before, name, gap, w, x, after, ns);
      assert s == q + ("," + v[1..]);
      Front(",", p1, c, u);
      Deeper(q, ",", p1, t, c, u, "," + FlatMembers(ns), v[1..], s);
      p := q + ("," + p1);
      assert p == (q + ",") + p1;
      AboutLonger(error, q + ",", p1, t, cfg);
    } else {
      p, t := q, v;
      if c == "," {
        var ns := NullMember("", [], "");
        ms, u := Member(before, name, gap, w, x, after, ns), FlatMembers(ns);
        MembersWithinMore(ns, 0, cfg.maxDepth - depth, false, cfg.invalidNumbers);
        Front(q, ",", u, "");
      } else {
        ms, u := LastMember(before, name, gap, w, x, after), "";
      }
    }
  }

  lemma Front(b: Bytes, p: Bytes, c: Bytes, u: Bytes)
    ensures b + p + c + u == b + (p + c + u)
  {
  }

  lemma ClosedBy(head: Bytes, p: Bytes, c: Bytes, u: Bytes, w: Bytes, f: Bytes, b: Bytes)
    requires p + c + u == w + f
    ensures head + p + c + (u + b) == head + w + f + "" + b
  {
    assert head + p + c + (u + b) == head + (p + c + u) + b;
  }

  lemma Onward(s: Bytes, head: Bytes, s2: Bytes, w: Bytes, f: Bytes, rest: Bytes, after: Bytes, v: Bytes)
    requires s == head + s2 && s2 == w + f + rest && rest == after + v
    ensures s == head + w + f + after + v
  {
  }

  /** Which error token: a string's own, a number where a number starts, or an unknown token. */
  lemma ErrorToken(t: Bytes, cfg: DecodeConfig)
    requires TokenAt(t, cfg).tok.TError?
    ensures var l, c := TokenAt(t, cfg), Peek(t, 0);
            if c == '"' then StringBody(t[1..]) == Bad(l.tok.error, l.left)
            else
              && l.left == |t|
              && (c == '-' || IsDigit(c) ==> l.tok.error == InvalidNumber)
              && (c != '-' && !IsDigit(c) && !cfg.invalidNumbers ==> l.tok.error == InvalidToken)
  {
    hide StringBody, IsInvalidNumber, Strtoll;
  }

  /**
   With strict numbers, what the decoder complains of does not answer to what it asks for, and what stands before
   goes on to a text that decodes, with each of the things asked for. If the nesting is complained of, it is one table
   too deep.
   */
  lemma RefusedAt(s: Bytes, cfg: DecodeConfig, val: Bytes -> Double, c: Bytes, y: Json)
    returns (p: Bytes, t: Bytes, u: Bytes)
    requires Reads(cfg, val)
    requires var r := Decode(s, cfg); r.Refused? && !r.error.WideEncoding? && Wish(r.error, c, y)
    ensures var e := Decode(s, cfg).error;
            && s == p + t && About(e, p, t, cfg)
            && Decode(p + c + u, cfg.(maxDepth := Needs(e, cfg.maxDepth))).Decoded?
  {
    hide Lex, TokenAt, ParseToken, Reads, White, WellFormed, Flat, Within;
    var e, d := Decode(s, cfg).error, Needs(Decode(s, cfg).error, cfg.maxDepth);
    var r := ParseToken(Lex(s, cfg), cfg, 0);
    var w, x, w2;
    if r.Failed? {
      p, t, u, w, x := ValueFails(s, cfg, val, 0, c, y);
      w2 := "";
    } else {
      w, x := ValueBefore(s, cfg, val, 0);
      w2, t := OnlyWhite(r.rest, cfg);
      p, u := w + Flat(x) + w2, "";
    }
    NoGap();
    assert TextOf(p + c + u, w, x, w2, [], d, cfg.invalidNumbers) by {
      assert p + c + u == w + Flat(x) + w2 + [];
    }
    OtherDepth(cfg, val, d);
    TextDecodes(p + c + u, w, x, w2, [], cfg.(maxDepth := d), val);
  }

  lemma OtherDepth(cfg: DecodeConfig, val: Bytes -> Double, d: nat)
    requires Reads(cfg, val)
    ensures Reads(cfg.(maxDepth := d), val)
  {
    assert cfg.(maxDepth := d).strtod == cfg.strtod;
  }
}
