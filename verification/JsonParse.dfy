/** The grammar of the decoder: from tokens to Lua values, within a nesting limit. */
module JsonParse {
  import opened JsonStrings
  import opened JsonEncoder
  import opened JsonGrammar

  /** What decoding builds. A table is a map from its keys, as rawset leaves it. */
  datatype Tree = Null | Bool(b: bool) | Int(n: Int64) | Real(x: Double) | Chars(s: Bytes) | Node(m: map<Key, Tree>)

  datatype Wanted = KeyString | ColonSign | CommaOrObjectEnd | CommaOrArrayEnd | AnyValue | TheEnd

  /** Errors carry the number of input bytes left where they were noticed. */
  datatype ParseError = Expected(what: Wanted, found: Token, left: nat) | TooDeep(depth: nat, left: nat) | WideEncoding

  datatype Parsed = Got(t: Tree, rest: Bytes) | Failed(error: ParseError)

  /** A value that starts with the token l, inside depth tables. */
  function ParseToken(l: Lexed, cfg: DecodeConfig, depth: nat): (r: Parsed)
    requires Advances(l)
    ensures r.Got? ==> |r.rest| <= l.left
    decreases l.left, 0
  {
    match l.tok
    case TString(_) => Got(Chars(l.text), l.rest)
    case TNumber(x) => Got(Real(x), l.rest)
    case TInteger(n) => Got(Int(n), l.rest)
    case TBoolean(b) => Got(Bool(b), l.rest)
    case TNull => Got(Null, l.rest)
    case TObjBegin => ParseObject(l.rest, cfg, depth)
    case TArrBegin => ParseArray(l.rest, cfg, depth)
    case _ => Failed(Expected(AnyValue, l.tok, l.left))
  }

  function ParseObject(s: Bytes, cfg: DecodeConfig, depth: nat): (r: Parsed)
    ensures r.Got? ==> |r.rest| <= |s|
    decreases |s|, 2
  {
    if depth + 1 > cfg.maxDepth then Failed(TooDeep(depth + 1, |s|))
    else
      var l := Lex(s, cfg);
      if l.tok.TObjEnd? then Got(Node(map[]), l.rest) else ParseMembers(l, cfg, map[], depth + 1)
  }

  /** The value of one member, from its key token l on. */
  function ParseMember(l: Lexed, cfg: DecodeConfig, depth: nat): (r: Parsed)
    requires Advances(l)
    ensures r.Got? ==> |r.rest| < l.left
    decreases l.left, 1, 0
  {
    if !l.tok.TString? then Failed(Expected(KeyString, l.tok, l.left))
    else
      var c := Lex(l.rest, cfg);
      if !c.tok.TColon? then Failed(Expected(ColonSign, c.tok, c.left))
      else ParseToken(Lex(c.rest, cfg), cfg, depth)
  }

  /** Members from the key token l on, the ones before it being in m. */
  function ParseMembers(l: Lexed, cfg: DecodeConfig, m: map<Key, Tree>, depth: nat): (r: Parsed)
    requires Advances(l)
    ensures r.Got? ==> |r.rest| <= l.left
    decreases l.left, 1, 1
  {
    match ParseMember(l, cfg, depth)
    case Failed(e) => Failed(e)
    case Got(t, rest) =>
      var e := Lex(rest, cfg);
      if e.tok.TObjEnd? then Got(Node(m[StrKey(l.text) := t]), e.rest)
      else if !e.tok.TComma? then Failed(Expected(CommaOrObjectEnd, e.tok, e.left))
      else ParseMembers(Lex(e.rest, cfg), cfg, m[StrKey(l.text) := t], depth)
  }

  function ParseArray(s: Bytes, cfg: DecodeConfig, depth: nat): (r: Parsed)
    ensures r.Got? ==> |r.rest| <= |s|
    decreases |s|, 2
  {
    if depth + 1 > cfg.maxDepth then Failed(TooDeep(depth + 1, |s|))
    else
      var l := Lex(s, cfg);
      if l.tok.TArrEnd? then Got(Node(map[]), l.rest) else ParseElements(l, cfg, map[], 1, depth + 1)
  }

  /** Elements i and on from the token l on, the ones before it being in m. */
  function ParseElements(l: Lexed, cfg: DecodeConfig, m: map<Key, Tree>, i: nat, depth: nat): (r: Parsed)
    requires Advances(l)
    ensures r.Got? ==> |r.rest| <= l.left
    decreases l.left, 1
  {
    match ParseToken(l, cfg, depth)
    case Failed(e) => Failed(e)
    case Got(t, rest) =>
      var e := Lex(rest, cfg);
      if e.tok.TArrEnd? then Got(Node(m[IntKey(i) := t]), e.rest)
      else if !e.tok.TComma? then Failed(Expected(CommaOrArrayEnd, e.tok, e.left))
      else ParseElements(Lex(e.rest, cfg), cfg, m[IntKey(i) := t], i + 1, depth)
  }

  datatype Decoded = Decoded(t: Tree) | Refused(error: ParseError)

  /** json_decode. A NUL ends the text, as in every C string. */
  function Decode(s: Bytes, cfg: DecodeConfig): Decoded {
    if |s| >= 2 && (s[0] == '\0' || s[1] == '\0') then Refused(WideEncoding)
    else
      match ParseToken(Lex(s, cfg), cfg, 0)
      case Failed(e) => Refused(e)
      case Got(t, rest) =>
        var l := Lex(rest, cfg);
        if l.tok.TEnd? then Decoded(t) else Refused(Expected(TheEnd, l.tok, l.left))
  }

  // ----- depth -----

  /** The tables of t nest at most d deep. */
  ghost predicate Nesting(t: Tree, d: nat)
    decreases d
  {
    t.Node? ==> d > 0 && forall k :: k in t.m ==> Nesting(t.m[k], d - 1)
  }

  ghost predicate AllNest(m: map<Key, Tree>, d: nat) {
    forall k :: k in m ==> Nesting(m[k], d)
  }

  lemma NestInsert(m: map<Key, Tree>, k: Key, t: Tree, d: nat)
    requires AllNest(m, d) && Nesting(t, d)
    ensures AllNest(m[k := t], d) && Nesting(Node(m[k := t]), d + 1)
  {
  }

  lemma NestEmpty(t: Tree, d: nat)
    ensures AllNest(map[], d) && Nesting(Node(map[]), d + 1) && (!t.Node? ==> Nesting(t, d))
  {
  }

  /** No accepted text nests deeper than the limit. */
  lemma {:induction false} DepthBounded(l: Lexed, cfg: DecodeConfig, depth: nat)
    requires Advances(l) && depth <= cfg.maxDepth
    ensures var r := ParseToken(l, cfg, depth); r.Got? ==> Nesting(r.t, cfg.maxDepth - depth)
    decreases l.left, 0
  {
    hide Lex, Nesting, AllNest, ParseMembers, ParseElements;
    var r := ParseToken(l, cfg, depth);
    if r.Got? { NestEmpty(r.t, cfg.maxDepth - depth); }
    if depth < cfg.maxDepth {
      NestEmpty(Null, cfg.maxDepth - depth - 1);
      var n := Lex(l.rest, cfg);
      if l.tok.TObjBegin? && !n.tok.TObjEnd? {
        MembersBounded(n, cfg, map[], depth + 1);
      }
      if l.tok.TArrBegin? && !n.tok.TArrEnd? {
        ElementsBounded(n, cfg, map[], 1, depth + 1);
      }
    }
  }

  lemma {:induction false} MemberBounded(l: Lexed, cfg: DecodeConfig, depth: nat)
    requires Advances(l) && 0 < depth <= cfg.maxDepth
    ensures var r := ParseMember(l, cfg, depth); r.Got? ==> Nesting(r.t, cfg.maxDepth - depth)
    decreases l.left, 1, 0
  {
    hide Lex, Nesting, ParseToken;
    if l.tok.TString? {
      var c := Lex(l.rest, cfg);
      if c.tok.TColon? {
        DepthBounded(Lex(c.rest, cfg), cfg, depth);
      }
    }
  }

  lemma {:induction false} MembersBounded(l: Lexed, cfg: DecodeConfig, m: map<Key, Tree>, depth: nat)
    requires Advances(l) && 0 < depth <= cfg.maxDepth && AllNest(m, cfg.maxDepth - depth)
    ensures var r := ParseMembers(l, cfg, m, depth); r.Got? ==> Nesting(r.t, cfg.maxDepth - depth + 1)
    decreases l.left, 1, 1
  {
    hide Lex, Nesting, AllNest, ParseMember;
    MemberBounded(l, cfg, depth);
    var p := ParseMember(l, cfg, depth);
    if p.Got? {
      NestInsert(m, StrKey(l.text), p.t, cfg.maxDepth - depth);
      var e := Lex(p.rest, cfg);
      if e.tok.TComma? {
        MembersBounded(Lex(e.rest, cfg), cfg, m[StrKey(l.text) := p.t], depth);
      }
    }
  }

  lemma {:induction false} ElementsBounded(l: Lexed, cfg: DecodeConfig, m: map<Key, Tree>, i: nat, depth: nat)
    requires Advances(l) && 0 < depth <= cfg.maxDepth && AllNest(m, cfg.maxDepth - depth)
    ensures var r := ParseElements(l, cfg, m, i, depth); r.Got? ==> Nesting(r.t, cfg.maxDepth - depth + 1)
    decreases l.left, 1
  {
    hide Lex, Nesting, AllNest, ParseToken;
    DepthBounded(l, cfg, depth);
    var p := ParseToken(l, cfg, depth);
    if p.Got? {
      NestInsert(m, IntKey(i), p.t, cfg.maxDepth - depth);
      var e := Lex(p.rest, cfg);
      if e.tok.TComma? {
        ElementsBounded(Lex(e.rest, cfg), cfg, m[IntKey(i) := p.t], i + 1, depth);
      }
    }
  }
}
