/**
 The decoder of lua_cjson.c as a state machine over one input: a position, a nesting depth,
 and one scratch buffer that every string token overwrites.
 */
module JsonParser {
  import opened StrBufs
  import opened JsonStrings
  import opened JsonEncoder
  import opened JsonGrammar
  import opened JsonParse

  /** A value, or an error that leaves by longjmp. */
  datatype Result = Value(t: Tree) | Thrown(error: ParseError)

  class Parser {
    const data: Bytes   // with the NUL that ends it
    const cfg: DecodeConfig
    const tmp: StrBuf
    var ptr: nat
    var currentDepth: nat

    /** The scratch buffer has room for the whole input, so that writes need no length checks. */
    ghost predicate Valid()
      reads this, tmp
    {
      && data != [] && data[|data| - 1] == '\0' && ptr < |data|
      && tmp.Valid() && tmp.size >= |data|
      && Sensible(cfg) && currentDepth <= cfg.maxDepth
    }

    /** The bytes still to be read. */
    ghost function Rest(): Bytes
      requires data != [] && ptr < |data|
      reads this`ptr
    {
      data[ptr..|data| - 1]
    }

    constructor (s: Bytes, cfg: DecodeConfig)
      requires Sensible(cfg)
      ensures Valid() && fresh(tmp) && fresh(tmp.buf) && Rest() == s && currentDepth == 0 && this.cfg == cfg
      ensures data == s + "\0"
    {
      var d := s + "\0";
      data := d;
      this.cfg := cfg;
      ptr := 0;
      currentDepth := 0;
      tmp := new StrBuf(|s|);
    }

    /** decode_hex4: stops at the first byte that is no hexadecimal digit, the final NUL at the latest. */
    method ReadHex4(off: nat) returns (r: int)
      requires Valid() && ptr + off < |data|
      ensures r == DecodeHex4(Rest(), off)
    {
      var digit: seq<int> := [];
      var i := 0;
      while i < 4
        invariant 0 <= i <= 4 && |digit| == i && ptr + off + i < |data|
        invariant forall j :: 0 <= j < i ==> digit[j] >= 0 && digit[j] == HexDigit2Int(Peek(Rest(), off + j))
      {
        assert data[ptr + off + i] == Peek(Rest(), off + i);
        var d := HexDigit2Int(data[ptr + off + i]);
        digit := digit + [d];
        if d < 0 {
          return -1;
        }
        i := i + 1;
      }
      return digit[0] * 0x1000 + digit[1] * 0x100 + digit[2] * 0x10 + digit[3];
    }

    /** json_append_unicode_escape. */
    method AppendUnicodeEscape() returns (ok: bool)
      requires Valid() && tmp.length < ptr && ptr + 2 < |data| && data[ptr] == '\\' && data[ptr + 1] == 'u'
      modifies this`ptr, tmp`length, tmp.buf
      ensures Valid() && tmp.buf == old(tmp.buf) && tmp.length < ptr
      ensures match UnicodeEscape(old(Rest()))
              case NoEscape => !ok && ptr == old(ptr) && tmp.Contents() == old(tmp.Contents())
              case CodePoint(n, len) =>
                ok && ptr == old(ptr) + len && Rest() == old(Rest())[len..]
                    && tmp.Contents() == old(tmp.Contents()) + CodepointToUtf8(n)
    {
      hide DecodeHex4, CodepointToUtf8, Sensible;
      var escapeLen := 6;
      var codepoint := ReadHex4(2);
      if codepoint < 0 {
        return false;
      }
      if codepoint / 0x800 == 0x1b {
        if codepoint / 0x400 % 2 == 1 {
          return false;
        }
        if data[ptr + escapeLen] != '\\' || data[ptr + escapeLen + 1] != 'u' {
          return false;
        }
        var surrogateLow := ReadHex4(2 + escapeLen);
        if surrogateLow < 0 {
          return false;
        }
        if surrogateLow / 0x400 != 0x37 {
          return false;
        }
        codepoint := codepoint % 0x400 * 0x400 + surrogateLow % 0x400 + 0x1_0000;
        escapeLen := 12;
      }
      assert UnicodeEscape(Rest()) == CodePoint(codepoint, escapeLen);
      var utf8 := CodepointToUtf8(codepoint);
      Utf8Length(codepoint);
      Utf8Nonempty(codepoint);
      if utf8 == [] {
        return false;
      }
      tmp.AppendMemUnsafe(utf8);
      ptr := ptr + escapeLen;
      return true;
    }

    /**
     One turn of the loop of json_next_string_token: the bytes x come from what it reads, or the string is in
     error.
     */
    method NextChar() returns (failed: bool, error: LexError, ghost x: Bytes)
      requires Valid() && data[ptr] != '"' && tmp.length < ptr
      modifies this`ptr, tmp`length, tmp.buf
      ensures Valid() && tmp.buf == old(tmp.buf) && tmp.length < ptr && ptr >= old(ptr)
      ensures failed ==> StringBody(old(Rest())) == Bad(error, |data| - 1 - ptr)
      ensures !failed ==> ptr > old(ptr) && tmp.Contents() == old(tmp.Contents()) + x
      ensures !failed ==> StringBody(old(Rest())) == Prepend(x, StringBody(Rest()))
    {
      hide UnicodeEscape, CodepointToUtf8, Escape2Char, Sensible;
      error, x := InvalidToken, [];
      var ch := data[ptr];
      ghost var rest := Rest();
      if ch == '\0' {
        return true, UnexpectedEnd, [];
      }
      if ch == '\\' {
        failed, error, x := NextEscape();
        return;
      }
      tmp.AppendCharUnsafe(ch);
      ptr := ptr + 1;
      return false, InvalidToken, [ch];
    }

    /** The part for a backslash. */
    method NextEscape() returns (failed: bool, error: LexError, ghost x: Bytes)
      requires Valid() && data[ptr] == '\\' && tmp.length < ptr
      modifies this`ptr, tmp`length, tmp.buf
      ensures Valid() && tmp.buf == old(tmp.buf) && tmp.length < ptr && ptr >= old(ptr)
      ensures failed ==> StringBody(old(Rest())) == Bad(error, |data| - 1 - ptr)
      ensures !failed ==> ptr > old(ptr) && tmp.Contents() == old(tmp.Contents()) + x
      ensures !failed ==> StringBody(old(Rest())) == Prepend(x, StringBody(Rest()))
    {
      hide UnicodeEscape, CodepointToUtf8, Escape2Char, Sensible;
      error, x := InvalidToken, [];
      ghost var rest := Rest();
      var ch := Escape2Char(data[ptr + 1]);
      assert data[ptr + 1] == Peek(rest, 1);
      if ch == 'u' {
        var ok := AppendUnicodeEscape();
        return !ok, InvalidUnicodeEscape, if ok then CodepointToUtf8(UnicodeEscape(rest).n) else [];
      }
      if ch == '\0' {
        return true, InvalidEscape, [];
      }
      ptr := ptr + 1;
      assert data[ptr..|data| - 1][1..] == rest[2..];
      tmp.AppendCharUnsafe(ch);
      ptr := ptr + 1;
      return false, InvalidToken, [ch];
    }

    /** json_next_string_token: the decoded bytes go to the scratch buffer, which stays shorter than what was read. */
    method NextStringToken() returns (tok: Token, index: nat)
      requires Valid() && data[ptr] == '"'
      modifies this`ptr, tmp`length, tmp.buf
      ensures tmp.buf == old(tmp.buf) && tmp.length < ptr
      ensures Shows(tok, index, StringToken(old(Rest())))
    {
      hide Sensible;
      StringAdvances(Rest());
      index := ptr;
      ghost var s := Rest()[1..];
      ptr := ptr + 1;
      tmp.Reset();
      PrependNothing(StringBody(s));
      hide StringBody;
      while data[ptr] != '"'
        invariant Valid() && tmp.buf == old(tmp.buf) && tmp.length < ptr
        invariant StringBody(s) == Prepend(tmp.Contents(), StringBody(Rest()))
        modifies this`ptr, tmp`length, tmp.buf
        decreases |data| - ptr
      {
        ghost var sofar := tmp.Contents();
        var failed, error;
        ghost var x;
        failed, error, x := NextChar();
        if failed {
          return TError(error), ptr;
        }
        PrependTwice(sofar, x, StringBody(Rest()));
      }
      ClosingQuote(Rest());
      assert tmp.Contents() + [] == tmp.Contents();
      ptr := ptr + 1;
      tmp.EnsureNull();
      return TString(tmp.length), index;
    }

    /** strncmp against a word, stopping at the first difference. */
    method StartsWithWord(word: Bytes) returns (b: bool)
      requires Valid() && '\0' !in word
      ensures b == StartsWith(Rest(), word)
    {
      var i := 0;
      while i < |word|
        invariant 0 <= i <= |word| && ptr + i < |data| && Rest()[..i] == word[..i]
      {
        assert word[i] in word;
        if data[ptr + i] != word[i] {
          assert i < |Rest()| ==> Rest()[i] != word[i];
          return false;
        }
        i := i + 1;
      }
      return true;
    }

    /** strncasecmp of three bytes from position p on. */
    method StartsNoCaseAt(p: nat, a: Byte, b: Byte, c: Byte) returns (r: bool)
      requires Valid() && ptr <= p < |data| && a != '\0' && b != '\0' && c != '\0'
      ensures r == StartsNoCase(data[p..|data| - 1], a, b, c)
    {
      return Lower(data[p]) == a && Lower(data[p + 1]) == b && Lower(data[p + 2]) == c;
    }

    method IsInvalid() returns (r: bool)
      requires Valid()
      ensures r == IsInvalidNumber(Rest())
    {
      hide Sensible;
      var p := ptr;
      if data[p] == '+' {
        return true;
      }
      if data[p] == '-' {
        p := p + 1;
      }
      if data[p] == '0' {
        var ch2 := data[p + 1];
        return ch2 == 'x' || ch2 == 'X' || '0' <= ch2 <= '9';
      } else if data[p] <= '9' || data[p] as int >= 0x80 {
        return false;
      }
      r := StartsNoCaseAt(p, 'i', 'n', 'f');
      if r { return; }
      r := StartsNoCaseAt(p, 'n', 'a', 'n');
    }

    /** tok was found at index and is the specified token l. */
    ghost predicate Shows(tok: Token, index: nat, l: Lexed)
      reads this, tmp, tmp.buf
    {
      && Valid() && Advances(l) && tok == l.tok && l.left < |data| && index == |data| - 1 - l.left
      && (!tok.TError? ==> Rest() == l.rest)
      && (tok.TString? ==> tmp.Contents() == l.text && tok.len == |l.text|)
    }

    method NextNumberToken() returns (tok: Token)
      requires Valid()
      modifies this`ptr
      ensures Shows(tok, old(ptr), NumberToken(old(Rest()), cfg))
    {
      hide Strtoll, Sensible;
      var rest := data[ptr..|data| - 1];
      var c := Strtoll(rest);
      var endptr := ptr + c.len;
      if ptr == endptr {
        return TError(InvalidNumber);
      }
      assert data[endptr] == Peek(rest, c.len) && data[endptr..|data| - 1] == rest[c.len..];
      if data[endptr] == '.' || data[endptr] == 'e' || data[endptr] == 'E' {
        var d := cfg.strtod(rest);
        StrtodFits(rest, cfg);
        tok := TNumber(d.x);
        endptr := ptr + d.len;
        assert data[endptr..|data| - 1] == rest[d.len..];
      } else {
        tok := TInteger(c.value);
      }
      ptr := endptr;
    }

    method NextWordToken() returns (tok: Token)
      requires Valid()
      modifies this`ptr
      ensures Shows(tok, old(ptr), WordToken(old(Rest()), cfg))
    {
      hide NumberToken, LiteralToken, IsInvalidNumber, Sensible;
      var ch := data[ptr];
      WordAdvances(Rest(), cfg);
      if ch == '-' || '0' <= ch <= '9' {
        if !cfg.invalidNumbers {
          var invalid := IsInvalid();
          if invalid {
            return TError(InvalidNumber);
          }
        }
        tok := NextNumberToken();
        return;
      }
      tok := NextLiteralToken();
    }

    /** Anything that does not start with a digit or a minus sign. */
    method NextLiteralToken() returns (tok: Token)
      requires Valid()
      modifies this`ptr
      ensures Shows(tok, old(ptr), LiteralToken(old(Rest()), cfg))
    {
      hide NumberToken, IsInvalidNumber, Sensible;
      LiteralAdvances(Rest(), cfg);
      var word := StartsWithWord("true");
      if word {
        ptr := ptr + 4;
        return TBoolean(true);
      }
      word := StartsWithWord("false");
      if word {
        ptr := ptr + 5;
        return TBoolean(false);
      }
      word := StartsWithWord("null");
      if word {
        ptr := ptr + 4;
        return TNull;
      }
      if cfg.invalidNumbers {
        var invalid := IsInvalid();
        if invalid {
          tok := NextNumberToken();
          return;
        }
      }
      return TError(InvalidToken);
    }

    method SkipWhitespace()
      requires Valid()
      modifies this`ptr
      ensures Valid() && Rest() == SkipSpace(old(Rest())) && data[ptr] == Peek(Rest(), 0)
    {
      hide Sensible, SkipSpace;
      while IsSpace(data[ptr])
        invariant Valid() && SkipSpace(Rest()) == SkipSpace(old(Rest()))
        decreases |data| - ptr
      {
        SpaceStep(Rest());
        ptr := ptr + 1;
      }
      assert Peek(Rest(), 0) == data[ptr];
      SpaceStep(Rest());
    }

    /** The part of json_next_token after the white space. */
    method TokenHere() returns (tok: Token, index: nat)
      requires Valid() && data[ptr] == Peek(Rest(), 0)
      modifies this`ptr, tmp`length, tmp.buf
      ensures tmp.buf == old(tmp.buf) && Shows(tok, index, TokenAt(old(Rest()), cfg))
    {
      hide StringToken, WordToken, Sensible;
      ghost var s := Rest();
      TokenAdvances(s, cfg);
      index := ptr;
      var kind := Ch2Token(data[ptr]);
      if kind.Invalid? {
        return TError(InvalidToken), ptr;
      }
      if kind.Single? {
        tok := kind.tok;
        if !tok.TEnd? {
          ptr := ptr + 1;
        }
        return;
      }
      if data[ptr] == '"' {
        tok, index := NextStringToken();
        return;
      }
      tok := NextWordToken();
    }

    /** json_next_token. */
    method NextToken() returns (tok: Token, index: nat)
      requires Valid()
      modifies this`ptr, tmp`length, tmp.buf
      ensures tmp.buf == old(tmp.buf) && Shows(tok, index, Lex(old(Rest()), cfg))
    {
      hide TokenAt, SkipSpace, Sensible;
      SkipWhitespace();
      tok, index := TokenHere();
    }

    /** The state after a value, or the error thrown instead. */
    twostate predicate Parses(r: Result, spec: Parsed)
      reads this, tmp
    {
      match spec
      case Got(t, rest) => r == Value(t) && Valid() && Rest() == rest && currentDepth == old(currentDepth)
      case Failed(e) => r == Thrown(e)
    }

    /** json_process_value. A string is taken from the scratch buffer before the next token overwrites it. */
    method ProcessValue(tok: Token, index: nat, ghost l: Lexed) returns (r: Result)
      requires Shows(tok, index, l)
      modifies this`ptr, this`currentDepth, tmp`length, tmp.buf
      ensures tmp.buf == old(tmp.buf) && Parses(r, ParseToken(l, cfg, old(currentDepth)))
      decreases l.left, 0
    {
      hide Sensible, ParseObject, ParseArray;
      match tok {
        case TString(len) => r := Value(Chars(tmp.buf[..len]));
        case TNumber(x) => r := Value(Real(x));
        case TInteger(n) => r := Value(Int(n));
        case TBoolean(b) => r := Value(Bool(b));
        case TObjBegin => r := ParseObjectContext();
        case TArrBegin => r := ParseArrayContext();
        case TNull => r := Value(Null);
        case _ => r := Thrown(Expected(AnyValue, tok, |data| - 1 - index));
      }
    }

    /** json_parse_object_context. */
    method ParseObjectContext() returns (r: Result)
      requires Valid()
      modifies this`ptr, this`currentDepth, tmp`length, tmp.buf
      ensures tmp.buf == old(tmp.buf) && Parses(r, ParseObject(old(Rest()), cfg, old(currentDepth)))
      decreases |data| - 1 - ptr, 2
    {
      hide Sensible, Lex, ParseMembers;
      currentDepth := currentDepth + 1;
      if currentDepth > cfg.maxDepth {
        return Thrown(TooDeep(currentDepth, |data| - 1 - ptr));
      }
      ghost var l := Lex(Rest(), cfg);
      var tok, index := NextToken();
      if tok.TObjEnd? {
        currentDepth := currentDepth - 1;
        return Value(Node(map[]));
      }
      r := ParseObjectMembers(tok, index, l);
    }

    /** The loop of json_parse_object_context, entered with the token of the first key. */
    method ParseObjectMembers(tok0: Token, index0: nat, ghost l0: Lexed) returns (r: Result)
      requires Shows(tok0, index0, l0) && currentDepth > 0
      modifies this`ptr, this`currentDepth, tmp`length, tmp.buf
      ensures tmp.buf == old(tmp.buf)
      ensures match ParseMembers(l0, cfg, map[], old(currentDepth))
              case Got(t, rest) => r == Value(t) && Valid() && Rest() == rest && currentDepth == old(currentDepth) - 1
              case Failed(e) => r == Thrown(e)
      decreases l0.left, 1, 1
    {
      hide Sensible, Lex, ParseMember;
      var tok, index := tok0, index0;
      ghost var l := l0;
      var table: map<Key, Tree> := map[];
      while true
        invariant Shows(tok, index, l) && l.left <= l0.left && tmp.buf == old(tmp.buf)
                  && currentDepth == old(currentDepth)
        invariant ParseMembers(l0, cfg, map[], currentDepth) == ParseMembers(l, cfg, table, currentDepth)
        decreases l.left
      {
        var key;
        key, r := ParseOneMember(tok, index, l);
        if r.Thrown? { return; }
        table := table[key := r.t];
        ghost var e := Lex(Rest(), cfg);
        tok, index := NextToken();
        if tok.TObjEnd? {
          currentDepth := currentDepth - 1;
          return Value(Node(table));
        }
        if !tok.TComma? {
          return Thrown(Expected(CommaOrObjectEnd, tok, |data| - 1 - index));
        }
        l := Lex(Rest(), cfg);
        tok, index := NextToken();
      }
    }

    /** Key, colon and value. */
    method ParseOneMember(tok0: Token, index0: nat, ghost l: Lexed) returns (key: Key, r: Result)
      requires Shows(tok0, index0, l)
      modifies this`ptr, this`currentDepth, tmp`length, tmp.buf
      ensures tmp.buf == old(tmp.buf) && Parses(r, ParseMember(l, cfg, old(currentDepth)))
      ensures key == StrKey(l.text) || r.Thrown?
      decreases l.left, 1, 0
    {
      hide Sensible, Lex, ParseToken;
      var tok, index := tok0, index0;
      key := OtherKey;
      if !tok.TString? {
        return key, Thrown(Expected(KeyString, tok, |data| - 1 - index));
      }
      key := StrKey(tmp.buf[..tok.len]);
      ghost var c := Lex(Rest(), cfg);
      tok, index := NextToken();
      if !tok.TColon? {
        return key, Thrown(Expected(ColonSign, tok, |data| - 1 - index));
      }
      ghost var v := Lex(Rest(), cfg);
      tok, index := NextToken();
      r := ProcessValue(tok, index, v);
    }

    /** json_parse_array_context. */
    method ParseArrayContext() returns (r: Result)
      requires Valid()
      modifies this`ptr, this`currentDepth, tmp`length, tmp.buf
      ensures tmp.buf == old(tmp.buf) && Parses(r, ParseArray(old(Rest()), cfg, old(currentDepth)))
      decreases |data| - 1 - ptr, 2
    {
      hide Sensible, Lex, ParseElements;
      currentDepth := currentDepth + 1;
      if currentDepth > cfg.maxDepth {
        return Thrown(TooDeep(currentDepth, |data| - 1 - ptr));
      }
      ghost var l := Lex(Rest(), cfg);
      var tok, index := NextToken();
      if tok.TArrEnd? {
        currentDepth := currentDepth - 1;
        return Value(Node(map[]));
      }
      r := ParseArrayElements(tok, index, l);
    }

    /** The loop of json_parse_array_context. */
    method ParseArrayElements(tok0: Token, index0: nat, ghost l0: Lexed) returns (r: Result)
      requires Shows(tok0, index0, l0) && currentDepth > 0
      modifies this`ptr, this`currentDepth, tmp`length, tmp.buf
      ensures tmp.buf == old(tmp.buf)
      ensures match ParseElements(l0, cfg, map[], 1, old(currentDepth))
              case Got(t, rest) => r == Value(t) && Valid() && Rest() == rest && currentDepth == old(currentDepth) - 1
              case Failed(e) => r == Thrown(e)
      decreases l0.left, 1
    {
      hide Sensible, Lex, ParseToken;
      var tok, index := tok0, index0;
      ghost var l := l0;
      var table: map<Key, Tree> := map[];
      var i := 1;
      while true
        invariant Shows(tok, index, l) && l.left <= l0.left && tmp.buf == old(tmp.buf)
                  && currentDepth == old(currentDepth) && i >= 1
        invariant ParseElements(l0, cfg, map[], 1, currentDepth) == ParseElements(l, cfg, table, i, currentDepth)
        decreases l.left
      {
        r := ProcessValue(tok, index, l);
        if r.Thrown? { return; }
        table := table[IntKey(i) := r.t];
        ghost var e := Lex(Rest(), cfg);
        tok, index := NextToken();
        if tok.TArrEnd? {
          currentDepth := currentDepth - 1;
          return Value(Node(table));
        }
        if !tok.TComma? {
          return Thrown(Expected(CommaOrArrayEnd, tok, |data| - 1 - index));
        }
        l := Lex(Rest(), cfg);
        tok, index := NextToken();
        i := i + 1;
      }
    }

    /** Nothing but white space may follow the value. */
    method ExpectEnd(t: Tree) returns (r: Decoded)
      requires Valid()
      modifies this`ptr, tmp`length, tmp.buf
      ensures var l := Lex(old(Rest()), cfg);
              r == if l.tok.TEnd? then Decoded(t) else Refused(Expected(TheEnd, l.tok, l.left))
    {
      hide Lex, Sensible;
      var tok, index := NextToken();
      if !tok.TEnd? {
        return Refused(Expected(TheEnd, tok, |data| - 1 - index));
      }
      return Decoded(t);
    }
  }

  lemma StrtodFits(s: Bytes, cfg: DecodeConfig)
    requires Sensible(cfg)
    ensures cfg.strtod(s).len <= |s|
  {
  }

  lemma SpaceStep(s: Bytes)
    ensures SkipSpace(s) == if IsSpace(Peek(s, 0)) then SkipSpace(s[1..]) else s
  {
  }

  lemma StringAdvances(s: Bytes)
    requires s != []
    ensures Advances(StringToken(s)) && StringToken(s).left <= |s|
  {
    StringShrinks(s[1..]);
  }

  lemma ClosingQuote(s: Bytes)
    requires s != [] && s[0] == '"'
    ensures StringBody(s) == Text([], s[1..])
  {
  }

  lemma Utf8Nonempty(n: nat)
    requires n <= 0x1f_ffff
    ensures CodepointToUtf8(n) != []
  {
  }

  /** json_decode. */
  method DecodeText(s: Bytes, cfg: DecodeConfig) returns (r: Decoded)
    requires Sensible(cfg)
    ensures r == Decode(s, cfg)
  {
    hide Sensible, Lex, ParseToken;
    if |s| >= 2 && (s[0] == '\0' || s[1] == '\0') {
      return Refused(WideEncoding);
    }
    var json := new Parser(s, cfg);
    ghost var l := Lex(s, cfg);
    var tok, index := json.NextToken();
    var v := json.ProcessValue(tok, index, l);
    if v.Thrown? {
      return Refused(v.error);
    }
    r := json.ExpectEnd(v.t);
  }
}
