/** What the decoder of lua_cjson.c computes, as functions on the bytes still to be read. */
module JsonGrammar {
  import opened StrBufs
  import opened JsonStrings
  import opened JsonEncoder

  // ----- strtoll with base 0, as the C library defines it -----

  function DigitIn(c: Byte, base: nat): int {
    var d := HexDigit2Int(c);
    if d < base then d else -1
  }

  /** How many digits of the base s starts with. */
  function DigitRun(s: Bytes, base: nat): (n: nat)
    ensures n <= |s|
    ensures forall i :: 0 <= i < n ==> DigitIn(s[i], base) >= 0
    ensures n < |s| ==> DigitIn(s[n], base) < 0
  {
    if s == [] || DigitIn(s[0], base) < 0 then 0 else 1 + DigitRun(s[1..], base)
  }

  function RunValue(s: Bytes, base: nat): int {
    if s == [] then 0 else RunValue(s[..|s| - 1], base) * base + DigitIn(s[|s| - 1], base)
  }

  /** Out-of-range values saturate. */
  function Clamp(n: int): Int64 {
    if n < -0x8000_0000_0000_0000 then -0x8000_0000_0000_0000
    else if n >= 0x8000_0000_0000_0000 then 0x7fff_ffff_ffff_ffff
    else assert InInt64(n); n
  }

  /** A value and the number of bytes it takes, zero bytes if there is no number. */
  datatype Converted = Converted(value: Int64, len: nat)

  /** The number after the sign: 0x starts a hexadecimal one, another 0 an octal one. */
  function Unsigned(t: Bytes): (r: (int, nat))
    ensures r.1 <= |t|
  {
    var hex := Peek(t, 0) == '0' && (Peek(t, 1) == 'x' || Peek(t, 1) == 'X') && HexDigit2Int(Peek(t, 2)) >= 0;
    if hex then
      var n := DigitRun(t[2..], 16);
      (RunValue(t[2..][..n], 16), 2 + n)
    else
      var base := if Peek(t, 0) == '0' then 8 else 10;
      var n := DigitRun(t, base);
      (RunValue(t[..n], base), n)
  }

  function Strtoll(s: Bytes): (r: Converted)
    ensures r.len <= |s|
  {
    var sign := if Peek(s, 0) == '-' || Peek(s, 0) == '+' then 1 else 0;
    var (v, n) := Unsigned(s[sign..]);
    if n == 0 then Converted(0, 0) else Converted(Clamp(if Peek(s, 0) == '-' then -v else v), sign + n)
  }

  // ----- tokens -----

  datatype Double = Double(negative: bool, bits: nat)

  datatype Token =
    | TObjBegin | TObjEnd | TArrBegin | TArrEnd | TString(len: nat) | TNumber(x: Double) | TInteger(n: Int64)
    | TBoolean(b: bool) | TNull | TColon | TComma | TEnd | TError(error: LexError)

  /** fpconv_strtod is a parameter: its value, and how many bytes of the input it takes. */
  datatype Strtod = Strtod(x: Double, len: nat)

  datatype DecodeConfig = DecodeConfig(invalidNumbers: bool, maxDepth: nat, strtod: Bytes -> Strtod)

  ghost predicate Sensible(cfg: DecodeConfig) {
    forall s: Bytes :: cfg.strtod(s).len <= |s|
  }

  /**
   A token, the contents of the scratch buffer if it is a string, what follows, and the bytes left where it was
   found.
   */
  datatype Lexed = Lexed(tok: Token, text: Bytes, rest: Bytes, left: nat)

  predicate IsSpace(c: Byte) { c == ' ' || c == '\t' || c == '\n' || c == '\r' }

  function SkipSpace(s: Bytes): (r: Bytes)
    ensures |r| <= |s| && !IsSpace(Peek(r, 0))
  {
    if IsSpace(Peek(s, 0)) then SkipSpace(s[1..]) else s
  }

  /** The table ch2token, white space aside: a token, or that the character needs a closer look. */
  datatype Class = Single(tok: Token) | Invalid | Unknown

  function Ch2Token(c: Byte): Class {
    match c
    case '{' => Single(TObjBegin)
    case '}' => Single(TObjEnd)
    case '[' => Single(TArrBegin)
    case ']' => Single(TArrEnd)
    case ',' => Single(TComma)
    case ':' => Single(TColon)
    case '\0' => Single(TEnd)
    case _ =>
      if c == 'f' || c == 'i' || c == 'I' || c == 'n' || c == 'N' || c == 't' || c == '"' || c == '+' || c == '-'
         || '0' <= c <= '9'
      then Unknown else Invalid
  }

  /** strncmp against a word without NULs. */
  predicate StartsWith(s: Bytes, word: Bytes) { |word| <= |s| && s[..|word|] == word }

  function Lower(c: Byte): Byte {
    if 'A' <= c <= 'Z' then Chr(c as int + 32) else c
  }

  predicate StartsNoCase(s: Bytes, a: Byte, b: Byte, c: Byte) {
    Lower(Peek(s, 0)) == a && Lower(Peek(s, 1)) == b && Lower(Peek(s, 2)) == c
  }

  /** json_is_invalid_number. A char is signed, so bytes from 0x80 on are below '9'. */
  predicate IsInvalidNumber(s: Bytes) {
    if Peek(s, 0) == '+' then true
    else
      var p := if Peek(s, 0) == '-' then s[1..] else s;
      if Peek(p, 0) == '0' then Peek(p, 1) == 'x' || Peek(p, 1) == 'X' || '0' <= Peek(p, 1) <= '9'
      else if Peek(p, 0) <= '9' || Peek(p, 0) as int >= 0x80 then false
      else StartsNoCase(p, 'i', 'n', 'f') || StartsNoCase(p, 'n', 'a', 'n')
  }

  function NumberToken(s: Bytes, cfg: DecodeConfig): Lexed {
    var c := Strtoll(s);
    if c.len == 0 then Lexed(TError(InvalidNumber), [], s, |s|)
    else
      var next := Peek(s, c.len);
      if next == '.' || next == 'e' || next == 'E' then
        var d := cfg.strtod(s);
        Lexed(TNumber(d.x), [], if d.len <= |s| then s[d.len..] else [], |s|)
      else Lexed(TInteger(c.value), [], s[c.len..], |s|)
  }

  function LiteralToken(s: Bytes, cfg: DecodeConfig): Lexed {
    if StartsWith(s, "true") then Lexed(TBoolean(true), [], s[4..], |s|)
    else if StartsWith(s, "false") then Lexed(TBoolean(false), [], s[5..], |s|)
    else if StartsWith(s, "null") then Lexed(TNull, [], s[4..], |s|)
    else if cfg.invalidNumbers && IsInvalidNumber(s) then NumberToken(s, cfg)
    else Lexed(TError(InvalidToken), [], s, |s|)
  }

  function WordToken(s: Bytes, cfg: DecodeConfig): Lexed {
    var c := Peek(s, 0);
    if c == '-' || '0' <= c <= '9' then
      if !cfg.invalidNumbers && IsInvalidNumber(s) then Lexed(TError(InvalidNumber), [], s, |s|)
      else NumberToken(s, cfg)
    else LiteralToken(s, cfg)
  }

  function StringToken(s: Bytes): Lexed
    requires s != []
  {
    match StringBody(s[1..])
    case Text(bytes, rest) => Lexed(TString(|bytes|), bytes, rest, |s|)
    case Bad(e, left) => Lexed(TError(e), [], [], left)
  }

  /** A token in the byte string s, which starts with no white space. */
  function TokenAt(s: Bytes, cfg: DecodeConfig): Lexed {
    match Ch2Token(Peek(s, 0))
    case Invalid => Lexed(TError(InvalidToken), [], s, |s|)
    case Single(tok) => if tok.TEnd? then Lexed(TEnd, [], s, |s|) else Lexed(tok, [], s[1..], |s|)
    case Unknown => if Peek(s, 0) == '"' then StringToken(s) else WordToken(s, cfg)
  }

  /** Punctuation takes at least its byte; no token gives bytes back. */
  predicate Advances(l: Lexed) {
    && |l.rest| <= l.left
    && (l.tok.TObjBegin? || l.tok.TArrBegin? || l.tok.TObjEnd? || l.tok.TArrEnd? || l.tok.TColon? || l.tok.TComma?
        || l.tok.TString? ==>
          |l.rest| < l.left)
  }

  lemma LiteralAdvances(s: Bytes, cfg: DecodeConfig)
    ensures Advances(LiteralToken(s, cfg)) && LiteralToken(s, cfg).left <= |s|
  {
    hide Strtoll, IsInvalidNumber;
  }

  lemma WordAdvances(s: Bytes, cfg: DecodeConfig)
    ensures Advances(WordToken(s, cfg)) && WordToken(s, cfg).left <= |s|
  {
    hide Strtoll, IsInvalidNumber;
  }

  lemma TokenAdvances(s: Bytes, cfg: DecodeConfig)
    ensures Advances(TokenAt(s, cfg)) && TokenAt(s, cfg).left <= |s|
  {
    hide WordToken, StringBody;
    WordAdvances(s, cfg);
    StringShrinks(if s == [] then [] else s[1..]);
  }

  /** json_next_token. */
  function Lex(s: Bytes, cfg: DecodeConfig): (l: Lexed)
    ensures Advances(l) && l.left <= |s|
  {
    TokenAdvances(SkipSpace(s), cfg);
    TokenAt(SkipSpace(s), cfg)
  }
}
