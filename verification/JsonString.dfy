/**
 JSON strings: the escapes written by json_append_string, and the reading of them by
 json_next_string_token, as functions on the bytes still to be read. A C string ends at a
 NUL, so the byte after the last one reads as NUL.
 */
module JsonStrings {
  import opened StrBufs

  type Bytes = seq<Byte>

  function Peek(s: Bytes, i: nat): Byte {
    if i < |s| then s[i] else '\0'
  }

  function Chr(n: nat): Byte
    requires n < 256
  {
    n as char
  }

  // ----- encoding -----

  function HexChar(d: nat): Byte
    requires d < 16
  {
    if d < 10 then Chr('0' as int + d) else Chr('a' as int + d - 10)
  }

  /** The table char2escape; the empty string stands for NULL. */
  function Char2Escape(c: Byte): Bytes {
    var n := c as int;
    if n == 8 then "\\b"
    else if n == 9 then "\\t"
    else if n == 10 then "\\n"
    else if n == 12 then "\\f"
    else if n == 13 then "\\r"
    else if c == '"' then "\\\""
    else if c == '/' then "\\/"
    else if c == '\\' then "\\\\"
    else if n < 32 || n == 127 then "\\u00" + [HexChar(n / 16), HexChar(n % 16)]
    else ""
  }

  /** What one byte of a string is written as. */
  function Escape(c: Byte): Bytes {
    if Char2Escape(c) == "" then [c] else Char2Escape(c)
  }

  function EscapeAll(s: Bytes): Bytes {
    if s == [] then [] else Escape(s[0]) + EscapeAll(s[1..])
  }

  function StringText(s: Bytes): Bytes { "\"" + EscapeAll(s) + "\"" }

  // ----- decoding -----

  /** The table escape2char; NUL marks an error and 'u' a Unicode escape. */
  function Escape2Char(c: Byte): (e: Byte)
    ensures (c == '\0' ==> e == '\0') && (e == 'u' <==> c == 'u')
  {
    match c
    case '"' => '"'
    case '\\' => '\\'
    case '/' => '/'
    case 'b' => Chr(8)
    case 't' => '\t'
    case 'n' => '\n'
    case 'f' => Chr(12)
    case 'r' => '\r'
    case 'u' => 'u'
    case _ => '\0'
  }

  function HexDigit2Int(c: Byte): int {
    if '0' <= c <= '9' then c as int - '0' as int
    else if 'a' <= c <= 'f' then 10 + c as int - 'a' as int
    else if 'A' <= c <= 'F' then 10 + c as int - 'A' as int
    else -1
  }

  const LOWER_HEX: Bytes := "0123456789abcdef"
  const UPPER_HEX: Bytes := "0123456789ABCDEF"

  /** c is the hexadecimal digit d, in either case. */
  predicate HexDigitIs(c: Byte, d: int) { 0 <= d < 16 && (c == LOWER_HEX[d] || c == UPPER_HEX[d]) }

  /** Exactly the bytes of the two strings are digits, with their place as value. */
  lemma HexDigitIff(c: Byte, d: nat)
    ensures HexDigit2Int(c) == d <==> HexDigitIs(c, d)
    ensures HexDigit2Int(c) < 16
  {
  }

  /** The 16-bit value of four hexadecimal digits from position i on, or -1. */
  function DecodeHex4(s: Bytes, i: nat): (r: int)
    ensures -1 <= r < 0x1_0000
    ensures r >= 0 ==> i + 4 <= |s|
  {
    var a, b, c, d := HexDigit2Int(Peek(s, i)), HexDigit2Int(Peek(s, i + 1)), HexDigit2Int(Peek(s, i + 2)),
        HexDigit2Int(Peek(s, i + 3));
    if a < 0 || b < 0 || c < 0 || d < 0 then -1 else a * 0x1000 + b * 0x100 + c * 0x10 + d
  }

  /** codepoint_to_utf8; empty beyond 21 bits. */
  function CodepointToUtf8(n: nat): Bytes {
    if n <= 0x7f then [Chr(n)]
    else if n <= 0x7ff then [Chr(0xc0 + n / 0x40), Chr(0x80 + n % 0x40)]
    else if n <= 0xffff then [Chr(0xe0 + n / 0x1000), Chr(0x80 + n / 0x40 % 0x40), Chr(0x80 + n % 0x40)]
    else if n <= 0x1f_ffff then
      [Chr(0xf0 + n / 0x4_0000), Chr(0x80 + n / 0x1000 % 0x40), Chr(0x80 + n / 0x40 % 0x40), Chr(0x80 + n % 0x40)]
    else []
  }

  predicate IsSurrogate(unit: int) { 0xd800 <= unit <= 0xdfff }

  predicate IsHigh(unit: int) { 0xd800 <= unit <= 0xdbff }

  predicate IsLow(unit: int) { 0xdc00 <= unit <= 0xdfff }

  datatype Escaped = NoEscape | CodePoint(n: nat, len: nat)

  /** The scalar that the escape at the start of s stands for, and the length of the escape. */
  function UnicodeEscape(s: Bytes): (r: Escaped)
    ensures r.CodePoint? ==> r.len <= |s| && (r.len == 6 || r.len == 12) && r.n <= 0x10_ffff && !IsSurrogate(r.n)
    ensures r.CodePoint? ==> (r.len == 12 <==> r.n > 0xffff)
  {
    var unit := DecodeHex4(s, 2);
    if unit < 0 then NoEscape
    else if !IsSurrogate(unit) then CodePoint(unit, 6)
    else if !IsHigh(unit) || Peek(s, 6) != '\\' || Peek(s, 7) != 'u' then NoEscape
    else
      var low := DecodeHex4(s, 8);
      if !IsLow(low) then NoEscape
      else CodePoint(unit % 0x400 * 0x400 + low % 0x400 + 0x1_0000, 12)
  }

  /** The messages of an error token. */
  datatype LexError = UnexpectedEnd | InvalidUnicodeEscape | InvalidEscape | InvalidNumber | InvalidToken

  /** The decoded bytes and what follows the closing quote, or an error and the number of bytes left at it. */
  datatype StringResult = Text(bytes: Bytes, rest: Bytes) | Bad(error: LexError, left: nat)

  function Prepend(b: Bytes, r: StringResult): StringResult {
    match r
    case Text(bytes, rest) => Text(b + bytes, rest)
    case Bad(_, _) => r
  }

  lemma PrependTwice(a: Bytes, b: Bytes, r: StringResult)
    ensures Prepend(a, Prepend(b, r)) == Prepend(a + b, r)
  {
    if r.Text? {
      assert a + (b + r.bytes) == a + b + r.bytes;
    }
  }

  lemma PrependNothing(r: StringResult)
    ensures Prepend([], r) == r
  {
    if r.Text? {
      assert [] + r.bytes == r.bytes;
    }
  }

  /** Reading a string from just after its opening quote. */
  function StringBody(s: Bytes): StringResult {
    var ch := Peek(s, 0);
    if ch == '"' then Text([], s[1..])
    else if ch == '\0' then Bad(UnexpectedEnd, |s|)
    else if ch == '\\' then
      var e := Escape2Char(Peek(s, 1));
      if e == 'u' then
        match UnicodeEscape(s)
        case NoEscape => Bad(InvalidUnicodeEscape, |s|)
        case CodePoint(n, len) => Prepend(CodepointToUtf8(n), StringBody(s[len..]))
      else if e == '\0' then Bad(InvalidEscape, |s|)
      else Prepend([e], StringBody(s[2..]))
    else Prepend([ch], StringBody(s[1..]))
  }

  // ----- what the two promise each other -----

  /** The escapes of one byte take at most six bytes, which is what the encoder reserves. */
  lemma EscapeLength(c: Byte)
    ensures 1 <= |Escape(c)| <= 6
  {
  }

  lemma {:induction false} EscapeAllLength(s: Bytes)
    ensures |s| <= |EscapeAll(s)| <= 6 * |s|
  {
    if s != [] {
      EscapeAllLength(s[1..]);
    }
  }

  /** Appending to the string appends its escape. */
  lemma {:induction false} EscapeSnoc(s: Bytes, i: nat)
    requires i < |s|
    ensures EscapeAll(s[..i + 1]) == EscapeAll(s[..i]) + Escape(s[i])
  {
    hide Escape;
    if i == 0 {
      assert s[..1][1..] == [] && s[..0] == [];
    } else {
      EscapeSnoc(s[1..], i - 1);
      assert s[..i + 1][1..] == s[1..][..i] && s[..i][1..] == s[1..][..i - 1];
    }
  }

  /** Reading one escaped byte gives it back. */
  lemma ReadEscape(c: Byte, t: Bytes)
    ensures StringBody(Escape(c) + t) == Prepend([c], StringBody(t))
  {
    hide HexChar, HexDigit2Int, DecodeHex4, UnicodeEscape, CodepointToUtf8;
    var e := Char2Escape(c);
    var s := Escape(c) + t;
    if e == "" {
      assert s[1..] == t;
    } else if |e| == 2 {
      assert s[2..] == t;
      assert Escape2Char(s[1]) == c;
    } else {
      assert s[0] == '\\' && s[1] == 'u' && s[6..] == t;
      ReadHexEscape(c, s);
    }
  }

  lemma ReadHexEscape(c: Byte, s: Bytes)
    requires c as int < 0x80 && |s| >= 6
    requires s[2] == '0' && s[3] == '0' && s[4] == HexChar(c as int / 16) && s[5] == HexChar(c as int % 16)
    ensures UnicodeEscape(s) == CodePoint(c as int, 6) && CodepointToUtf8(c as int) == [c]
  {
    assert HexDigit2Int(s[4]) == c as int / 16 && HexDigit2Int(s[5]) == c as int % 16;
    assert DecodeHex4(s, 2) == c as int;
  }

  /** The string round trip, over all byte strings: the original bytes, and the position just past the closing quote. */
  lemma {:induction false} StringRoundTrip(s: Bytes, rest: Bytes)
    ensures StringBody(EscapeAll(s) + "\"" + rest) == Text(s, rest)
  {
    hide Escape, Escape2Char, UnicodeEscape;
    if s == [] {
      assert EscapeAll(s) + "\"" + rest == "\"" + rest;
      assert ("\"" + rest)[1..] == rest;
    } else {
      var more := EscapeAll(s[1..]) + "\"" + rest;
      assert EscapeAll(s) + "\"" + rest == Escape(s[0]) + more;
      ReadEscape(s[0], more);
      StringRoundTrip(s[1..], rest);
      assert [s[0]] + s[1..] == s;
    }
  }

  lemma Utf8Length(n: nat)
    ensures |CodepointToUtf8(n)| <= 4
  {
  }

  /** Decoding never produces more bytes than it consumes: with the quotes, two fewer. */
  lemma {:induction false} StringShrinks(s: Bytes)
    ensures var r := StringBody(s);
            r.Text? ==> |r.rest| < |s| && |r.bytes| + 1 + |r.rest| <= |s| && r.rest == s[|s| - |r.rest|..]
    ensures StringBody(s).Bad? ==> StringBody(s).left <= |s|
    decreases |s|
  {
    hide Escape2Char, UnicodeEscape, CodepointToUtf8;
    var ch := Peek(s, 0);
    if ch != '"' && ch != '\0' {
      if ch == '\\' {
        var e := Escape2Char(Peek(s, 1));
        if e == 'u' {
          var u := UnicodeEscape(s);
          if u.CodePoint? {
            Utf8Length(u.n);
            StringShrinks(s[u.len..]);
          }
        } else if e != '\0' {
          StringShrinks(s[2..]);
        }
      } else {
        StringShrinks(s[1..]);
      }
    }
  }
}
