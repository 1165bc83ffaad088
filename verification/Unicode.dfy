/** \u escapes (section 2.5 of RFC 4627) against UTF-8 as its own standard defines it (RFC 3629). */
module Unicode {
  import opened Arith
  import opened StrBufs
  import opened JsonStrings

  predicate IsScalar(n: int) { 0 <= n <= 0x10_ffff && !IsSurrogate(n) }

  type Scalar = n: nat | IsScalar(n)

  predicate InRange(c: Byte, lo: int, hi: int) { lo <= c as int <= hi }

  predicate IsTail(c: Byte) { InRange(c, 0x80, 0xbf) }

  /** The low six bits of a continuation byte. */
  function Tail(c: Byte): int { c as int - 0x80 }

  /**
   The first character of s by the grammar of section 4 of RFC 3629, which admits the
   shortest form only and neither surrogates nor anything beyond U+10FFFF.
   */
  function FirstChar(s: Bytes): Escaped {
    if s == [] then NoEscape
    else
      var c, n := s[0], s[0] as int;
      if n <= 0x7f then CodePoint(n, 1)
      else if InRange(c, 0xc2, 0xdf) then
        if IsTail(Peek(s, 1)) then CodePoint((n - 0xc0) * 0x40 + Tail(s[1]), 2) else NoEscape
      else if InRange(c, 0xe0, 0xef) then
        var lo, hi := if n == 0xe0 then 0xa0 else 0x80, if n == 0xed then 0x9f else 0xbf;
        if InRange(Peek(s, 1), lo, hi) && IsTail(Peek(s, 2)) then
          CodePoint((n - 0xe0) * 0x1000 + Tail(s[1]) * 0x40 + Tail(s[2]), 3)
        else NoEscape
      else if InRange(c, 0xf0, 0xf4) then
        var lo, hi := if n == 0xf0 then 0x90 else 0x80, if n == 0xf4 then 0x8f else 0xbf;
        if InRange(Peek(s, 1), lo, hi) && IsTail(Peek(s, 2)) && IsTail(Peek(s, 3)) then
          CodePoint((n - 0xf0) * 0x4_0000 + Tail(s[1]) * 0x1000 + Tail(s[2]) * 0x40 + Tail(s[3]), 4)
        else NoEscape
      else NoEscape
  }

  lemma Split2(n: nat, a: nat, b: nat)
    requires b < 0x40
    ensures n == a * 0x40 + b <==> a == n / 0x40 && b == n % 0x40
  {
    if n == a * 0x40 + b { DivModUnique(n, 0x40, a, b); }
  }

  /** Dropping six bits at a time. */
  lemma SixBits(n: nat)
    ensures n / 0x1000 == n / 0x40 / 0x40 && n / 0x4_0000 == n / 0x1000 / 0x40
  {
    var q := n / 0x40;
    var r := q / 0x40;
    DivModUnique(n, 0x1000, r, q % 0x40 * 0x40 + n % 0x40);
    DivModUnique(n, 0x4_0000, r / 0x40, r % 0x40 * 0x1000 + q % 0x40 * 0x40 + n % 0x40);
  }

  lemma Split3(n: nat, a: nat, b: nat, c: nat)
    requires b < 0x40 && c < 0x40
    ensures n == a * 0x1000 + b * 0x40 + c <==> a == n / 0x1000 && b == n / 0x40 % 0x40 && c == n % 0x40
  {
    SixBits(n);
    Split2(n, a * 0x40 + b, c);
    Split2(n / 0x40, a, b);
  }

  lemma Split4(n: nat, a: nat, b: nat, c: nat, d: nat)
    requires b < 0x40 && c < 0x40 && d < 0x40
    ensures n == a * 0x4_0000 + b * 0x1000 + c * 0x40 + d <==>
            a == n / 0x4_0000 && b == n / 0x1000 % 0x40 && c == n / 0x40 % 0x40 && d == n % 0x40
  {
    var q := n / 0x40;
    SixBits(n);
    SixBits(q);
    Split2(n, a * 0x1000 + b * 0x40 + c, d);
    Split3(q, a, b, c);
  }

  /** codepoint_to_utf8 writes a well-formed character that decodes to the same scalar. */
  lemma Utf8Decodes(n: Scalar, t: Bytes)
    ensures FirstChar(CodepointToUtf8(n) + t) == CodePoint(n, |CodepointToUtf8(n)|)
  {
    assert IsScalar(n);
    var u := CodepointToUtf8(n);
    var s := u + t;
    assert forall i :: 0 <= i < |u| ==> s[i] == u[i];
    if n <= 0x7f {
    } else if n <= 0x7ff {
      Split2(n, n / 0x40, n % 0x40);
    } else if n <= 0xffff {
      Split3(n, n / 0x1000, n / 0x40 % 0x40, n % 0x40);
    } else {
      var a, b, c, d := n / 0x4_0000, n / 0x1000 % 0x40, n / 0x40 % 0x40, n % 0x40;
      Split4(n, a, b, c, d);
      assert u == [Chr(0xf0 + a), Chr(0x80 + b), Chr(0x80 + c), Chr(0x80 + d)];
      assert a <= 4 && (a == 0 ==> b >= 0x10) && (a == 4 ==> b <= 0xf);
    }
  }

  /** And it is the only spelling: whatever the grammar reads as n is what codepoint_to_utf8 writes for n. */
  lemma Utf8Unique(s: Bytes)
    ensures var r := FirstChar(s);
            r.CodePoint? ==> r.len <= |s| && IsScalar(r.n) && s[..r.len] == CodepointToUtf8(r.n)
  {
    var r := FirstChar(s);
    if r.CodePoint? {
      if r.len == 2 {
        Split2(r.n, s[0] as int - 0xc0, Tail(s[1]));
      } else if r.len == 3 {
        Split3(r.n, s[0] as int - 0xe0, Tail(s[1]), Tail(s[2]));
      } else if r.len == 4 {
        Split4(r.n, s[0] as int - 0xf0, Tail(s[1]), Tail(s[2]), Tail(s[3]));
      }
      assert |CodepointToUtf8(r.n)| == r.len;
    }
  }

  /** s is the four hexadecimal digits of n, each in either case. */
  predicate HexUnit(s: Bytes, n: int) {
    && |s| == 4 && HexDigitIs(s[0], n / 0x1000) && HexDigitIs(s[1], n / 0x100 % 0x10)
    && HexDigitIs(s[2], n / 0x10 % 0x10) && HexDigitIs(s[3], n % 0x10)
  }

  /** esc is a \u escape of the scalar n, in either case of the hexadecimal digits; a pair beyond the first plane. */
  predicate EscapeOf(esc: Bytes, n: int) {
    && IsScalar(n)
    && if n <= 0xffff then |esc| == 6 && esc[..2] == "\\u" && HexUnit(esc[2..], n)
       else && |esc| == 12 && esc[..2] == "\\u" && esc[6..8] == "\\u"
            && HexUnit(esc[2..6], 0xd800 + (n - 0x1_0000) / 0x400)
            && HexUnit(esc[8..], 0xdc00 + (n - 0x1_0000) % 0x400)
  }

  /** decode_hex4 reads exactly the four digits of a number. */
  lemma Hex4Iff(s: Bytes, i: nat, n: nat)
    ensures DecodeHex4(s, i) == n <==> i + 4 <= |s| && HexUnit(s[i..i + 4], n)
  {
    hide HexDigit2Int, HexDigitIs;
    var a, b, c, d := n / 0x1000, n / 0x100 % 0x10, n / 0x10 % 0x10, n % 0x10;
    FourDigits(n, a, b, c, d);
    NulNoDigit();
    if i + 4 <= |s| {
      HexDigitIff(s[i], a);
      HexDigitIff(s[i + 1], b);
      HexDigitIff(s[i + 2], c);
      HexDigitIff(s[i + 3], d);
      if DecodeHex4(s, i) == n {
        FourDigits(n, HexDigit2Int(s[i]), HexDigit2Int(s[i + 1]), HexDigit2Int(s[i + 2]), HexDigit2Int(s[i + 3]));
      }
    }
  }

  lemma NulNoDigit()
    ensures HexDigit2Int('\0') < 0
  {
  }

  lemma FourDigits(n: nat, a: int, b: int, c: int, d: int)
    requires 0 <= b < 0x10 && 0 <= c < 0x10 && 0 <= d < 0x10
    ensures n == a * 0x1000 + b * 0x100 + c * 0x10 + d <==>
            a == n / 0x1000 && b == n / 0x100 % 0x10 && c == n / 0x10 % 0x10 && d == n % 0x10
  {
    var q := n / 0x10;
    var r := q / 0x10;
    DivModUnique(n, 0x100, r, q % 0x10 * 0x10 + n % 0x10);
    DivModUnique(n, 0x1000, r / 0x10, r % 0x10 * 0x100 + q % 0x10 * 0x10 + n % 0x10);
    if n == a * 0x1000 + b * 0x100 + c * 0x10 + d {
      DivModUnique(n, 0x10, a * 0x100 + b * 0x10 + c, d);
      DivModUnique(q, 0x10, a * 0x10 + b, c);
      DivModUnique(r, 0x10, a, b);
    }
  }

  lemma PairValue(hi: int, lo: int, n: int)
    requires IsHigh(hi) && IsLow(lo)
    ensures n == hi % 0x400 * 0x400 + lo % 0x400 + 0x1_0000 <==>
            n >= 0x1_0000 && hi == 0xd800 + (n - 0x1_0000) / 0x400 && lo == 0xdc00 + (n - 0x1_0000) % 0x400
  {
  }

  lemma Slices(s: Bytes, len: nat)
    requires (len == 6 || len == 12) && len <= |s|
    ensures s[..len][..2] == s[..2]
    ensures len == 6 ==> s[..len][2..] == s[2..6]
    ensures len == 12 ==> s[..len][2..6] == s[2..6] && s[..len][6..8] == s[6..8] && s[..len][8..] == s[8..12]
  {
  }

  /** The surrogates of a pair, and the scalar. */
  lemma PairOf(n: nat)
    requires 0xffff < n <= 0x10_ffff
    ensures var hi, lo := 0xd800 + (n - 0x1_0000) / 0x400, 0xdc00 + (n - 0x1_0000) % 0x400;
            IsHigh(hi) && IsLow(lo) && n == hi % 0x400 * 0x400 + lo % 0x400 + 0x1_0000
  {
    PairValue(0xd800 + (n - 0x1_0000) / 0x400, 0xdc00 + (n - 0x1_0000) % 0x400, n);
  }

  /** Exactly the escapes of scalars are accepted, each as its scalar. */
  lemma UnicodeEscapeIff(s: Bytes, n: nat, len: nat)
    requires |s| >= 2 && s[..2] == "\\u"
    ensures UnicodeEscape(s) == CodePoint(n, len) <==> len <= |s| && EscapeOf(s[..len], n)
  {
    hide DecodeHex4, HexUnit;
    var r := UnicodeEscape(s);
    assert s[0] == '\\' && s[1] == 'u';
    if r == CodePoint(n, len) {
      Slices(s, len);
      Hex4Iff(s, 2, DecodeHex4(s, 2));
      if len == 12 {
        assert s[6..8] == [s[6], s[7]];
        Hex4Iff(s, 8, DecodeHex4(s, 8));
        PairValue(DecodeHex4(s, 2), DecodeHex4(s, 8), n);
      }
    }
    if len <= |s| && EscapeOf(s[..len], n) {
      Slices(s, len);
      if len == 6 {
        Hex4Iff(s, 2, n);
      } else {
        PairOf(n);
        Hex4Iff(s, 2, 0xd800 + (n - 0x1_0000) / 0x400);
        Hex4Iff(s, 8, 0xdc00 + (n - 0x1_0000) % 0x400);
        assert s[6] == s[6..8][0] && s[7] == s[6..8][1];
      }
    }
  }

  function Concat(parts: seq<Bytes>): Bytes {
    if parts == [] then [] else parts[0] + Concat(parts[1..])
  }

  function Utf8All(scalars: seq<Scalar>): Bytes
  {
    if scalars == [] then [] else CodepointToUtf8(scalars[0]) + Utf8All(scalars[1..])
  }

  /** Any sequence of scalars written as \u escapes decodes to its UTF-8 form. */
  lemma {:induction false} ScalarsDecode(scalars: seq<Scalar>, escapes: seq<Bytes>, rest: Bytes)
    requires |escapes| == |scalars| && forall i :: 0 <= i < |scalars| ==> EscapeOf(escapes[i], scalars[i])
    ensures StringBody(Concat(escapes) + "\"" + rest) == Text(Utf8All(scalars), rest)
    decreases |scalars|
  {
    if scalars == [] {
      assert Concat(escapes) + "\"" + rest == "\"" + rest;
      assert ("\"" + rest)[1..] == rest;
    } else {
      var esc, more := escapes[0], Concat(escapes[1..]) + "\"" + rest;
      assert Concat(escapes) + "\"" + rest == esc + more;
      ScalarDecodes(scalars[0], esc, more);
      ScalarsDecode(scalars[1..], escapes[1..], rest);
    }
  }

  lemma ScalarDecodes(n: Scalar, esc: Bytes, more: Bytes)
    requires EscapeOf(esc, n)
    ensures StringBody(esc + more) == Prepend(CodepointToUtf8(n), StringBody(more))
  {
    hide CodepointToUtf8, FirstChar;
    var s := esc + more;
    assert s[..|esc|] == esc && s[|esc|..] == more;
    assert s[..2] == esc[..2] && s[0] == esc[..2][0] && s[1] == esc[..2][1];
    UnicodeEscapeIff(s, n, |esc|);
  }

  // ----- what comes before an error -----

  /** Something at the start of s that is part of a string: a character or an escape. */
  predicate Readable(s: Bytes) {
    var c, d := Peek(s, 0), Peek(s, 1);
    && c != '"' && c != '\0'
    && (c == '\\' ==> Escape2Char(d) != '\0' && (d == 'u' ==> UnicodeEscape(s).CodePoint?))
  }

  function StepLength(s: Bytes): (n: nat)
    requires Readable(s)
    ensures 0 < n <= |s|
  {
    if s[0] != '\\' then 1 else if s[1] != 'u' then 2 else UnicodeEscape(s).len
  }

  function StepBytes(s: Bytes): Bytes
    requires Readable(s)
  {
    if s[0] != '\\' then [s[0]] else if s[1] != 'u' then [Escape2Char(s[1])] else CodepointToUtf8(UnicodeEscape(s).n)
  }

  /** What stands where a string goes wrong. */
  predicate Wrong(s: Bytes, error: LexError) {
    match error
    case UnexpectedEnd => Peek(s, 0) == '\0'
    case InvalidEscape => Peek(s, 0) == '\\' && Escape2Char(Peek(s, 1)) == '\0'
    case InvalidUnicodeEscape => Peek(s, 0) == '\\' && Peek(s, 1) == 'u' && UnicodeEscape(s).NoEscape?
    case _ => false
  }

  lemma StepIs(s: Bytes)
    ensures Readable(s) ==> StringBody(s) == Prepend(StepBytes(s), StringBody(s[StepLength(s)..]))
    ensures !Readable(s) && Peek(s, 0) != '"' ==>
              StringBody(s).Bad? && StringBody(s).left == |s| && Wrong(s, StringBody(s).error)
  {
    hide UnicodeEscape, CodepointToUtf8;
  }

  lemma EscapeStays(s: Bytes, t: Bytes, len: nat)
    requires len <= |s| && len <= |t| && s[..len] == t[..len] && 2 <= len && s[..2] == "\\u"
    requires UnicodeEscape(s).CodePoint? && UnicodeEscape(s).len == len
    ensures UnicodeEscape(t) == UnicodeEscape(s)
  {
    var r := UnicodeEscape(s);
    assert t[..2] == t[..len][..2] == s[..2];
    UnicodeEscapeIff(s, r.n, len);
    UnicodeEscapeIff(t, r.n, len);
  }

  /** A character or escape is read alike whatever comes after it. */
  lemma StepStays(s: Bytes, t: Bytes)
    requires Readable(s)
    ensures var u := s[..StepLength(s)] + t;
            Readable(u) && StepLength(u) == StepLength(s) && StepBytes(u) == StepBytes(s) && u[StepLength(s)..] == t
  {
    hide UnicodeEscape, CodepointToUtf8;
    var n := StepLength(s);
    var u := s[..n] + t;
    assert u[0] == s[0] && u[n..] == t && u[..n] == s[..n];
    if s[0] == '\\' {
      StepLong(s);
      assert u[1] == s[1];
      if s[1] == 'u' {
        assert s[..2] == "\\u";
        EscapeStays(s, u, n);
      }
    }
  }

  lemma StepLong(s: Bytes)
    requires Readable(s) && s[0] == '\\'
    ensures StepLength(s) >= 2
  {
  }

  /** p is whole text between two quotes, and stands for the bytes b. */
  predicate IsBody(p: Bytes, b: Bytes) { StringBody(p + "\"") == Text(b, []) }

  lemma EmptyBody()
    ensures StringBody([]) == Bad(UnexpectedEnd, 0)
  {
  }

  /** Whole text starts with a character or escape that ends before the closing quote. */
  lemma StepInside(p: Bytes, b: Bytes)
    requires IsBody(p, b) && p != []
    ensures Readable(p + "\"") && StepLength(p + "\"") <= |p|
  {
    hide UnicodeEscape, CodepointToUtf8, StepBytes;
    var q := p + "\"";
    assert q[0] == p[0];
    StepIs(q);
    EmptyBody();
    assert q[|q|..] == [];
  }

  /** Whole text in front only puts its bytes in front. */
  lemma {:induction false} Whole(p: Bytes, s: Bytes, b: Bytes)
    requires IsBody(p, b)
    ensures StringBody(p + s) == Prepend(b, StringBody(s))
    decreases |p|
  {
    hide Readable, StepLength, StepBytes, StringBody;
    var q := p + "\"";
    if p == [] {
      assert p + s == s && q == "\"";
      QuoteOnly();
      PrependNothing(StringBody(s));
    } else {
      StepInside(p, b);
      StepIs(q);
      var n := StepLength(q);
      assert q[n..] == p[n..] + "\"";
      Whole(p[n..], s, StringBody(q[n..]).bytes);
      StepStays(q, p[n..] + s);
      assert q[..n] + (p[n..] + s) == p + s;
      StepIs(p + s);
      PrependTwice(StepBytes(q), StringBody(q[n..]).bytes, StringBody(s));
    }
  }

  lemma QuoteOnly()
    ensures StringBody("\"") == Text([], [])
  {
  }

  /** A \u escape of the surrogate u that is not the high half of a pair. */
  ghost predicate Unpaired(s: Bytes, u: int) {
    && |s| >= 6 && s[..2] == "\\u" && HexUnit(s[2..6], u) && 0xd800 <= u <= 0xdfff
    && (u <= 0xdbff ==> forall v: int {:trigger HexUnit(s[8..12], v)} ::
          0xdc00 <= v <= 0xdfff ==> !(|s| >= 12 && s[6..8] == "\\u" && HexUnit(s[8..12], v)))
  }

  /** An unpaired surrogate is rejected where it stands, whatever whole text comes before it and whatever follows. */
  lemma UnpairedRejected(p: Bytes, b: Bytes, s: Bytes, u: int)
    requires IsBody(p, b) && Unpaired(s, u)
    ensures StringBody(p + s) == Bad(InvalidUnicodeEscape, |s|)
  {
    hide DecodeHex4, HexUnit, StringBody, UnicodeEscape;
    Whole(p, s, b);
    UnpairedIs(s, u);
    NoEscapeBody(s);
  }

  lemma UnpairedIs(s: Bytes, u: int)
    requires Unpaired(s, u)
    ensures UnicodeEscape(s).NoEscape? && s[0] == '\\' && s[1] == 'u'
  {
    hide DecodeHex4, HexUnit;
    assert s[0] == s[..2][0] && s[1] == s[..2][1];
    Hex4Iff(s, 2, u);
    var low := DecodeHex4(s, 8);
    if low >= 0 {
      Hex4Iff(s, 8, low);
      if |s| >= 12 { assert s[6..8] == [s[6], s[7]]; }
    }
  }

  lemma NoEscapeBody(s: Bytes)
    requires |s| >= 2 && s[0] == '\\' && s[1] == 'u' && UnicodeEscape(s).NoEscape?
    ensures StringBody(s) == Bad(InvalidUnicodeEscape, |s|)
  {
    hide UnicodeEscape, CodepointToUtf8;
  }

  /** Every error is found after whole text, at the first thing that is wrong. */
  lemma {:induction false} ErrorPlace(t: Bytes) returns (b: Bytes)
    requires StringBody(t).Bad?
    ensures var r := StringBody(t);
            r.left <= |t| && IsBody(t[..|t| - r.left], b) && Wrong(t[|t| - r.left..], r.error)
    decreases |t|
  {
    hide Readable, StepLength, StepBytes, StringBody, Wrong;
    var r := StringBody(t);
    StepIs(t);
    QuoteFirst(t);
    if Readable(t) {
      var n := StepLength(t);
      b := ErrorPlace(t[n..]);
      var k := |t| - r.left;
      var p := t[n..][..k - n];
      StepStays(t, p + "\"");
      assert t[..k] + "\"" == t[..n] + (p + "\"") && t[k..] == t[n..][k - n..];
      StepIs(t[..k] + "\"");
      b := StepBytes(t) + b;
    } else {
      QuoteOnly();
      b := [];
      assert t[..0] + "\"" == "\"" && t[0..] == t;
    }
  }

  lemma QuoteFirst(t: Bytes)
    ensures StringBody(t).Bad? ==> Peek(t, 0) != '"'
  {
  }
}
