/**
 JSON text by its grammar (section 2 of RFC 4627) and what it denotes, apart from the decoder: a text is the
 flattening of a syntax tree.
 */
module JsonTexts {
  import opened StrBufs
  import opened JsonStrings
  import opened Unicode
  import opened Decimal
  import opened NumberGrammar
  import opened JsonEncoder
  import opened JsonGrammar
  import opened JsonParse
  import opened JsonTokens
  import opened JsonFloats
  import opened LooseNumbers
  import S = Scanner

  // ----- strings -----

  /** A byte as it is, a backslash and a letter, or a \u escape. */
  datatype Piece = Plain(c: Byte) | Letter(i: nat) | Escaped(n: Scalar, esc: Bytes)

  const LETTERS: Bytes := "\"\\/bfnrt"

  /** Quote, backslash, slash, backspace, form feed, line feed, carriage return, tab. */
  const LETTER_BYTES: Bytes := ['"', '\\', '/', 8 as char, 12 as char, 10 as char, 13 as char, 9 as char]

  /** Beyond the standard the code takes control characters other than NUL as they are. */
  predicate PieceOk(p: Piece) {
    match p
    case Plain(c) => c != '"' && c != '\\' && c != '\0'
    case Letter(i) => i < 8
    case Escaped(n, esc) => EscapeOf(esc, n)
  }

  function PieceText(p: Piece): Bytes
    requires PieceOk(p)
  {
    match p
    case Plain(c) => [c]
    case Letter(i) => ['\\', LETTERS[i]]
    case Escaped(_, esc) => esc
  }

  function PieceBytes(p: Piece): Bytes
    requires PieceOk(p)
  {
    match p
    case Plain(c) => [c]
    case Letter(i) => [LETTER_BYTES[i]]
    case Escaped(n, _) => CodepointToUtf8(n)
  }

  predicate PiecesOk(ps: seq<Piece>) { forall i :: 0 <= i < |ps| ==> PieceOk(ps[i]) }

  function PiecesText(ps: seq<Piece>): Bytes
    requires PiecesOk(ps)
  {
    if ps == [] then [] else PieceText(ps[0]) + PiecesText(ps[1..])
  }

  function PiecesBytes(ps: seq<Piece>): Bytes
    requires PiecesOk(ps)
  {
    if ps == [] then [] else PieceBytes(ps[0]) + PiecesBytes(ps[1..])
  }

  lemma LetterRead(i: nat)
    requires i < 8
    ensures Escape2Char(LETTERS[i]) == LETTER_BYTES[i] && LETTERS[i] != 'u' && LETTER_BYTES[i] != '\0'
  {
  }

  lemma LetterKnown(c: Byte) returns (i: nat)
    requires Escape2Char(c) != '\0' && c != 'u'
    ensures i < 8 && LETTERS[i] == c && LETTER_BYTES[i] == Escape2Char(c)
  {
    i := match c
         case '"' => 0 case '\\' => 1 case '/' => 2 case 'b' => 3 case 'f' => 4 case 'n' => 5 case 'r' => 6 case _ => 7;
  }

  lemma PieceRead(p: Piece, t: Bytes)
    requires PieceOk(p)
    ensures StringBody(PieceText(p) + t) == Prepend(PieceBytes(p), StringBody(t))
  {
    hide CodepointToUtf8, UnicodeEscape, EscapeOf, Escape2Char;
    var s := PieceText(p) + t;
    match p
    case Plain(c) => assert s[1..] == t;
    case Letter(i) =>
      LetterRead(i);
      assert s[2..] == t && s[1] == LETTERS[i];
    case Escaped(n, esc) => ScalarDecodes(n, esc, t);
  }

  lemma {:induction false} PiecesRead(ps: seq<Piece>, rest: Bytes)
    requires PiecesOk(ps)
    ensures StringBody(PiecesText(ps) + "\"" + rest) == Text(PiecesBytes(ps), rest)
    decreases |ps|
  {
    hide PieceText, PieceBytes, PieceOk;
    if ps == [] {
      assert PiecesText(ps) + "\"" + rest == "\"" + rest;
      assert ("\"" + rest)[1..] == rest;
    } else {
      var more := PiecesText(ps[1..]) + "\"" + rest;
      assert PiecesText(ps) + "\"" + rest == PieceText(ps[0]) + more;
      PieceRead(ps[0], more);
      PiecesRead(ps[1..], rest);
    }
  }

  lemma FirstPiece(s: Bytes) returns (p: Piece)
    requires Readable(s)
    ensures PieceOk(p) && PieceText(p) == s[..StepLength(s)] && PieceBytes(p) == StepBytes(s)
  {
    hide CodepointToUtf8, UnicodeEscape, Escape2Char, EscapeOf;
    if s[0] != '\\' {
      p := Plain(s[0]);
    } else if s[1] != 'u' {
      var i := LetterKnown(s[1]);
      p := Letter(i);
      assert s[..2] == [s[0], s[1]];
    } else {
      var r := UnicodeEscape(s);
      assert s[..2] == "\\u";
      UnicodeEscapeIff(s, r.n, r.len);
      ScalarHere(s[..r.len], r.n);
      p := Escaped(r.n, s[..r.len]);
    }
  }

  lemma ScalarHere(esc: Bytes, n: nat)
    requires EscapeOf(esc, n)
    ensures IsScalar(n)
  {
  }

  /** Whatever the string reader accepts is made of such pieces. */
  lemma {:induction false} ReadPieces(s: Bytes) returns (ps: seq<Piece>)
    requires StringBody(s).Text?
    ensures PiecesOk(ps) && s == PiecesText(ps) + "\"" + StringBody(s).rest && StringBody(s).bytes == PiecesBytes(ps)
    decreases |s|
  {
    hide Readable, StepLength, StepBytes, StringBody, PieceText, PieceBytes, PieceOk;
    StepIs(s);
    if Readable(s) {
      var n := StepLength(s);
      var p := FirstPiece(s);
      var more := ReadPieces(s[n..]);
      ps := [p] + more;
      assert ps[1..] == more;
      assert s == s[..n] + s[n..];
      assert s == PiecesText(ps) + "\"" + StringBody(s).rest;
    } else {
      QuoteHere(s);
      ps := [];
      assert s == "\"" + s[1..];
    }
  }

  lemma QuoteHere(s: Bytes)
    requires StringBody(s).Text? && !Readable(s)
    ensures Peek(s, 0) == '"' && StringBody(s) == Text([], s[1..])
  {
    hide UnicodeEscape, CodepointToUtf8;
    StepIs(s);
  }

  // ----- syntax trees -----

  /** A value as it is written; the gaps are white space. */
  datatype Json =
    | JNull
    | JBool(b: bool)
    | JInt(minus: Bytes, whole: Bytes)
    | JFloat(minus: Bytes, whole: Bytes, frac: Bytes, exp: Bytes)
    | JLoose(n: Loose)
    | JString(ps: seq<Piece>)
    | JNoElements(gap: Bytes)
    | JArray(es: Elements)
    | JNoMembers(gap: Bytes)
    | JObject(ms: Members)

  datatype Elements =
    | LastElement(before: Bytes, x: Json, after: Bytes)
    | Element(before: Bytes, x: Json, after: Bytes, es: Elements)

  datatype Members =
    | LastMember(before: Bytes, name: seq<Piece>, gap: Bytes, gap2: Bytes, x: Json, after: Bytes)
    | Member(before: Bytes, name: seq<Piece>, gap: Bytes, gap2: Bytes, x: Json, after: Bytes, ms: Members)

  /** Numbers are those of the grammar, those whose point no digit follows, and the loose ones. */
  predicate WellFormed(x: Json) {
    match x
    case JInt(minus, whole) => (minus == "" || minus == "-") && JsonInt(whole)
    case JFloat(minus, whole, frac, exp) =>
      (minus == "" || minus == "-") && JsonInt(whole) && PointDigits(frac) && JsonExp(exp) && frac + exp != []
    case JLoose(n) => LooseOk(n)
    case JString(ps) => PiecesOk(ps)
    case JNoElements(gap) => White(gap)
    case JArray(es) => ElementsOk(es)
    case JNoMembers(gap) => White(gap)
    case JObject(ms) => MembersOk(ms)
    case _ => true
  }

  predicate ElementsOk(es: Elements) {
    White(es.before) && WellFormed(es.x) && White(es.after) && (es.Element? ==> ElementsOk(es.es))
  }

  predicate MembersOk(ms: Members) {
    && White(ms.before) && PiecesOk(ms.name) && White(ms.gap) && White(ms.gap2) && WellFormed(ms.x) && White(ms.after)
    && (ms.Member? ==> MembersOk(ms.ms))
  }

  function Flat(x: Json): Bytes
    requires WellFormed(x)
  {
    match x
    case JNull => "null"
    case JBool(b) => if b then "true" else "false"
    case JInt(minus, whole) => minus + whole
    case JFloat(minus, whole, frac, exp) => minus + whole + (frac + exp)
    case JLoose(n) => LooseText(n)
    case JString(ps) => "\"" + PiecesText(ps) + "\""
    case JNoElements(gap) => "[" + gap + "]"
    case JArray(es) => "[" + FlatElements(es)
    case JNoMembers(gap) => "{" + gap + "}"
    case JObject(ms) => "{" + FlatMembers(ms)
  }

  function FlatElements(es: Elements): Bytes
    requires ElementsOk(es)
  {
    es.before + Flat(es.x) + es.after + (if es.LastElement? then "]" else "," + FlatElements(es.es))
  }

  function FlatMembers(ms: Members): Bytes
    requires MembersOk(ms)
  {
    ms.before + ("\"" + PiecesText(ms.name) + "\"") + ms.gap + ":" + ms.gap2 + Flat(ms.x) + ms.after
    + (if ms.LastMember? then "}" else "," + FlatMembers(ms.ms))
  }

  function IntegerOf(minus: Bytes, whole: Bytes): int {
    if minus == "-" then -DigitsVal(whole) else DigitsVal(whole)
  }

  /**
   What a value denotes, val telling what double a text is read as. Arrays count from one, and of members with the
   same name the last one stays.
   */
  function Meaning(x: Json, val: Bytes -> Double): Tree
    requires WellFormed(x)
  {
    match x
    case JNull => Null
    case JBool(b) => Bool(b)
    case JInt(minus, whole) => Int(To64(IntegerOf(minus, whole)))
    case JFloat(minus, whole, frac, exp) => Real(val(minus + whole + (frac + exp)))
    case JLoose(n) => if n.Based? then Int(LooseInteger(n)) else Real(val(LooseText(n)))
    case JString(ps) => Chars(PiecesBytes(ps))
    case JNoElements(_) => Node(map[])
    case JArray(es) => Node(ElementsMap(es, val, map[], 1))
    case JNoMembers(_) => Node(map[])
    case JObject(ms) => Node(MembersMap(ms, val, map[]))
  }

  function ElementsMap(es: Elements, val: Bytes -> Double, m: map<Key, Tree>, i: nat): map<Key, Tree>
    requires ElementsOk(es)
  {
    var m1 := m[IntKey(i) := Meaning(es.x, val)];
    if es.LastElement? then m1 else ElementsMap(es.es, val, m1, i + 1)
  }

  function MembersMap(ms: Members, val: Bytes -> Double, m: map<Key, Tree>): map<Key, Tree>
    requires MembersOk(ms)
  {
    var m1 := m[StrKey(PiecesBytes(ms.name)) := Meaning(ms.x, val)];
    if ms.LastMember? then m1 else MembersMap(ms.ms, val, m1)
  }

  /** The tables nest at most d deep, and numbers beyond the grammar occur only if allowed. */
  predicate Within(x: Json, d: nat, loose: bool)
    decreases x
  {
    match x
    case JLoose(_) => loose
    case JNoElements(_) => d > 0
    case JArray(es) => d > 0 && ElementsWithin(es, d - 1, loose)
    case JNoMembers(_) => d > 0
    case JObject(ms) => d > 0 && MembersWithin(ms, d - 1, loose)
    case _ => true
  }

  predicate ElementsWithin(es: Elements, d: nat, loose: bool)
    decreases es
  {
    Within(es.x, d, loose) && (es.Element? ==> ElementsWithin(es.es, d, loose))
  }

  predicate MembersWithin(ms: Members, d: nat, loose: bool)
    decreases ms
  {
    Within(ms.x, d, loose) && (ms.Member? ==> MembersWithin(ms.ms, d, loose))
  }

  lemma {:induction false} WithinMore(x: Json, d: nat, e: nat, a: bool, b: bool)
    requires Within(x, d, a) && d <= e && (a ==> b)
    ensures Within(x, e, b)
    decreases x
  {
    match x
    case JArray(es) => ElementsWithinMore(es, d - 1, e - 1, a, b);
    case JObject(ms) => MembersWithinMore(ms, d - 1, e - 1, a, b);
    case _ =>
  }

  lemma {:induction false} ElementsWithinMore(es: Elements, d: nat, e: nat, a: bool, b: bool)
    requires ElementsWithin(es, d, a) && d <= e && (a ==> b)
    ensures ElementsWithin(es, e, b)
    decreases es
  {
    WithinMore(es.x, d, e, a, b);
    if es.Element? { ElementsWithinMore(es.es, d, e, a, b); }
  }

  lemma {:induction false} MembersWithinMore(ms: Members, d: nat, e: nat, a: bool, b: bool)
    requires MembersWithin(ms, d, a) && d <= e && (a ==> b)
    ensures MembersWithin(ms, e, b)
    decreases ms
  {
    WithinMore(ms.x, d, e, a, b);
    if ms.Member? { MembersWithinMore(ms.ms, d, e, a, b); }
  }
}
