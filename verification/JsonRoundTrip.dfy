/** What the encoder writes is a text of the grammar, and decoding it gives back what the value denotes. */
module JsonRoundTrip {
  import opened StrBufs
  import opened JsonStrings
  import opened Unicode
  import opened Decimal
  import opened NumberGrammar
  import opened JsonEncoder
  import opened JsonGrammar
  import opened JsonParse
  import opened JsonTokens
  import opened JsonFloats
  import opened LooseNumbers
  import opened JsonTexts
  import opened JsonReading

  ghost predicate DistinctKeys(entries: seq<Entry>) {
    forall i, j :: 0 <= i < j < |entries| ==> entries[i].key != entries[j].key
  }

  /** The keys are 1 to n, in whatever order lua_next gives them. */
  ghost predicate Dense(entries: seq<Entry>) {
    && entries != []
    && (forall e :: e in entries ==> e.key.IntKey? && 1 <= e.key.n <= |entries|)
    && (forall i: int {:trigger IntKey(i)} :: 1 <= i <= |entries| ==> exists e :: e in entries && e.key == IntKey(i))
  }

  // ----- how tables are written -----

  /** Every key is a positive integer, or a float that counts as one. */
  predicate Listed(entries: seq<Entry>) {
    && entries != []
    && forall j :: 0 <= j < |entries| ==>
         var k := entries[j].key; (k.IntKey? && k.n >= 1) || (k.FloatKey? && k.index >= 1)
  }

  /** More holes than the settings allow in an array. */
  predicate Holey(entries: seq<Entry>, cfg: Config) {
    var n := MaxIndex(entries);
    cfg.sparseRatio > 0 && n > |entries| * cfg.sparseRatio && n > cfg.sparseSafe
  }

  lemma ListedShape(entries: seq<Entry>, cfg: Config)
    ensures var shape := ShapeOf(entries, cfg);
            if !Listed(entries) then shape == Object || shape == Array(0)
            else if !Holey(entries, cfg) then shape == Array(MaxIndex(entries)) && shape.n > 0
            else shape == if cfg.sparseConvert then Object else TooSparse
  {
    hide MaxIndex;
    if entries == [] {
      MaxNone(entries);
      assert entries[..0] == entries;
    } else if !Listed(entries) {
      var j :| 0 <= j < |entries| && !IsIndex(entries[j].key);
      assert entries[j] in entries;
    } else {
      assert entries[0] in entries;
      assert forall e :: e in entries ==> IsIndex(e.key);
    }
  }

  lemma DenseShape(entries: seq<Entry>, cfg: Config)
    requires Dense(entries)
    ensures ShapeOf(entries, cfg) == Array(|entries|)
  {
    var n := |entries|;
    var last := IntKey(n);
    var e :| e in entries && e.key == last;
    assert IndexOf(e.key) == n;
    assert MaxIndex(entries) == n;
    if cfg.sparseRatio > 0 { Fold(n, cfg.sparseRatio); }
  }

  lemma Fold(n: nat, r: nat)
    requires r > 0
    ensures n <= n * r
  {
  }

  lemma {:induction false} RawGetAt(entries: seq<Entry>, i: nat)
    requires i < |entries| && DistinctKeys(entries)
    ensures RawGet(entries, entries[i].key) == entries[i].value
  {
    if i > 0 {
      assert entries[0].key != entries[i].key;
      assert entries[1..][i - 1] == entries[i];
      RawGetAt(entries[1..], i - 1);
    }
  }

  // ----- what comes back -----

  /** The name that a key is written as; text without quotes and backslashes stands for itself. */
  predicate HasName(k: Key, mode: InvalidNumbers) {
    match k
    case IntKey(_) => true
    case StrKey(_) => true
    case FloatKey(Finite(text), _) => forall i :: 0 <= i < |text| ==> PieceOk(Plain(text[i]))
    case FloatKey(_, _) => mode != Refuse
    case OtherKey => false
  }

  function NameOf(k: Key, mode: InvalidNumbers): Bytes
    requires HasName(k, mode)
  {
    match k
    case IntKey(n) => IntegerText(n)
    case StrKey(s) => s
    case FloatKey(Finite(text), _) => text
    case FloatKey(NotANumber, _) => if mode == AsNull then "null" else "NaN"
    case FloatKey(Infinite(negative), _) =>
      if mode == AsNull then "null" else if negative then "-Infinity" else "Infinity"
  }

  /** A finite number comes back as what its text denotes. */
  ghost predicate NumberComes(text: Bytes, t: Tree, val: Bytes -> Double) {
    exists x: Json :: (x.JInt? || x.JFloat?) && WellFormed(x) && Flat(x) == text && t == Meaning(x, val)
  }

  /** Elements under their integer keys from 1 to the largest index, null where there is none. */
  ghost predicate ListComes(h: Heap, cfg: Config, entries: seq<Entry>, m: map<Key, Tree>, d: nat, val: Bytes -> Double)
    decreases d, 1
  {
    && (forall k :: k in m ==> k.IntKey? && 1 <= k.n <= MaxIndex(entries))
    && (forall k: int {:trigger IntKey(k)} :: 1 <= k <= MaxIndex(entries) ==>
          IntKey(k) in m && ((forall j :: 0 <= j < |entries| ==> entries[j].key != IntKey(k)) ==> m[IntKey(k)] == Null))
    && (forall j :: 0 <= j < |entries| && entries[j].key.IntKey? ==>
          entries[j].key in m && Comes(h, cfg, entries[j].value, m[entries[j].key], d, val))
  }

  /** Members under their names, no two of which are alike. */
  ghost predicate MembersCome(h: Heap, cfg: Config, entries: seq<Entry>, m: map<Key, Tree>, d: nat,
      val: Bytes -> Double)
    decreases d, 1
  {
    && (forall j :: 0 <= j < |entries| ==> HasName(entries[j].key, cfg.invalidNumbers))
    && (forall i, j :: 0 <= i < j < |entries| ==>
          NameOf(entries[i].key, cfg.invalidNumbers) != NameOf(entries[j].key, cfg.invalidNumbers))
    && (forall k :: k in m ==>
          exists j :: 0 <= j < |entries| && k == StrKey(NameOf(entries[j].key, cfg.invalidNumbers)))
    && (forall j :: 0 <= j < |entries| ==>
          var k := StrKey(NameOf(entries[j].key, cfg.invalidNumbers));
          k in m && Comes(h, cfg, entries[j].value, m[k], d, val))
  }

  /**
   The value v, encoded and decoded, comes back as the tree t, tables at most d deep: integer keys of an object as
   strings, holes of an array as null.
   */
  ghost predicate Comes(h: Heap, cfg: Config, v: Value, t: Tree, d: nat, val: Bytes -> Double)
    decreases d, 0
  {
    match v
    case Nil => t == Null
    case NullPointer => t == Null
    case Boolean(b) => t == Bool(b)
    case Integer(n) => t == Int(n)
    case Str(s) => t == Chars(s)
    case Number(Finite(text)) => NumberComes(text, t, val)
    case Number(_) => cfg.invalidNumbers == AsNull && t == Null
    case Other => false
    case Table(id) =>
      && d > 0 && id in h && t.Node? && DistinctKeys(h[id])
      && if Listed(h[id]) && !Holey(h[id], cfg) then ListComes(h, cfg, h[id], t.m, d - 1, val)
         else (Listed(h[id]) ==> cfg.sparseConvert) && MembersCome(h, cfg, h[id], t.m, d - 1, val)
  }

  // ----- strings and numbers as they are written -----

  /** Exactly the eight bytes that have a letter are written with it, other control characters as \u escapes. */
  lemma EscapeIs(c: Byte)
    ensures forall i :: 0 <= i < 8 && c == LETTER_BYTES[i] ==> Escape(c) == ['\\', LETTERS[i]]
    ensures (forall i :: 0 <= i < 8 ==> c != LETTER_BYTES[i]) ==>
              if (c as int) < 32 || c as int == 127 then EscapeOf(Escape(c), c as int) else Escape(c) == [c]
  {
    hide EscapeOf;
    var n := c as int;
    assert LETTER_BYTES[0] == '"' && LETTER_BYTES[1] == '\\' && LETTER_BYTES[2] == '/' && LETTER_BYTES[3] as int == 8;
    assert LETTER_BYTES[4] as int == 12 && LETTER_BYTES[5] as int == 10 && LETTER_BYTES[6] as int == 13;
    assert LETTER_BYTES[7] as int == 9;
    if (n < 32 || n == 127) && |Char2Escape(c)| == 6 { ControlEscape(c); }
  }

  lemma ControlEscape(c: Byte)
    requires c as int < 128
    ensures EscapeOf("\\u00" + [HexChar(c as int / 16), HexChar(c as int % 16)], c as int)
  {
    var n := c as int;
    var esc := "\\u00" + [HexChar(n / 16), HexChar(n % 16)];
    LowerDigit(n / 16);
    LowerDigit(n % 16);
    assert esc[..2] == "\\u" && esc[2..] == "00" + [HexChar(n / 16), HexChar(n % 16)];
    LowerDigit(0);
    assert IsScalar(n);
  }

  lemma LowerDigit(d: nat)
    requires d < 16
    ensures HexDigitIs(HexChar(d), d)
  {
  }

  /** A string is written as pieces of the grammar. */
  lemma StringWritten(s: Bytes) returns (ps: seq<Piece>)
    ensures PiecesOk(ps) && PiecesText(ps) == EscapeAll(s) && PiecesBytes(ps) == s
  {
    hide EscapeAll, StringBody, PieceOk, PieceText, PieceBytes, PiecesText, PiecesBytes;
    var t := EscapeAll(s) + "\"";
    StringRoundTrip(s, []);
    assert t + [] == t;
    ps := ReadPieces(t);
    assert PiecesText(ps) + "\"" + [] == PiecesText(ps) + "\"";
    assert t[..|t| - 1] == EscapeAll(s) && (PiecesText(ps) + "\"")[..|t| - 1] == PiecesText(ps);
  }

  lemma {:induction false} PlainWritten(s: Bytes) returns (ps: seq<Piece>)
    requires forall i :: 0 <= i < |s| ==> PieceOk(Plain(s[i]))
    ensures PiecesOk(ps) && PiecesText(ps) == s && PiecesBytes(ps) == s
    decreases |s|
  {
    if s == [] {
      ps := [];
    } else {
      var more := PlainWritten(s[1..]);
      ps := [Plain(s[0])] + more;
      assert ps[1..] == more && PieceOk(Plain(s[0]));
      assert [s[0]] + s[1..] == s;
    }
  }

  lemma IntegerWritten(n: int) returns (minus: Bytes, whole: Bytes)
    ensures (minus == "" || minus == "-") && JsonInt(whole) && minus + whole == IntegerText(n)
    ensures IntegerOf(minus, whole) == n
  {
    hide DecimalDigits, RunValue, DigitIn, DigitsVal;
    var m := if n < 0 then -n else n;
    minus, whole := if n < 0 then "-" else "", DecimalDigits(m);
    DigitsShape(m);
    DigitsValue(m);
    DigitsRun(whole);
    OneZero(m);
  }

  lemma OneZero(m: nat)
    ensures DecimalDigits(m)[0] == '0' ==> |DecimalDigits(m)| == 1
  {
    hide DigitIn;
    DigitsShape(m);
  }

  /** And so is the name of a key. */
  lemma KeyWritten(k: Key, mode: InvalidNumbers) returns (ps: seq<Piece>)
    requires HasName(k, mode)
    ensures PiecesOk(ps) && PiecesBytes(ps) == NameOf(k, mode)
    ensures KeyText(k, mode) == JsonEncoder.Ok("\"" + PiecesText(ps) + "\"" + ":")
  {
    hide PiecesOk, PiecesText, PiecesBytes, EscapeAll, IntegerText, PieceOk;
    if k.StrKey? {
      ps := StringWritten(k.s);
    } else {
      if k.IntKey? { IntegerPlain(k.n); }
      WordsPlain();
      ps := PlainWritten(NameOf(k, mode));
      assert "\"" + PiecesText(ps) + "\"" + ":" == "\"" + PiecesText(ps) + "\":";
    }
  }

  lemma IntegerPlain(n: int)
    ensures forall i :: 0 <= i < |IntegerText(n)| ==> PieceOk(Plain(IntegerText(n)[i]))
  {
    hide IntegerText;
    var minus, whole := IntegerWritten(n);
  }

  lemma WordsPlain()
    ensures forall k: Key, mode :: HasName(k, mode) && k.FloatKey? && !k.f.Finite? ==>
              forall i :: 0 <= i < |NameOf(k, mode)| ==> PieceOk(Plain(NameOf(k, mode)[i]))
  {
  }

  // ----- values -----

  /** What is written for a value is the text of a syntax tree that denotes what comes back. */
  lemma {:induction false} ValueWritten(h: Heap, cfg: Config, v: Value, depth: nat, t: Tree, d: nat,
      val: Bytes -> Double)
    returns (x: Json)
    requires Closed(h) && Storable(h, v) && Comes(h, cfg, v, t, d, val) && depth + d <= cfg.maxDepth
    ensures WellFormed(x) && Within(x, d, false) && Meaning(x, val) == t
    ensures ValueText(h, cfg, v, depth) == JsonEncoder.Ok(Flat(x))
    decreases d, 0, 0
  {
    hide StringText, IntegerText, ElementsText, MembersText, ShapeOf, ListComes, MembersCome, JsonInt, JsonExp, Holey;
    hide PointDigits, PiecesOk, PiecesText, PiecesBytes, IntegerOf, EscapeAll, ElementsMap, MembersMap, Closed, Listed;
    match v
    case Nil => x := JNull;
    case NullPointer => x := JNull;
    case Boolean(b) => x := JBool(b);
    case Integer(n) =>
      var minus, whole := IntegerWritten(n);
      x := JInt(minus, whole);
    case Str(s) =>
      var ps := StringWritten(s);
      x := JString(ps);
      assert StringText(s) == Flat(x) by { StringIs(s); }
    case Number(f) =>
      if f.Finite? {
        x :| (x.JInt? || x.JFloat?) && WellFormed(x) && Flat(x) == f.text && t == Meaning(x, val);
      } else {
        x := JNull;
      }
    case Table(id) => x := TableWritten(h, cfg, id, depth, t, d, val);
  }

  lemma StringIs(s: Bytes)
    ensures StringText(s) == "\"" + EscapeAll(s) + "\""
  {
  }

  /** The brackets of a table. */
  lemma TableText(h: Heap, cfg: Config, id: nat, depth: nat)
    requires Closed(h) && id in h && depth + 1 <= cfg.maxDepth
    ensures var r := ValueText(h, cfg, Table(id), depth);
            if Listed(h[id]) && !Holey(h[id], cfg) then
              MaxIndex(h[id]) > 0 && r == Then("[", ElementsText(h, cfg, id, 1, MaxIndex(h[id]), depth + 1))
            else if Listed(h[id]) ==> cfg.sparseConvert then r == Then("{", MembersText(h, cfg, id, 0, depth + 1))
            else r == Err(SparseArray)
  {
    hide ElementsText, MembersText, ShapeOf, Holey, Listed, Closed, MaxIndex;
    ListedShape(h[id], cfg);
  }

  lemma {:induction false} TableWritten(h: Heap, cfg: Config, id: nat, depth: nat, t: Tree, d: nat,
      val: Bytes -> Double)
    returns (x: Json)
    requires Closed(h) && id in h && Comes(h, cfg, Table(id), t, d, val) && depth + d <= cfg.maxDepth
    ensures WellFormed(x) && Within(x, d, false) && Meaning(x, val) == t
    ensures ValueText(h, cfg, Table(id), depth) == JsonEncoder.Ok(Flat(x))
    decreases d - 1, 3, 0
  {
    hide ElementsText, MembersText, ListComes, MembersCome, Holey, ElementsMap, MembersMap, Closed, Listed, ValueText;
    hide FlatElements, FlatMembers, DistinctKeys, MaxIndex;
    TableText(h, cfg, id, depth);
    if Listed(h[id]) && !Holey(h[id], cfg) {
      AllIndices(h, cfg, h[id], t.m, d - 1, val);
      var es := ElementsWritten(h, cfg, id, 1, MaxIndex(h[id]), depth + 1, t.m, d - 1, val);
      x := JArray(es);
      assert Comma(true) + FlatElements(es) == FlatElements(es);
    } else {
      x := ObjectWritten(h, cfg, id, depth + 1, t.m, d - 1, val);
    }
  }

  lemma {:induction false} ObjectWritten(h: Heap, cfg: Config, id: nat, depth: nat, m: map<Key, Tree>, d: nat,
      val: Bytes -> Double)
    returns (x: Json)
    requires Closed(h) && id in h && MembersCome(h, cfg, h[id], m, d, val) && depth + d <= cfg.maxDepth
    ensures WellFormed(x) && Within(x, d + 1, false) && Meaning(x, val) == Node(m)
    ensures Then("{", MembersText(h, cfg, id, 0, depth)) == JsonEncoder.Ok(Flat(x))
    decreases d, 2, 0
  {
    hide MembersText, MembersCome, MembersMap, Closed, FlatMembers, HasName, NameOf;
    if h[id] == [] {
      x := JNoMembers([]);
      NoMembers(h, cfg, id, depth);
      NothingComes(h, cfg, m, d, val);
      assert "{" + "}" == "{" + [] + "}";
    } else {
      AllNames(h, cfg, h[id], m, d, val);
      var ms := MembersWritten(h, cfg, id, 0, depth, m, d, val);
      x := JObject(ms);
      assert Comma(true) + FlatMembers(ms) == FlatMembers(ms);
    }
  }

  lemma NoMembers(h: Heap, cfg: Config, id: nat, depth: nat)
    requires Closed(h) && id in h && h[id] == [] && depth <= cfg.maxDepth
    ensures MembersText(h, cfg, id, 0, depth) == JsonEncoder.Ok("}")
  {
  }

  lemma NothingComes(h: Heap, cfg: Config, m: map<Key, Tree>, d: nat, val: Bytes -> Double)
    requires MembersCome(h, cfg, [], m, d, val)
    ensures m == map[]
  {
  }

  // ----- arrays -----

  /** m restricted to the indices below i. */
  ghost function Below(m: map<Key, Tree>, i: int): map<Key, Tree> {
    map k | k in m && k.IntKey? && k.n < i :: m[k]
  }

  lemma BelowStep(m: map<Key, Tree>, i: nat)
    requires IntKey(i) in m
    ensures Below(m, i + 1) == Below(m, i)[IntKey(i) := m[IntKey(i)]]
  {
  }

  lemma AllIndices(h: Heap, cfg: Config, entries: seq<Entry>, m: map<Key, Tree>, d: nat, val: Bytes -> Double)
    requires ListComes(h, cfg, entries, m, d, val)
    ensures Below(m, 1) == map[] && Below(m, MaxIndex(entries) + 1) == m
  {
    hide Comes, MaxIndex;
  }

  lemma {:induction false} RawGetNone(entries: seq<Entry>, k: Key)
    requires forall j :: 0 <= j < |entries| ==> entries[j].key != k
    ensures RawGet(entries, k) == Nil
  {
    if entries != [] {
      assert entries[0].key != k;
      assert forall j :: 0 <= j < |entries[1..]| ==> entries[1..][j] == entries[j + 1];
      RawGetNone(entries[1..], k);
    }
  }

  /** What lua_rawgeti finds, or nil. */
  lemma ElementComes(h: Heap, cfg: Config, entries: seq<Entry>, m: map<Key, Tree>, d: nat, val: Bytes -> Double, i: nat)
    requires ListComes(h, cfg, entries, m, d, val) && 1 <= i <= MaxIndex(entries) && DistinctKeys(entries)
    ensures IntKey(i) in m && Comes(h, cfg, RawGet(entries, IntKey(i)), m[IntKey(i)], d, val)
  {
    hide MaxIndex, RawGet;
    var k: int := i;
    assert IntKey(k) in m;
    if j :| 0 <= j < |entries| && entries[j].key == IntKey(k) {
      RawGetAt(entries, j);
    } else {
      RawGetNone(entries, IntKey(k));
    }
  }

  lemma {:induction false} ElementsWritten(h: Heap, cfg: Config, id: nat, i: nat, n: nat, depth: nat, m: map<Key, Tree>,
      d: nat, val: Bytes -> Double)
    returns (es: Elements)
    requires Closed(h) && id in h && DistinctKeys(h[id]) && ListComes(h, cfg, h[id], m, d, val)
    requires 1 <= i <= n == MaxIndex(h[id]) && depth + d <= cfg.maxDepth
    ensures ElementsOk(es) && ElementsWithin(es, d, false) && ElementsMap(es, val, Below(m, i), i) == Below(m, n + 1)
    ensures ElementsText(h, cfg, id, i, n, depth) == JsonEncoder.Ok(Comma(i == 1) + FlatElements(es))
    decreases d, 1, n - i
  {
    hide ListComes, Comes, Closed, DistinctKeys, MaxIndex, RawGet, ValueText, Meaning, Flat, WellFormed, Within, Below;
    hide ElementsText;
    ElementComes(h, cfg, h[id], m, d, val, i);
    ClosedElement(h, id, IntKey(i));
    var x := ValueWritten(h, cfg, RawGet(h[id], IntKey(i)), depth, m[IntKey(i)], d, val);
    BelowStep(m, i);
    var tail: Bytes;
    if i == n {
      es := LastElement([], x, []);
      tail := "]";
    } else {
      var more := ElementsWritten(h, cfg, id, i + 1, n, depth, m, d, val);
      es := Element([], x, [], more);
      tail := "," + FlatElements(more);
    }
    assert FlatElements(es) == Flat(x) + tail by { assert [] + Flat(x) + [] + tail == Flat(x) + tail; }
    ElementsUnfold(h, cfg, id, i, n, depth, Flat(x), tail);
  }

  lemma ElementsUnfold(h: Heap, cfg: Config, id: nat, i: nat, n: nat, depth: nat, text: Bytes, tail: Bytes)
    requires Closed(h) && id in h && 1 <= i <= n && depth <= cfg.maxDepth && Storable(h, RawGet(h[id], IntKey(i)))
    requires ValueText(h, cfg, RawGet(h[id], IntKey(i)), depth) == JsonEncoder.Ok(text)
    requires if i == n then tail == "]" else ElementsText(h, cfg, id, i + 1, n, depth) == JsonEncoder.Ok(tail)
    ensures ElementsText(h, cfg, id, i, n, depth) == JsonEncoder.Ok(Comma(i == 1) + (text + tail))
  {
    hide ValueText;
    assert Comma(i == 1) + text + tail == Comma(i == 1) + (text + tail);
  }

  // ----- objects -----

  /** m restricted to the names of the first i entries. */
  ghost function Before(m: map<Key, Tree>, entries: seq<Entry>, mode: InvalidNumbers, i: nat): map<Key, Tree>
    requires i <= |entries| && forall j :: 0 <= j < |entries| ==> HasName(entries[j].key, mode)
  {
    map k | k in m && exists j :: 0 <= j < i && k == StrKey(NameOf(entries[j].key, mode)) :: m[k]
  }

  lemma BeforeStep(m: map<Key, Tree>, entries: seq<Entry>, mode: InvalidNumbers, i: nat)
    requires i < |entries| && forall j :: 0 <= j < |entries| ==> HasName(entries[j].key, mode)
    requires StrKey(NameOf(entries[i].key, mode)) in m
    ensures var k := StrKey(NameOf(entries[i].key, mode));
            Before(m, entries, mode, i + 1) == Before(m, entries, mode, i)[k := m[k]]
  {
    hide NameOf, HasName;
  }

  lemma AllNames(h: Heap, cfg: Config, entries: seq<Entry>, m: map<Key, Tree>, d: nat, val: Bytes -> Double)
    requires MembersCome(h, cfg, entries, m, d, val)
    ensures forall j :: 0 <= j < |entries| ==> HasName(entries[j].key, cfg.invalidNumbers)
    ensures Before(m, entries, cfg.invalidNumbers, 0) == map[]
    ensures Before(m, entries, cfg.invalidNumbers, |entries|) == m
  {
    hide Comes, NameOf, HasName;
  }

  lemma {:induction false} MembersWritten(h: Heap, cfg: Config, id: nat, i: nat, depth: nat, m: map<Key, Tree>, d: nat,
      val: Bytes -> Double)
    returns (ms: Members)
    requires Closed(h) && id in h && MembersCome(h, cfg, h[id], m, d, val) && i < |h[id]| && depth + d <= cfg.maxDepth
    ensures forall j :: 0 <= j < |h[id]| ==> HasName(h[id][j].key, cfg.invalidNumbers)
    ensures MembersOk(ms) && MembersWithin(ms, d, false)
    ensures MembersMap(ms, val, Before(m, h[id], cfg.invalidNumbers, i)) ==
            Before(m, h[id], cfg.invalidNumbers, |h[id]|)
    ensures MembersText(h, cfg, id, i, depth) == JsonEncoder.Ok(Comma(i == 0) + FlatMembers(ms))
    decreases d, 1, |h[id]| - i
  {
    hide MembersCome, Comes, Closed, ValueText, Meaning, Flat, WellFormed, Within, Before, NameOf, HasName, KeyText;
    hide MembersText, PiecesOk, PiecesText, PiecesBytes;
    var entries, mode := h[id], cfg.invalidNumbers;
    MemberComes(h, cfg, entries, m, d, val, i);
    AllNames(h, cfg, entries, m, d, val);
    EntryStored(h, id, i);
    var k := StrKey(NameOf(entries[i].key, mode));
    var x := ValueWritten(h, cfg, entries[i].value, depth, m[k], d, val);
    var name := KeyWritten(entries[i].key, mode);
    BeforeStep(m, entries, mode, i);
    var tail: Bytes;
    if i + 1 == |entries| {
      ms := LastMember([], name, [], [], x, []);
      tail := "}";
    } else {
      var more := MembersWritten(h, cfg, id, i + 1, depth, m, d, val);
      ms := Member([], name, [], [], x, [], more);
      tail := "," + FlatMembers(more);
    }
    var quoted := "\"" + PiecesText(name) + "\"";
    assert FlatMembers(ms) == quoted + ":" + Flat(x) + tail by { NoGaps(quoted, Flat(x), tail); }
    MembersUnfold(h, cfg, id, i, depth, quoted + ":", Flat(x), tail);
  }

  lemma NoGaps(quoted: Bytes, text: Bytes, tail: Bytes)
    ensures [] + quoted + [] + ":" + [] + text + [] + tail == quoted + ":" + text + tail
  {
    assert [] + quoted + [] == quoted;
    assert quoted + ":" + [] + text + [] == quoted + ":" + text;
  }

  lemma MemberComes(h: Heap, cfg: Config, entries: seq<Entry>, m: map<Key, Tree>, d: nat, val: Bytes -> Double, i: nat)
    requires MembersCome(h, cfg, entries, m, d, val) && i < |entries|
    ensures HasName(entries[i].key, cfg.invalidNumbers)
    ensures var k := StrKey(NameOf(entries[i].key, cfg.invalidNumbers));
            k in m && Comes(h, cfg, entries[i].value, m[k], d, val)
  {
    hide Comes, NameOf, HasName;
  }

  lemma EntryStored(h: Heap, id: nat, i: nat)
    requires Closed(h) && id in h && i < |h[id]|
    ensures Storable(h, h[id][i].value)
  {
  }

  lemma MembersUnfold(h: Heap, cfg: Config, id: nat, i: nat, depth: nat, key: Bytes, text: Bytes, tail: Bytes)
    requires Closed(h) && id in h && i < |h[id]| && depth <= cfg.maxDepth && Storable(h, h[id][i].value)
    requires KeyText(h[id][i].key, cfg.invalidNumbers) == JsonEncoder.Ok(key)
    requires ValueText(h, cfg, h[id][i].value, depth) == JsonEncoder.Ok(text)
    requires if i + 1 == |h[id]| then tail == "}" else MembersText(h, cfg, id, i + 1, depth) == JsonEncoder.Ok(tail)
    ensures MembersText(h, cfg, id, i, depth) == JsonEncoder.Ok(Comma(i == 0) + (key + text + tail))
  {
    hide ValueText, KeyText;
    assert Comma(i == 0) + (key + text) + tail == Comma(i == 0) + (key + text + tail);
  }

  // ----- the whole trip -----

  /** Decoding the encoding gives back what comes back. */
  lemma RoundTrip(h: Heap, cfg: Config, v: Value, dcfg: DecodeConfig, t: Tree, d: nat, val: Bytes -> Double)
    requires Closed(h) && Storable(h, v) && Comes(h, cfg, v, t, d, val) && Reads(dcfg, val)
    requires d <= cfg.maxDepth && d <= dcfg.maxDepth
    ensures var r := ValueText(h, cfg, v, 0); r.Ok? && Decode(r.text, dcfg) == Decoded(t)
  {
    hide ValueText, Comes, Decode, Reads, Closed;
    var x := SpacedTrip(h, cfg, v, dcfg, t, d, val);
    AlikeSelf(x);
    var none: Bytes := [];
    assert White(none) && Alike(x, x) && Decode(none + Flat(x) + none, dcfg) == Decoded(t);
    assert none + Flat(x) + none == Flat(x);
  }

  /** y is x with other gaps. */
  predicate Alike(x: Json, y: Json) {
    match x
    case JNoElements(_) => y.JNoElements?
    case JArray(es) => y.JArray? && ElementsAlike(es, y.es)
    case JNoMembers(_) => y.JNoMembers?
    case JObject(ms) => y.JObject? && MembersAlike(ms, y.ms)
    case _ => x == y
  }

  predicate ElementsAlike(es: Elements, fs: Elements) {
    && es.Element? == fs.Element? && Alike(es.x, fs.x)
    && (es.Element? && fs.Element? ==> ElementsAlike(es.es, fs.es))
  }

  predicate MembersAlike(ms: Members, ns: Members) {
    && ms.Member? == ns.Member? && ms.name == ns.name && Alike(ms.x, ns.x)
    && (ms.Member? && ns.Member? ==> MembersAlike(ms.ms, ns.ms))
  }

  lemma {:induction false} AlikeSelf(x: Json)
    ensures Alike(x, x)
    decreases x
  {
    match x
    case JArray(es) => ElementsAlikeSelf(es);
    case JObject(ms) => MembersAlikeSelf(ms);
    case _ =>
  }

  lemma {:induction false} ElementsAlikeSelf(es: Elements)
    ensures ElementsAlike(es, es)
    decreases es
  {
    AlikeSelf(es.x);
    if es.Element? { ElementsAlikeSelf(es.es); }
  }

  lemma {:induction false} MembersAlikeSelf(ms: Members)
    ensures MembersAlike(ms, ms)
    decreases ms
  {
    AlikeSelf(ms.x);
    if ms.Member? { MembersAlikeSelf(ms.ms); }
  }

  /** Gaps do not matter. */
  lemma {:induction false} AlikeMeaning(x: Json, y: Json, val: Bytes -> Double, d: nat)
    requires Alike(x, y) && WellFormed(x) && WellFormed(y)
    ensures Meaning(x, val) == Meaning(y, val) && (Within(x, d, false) ==> Within(y, d, false))
    decreases x
  {
    hide PiecesBytes, PiecesOk, JsonInt, JsonExp, PointDigits, White, IntegerOf, ElementsMap, MembersMap, To64;
    var e: nat := if d > 0 then d - 1 else 0;
    match x
    case JArray(es) => ElementsAlikeMap(es, y.es, val, map[], 1, e);
    case JObject(ms) => MembersAlikeMap(ms, y.ms, val, map[], e);
    case _ =>
  }

  lemma {:induction false} ElementsAlikeMap(es: Elements, fs: Elements, val: Bytes -> Double, m: map<Key, Tree>, i: nat,
      d: nat)
    requires ElementsAlike(es, fs) && ElementsOk(es) && ElementsOk(fs)
    ensures ElementsMap(es, val, m, i) == ElementsMap(fs, val, m, i)
    ensures ElementsWithin(es, d, false) ==> ElementsWithin(fs, d, false)
    decreases es
  {
    hide Meaning, White, WellFormed, Alike, Within;
    AlikeMeaning(es.x, fs.x, val, d);
    if es.Element? { ElementsAlikeMap(es.es, fs.es, val, m[IntKey(i) := Meaning(es.x, val)], i + 1, d); }
  }

  lemma {:induction false} MembersAlikeMap(ms: Members, ns: Members, val: Bytes -> Double, m: map<Key, Tree>, d: nat)
    requires MembersAlike(ms, ns) && MembersOk(ms) && MembersOk(ns)
    ensures MembersMap(ms, val, m) == MembersMap(ns, val, m)
    ensures MembersWithin(ms, d, false) ==> MembersWithin(ns, d, false)
    decreases ms
  {
    hide Meaning, White, WellFormed, Alike, Within, PiecesBytes, PiecesOk;
    AlikeMeaning(ms.x, ns.x, val, d);
    if ms.Member? { MembersAlikeMap(ms.ms, ns.ms, val, m[StrKey(PiecesBytes(ms.name)) := Meaning(ms.x, val)], d); }
  }

  /** The encoded text, with whatever white space put between its tokens and around them, decodes to the same tree. */
  lemma SpacedTrip(h: Heap, cfg: Config, v: Value, dcfg: DecodeConfig, t: Tree, d: nat, val: Bytes -> Double)
    returns (x: Json)
    requires Closed(h) && Storable(h, v) && Comes(h, cfg, v, t, d, val) && Reads(dcfg, val)
    requires d <= cfg.maxDepth && d <= dcfg.maxDepth
    ensures WellFormed(x) && ValueText(h, cfg, v, 0) == JsonEncoder.Ok(Flat(x))
    ensures forall w, y, w2 :: White(w) && White(w2) && WellFormed(y) && Alike(x, y) ==>
              Decode(w + Flat(y) + w2, dcfg) == Decoded(t)
  {
    hide ValueText, Comes, Decode, Reads, Closed, Flat, Meaning, Within, Alike, WellFormed, White;
    x := ValueWritten(h, cfg, v, 0, t, d, val);
    forall w, y, w2 | White(w) && White(w2) && WellFormed(y) && Alike(x, y)
      ensures Decode(w + Flat(y) + w2, dcfg) == Decoded(t)
    {
      AlikeMeaning(x, y, val, d);
      WithinMore(y, d, dcfg.maxDepth, false, dcfg.invalidNumbers);
      var s := w + Flat(y) + w2;
      assert s == s + [];
      TextDecodes(s, w, y, w2, [], dcfg, val);
    }
  }

  /** Any number of the grammar is the text of a number that comes back. */
  lemma NumberSpelled(text: Bytes, val: Bytes -> Double) returns (t: Tree)
    requires JsonNumber(text)
    ensures NumberComes(text, t, val)
  {
    hide JsonNumber, JsonInt, JsonFrac, JsonExp, PointDigits;
    var minus, whole, frac, exp := PartsOf(text);
    var x;
    if frac + exp == [] {
      x := JInt(minus, whole);
      assert text == minus + whole;
    } else {
      FracPoint(frac);
      x := JFloat(minus, whole, frac, exp);
      assert text == minus + whole + (frac + exp);
    }
    t := Meaning(x, val);
    assert NumberComes(text, t, val);
  }

  /** A table with one large integer key, where sparse arrays are written as objects. */
  lemma SparseObject(h: Heap, cfg: Config)
    requires h == map[0 := [Entry(IntKey(1001), Boolean(true))]]
    requires cfg.sparseConvert && cfg.sparseRatio == 1 && cfg.sparseSafe == 1 && cfg.maxDepth > 0
    ensures Closed(h) && ValueText(h, cfg, Table(0), 0) == JsonEncoder.Ok("{\"1001\":true}")
  {
    hide IntegerText, MaxIndex, ValueText, MembersText, ElementsText;
    var entries := h[0];
    assert entries[0].key.n == 1001;
    MaxNone(entries);
    MaxSnoc(entries, 0);
    assert entries[..1] == entries;
    TableText(h, cfg, 0, 0);
    OneMember(h, cfg);
  }

  lemma OneMember(h: Heap, cfg: Config)
    requires h == map[0 := [Entry(IntKey(1001), Boolean(true))]] && Closed(h) && cfg.maxDepth > 0
    ensures MembersText(h, cfg, 0, 0, 1) == JsonEncoder.Ok("\"1001\":true}")
  {
    hide IntegerText, ValueText, KeyText;
    Digits1001();
    assert KeyText(IntKey(1001), cfg.invalidNumbers) == JsonEncoder.Ok("\"1001\":") by { KeyOf(cfg.invalidNumbers); }
    LastEntry(h, cfg);
    TrueText(h, cfg);
    MembersUnfold(h, cfg, 0, 0, 1, "\"1001\":", "true", "}");
  }

  lemma TrueText(h: Heap, cfg: Config)
    requires Closed(h)
    ensures ValueText(h, cfg, Boolean(true), 1) == JsonEncoder.Ok("true")
  {
  }

  lemma LastEntry(h: Heap, cfg: Config)
    requires Closed(h) && 0 in h && |h[0]| == 1 && cfg.maxDepth > 0
    ensures MembersText(h, cfg, 0, 1, 1) == JsonEncoder.Ok("}")
  {
  }

  lemma KeyOf(mode: InvalidNumbers)
    requires IntegerText(1001) == "1001"
    ensures KeyText(IntKey(1001), mode) == JsonEncoder.Ok("\"1001\":")
  {
    hide IntegerText;
  }

  lemma Digits1001()
    ensures IntegerText(1001) == "1001"
  {
    assert DecimalDigits(1) == "1" && DecimalDigits(10) == "10" && DecimalDigits(100) == "100";
  }
}
