/**
 The encoder of lua_cjson.c: Lua values over a heap of tables, the text they are given, and
 the methods that append it to a StrBuf.
 */
module JsonEncoder {
  import opened Arith
  import opened StrBufs
  import opened JsonStrings

  predicate InInt64(n: int) { -0x8000_0000_0000_0000 <= n < 0x8000_0000_0000_0000 }

  type Int64 = n: int | InInt64(n)

  /** A Lua float. The text that fpconv_g_fmt gives a finite one comes with it. */
  datatype Float = Finite(text: Bytes) | NotANumber | Infinite(negative: bool)

  /**
   A table key. Lua turns float keys that fit a 64-bit integer into integers; the others stay floats.
   Infinity and integral floats beyond that range are indices to lua_array_length as well: index is what
   its conversion to an integer makes of one that is at least 1, and 0 for every other float.
   */
  datatype Key = IntKey(n: int) | FloatKey(f: Float, index: nat) | StrKey(s: Bytes) | OtherKey

  /** A Lua value; NullPointer is the light userdata that stands for JSON's null. */
  datatype Value =
    | Nil | Boolean(b: bool) | Integer(n: Int64) | Number(f: Float) | Str(s: Bytes) | Table(id: nat) | NullPointer
    | Other

  datatype Entry = Entry(key: Key, value: Value)

  /** The entries of every table, in the order in which lua_next visits them; tables may be cyclic. */
  type Heap = map<nat, seq<Entry>>

  predicate InHeap(h: Heap, v: Value) { v.Table? ==> v.id in h }

  ghost predicate Closed(h: Heap) {
    forall id, i :: id in h && 0 <= i < |h[id]| ==> InHeap(h, h[id][i].value) && ShortNumber(h[id][i])
  }

  const FPCONV_G_FMT_BUFSIZE := 32

  /** A number's text fits the space reserved for it. */
  predicate Fits(f: Float) { f.Finite? ==> |f.text| < FPCONV_G_FMT_BUFSIZE }

  predicate ShortNumber(e: Entry) {
    (e.key.IntKey? ==> InInt64(e.key.n)) && (e.key.FloatKey? ==> Fits(e.key.f)) && (e.value.Number? ==> Fits(e.value.f))
  }

  datatype InvalidNumbers = Refuse | Names | AsNull

  datatype Config = Config(sparseConvert: bool, sparseRatio: nat, sparseSafe: nat, maxDepth: nat,
      invalidNumbers: InvalidNumbers)

  datatype Error = ExcessiveNesting(depth: nat) | SparseArray | BadKey | UnsupportedType | NanOrInfinity

  datatype Encoded = Ok(text: Bytes) | Err(error: Error)

  /** t followed by what r wrote. */
  function Then(t: Bytes, r: Encoded): Encoded {
    match r
    case Ok(u) => Ok(t + u)
    case Err(_) => r
  }

  /** How an append ends: an error leaves by longjmp. */
  datatype Status = Done | Stopped(error: Error)

  /** The status and the buffer agree with the specified text. */
  ghost predicate Wrote(st: Status, spec: Encoded, before: Bytes, after: Bytes) {
    match spec
    case Ok(text) => st == Done && after == before + text
    case Err(e) => st == Stopped(e)
  }

  lemma ThenThen(t: Bytes, u: Bytes, r: Encoded)
    ensures Then(t, Then(u, r)) == Then(t + u, r)
  {
    if r.Ok? {
      assert t + (u + r.text) == t + u + r.text;
    }
  }

  // ----- numbers -----

  function DecimalDigits(n: nat): (r: Bytes)
    ensures r != []
  {
    (if n < 10 then [] else DecimalDigits(n / 10)) + [Chr('0' as int + n % 10)]
  }

  /** sprintf with LUA_INTEGER_FMT. */
  function IntegerText(n: int): Bytes {
    if n < 0 then "-" + DecimalDigits(-n) else DecimalDigits(n)
  }

  lemma {:induction false} DigitsLength(n: nat, k: nat)
    requires k >= 1 && n < Pow(10, k)
    ensures |DecimalDigits(n)| <= k
  {
    if n >= 10 {
      PowUnit(10);
      PowStep(10, k - 1);
      DigitsLength(n / 10, k - 1);
    }
  }

  /** The text of a 64-bit integer fits the 32 bytes reserved for a number. */
  lemma IntegerFits(n: Int64)
    ensures |IntegerText(n)| < FPCONV_G_FMT_BUFSIZE
  {
    assert Pow(10, 19) == 10_000_000_000_000_000_000 by {
      assert Pow(10, 5) == 100_000;
      PowAdd(10, 5, 5);
      PowAdd(10, 10, 9);
      assert Pow(10, 9) == 10_000 * Pow(10, 5) by { PowAdd(10, 4, 5); assert Pow(10, 4) == 10_000; }
    }
    assert InInt64(n);
    var m: int := n;
    DigitsLength(if m < 0 then -m else m, 19);
  }

  function FloatText(f: Float, mode: InvalidNumbers): Encoded {
    match f
    case Finite(text) => Ok(text)
    case NotANumber => (match mode case Refuse => Err(NanOrInfinity) case Names => Ok("NaN") case AsNull => Ok("null"))
    case Infinite(negative) =>
      match mode
      case Refuse => Err(NanOrInfinity)
      case Names => Ok(if negative then "-Infinity" else "Infinity")
      case AsNull => Ok("null")
  }

  method AppendInteger(json: StrBuf, n: Int64)
    requires json.Valid() && json.increment < 0
    modifies json`buf, json`size, json`reallocs, json`length, json.buf
    ensures json.Valid() && (json.buf == old(json.buf) || fresh(json.buf))
    ensures json.Contents() == old(json.Contents()) + IntegerText(n)
  {
    json.EnsureEmptyLength(FPCONV_G_FMT_BUFSIZE);
    IntegerFits(n);
    json.Print(IntegerText(n));
  }

  method AppendFloat(json: StrBuf, cfg: Config, f: Float) returns (st: Status)
    requires json.Valid() && json.increment < 0 && Fits(f)
    modifies json`buf, json`size, json`reallocs, json`length, json.buf
    ensures json.Valid() && (json.buf == old(json.buf) || fresh(json.buf))
    ensures Wrote(st, FloatText(f, cfg.invalidNumbers), old(json.Contents()), json.Contents())
  {
    if cfg.invalidNumbers == Refuse {
      if !f.Finite? { return Stopped(NanOrInfinity); }
    } else if cfg.invalidNumbers == Names {
      if f.NotANumber? {
        json.AppendMem("NaN");
        return Done;
      }
      if f.Infinite? {
        if f.negative { json.AppendMem("-Infinity"); } else { json.AppendMem("Infinity"); }
        return Done;
      }
    } else if !f.Finite? {
      json.AppendMem("null");
      return Done;
    }
    json.EnsureEmptyLength(FPCONV_G_FMT_BUFSIZE);
    json.Print(f.text);
    return Done;
  }

  // ----- strings -----

  /** The loop body of json_append_string. */
  method AppendEscape(json: StrBuf, c: Byte)
    requires json.Valid() && json.increment < 0 && json.EmptyLength() >= 6
    modifies json`buf, json`size, json`reallocs, json`length, json.buf
    ensures json.Valid() && json.buf == old(json.buf) && json.EmptyLength() >= old(json.EmptyLength()) - 6
    ensures json.Contents() == old(json.Contents()) + Escape(c)
  {
    EscapeLength(c);
    var escstr := Char2Escape(c);
    hide Char2Escape;
    if escstr != "" {
      json.AppendString(escstr);
    } else {
      json.AppendCharUnsafe(c);
    }
  }

  /** json_append_string: 6 * len + 2 bytes are reserved, and every write after that stays inside them. */
  method AppendString(json: StrBuf, s: Bytes)
    requires json.Valid() && json.increment < 0
    modifies json`buf, json`size, json`reallocs, json`length, json.buf
    ensures json.Valid() && (json.buf == old(json.buf) || fresh(json.buf))
    ensures json.Contents() == old(json.Contents()) + StringText(s)
  {
    hide Escape, EscapeAll;
    ghost var before := json.Contents();
    json.EnsureEmptyLength(|s| * 6 + 2);
    json.AppendCharUnsafe('"');
    var i := 0;
    assert before + "\"" == before + ("\"" + EscapeAll(s[..i])) by { NothingEscaped(s); }
    while i < |s|
      invariant 0 <= i <= |s| && json.Valid() && (json.buf == old(json.buf) || fresh(json.buf))
      invariant json.EmptyLength() >= 6 * (|s| - i) + 1
      invariant json.Contents() == before + ("\"" + EscapeAll(s[..i]))
    {
      EscapeSnoc(s, i);
      AppendEscape(json, s[i]);
      assert json.Contents() == before + ("\"" + (EscapeAll(s[..i]) + Escape(s[i])));
      i := i + 1;
    }
    assert s[..i] == s;
    json.AppendCharUnsafe('"');
    assert json.Contents() == before + ("\"" + EscapeAll(s) + "\"");
  }

  lemma NothingEscaped(s: Bytes)
    ensures EscapeAll(s[..0]) == []
  {
  }

  // ----- tables -----

  /** The index a key is counted as, 0 for none. */
  function IndexOf(k: Key): nat {
    match k
    case IntKey(n) => if n >= 1 then n else 0
    case FloatKey(_, index) => index
    case _ => 0
  }

  predicate IsIndex(k: Key) { IndexOf(k) >= 1 }

  function MaxIndex(entries: seq<Entry>): (m: nat)
    ensures forall e :: e in entries ==> IndexOf(e.key) <= m
    ensures m > 0 ==> exists e :: e in entries && IndexOf(e.key) == m
  {
    if entries == [] then 0
    else
      var k, m := |entries| - 1, MaxIndex(entries[..|entries| - 1]);
      assert forall e :: e in entries ==> e in entries[..k] || e == entries[k];
      assert entries[k] in entries;
      if IndexOf(entries[k].key) > m then IndexOf(entries[k].key) else m
  }

  datatype Shape = Object | Array(n: nat) | TooSparse

  /** How a table is written: as an array if all its keys are indices, unless it has too many holes. */
  function ShapeOf(entries: seq<Entry>, cfg: Config): Shape {
    if exists e :: e in entries && !IsIndex(e.key) then Object
    else
      var max := MaxIndex(entries);
      if cfg.sparseRatio > 0 && max > |entries| * cfg.sparseRatio && max > cfg.sparseSafe then
        if cfg.sparseConvert then Object else TooSparse
      else Array(max)
  }

  lemma MaxNone(entries: seq<Entry>)
    ensures MaxIndex(entries[..0]) == 0
  {
  }

  lemma MaxSnoc(entries: seq<Entry>, i: nat)
    requires i < |entries|
    ensures var k, m := IndexOf(entries[i].key), MaxIndex(entries[..i]);
            MaxIndex(entries[..i + 1]) == if k > m then k else m
    ensures forall e :: e in entries[..i + 1] ==> e in entries[..i] || e == entries[i]
  {
    assert entries[..i + 1][..i] == entries[..i];
  }

  /** lua_array_length. */
  method ArrayLength(entries: seq<Entry>, cfg: Config) returns (s: Shape)
    ensures s == ShapeOf(entries, cfg)
  {
    hide MaxIndex;
    var max: nat, items: nat := 0, 0;
    MaxNone(entries);
    while items < |entries|
      invariant 0 <= items <= |entries|
      invariant forall e :: e in entries[..items] ==> IsIndex(e.key)
      invariant max == MaxIndex(entries[..items])
    {
      var e := entries[items];
      assert e in entries;
      MaxSnoc(entries, items);
      if (e.key.IntKey? && e.key.n >= 1) || (e.key.FloatKey? && e.key.index >= 1) {
        var k := if e.key.IntKey? then e.key.n else e.key.index;
        if k > max {
          max := k;
        }
        items := items + 1;
      } else {
        return Object;
      }
    }
    assert entries[..items] == entries;
    if cfg.sparseRatio > 0 && max > items * cfg.sparseRatio && max > cfg.sparseSafe {
      if !cfg.sparseConvert {
        return TooSparse;
      }
      return Object;
    }
    return Array(max);
  }

  /** lua_rawgeti: nil where the table has no such key. */
  function RawGet(entries: seq<Entry>, k: Key): Value {
    if entries == [] then Nil
    else if entries[0].key == k then entries[0].value
    else RawGet(entries[1..], k)
  }

  lemma {:induction false} RawGetIn(h: Heap, entries: seq<Entry>, k: Key)
    requires forall e :: e in entries ==> InHeap(h, e.value) && ShortNumber(e)
    ensures InHeap(h, RawGet(entries, k)) && (RawGet(entries, k).Number? ==> Fits(RawGet(entries, k).f))
  {
    if entries != [] {
      assert entries[0] in entries;
      RawGetIn(h, entries[1..], k);
    }
  }

  predicate Storable(h: Heap, v: Value) {
    InHeap(h, v) && (v.Number? ==> Fits(v.f))
  }

  lemma ClosedElement(h: Heap, id: nat, k: Key)
    requires Closed(h) && id in h
    ensures Storable(h, RawGet(h[id], k))
  {
    RawGetIn(h, h[id], k);
  }

  /** The text of a value inside depth tables. Tables refer to others, so the nesting limit is what ends this. */
  function ValueText(h: Heap, cfg: Config, v: Value, depth: nat): Encoded
    requires Closed(h) && Storable(h, v)
    decreases cfg.maxDepth - depth, 2, 0
  {
    match v
    case Str(s) => Ok(StringText(s))
    case Integer(n) => Ok(IntegerText(n))
    case Number(f) => FloatText(f, cfg.invalidNumbers)
    case Boolean(b) => Ok(if b then "true" else "false")
    case Nil => Ok("null")
    case NullPointer => Ok("null")
    case Other => Err(UnsupportedType)
    case Table(id) =>
      if depth + 1 > cfg.maxDepth then Err(ExcessiveNesting(depth + 1))
      else
        match ShapeOf(h[id], cfg)
        case TooSparse => Err(SparseArray)
        case Object => Then("{", MembersText(h, cfg, id, 0, depth + 1))
        case Array(n) =>
          if n > 0 then Then("[", ElementsText(h, cfg, id, 1, n, depth + 1))
              else Then("{", MembersText(h, cfg, id, 0, depth + 1))
  }

  function Comma(first: bool): Bytes { if first then "" else "," }

  function Append(r: Encoded, t: Encoded): Encoded {
    match r
    case Ok(text) => Then(text, t)
    case Err(_) => r
  }

  function ElementText(h: Heap, cfg: Config, id: nat, i: nat, depth: nat): Encoded
    requires Closed(h) && id in h && depth <= cfg.maxDepth
    decreases cfg.maxDepth - depth, 3, 0
  {
    ClosedElement(h, id, IntKey(i));
    Then(Comma(i == 1), ValueText(h, cfg, RawGet(h[id], IntKey(i)), depth))
  }

  /** Elements i to n, with the comma before each but the first, and the bracket at the end. */
  function ElementsText(h: Heap, cfg: Config, id: nat, i: nat, n: nat, depth: nat): Encoded
    requires Closed(h) && id in h && 1 <= i <= n + 1 && depth <= cfg.maxDepth
    decreases cfg.maxDepth - depth, 4, n + 1 - i
  {
    if i == n + 1 then Ok("]") else Append(ElementText(h, cfg, id, i, depth), ElementsText(h, cfg, id, i + 1, n, depth))
  }

  function KeyText(k: Key, mode: InvalidNumbers): Encoded {
    match k
    case IntKey(n) => Ok("\"" + IntegerText(n) + "\":")
    case FloatKey(f, _) => (match FloatText(f, mode) case Err(e) => Err(e) case Ok(t) => Ok("\"" + t + "\":"))
    case StrKey(s) => Ok(StringText(s) + ":")
    case OtherKey => Err(BadKey)
  }

  function MemberText(h: Heap, cfg: Config, id: nat, i: nat, depth: nat): Encoded
    requires Closed(h) && id in h && i < |h[id]| && depth <= cfg.maxDepth
    decreases cfg.maxDepth - depth, 3, 0
  {
    Then(Comma(i == 0), Append(KeyText(h[id][i].key, cfg.invalidNumbers), ValueText(h, cfg, h[id][i].value, depth)))
  }

  /** Entries i and on, with the comma before each but the first, and the brace at the end. */
  function MembersText(h: Heap, cfg: Config, id: nat, i: nat, depth: nat): Encoded
    requires Closed(h) && id in h && i <= |h[id]| && depth <= cfg.maxDepth
    decreases cfg.maxDepth - depth, 4, |h[id]| - i
  {
    if i == |h[id]| then Ok("}") else Append(MemberText(h, cfg, id, i, depth), MembersText(h, cfg, id, i + 1, depth))
  }

  /** json_append_data: the buffer grows by exactly the specified text, or the specified error leaves. */
  method AppendData(json: StrBuf, h: Heap, cfg: Config, v: Value, depth: nat) returns (st: Status)
    requires Closed(h) && Storable(h, v) && json.Valid() && json.increment < 0
    modifies json`buf, json`size, json`reallocs, json`length, json.buf
    ensures json.Valid() && (json.buf == old(json.buf) || fresh(json.buf))
    ensures Wrote(st, ValueText(h, cfg, v, depth), old(json.Contents()), json.Contents())
    decreases cfg.maxDepth - depth, 2
  {
    hide StringText, FloatText, ElementsText, MembersText;
    st := Done;
    match v {
      case Str(s) => AppendString(json, s);
      case Integer(n) => AppendInteger(json, n);
      case Number(f) => st := AppendFloat(json, cfg, f);
      case Boolean(b) => if b { json.AppendMem("true"); } else { json.AppendMem("false"); }
      case Nil => json.AppendMem("null");
      case NullPointer => json.AppendMem("null");
      case Other => st := Stopped(UnsupportedType);
      case Table(id) =>
        if depth + 1 > cfg.maxDepth {
          return Stopped(ExcessiveNesting(depth + 1));
        }
        var shape := ArrayLength(h[id], cfg);
        if shape.TooSparse? {
          st := Stopped(SparseArray);
        } else if shape.Array? && shape.n > 0 {
          st := AppendArray(json, h, cfg, id, shape.n, depth + 1);
        } else {
          st := AppendObject(json, h, cfg, id, depth + 1);
        }
    }
  }

  /** The loop body of json_append_array. */
  method AppendElement(json: StrBuf, h: Heap, cfg: Config, id: nat, i: nat, comma: bool, depth: nat)
    returns (st: Status)
    requires Closed(h) && id in h && depth <= cfg.maxDepth && comma == (i != 1) && json.Valid() && json.increment < 0
    modifies json`buf, json`size, json`reallocs, json`length, json.buf
    ensures json.Valid() && (json.buf == old(json.buf) || fresh(json.buf))
    ensures Wrote(st, ElementText(h, cfg, id, i, depth), old(json.Contents()), json.Contents())
    decreases cfg.maxDepth - depth, 3
  {
    hide ValueText;
    if comma {
      json.AppendChar(',');
    }
    ClosedElement(h, id, IntKey(i));
    st := AppendData(json, h, cfg, RawGet(h[id], IntKey(i)), depth);
    Assoc(old(json.Contents()), Comma(i == 1), ValueText(h, cfg, RawGet(h[id], IntKey(i)), depth));
  }

  lemma Assoc(before: Bytes, t: Bytes, r: Encoded)
    ensures r.Ok? ==> before + t + r.text == before + (t + r.text)
    ensures t == "" ==> before + t == before
  {
  }

  /** json_append_array. */
  method AppendArray(json: StrBuf, h: Heap, cfg: Config, id: nat, n: nat, depth: nat) returns (st: Status)
    requires Closed(h) && id in h && depth <= cfg.maxDepth && json.Valid() && json.increment < 0
    modifies json`buf, json`size, json`reallocs, json`length, json.buf
    ensures json.Valid() && (json.buf == old(json.buf) || fresh(json.buf))
    ensures Wrote(st, Then("[", ElementsText(h, cfg, id, 1, n, depth)), old(json.Contents()), json.Contents())
    decreases cfg.maxDepth - depth, 4
  {
    hide ElementText;
    ghost var before, all := json.Contents(), Then("[", ElementsText(h, cfg, id, 1, n, depth));
    ghost var sofar: Bytes := "[";
    json.AppendChar('[');
    var comma := false;
    var i := 1;
    while i <= n
      invariant 1 <= i <= n + 1 && comma == (i > 1)
      invariant json.Valid() && (json.buf == old(json.buf) || fresh(json.buf))
      invariant json.Contents() == before + sofar
      invariant all == Then(sofar, ElementsText(h, cfg, id, i, n, depth))
    {
      st := AppendElement(json, h, cfg, id, i, comma, depth);
      if st.Stopped? { return; }
      comma := true;
      ghost var t := ElementText(h, cfg, id, i, depth);
      ThenThen(sofar, t.text, ElementsText(h, cfg, id, i + 1, n, depth));
      Assoc(before, sofar, t);
      sofar := sofar + t.text;
      i := i + 1;
    }
    json.AppendChar(']');
    Assoc(before, sofar, Ok("]"));
    return Done;
  }

  method AppendKey(json: StrBuf, cfg: Config, k: Key) returns (st: Status)
    requires json.Valid() && json.increment < 0 && (k.IntKey? ==> InInt64(k.n)) && (k.FloatKey? ==> Fits(k.f))
    modifies json`buf, json`size, json`reallocs, json`length, json.buf
    ensures json.Valid() && (json.buf == old(json.buf) || fresh(json.buf))
    ensures Wrote(st, KeyText(k, cfg.invalidNumbers), old(json.Contents()), json.Contents())
  {
    hide StringText, FloatText, IntegerText;
    ghost var before := json.Contents();
    st := Done;
    match k {
      case IntKey(n) =>
        json.AppendChar('"');
        AppendInteger(json, n);
        json.AppendMem("\":");
        assert json.Contents() == before + ("\"" + IntegerText(n) + "\":");
      case FloatKey(f, _) =>
        json.AppendChar('"');
        st := AppendFloat(json, cfg, f);
        if st.Done? {
          json.AppendMem("\":");
          assert json.Contents() == before + ("\"" + FloatText(f, cfg.invalidNumbers).text + "\":");
        }
      case StrKey(s) =>
        AppendString(json, s);
        json.AppendChar(':');
        assert json.Contents() == before + (StringText(s) + ":");
      case OtherKey => st := Stopped(BadKey);
    }
  }

  /** The loop body of json_append_object. */
  method AppendMember(json: StrBuf, h: Heap, cfg: Config, id: nat, i: nat, comma: bool, depth: nat) returns (st: Status)
    requires Closed(h) && id in h && i < |h[id]| && depth <= cfg.maxDepth && comma == (i != 0) && json.Valid()
             && json.increment < 0
    modifies json`buf, json`size, json`reallocs, json`length, json.buf
    ensures json.Valid() && (json.buf == old(json.buf) || fresh(json.buf))
    ensures Wrote(st, MemberText(h, cfg, id, i, depth), old(json.Contents()), json.Contents())
    decreases cfg.maxDepth - depth, 3
  {
    hide ValueText, KeyText;
    ghost var before, k, v := json.Contents(), KeyText(h[id][i].key, cfg.invalidNumbers),
        ValueText(h, cfg, h[id][i].value, depth);
    if comma {
      json.AppendChar(',');
    }
    st := AppendKey(json, cfg, h[id][i].key);
    if st.Stopped? { return; }
    Assoc(before, Comma(i == 0), k);
    st := AppendData(json, h, cfg, h[id][i].value, depth);
    Assoc(before, Comma(i == 0) + k.text, v);
    ThenThen(Comma(i == 0), k.text, v);
  }

  /** json_append_object. */
  method AppendObject(json: StrBuf, h: Heap, cfg: Config, id: nat, depth: nat) returns (st: Status)
    requires Closed(h) && id in h && depth <= cfg.maxDepth && json.Valid() && json.increment < 0
    modifies json`buf, json`size, json`reallocs, json`length, json.buf
    ensures json.Valid() && (json.buf == old(json.buf) || fresh(json.buf))
    ensures Wrote(st, Then("{", MembersText(h, cfg, id, 0, depth)), old(json.Contents()), json.Contents())
    decreases cfg.maxDepth - depth, 4
  {
    hide MemberText;
    ghost var before, all := json.Contents(), Then("{", MembersText(h, cfg, id, 0, depth));
    ghost var sofar: Bytes := "{";
    json.AppendChar('{');
    var comma := false;
    var i := 0;
    while i < |h[id]|
      invariant 0 <= i <= |h[id]| && comma == (i > 0)
      invariant json.Valid() && (json.buf == old(json.buf) || fresh(json.buf))
      invariant json.Contents() == before + sofar
      invariant all == Then(sofar, MembersText(h, cfg, id, i, depth))
    {
      st := AppendMember(json, h, cfg, id, i, comma, depth);
      if st.Stopped? { return; }
      comma := true;
      ghost var t := MemberText(h, cfg, id, i, depth);
      ThenThen(sofar, t.text, MembersText(h, cfg, id, i + 1, depth));
      Assoc(before, sofar, t);
      sofar := sofar + t.text;
      i := i + 1;
    }
    json.AppendChar('}');
    Assoc(before, sofar, Ok("}"));
    return Done;
  }

  /** json_encode, into the buffer kept between calls: whatever an earlier or failed call left there is dropped. */
  method Encode(json: StrBuf, h: Heap, cfg: Config, v: Value) returns (r: Encoded)
    requires Closed(h) && Storable(h, v) && json.Valid() && json.increment < 0
    modifies json`buf, json`size, json`reallocs, json`length, json.buf
    ensures json.Valid() && (json.buf == old(json.buf) || fresh(json.buf))
    ensures r == ValueText(h, cfg, v, 0)
  {
    json.Reset();
    var st := AppendData(json, h, cfg, v, 0);
    assert [] + json.Contents() == json.Contents();
    return match st case Done => Ok(json.buf[..json.length]) case Stopped(e) => Err(e);
  }
}
