/** Which values the encoder refuses, cyclic ones among them. */
module JsonRefusals {
  import opened JsonStrings
  import opened JsonEncoder
  import opened JsonRoundTrip

  // ----- what cannot be encoded -----

  /** v can be encoded, its tables at most d deep. */
  ghost predicate Encodes(h: Heap, cfg: Config, v: Value, d: nat)
    decreases d, 0
  {
    match v
    case Other => false
    case Number(f) => f.Finite? || cfg.invalidNumbers != Refuse
    case Table(id) =>
      && d > 0 && id in h
      && if Listed(h[id]) && !Holey(h[id], cfg) then
           forall j :: 0 <= j < |h[id]| && h[id][j].key.IntKey? ==> Encodes(h, cfg, h[id][j].value, d - 1)
         else (Listed(h[id]) ==> cfg.sparseConvert) && MembersEncode(h, cfg, h[id], d - 1)
    case _ => true
  }

  ghost predicate MembersEncode(h: Heap, cfg: Config, entries: seq<Entry>, d: nat)
    decreases d, 1
  {
    forall j :: 0 <= j < |entries| ==>
      && !entries[j].key.OtherKey?
      && (entries[j].key.FloatKey? && !entries[j].key.f.Finite? ==> cfg.invalidNumbers != Refuse)
      && Encodes(h, cfg, entries[j].value, d)
  }

  ghost predicate AllDistinct(h: Heap) { forall id :: id in h ==> DistinctKeys(h[id]) }

  /** Encoding succeeds exactly on the values that can be encoded within the limit. */
  lemma {:induction false} EncodesIff(h: Heap, cfg: Config, v: Value, depth: nat)
    requires Closed(h) && Storable(h, v) && AllDistinct(h) && depth <= cfg.maxDepth
    ensures ValueText(h, cfg, v, depth).Ok? <==> Encodes(h, cfg, v, cfg.maxDepth - depth)
    decreases cfg.maxDepth - depth, 0, 0
  {
    hide StringText, IntegerText, ElementsText, MembersText, ShapeOf, Holey, Closed, Listed, MaxIndex, AllDistinct;
    hide MembersEncode;
    match v
    case Table(id) =>
      if depth < cfg.maxDepth {
        TableText(h, cfg, id, depth);
        if Listed(h[id]) && !Holey(h[id], cfg) {
          ElementsEncode(h, cfg, id, depth + 1, 1);
          InIndices(h[id]);
        } else {
          MembersEncodeIff(h, cfg, id, depth + 1, 0);
          FromFirst(h, cfg, h[id], cfg.maxDepth - depth - 1);
        }
      }
    case _ =>
  }

  lemma InIndices(entries: seq<Entry>)
    requires Listed(entries)
    ensures forall j :: 0 <= j < |entries| && entries[j].key.IntKey? ==> 1 <= entries[j].key.n <= MaxIndex(entries)
  {
    hide MaxIndex;
    forall j | 0 <= j < |entries| && entries[j].key.IntKey?
      ensures 1 <= entries[j].key.n <= MaxIndex(entries)
    {
      assert entries[j] in entries && IndexOf(entries[j].key) == entries[j].key.n;
    }
  }

  /** Entries from i on. */
  ghost predicate RestEncodes(h: Heap, cfg: Config, entries: seq<Entry>, i: nat, d: nat) {
    forall j :: i <= j < |entries| ==>
      && !entries[j].key.OtherKey?
      && (entries[j].key.FloatKey? && !entries[j].key.f.Finite? ==> cfg.invalidNumbers != Refuse)
      && Encodes(h, cfg, entries[j].value, d)
  }

  lemma FromFirst(h: Heap, cfg: Config, entries: seq<Entry>, d: nat)
    ensures RestEncodes(h, cfg, entries, 0, d) <==> MembersEncode(h, cfg, entries, d)
  {
    hide Encodes;
  }

  lemma {:induction false} MembersEncodeIff(h: Heap, cfg: Config, id: nat, depth: nat, i: nat)
    requires Closed(h) && AllDistinct(h) && id in h && i <= |h[id]| && depth <= cfg.maxDepth
    ensures MembersText(h, cfg, id, i, depth).Ok? <==> RestEncodes(h, cfg, h[id], i, cfg.maxDepth - depth)
    decreases cfg.maxDepth - depth, 1, |h[id]| - i
  {
    hide ValueText, KeyText, Encodes, AllDistinct, Closed, StringText, IntegerText;
    if i < |h[id]| {
      EntryStored(h, id, i);
      EncodesIff(h, cfg, h[id][i].value, depth);
      MembersEncodeIff(h, cfg, id, depth, i + 1);
      KeyTextIff(h[id][i].key, cfg.invalidNumbers);
    }
  }

  lemma KeyTextIff(k: Key, mode: InvalidNumbers)
    ensures KeyText(k, mode).Ok? <==> !k.OtherKey? && (k.FloatKey? && !k.f.Finite? ==> mode != Refuse)
  {
  }

  /** Elements from i on: what is not there is null, and can be written. */
  lemma {:induction false} ElementsEncode(h: Heap, cfg: Config, id: nat, depth: nat, i: nat)
    requires Closed(h) && AllDistinct(h) && id in h && 1 <= i <= MaxIndex(h[id]) + 1 && depth <= cfg.maxDepth
    ensures ElementsText(h, cfg, id, i, MaxIndex(h[id]), depth).Ok? <==>
            forall j :: 0 <= j < |h[id]| && h[id][j].key.IntKey? && i <= h[id][j].key.n <= MaxIndex(h[id]) ==>
              Encodes(h, cfg, h[id][j].value, cfg.maxDepth - depth)
    decreases cfg.maxDepth - depth, 1, MaxIndex(h[id]) + 1 - i
  {
    hide ValueText, Encodes, Closed, MaxIndex, RawGet, DistinctKeys;
    if i <= MaxIndex(h[id]) {
      ClosedElement(h, id, IntKey(i));
      EncodesIff(h, cfg, RawGet(h[id], IntKey(i)), depth);
      ElementsEncode(h, cfg, id, depth, i + 1);
      if j :| 0 <= j < |h[id]| && h[id][j].key == IntKey(i) {
        RawGetAt(h[id], j);
        OnlyOne(h[id], j);
      } else {
        RawGetNone(h[id], IntKey(i));
        NilEncodes(h, cfg, cfg.maxDepth - depth);
      }
    }
  }

  lemma OnlyOne(entries: seq<Entry>, j: nat)
    requires DistinctKeys(entries) && j < |entries|
    ensures forall k :: 0 <= k < |entries| && entries[k].key == entries[j].key ==> k == j
  {
  }

  lemma NilEncodes(h: Heap, cfg: Config, d: nat)
    ensures Encodes(h, cfg, Nil, d)
  {
  }

  /** The error that each of them leaves. */
  lemma Errors(h: Heap, cfg: Config, id: nat, depth: nat)
    requires Closed(h) && id in h
    ensures depth >= cfg.maxDepth ==> ValueText(h, cfg, Table(id), depth) == Err(ExcessiveNesting(depth + 1))
    ensures depth < cfg.maxDepth && Listed(h[id]) && Holey(h[id], cfg) && !cfg.sparseConvert ==>
              ValueText(h, cfg, Table(id), depth) == Err(SparseArray)
    ensures ValueText(h, cfg, Other, depth) == Err(UnsupportedType)
            && KeyText(OtherKey, cfg.invalidNumbers) == Err(BadKey)
    ensures forall f: Float :: Fits(f) && !f.Finite? && cfg.invalidNumbers == Refuse ==>
              ValueText(h, cfg, Number(f), depth) == Err(NanOrInfinity)
  {
    hide ElementsText, MembersText, ShapeOf, Holey, Listed, Closed, MaxIndex;
    if depth < cfg.maxDepth { TableText(h, cfg, id, depth); }
  }

  /** What is written for numbers that JSON does not have, where the settings allow it. */
  lemma FloatNames(h: Heap, cfg: Config, depth: nat)
    requires Closed(h)
    ensures cfg.invalidNumbers == Names ==>
              && ValueText(h, cfg, Number(NotANumber), depth) == JsonEncoder.Ok("NaN")
              && ValueText(h, cfg, Number(Infinite(false)), depth) == JsonEncoder.Ok("Infinity")
              && ValueText(h, cfg, Number(Infinite(true)), depth) == JsonEncoder.Ok("-Infinity")
    ensures cfg.invalidNumbers == AsNull ==>
              forall f: Float :: Fits(f) && !f.Finite? ==> ValueText(h, cfg, Number(f), depth) == JsonEncoder.Ok("null")
  {
  }

  // ----- cyclic graphs -----

  /** In a table written as an array lua_rawgeti looks for integer keys; in an object every entry is visited. */
  predicate Visited(e: Entry, shape: Shape) { shape.Array? && shape.n > 0 ==> e.key.IntKey? }

  ghost predicate Holds(h: Heap, cfg: Config, id: nat, next: nat) {
    && id in h
    && exists k :: 0 <= k < |h[id]| && Visited(h[id][k], ShapeOf(h[id], cfg)) && h[id][k].value == Table(next)
  }

  /** ids is a path: each table holds the next as a value that is visited. */
  ghost predicate Path(h: Heap, cfg: Config, ids: seq<nat>) {
    && ids != [] && ids[|ids| - 1] in h
    && forall j, k :: 0 <= j < k < |ids| && k == j + 1 ==> Holds(h, cfg, ids[j], ids[k])
  }

  lemma {:induction false} ElementOk(h: Heap, cfg: Config, id: nat, i: nat, n: nat, depth: nat, k: nat)
    requires Closed(h) && id in h && 1 <= i <= k <= n && depth <= cfg.maxDepth
    requires ElementsText(h, cfg, id, i, n, depth).Ok?
    ensures ElementText(h, cfg, id, k, depth).Ok?
    decreases k - i
  {
    hide ElementText;
    if i < k { ElementOk(h, cfg, id, i + 1, n, depth, k); }
  }

  lemma {:induction false} MemberOk(h: Heap, cfg: Config, id: nat, i: nat, depth: nat, k: nat)
    requires Closed(h) && id in h && i <= k < |h[id]| && depth <= cfg.maxDepth
    requires MembersText(h, cfg, id, i, depth).Ok?
    ensures MemberText(h, cfg, id, k, depth).Ok?
    decreases k - i
  {
    hide MemberText;
    if i < k { MemberOk(h, cfg, id, i + 1, depth, k); }
  }

  /** A table that can be written visits only values that can be written one level deeper. */
  lemma ChildOk(h: Heap, cfg: Config, id: nat, depth: nat, k: nat)
    requires Closed(h) && id in h && DistinctKeys(h[id]) && k < |h[id]|
    requires Visited(h[id][k], ShapeOf(h[id], cfg))
    requires ValueText(h, cfg, Table(id), depth).Ok?
    ensures depth < cfg.maxDepth && ValueText(h, cfg, h[id][k].value, depth + 1).Ok?
  {
    hide ElementsText, MembersText;
    var e := h[id][k];
    assert e in h[id];
    var shape := ShapeOf(h[id], cfg);
    if shape.Array? && shape.n > 0 {
      assert IsIndex(e.key) && IndexOf(e.key) <= shape.n;
      ElementOk(h, cfg, id, 1, shape.n, depth + 1, e.key.n);
      RawGetAt(h[id], k);
    } else {
      MemberOk(h, cfg, id, 0, depth + 1, k);
    }
  }

  lemma PathStep(h: Heap, cfg: Config, ids: seq<nat>)
    requires Path(h, cfg, ids)
    ensures ids != [] && ids[0] in h && (|ids| > 1 ==> Holds(h, cfg, ids[0], ids[1]) && Path(h, cfg, ids[1..]))
  {
    hide Holds;
    if |ids| > 1 {
      assert Holds(h, cfg, ids[0], ids[1]);
      HoldsIn(h, cfg, ids[0], ids[1]);
    }
  }

  lemma HoldsIn(h: Heap, cfg: Config, id: nat, next: nat)
    requires Holds(h, cfg, id, next)
    ensures id in h
  {
  }

  /** No chain of tables longer than the limit is ever written, so a cyclic graph always ends in an error. */
  lemma {:induction false} PathsBounded(h: Heap, cfg: Config, ids: seq<nat>, depth: nat)
    requires Closed(h) && Path(h, cfg, ids) && forall id :: id in h ==> DistinctKeys(h[id])
    requires ids != [] && ids[0] in h
    requires ValueText(h, cfg, Table(ids[0]), depth).Ok?
    ensures depth + |ids| <= cfg.maxDepth
    decreases |ids|
  {
    hide ValueText, Path, Closed;
    TableDepth(h, cfg, ids[0], depth);
    PathStep(h, cfg, ids);
    if |ids| > 1 {
      var k :| 0 <= k < |h[ids[0]]| && Visited(h[ids[0]][k], ShapeOf(h[ids[0]], cfg))
               && h[ids[0]][k].value == Table(ids[1]);
      ChildOk(h, cfg, ids[0], depth, k);
      PathStep(h, cfg, ids[1..]);
      PathsBounded(h, cfg, ids[1..], depth + 1);
    }
  }

  lemma TableDepth(h: Heap, cfg: Config, id: nat, depth: nat)
    requires Closed(h) && id in h && ValueText(h, cfg, Table(id), depth).Ok?
    ensures depth < cfg.maxDepth
  {
  }
}
