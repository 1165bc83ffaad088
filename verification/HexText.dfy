/** gethex from the text on: digits, point and binary exponent of a hexadecimal float. */
module HexLiterals {
  import opened Arith
  import opened Rational
  import opened Words
  import opened StrBufs
  import opened JsonStrings
  import opened Decimal
  import opened Ieee
  import opened ShortestDigits
  import opened Scaling
  import opened Scanner
  import opened DecimalTexts
  import opened ScanNumber
  import opened Correction
  import opened Refinement
  import opened CorrectionLoop
  import opened HexFloat
  import opened HexRounding
  import opened HexDigits

  // ----- the grammar, read greedily -----

  predicate AllHex(s: Bytes) {
    forall i :: 0 <= i < |s| ==> IsHex(s[i])
  }

  /** The hexadecimal digits that s starts with. */
  function HexRun(s: Bytes): (r: Bytes)
    ensures |r| <= |s| && r == s[..|r|] && AllHex(r)
  {
    if IsHex(Peek(s, 0)) then [s[0]] + HexRun(s[1..]) else []
  }

  /** Digits put in front belong to the run. */
  lemma {:induction false} HexRunAfter(a: Bytes, b: Bytes)
    requires AllHex(a)
    ensures HexRun(a + b) == a + HexRun(b)
  {
    if a == [] {
      assert a + b == b && a + HexRun(b) == HexRun(b);
    } else {
      assert IsHex(a[0]) && (a + b)[1..] == a[1..] + b;
      HexRunAfter(a[1..], b);
      assert [a[0]] + (a[1..] + HexRun(b)) == a + HexRun(b);
    }
  }

  /** The binary exponent at the start of s, if it is one: its sign, digits and length. */
  datatype Power = NoPower | Power(negative: bool, digits: Bytes, len: nat)

  function PowerAt(s: Bytes): Power {
    if Peek(s, 0) != 'p' && Peek(s, 0) != 'P' then NoPower
    else
      var sign := if Peek(s, 1) == '-' || Peek(s, 1) == '+' then 1 else 0;
      var digits := Run(s[1 + sign..]);
      if digits == [] then NoPower else Power(Peek(s, 1) == '-', digits, 1 + sign + |digits|)
  }

  /** What follows 0x: digits before and after the point, and the exponent. */
  datatype Literal = Literal(ip: Bytes, fp: Bytes, power: Power, len: nat)

  function LiteralAt(s: Bytes): (h: Literal)
    ensures AllHex(h.ip + h.fp)
  {
    var ip := HexRun(s);
    var t := s[|ip|..];
    var point := if Peek(t, 0) == '.' then 1 else 0;
    var fp := if point == 1 then HexRun(t[1..]) else [];
    var power := PowerAt(t[point + |fp|..]);
    Literal(ip, fp, power, |ip| + point + |fp| + (if power.Power? then power.len else 0))
  }

  function Exponent2(p: Power): int {
    if p.NoPower? then 0 else if p.negative then -DigitsVal(p.digits) else DigitsVal(p.digits)
  }

  /** The number denoted. */
  ghost function LiteralValue(h: Literal): real
    requires AllHex(h.ip + h.fp)
  {
    assert HexText(h.ip + h.fp);
    BinaryValue(HexVal(h.ip + h.fp), Exponent2(h.power) - 4 * |h.fp|)
  }

  // ----- scanning -----

  lemma NoRun(data: Bytes, i: nat)
    requires Terminated(data) && i < |data| && !IsHex(data[i])
    ensures HexRun(From(data, i)) == data[i..i]
  {
    PeekFrom(data, i);
  }

  /** A run from q, with hexadecimal digits from p to q, is one from p. */
  lemma RunOn(data: Bytes, p: nat, q: nat, s: nat)
    requires Terminated(data) && p <= q <= s < |data| && AllHex(data[p..q])
    requires HexRun(From(data, q)) == data[q..s] || (q == s && !IsHex(data[q]))
    ensures HexRun(From(data, p)) == data[p..s] && AllHex(data[p..s])
  {
    hide HexRun, IsHex;
    if q == s && !IsHex(data[q]) { NoRun(data, q); }
    HexRunAfter(data[p..q], From(data, q));
    assert From(data, p) == data[p..q] + From(data, q) && data[p..q] + data[q..s] == data[p..s];
  }

  lemma ZerosHex(z: Bytes)
    requires AllZeros(z)
    ensures AllHex(z)
  {
    assert forall i :: 0 <= i < |z| ==> z[i] == '0';
  }

  method SkipHex(data: Bytes, i: nat) returns (j: nat)
    requires Terminated(data) && i < |data|
    ensures i <= j < |data| && HexRun(From(data, i)) == data[i..j] && AllHex(data[i..j])
    ensures !IsHex(data[j])
  {
    j := i;
    while IsHex(data[j])
      invariant i <= j < |data| && AllHex(data[i..j])
      decreases |data| - j
    {
      assert data[i..j + 1] == data[i..j] + [data[j]];
      j := j + 1;
    }
    RunOn(data, i, j, j);
  }

  method SkipNull(data: Bytes, i: nat) returns (j: nat)
    requires Terminated(data) && i < |data|
    ensures i <= j < |data| && AllZeros(data[i..j]) && data[j] != '0'
  {
    j := i;
    while data[j] == '0'
      invariant i <= j < |data| && AllZeros(data[i..j])
      decreases |data| - j
    {
      assert data[i..j + 1] == data[i..j] + ['0'];
      j := j + 1;
    }
  }

  // ----- the value of digits -----

  lemma {:induction false} NullDigits(z: Bytes, a: Bytes)
    requires AllZeros(z)
    ensures HexVal(z + a) == HexVal(a)
  {
    hide Pow, HexVal;
    if z == [] {
      assert z + a == a;
    } else {
      assert z + a == ['0'] + (z[1..] + a);
      HexFront('0', z[1..] + a);
      NullDigits(z[1..], a);
    }
  }

  lemma {:induction false} NoPoint(a: Bytes, b: Bytes)
    ensures HexVal(a + "." + b) == HexVal(a + b)
  {
    if b == [] {
      assert a + "." + b == a + "." && (a + ".")[..|a|] == a && a + b == a;
    } else {
      var k := |b| - 1;
      NoPoint(a, b[..k]);
      assert (a + "." + b)[..|a| + 1 + k] == a + "." + b[..k] && (a + b)[..|a| + k] == a + b[..k];
    }
  }

  lemma PositiveHex(s: Bytes)
    requires s != [] && HexText(s) && IsHex(s[0]) && s[0] != '0'
    ensures HexVal(s) > 0
  {
    hide Pow, HexVal, HexDigit2Int;
    FirstHex(s[0]);
    assert s == [s[0]] + s[1..] && HexText(s[1..]);
    HexFront(s[0], s[1..]);
    PowPos(16, Count(s[1..]));
    MulPos(HexDigit2Int(s[0]), Pow(16, Count(s[1..])));
  }

  lemma NullValue(z: Bytes)
    requires AllZeros(z)
    ensures HexVal(z) == 0
  {
    NullDigits(z, []);
    assert z + [] == z;
  }

  // ----- digits and point -----

  /** The digits of h are those of data[s0..s1], which starts with the first that is not zero. */
  ghost predicate Located(h: Literal, data: Bytes, p: nat, s0: nat, s1: nat, e: int, zero: bool, any: bool) {
    && p <= s0 <= s1 < |data| && AllHex(h.ip + h.fp) && e == -4 * |h.fp| && (any <==> h.ip + h.fp != [])
    && (zero <==> HexVal(h.ip + h.fp) == 0)
    && (!zero ==> s0 < s1 && HexText(data[s0..s1]) && IsHex(data[s0]) && data[s0] != '0'
                  && HexVal(data[s0..s1]) == HexVal(h.ip + h.fp))
  }

  lemma DigitsAt(data: Bytes, p: nat, q: nat, s1: nat)
    requires Terminated(data) && p <= q < |data| && HexRun(From(data, p)) == data[p..q]
    requires if data[q] == '.' then q + 1 <= s1 < |data| && HexRun(From(data, q + 1)) == data[q + 1..s1] else s1 == q
    ensures var h := LiteralAt(From(data, p));
            && h.ip == data[p..q] && h.fp == (if data[q] == '.' then data[q + 1..s1] else [])
            && h.power == PowerAt(From(data, s1))
            && p + h.len == s1 + (if h.power.Power? then h.power.len else 0)
  {
    hide HexRun, PowerAt;
    var s := From(data, p);
    assert s[q - p..] == From(data, q);
    PeekFrom(data, q);
    if data[q] == '.' {
      assert From(data, q)[1..] == From(data, q + 1);
      assert s[q - p..][1 + (s1 - (q + 1))..] == From(data, s1);
    } else {
      assert s[q - p..][0..] == From(data, s1);
    }
  }

  lemma FirstOf(data: Bytes, i: nat, j: nat)
    requires i < j <= |data|
    ensures data[i..j][0] == data[i]
  {
  }

  /** Digits before the point that are not all zeros. */
  lemma FoundWhole(h: Literal, data: Bytes, p: nat, s0: nat, q: nat, s1: nat)
    requires p <= s0 < q <= s1 < |data| && AllZeros(data[p..s0]) && data[s0] != '0' && AllHex(data[s0..q])
    requires h.ip == data[p..q]
    requires (s1 == q && h.fp == []) || (q < s1 && data[q] == '.' && h.fp == data[q + 1..s1] && AllHex(h.fp))
    ensures Located(h, data, p, s0, s1, -4 * |h.fp|, false, true)
  {
    hide HexVal;
    var z, a, d := data[p..s0], data[s0..q], data[s0..s1];
    assert h.ip == z + a;
    FirstOf(data, s0, q);
    FirstOf(data, s0, s1);
    ZerosHex(z);
    assert h.ip + h.fp == z + (a + h.fp);
    NullDigits(z, a + h.fp);
    if s1 == q {
      assert a + h.fp == d;
    } else {
      assert d == a + "." + h.fp;
      NoPoint(a, h.fp);
    }
    PositiveHex(d);
  }

  /** Only zeros before the point. */
  lemma FoundAfter(h: Literal, data: Bytes, p: nat, q: nat, s0: nat, s1: nat)
    requires p <= q < s0 <= s1 < |data| && AllZeros(data[p..q]) && h.ip == data[p..q]
    requires q + 1 <= s0 && AllZeros(data[q + 1..s0]) && h.fp == data[q + 1..s1] && AllHex(h.fp) && data[s0] != '0'
    requires s0 == s1 || IsHex(data[s0])
    ensures Located(h, data, p, s0, s1, -4 * |h.fp|, s0 == s1, h.ip + h.fp != [])
  {
    hide HexVal;
    var z, y, d := data[p..q], data[q + 1..s0], data[s0..s1];
    assert h.fp == y + d && h.ip + h.fp == (z + y) + d;
    assert AllZeros(z + y);
    NullDigits(z + y, d);
    ZerosHex(z);
    assert AllHex(d);
    if s0 < s1 {
      FirstOf(data, s0, s1);
      PositiveHex(d);
    } else {
      assert d == [];
      NullValue([]);
    }
  }

  /** Nothing but zeros before the point, and nothing after it. */
  lemma FoundNone(h: Literal, data: Bytes, p: nat, q: nat, s1: nat)
    requires p <= q <= s1 < |data| && AllZeros(data[p..q]) && h.ip == data[p..q] && h.fp == []
    ensures Located(h, data, p, q, s1, 0, true, q > p)
  {
    hide HexVal;
    ZerosHex(h.ip);
    assert h.ip + h.fp == h.ip;
    NullValue(h.ip);
  }

  /** Where the digits that count start and end, what the point takes off the exponent, and whether all are zero. */
  method ScanDigits(data: Bytes, p: nat) returns (s0: nat, s1: nat, e: int, zero: bool, any: bool)
    requires Terminated(data) && p < |data|
    ensures var h := LiteralAt(From(data, p));
            && Located(h, data, p, s0, s1, e, zero, any) && h.power == PowerAt(From(data, s1))
            && p + h.len == s1 + (if h.power.Power? then h.power.len else 0)
  {
    hide HexRun, PowerAt, LiteralAt, From, Located;
    s0 := SkipNull(data, p);
    ZerosHex(data[p..s0]);
    ghost var h := LiteralAt(From(data, p));
    any, zero, e, s1 := s0 > p, false, 0, s0;
    if IsHex(data[s0]) {
      any := true;
      var q := SkipHex(data, s0);
      RunOn(data, p, s0, q);
      s1 := q;
      if data[q] == '.' {
        s1 := SkipHex(data, q + 1);
        e := -4 * (s1 - (q + 1));
      }
      DigitsAt(data, p, q, s1);
      FoundWhole(h, data, p, s0, q, s1);
    } else {
      zero := true;
      var q := s0;
      RunOn(data, p, q, q);
      if data[q] == '.' {
        s1 := q + 1;
        if IsHex(data[s1]) {
          s0 := SkipNull(data, s1);
          ZerosHex(data[s1..s0]);
          zero := !IsHex(data[s0]);
          any := true;
          s1 := SkipHex(data, s0);
          e := -4 * (s1 - (q + 1));
          RunOn(data, q + 1, s0, s1);
          DigitsAt(data, p, q, s1);
          FoundAfter(h, data, p, q, s0, s1);
        } else {
          NoRun(data, s1);
          DigitsAt(data, p, q, s1);
          FoundNone(h, data, p, q, s1);
        }
      } else {
        DigitsAt(data, p, q, s1);
        FoundNone(h, data, p, q, s1);
      }
    }
  }

  // ----- the binary exponent -----

  /** From ten times this on, the digits of an exponent are not turned into a number any more. */
  const POWER_LIMIT: int := 0x800_0000

  predicate Huge(w: Power) {
    w.Power? && DigitsVal(w.digits) >= 10 * POWER_LIMIT
  }

  lemma PowerIs(data: Bytes, s1: nat, d0: nat)
    requires Terminated(data) && s1 < |data| && (data[s1] == 'p' || data[s1] == 'P') && s1 + 1 < |data|
    requires d0 == if data[s1 + 1] == '-' || data[s1 + 1] == '+' then s1 + 2 else s1 + 1
    ensures d0 < |data|
    ensures var d := Run(From(data, d0));
            PowerAt(From(data, s1)) ==
            if d == [] then NoPower else Power(data[s1 + 1] == '-', d, d0 - s1 + |d|)
  {
    hide Run, DigitsVal;
    PeekFrom(data, s1);
    PeekFrom(data, s1 + 1);
    assert From(data, s1)[d0 - s1..] == From(data, d0);
  }

  /** The digits of the exponent. Once big is set, e1 is of no use any more. */
  method PowerDigits(data: Bytes, d0: nat) returns (e1: nat, big: bool, s: nat)
    requires Terminated(data) && d0 < |data| && IsDigit(data[d0])
    ensures d0 < s < |data| && Run(From(data, d0)) == data[d0..s]
    ensures e1 == DigitsVal(data[d0..s]) && (big <==> e1 >= 10 * POWER_LIMIT)
  {
    hide Run, From, DigitsVal;
    RunStart(data, d0);
    NoDigits();
    RunGrow(data, d0, d0);
    OneMore(data[d0..d0], data[d0]);
    e1, big, s := DigitOf(data[d0]), false, d0 + 1;
    while IsDigit(data[s])
      invariant d0 < s < |data| && e1 == DigitsVal(data[d0..s]) && (big <==> e1 >= 10 * POWER_LIMIT)
      invariant Run(From(data, d0)) == data[d0..s] + Run(From(data, s))
      decreases |data| - s
    {
      RunGrow(data, d0, s);
      OneMore(data[d0..s], data[s]);
      if e1 >= POWER_LIMIT {
        big := true;
      }
      e1 := 10 * e1 + DigitOf(data[s]);
      s := s + 1;
    }
    RunStop(data, d0, s);
  }

  /** The exponent, taken whole or not at all. */
  method ScanPower(data: Bytes, s1: nat) returns (e1: int, big: bool, esign: bool, s: nat)
    requires Terminated(data) && s1 < |data|
    ensures var w := PowerAt(From(data, s1));
            && s == s1 + (if w.Power? then w.len else 0) < |data| && (big <==> Huge(w))
            && (w.Power? ==> esign == w.negative) && e1 == Exponent2(w)
  {
    hide Run, From, DigitsVal;
    e1, big, esign, s := 0, false, false, s1;
    if data[s1] == 'p' || data[s1] == 'P' {
      s := s1 + 1;
      if data[s] == '-' {
        esign := true;
        s := s + 1;
      } else if data[s] == '+' {
        s := s + 1;
      }
      PowerIs(data, s1, s);
      RunStep(data, s);
      if IsDigit(data[s]) {
        e1, big, s := PowerDigits(data, s);
        if esign {
          e1 := -e1;
        }
      } else {
        s := s1;
      }
    } else {
      PeekFrom(data, s1);
    }
  }

  // ----- the whole literal -----

  /** The literals that are not read as the nearest double. */
  ghost predicate Untrue(h: Literal)
    requires AllHex(h.ip + h.fp)
  {
    var x := LiteralValue(h);
    if !Huge(h.power) then Missed(x)
    else if h.power.negative then x > RPow(2, -1075)
    else 0.0 < x < RPow(2, 1024) - RPow(2, 970)
  }

  /** gethex, p being where the digits start, after 0x: the words of the double and where reading ends. */
  method GetHex(data: Bytes, p: nat) returns (w0: Word, w1: Word, end: nat)
    requires Terminated(data) && 2 <= p < |data|
    ensures var h := LiteralAt(From(data, p));
            && end == (if h.ip + h.fp == [] then p - 1 else p + h.len)
            && (w0 * BASE + w1 <= INFINITY && ReadsAs(LiteralValue(h), w0 * BASE + w1) <==> !Untrue(h))
  {
    hide RPow, HexVal, ReadsAs, Missed, BinaryValue, LiteralAt, PowerAt, From, DigitsVal;
    ghost var h := LiteralAt(From(data, p));
    var s0, s1, e, zero, any := ScanDigits(data, p);
    var e1, big, esign, s := ScanPower(data, s1);
    end := if any then s else p - 1;
    if zero {
      NullLiteral(h);
      return 0, 0, end;
    }
    if big {
      HugeLiteral(h);
      if esign {
        return 0, 0, end;
      }
      return 0x7ff0_0000, 0, end;
    }
    w0, w1 := HexToDouble(data[s0..s1], e + e1);
  }

  lemma NullLiteral(h: Literal)
    requires AllHex(h.ip + h.fp) && HexVal(h.ip + h.fp) == 0
    ensures ReadsAs(LiteralValue(h), 0) && !Untrue(h)
  {
    hide RPow, HexVal, ReadsAs, DigitsVal;
    Landmarks();
    ZeroReads(0.0);
  }

  lemma HugeLiteral(h: Literal)
    requires AllHex(h.ip + h.fp) && HexVal(h.ip + h.fp) > 0 && Huge(h.power)
    ensures 0x7ff0_0000 * BASE == INFINITY
    ensures ReadsAs(LiteralValue(h), if h.power.negative then 0 else INFINITY) <==> !Untrue(h)
  {
    hide RPow, HexVal, ReadsAs, DigitsVal, DoubleValue;
    var x := LiteralValue(h);
    RPowPos(2, Exponent2(h.power) - 4 * |h.fp|);
    ZeroReads(x);
    InfiniteReads(x);
    LargestIs();
    NextValue(LARGEST);
    BinadeValue(2047);
    assert HalfGapUp(LARGEST) == 970;
    RPowSucc(2, 970);
  }

  lemma {:induction false} HexBelow(s: Bytes)
    requires HexText(s)
    ensures 0 <= HexVal(s) < Pow(16, |s|)
  {
    if s != [] {
      var i := |s| - 1;
      HexBelow(s[..i]);
      HexRange(s[i]);
      PowStep(16, i);
    }
  }

  /** With fewer than 2^28 digits an exponent too large to count leaves no doubt. */
  lemma FewDigits(h: Literal)
    requires AllHex(h.ip + h.fp) && |h.ip + h.fp| < 0x1000_0000 && Huge(h.power)
    ensures !Untrue(h)
  {
    hide RPow, Pow, HexVal, DigitsVal;
    var d, x, e := h.ip + h.fp, LiteralValue(h), Exponent2(h.power) - 4 * |h.fp|;
    HexBelow(d);
    RPowPos(2, e);
    if h.power.negative {
      Sixteen(0);
      PowOfPow(2, 4, |d|);
      NatRPow(2, 4 * |d|);
      RPowAdd(2, 4 * |d|, e);
      RPowMono(2, 4 * |d| + e, -1075);
      Below(HexVal(d) as real, RPow(2, 4 * |d|), RPow(2, e));
    } else if HexVal(d) > 0 {
      assert e >= 1024;
      RPowMono(2, 1024, e);
      RPowPos(2, 970);
      Below(1.0, HexVal(d) as real, RPow(2, e));
      assert x >= 1.0 * RPow(2, e) >= RPow(2, 1024);
    } else {
      NoUnits(RPow(2, e));
    }
  }

  lemma NoUnits(g: real)
    ensures (0 as real) * g == 0.0
  {
  }

  lemma Below(a: real, b: real, g: real)
    requires a <= b && g > 0.0
    ensures a * g <= b * g
  {
  }

  // ----- a text that is missed -----

  lemma StopsAt(a: Bytes, t: Bytes)
    requires AllHex(a) && !IsHex(Peek(t, 0))
    ensures HexRun(a + t) == a
  {
    hide IsHex;
    HexRunAfter(a, t);
    assert HexRun(t) == [] && a + [] == a;
  }

  /** The exponent part: p or P, a sign or none, digits. */
  predicate PowerPart(x: Bytes, letter: Byte, sign: Bytes, d: Bytes) {
    (letter == 'p' || letter == 'P') && SignText(sign) && AllDigits(d) && d != [] && x == [letter] + sign + d
  }

  lemma PowerRead(x: Bytes, letter: Byte, sign: Bytes, d: Bytes, rest: Bytes)
    requires PowerPart(x, letter, sign, d) && !IsDigit(Peek(rest, 0))
    ensures PowerAt(x + rest) == Power(sign == "-", d, |x|)
  {
    hide Run;
    var s, k := x + rest, 1 + |sign|;
    assert s[0] == letter && s[k..] == d + rest;
    assert s[1] == (if sign == [] then d[0] else sign[0]);
    RunIs(d, rest);
  }

  /** Digits with a point among them or not, before a text that no digit starts. */
  lemma DigitsRead(ip: Bytes, point: bool, fp: Bytes, more: Bytes)
    requires AllHex(ip) && AllHex(fp) && !IsHex(Peek(more, 0)) && (!point ==> fp == [] && Peek(more, 0) != '.')
    ensures var h, n := LiteralAt(ip + (if point then "." + fp else "") + more), |ip| + (if point then 1 + |fp| else 0);
            h == Literal(ip, fp, PowerAt(more), n + (if PowerAt(more).Power? then PowerAt(more).len else 0))
  {
    hide HexRun, PowerAt, LiteralAt, IsHex;
    if point {
      var t := "." + fp + more;
      var s := ip + t;
      PointTexts(ip, fp, more);
      PointIsNot();
      StopsAt(ip, t);
      StopsAt(fp, more);
      WithPoint(s, ip, t, fp, more);
    } else {
      var s := ip + more;
      assert ip + "" + more == s && s[|ip|..] == more;
      StopsAt(ip, more);
      WithoutPoint(s, ip, more);
    }
  }

  lemma PointIsNot()
    ensures !IsHex('.')
  {
  }

  lemma WithPoint(s: Bytes, ip: Bytes, tail: Bytes, fp: Bytes, more: Bytes)
    requires HexRun(s) == ip && |ip| <= |s| && s[|ip|..] == tail && tail != [] && tail[0] == '.'
    requires HexRun(tail[1..]) == fp && 1 + |fp| <= |tail| && tail[1 + |fp|..] == more
    ensures LiteralAt(s) == Literal(ip, fp, PowerAt(more),
                                    |ip| + 1 + |fp| + (if PowerAt(more).Power? then PowerAt(more).len else 0))
  {
    hide HexRun, PowerAt, AllHex;
  }

  lemma WithoutPoint(s: Bytes, ip: Bytes, more: Bytes)
    requires HexRun(s) == ip && |ip| <= |s| && s[|ip|..] == more && Peek(more, 0) != '.'
    ensures LiteralAt(s) == Literal(ip, [], PowerAt(more),
                                    |ip| + (if PowerAt(more).Power? then PowerAt(more).len else 0))
  {
    hide HexRun, PowerAt, AllHex, Peek;
    assert more[0..] == more;
  }

  /** A literal with an exponent: its digits times sixteen to the places after the point, times two to the exponent. */
  lemma LiteralRead(ip: Bytes, point: bool, fp: Bytes, x: Bytes, letter: Byte, sign: Bytes, d: Bytes, rest: Bytes)
    requires AllHex(ip) && AllHex(fp) && (!point ==> fp == []) && PowerPart(x, letter, sign, d)
             && !IsDigit(Peek(rest, 0))
    ensures var body := ip + (if point then "." + fp else "") + x;
            var h := LiteralAt(body + rest);
            && h.ip == ip && h.fp == fp && h.power == Power(sign == "-", d, |x|) && h.len == |body|
            && LiteralValue(h) == BinaryValue(HexVal(ip + fp), SignedValue(sign, d) - 4 * |fp|)
  {
    hide LiteralAt, PowerAt, HexVal, DigitsVal, RPow;
    var body := ip + (if point then "." + fp else "") + x;
    PowerRead(x, letter, sign, d, rest);
    assert (x + rest)[0] == letter;
    DigitsRead(ip, point, fp, x + rest);
    assert body + rest == ip + (if point then "." + fp else "") + (x + rest);
  }

  /** And without one. */
  lemma WholeRead(ip: Bytes, point: bool, fp: Bytes, rest: Bytes)
    requires AllHex(ip) && AllHex(fp) && (!point ==> fp == []) && !IsHex(Peek(rest, 0)) && Peek(rest, 0) != '.'
    requires Peek(rest, 0) == 'p' || Peek(rest, 0) == 'P' ==> NoExponentDigits(rest)
    ensures var body := ip + (if point then "." + fp else "");
            var h := LiteralAt(body + rest);
            && h.ip == ip && h.fp == fp && h.len == |body|
            && LiteralValue(h) == BinaryValue(HexVal(ip + fp), -4 * |fp|)
  {
    hide LiteralAt, HexVal, RPow;
    NoPowerRead(rest);
    DigitsRead(ip, point, fp, rest);
  }

  lemma NoPowerRead(rest: Bytes)
    requires Peek(rest, 0) == 'p' || Peek(rest, 0) == 'P' ==> NoExponentDigits(rest)
    ensures PowerAt(rest) == NoPower
  {
    hide Run;
    var k := if Peek(rest, 1) == '+' || Peek(rest, 1) == '-' then 2 else 1;
    if |rest| >= k && (rest[0] == 'p' || rest[0] == 'P') {
      assert Peek(rest[k..], 0) == Peek(rest, k);
      DecimalTexts.NoRun(rest[k..]);
    }
  }

  /** The exponent multiplies by a power of two, and with a minus divides by it. */
  lemma PowerScales(ip: Bytes, fp: Bytes, letter: Byte, d: Bytes)
    requires AllHex(ip) && AllHex(fp) && (letter == 'p' || letter == 'P') && AllDigits(d) && d != []
    ensures var t, p := ip + "." + fp, RPow(2, DigitsVal(d));
            var whole := LiteralValue(LiteralAt(t));
            && LiteralValue(LiteralAt(t + [letter] + "-" + d)) * p == whole
            && LiteralValue(LiteralAt(t + [letter] + "+" + d)) == whole * p
            && LiteralValue(LiteralAt(t + [letter] + d)) == whole * p
  {
    hide LiteralAt, HexVal, DigitsVal, RPow, BinaryValue, LiteralValue;
    WholeAt(ip, fp);
    ScaledAt(ip, fp, letter, "-", d);
    ScaledAt(ip, fp, letter, "+", d);
    ScaledAt(ip, fp, letter, "", d);
    assert ip + "." + fp + [letter] + "" + d == ip + "." + fp + [letter] + d;
    HexBelow(ip + fp);
    var M, e, k := HexVal(ip + fp), -4 * |fp|, DigitsVal(d);
    TwoTimes(M, e - k, k);
    TwoTimes(M, e, k);
  }

  lemma WholeAt(ip: Bytes, fp: Bytes)
    requires AllHex(ip) && AllHex(fp)
    ensures LiteralValue(LiteralAt(ip + "." + fp)) == BinaryValue(HexVal(ip + fp), -4 * |fp|)
  {
    hide LiteralAt, HexVal, RPow, BinaryValue, LiteralValue, AllHex;
    WholeRead(ip, true, fp, []);
    PointBetween(ip, fp);
  }

  lemma PointBetween(ip: Bytes, fp: Bytes)
    ensures ip + ("." + fp) + [] == ip + "." + fp
  {
    assert ip + ("." + fp) == ip + "." + fp;
  }

  lemma ScaledAt(ip: Bytes, fp: Bytes, letter: Byte, sign: Bytes, d: Bytes)
    requires AllHex(ip) && AllHex(fp) && (letter == 'p' || letter == 'P') && SignText(sign) && AllDigits(d) && d != []
    ensures LiteralValue(LiteralAt(ip + "." + fp + [letter] + sign + d)) ==
            BinaryValue(HexVal(ip + fp), SignedValue(sign, d) - 4 * |fp|)
  {
    hide LiteralAt, HexVal, RPow, BinaryValue, LiteralValue, DigitsVal;
    var x := [letter] + sign + d;
    LiteralRead(ip, true, fp, x, letter, sign, d, []);
    Regroup(ip, fp, [letter], sign, d);
  }

  lemma Regroup(ip: Bytes, fp: Bytes, letter: Bytes, sign: Bytes, d: Bytes)
    ensures ip + ("." + fp) + (letter + sign + d) + [] == ip + "." + fp + letter + sign + d
  {
    var a := ip + "." + fp;
    assert ip + ("." + fp) == a;
    assert a + (letter + sign + d) == a + letter + sign + d;
  }

  lemma TwoTimes(M: nat, e: int, k: int)
    ensures BinaryValue(M, e) * RPow(2, k) == BinaryValue(M, e + k)
  {
    hide RPow;
    RPowAdd(2, e, k);
    assert ((M as real) * RPow(2, e)) * RPow(2, k) == (M as real) * (RPow(2, e) * RPow(2, k));
  }

  lemma Power1024()
    ensures AllDigits("1024") && DigitsVal("1024") == 1024
  {
    assert "1024"[..3] == "102" && "102"[..2] == "10" && "10"[..1] == "1" && "1"[..0] == [];
    assert DigitsVal("1") == 1;
    assert DigitsVal("10") == 10;
    assert DigitsVal("102") == 102;
  }

  /** 0x1.8p1024 should overflow, and does not come out as infinity. */
  method OverflowMissed() returns (w0: Word, w1: Word)
    ensures ReadsAs(24.0 * RPow(2, 1020), INFINITY) && w0 * BASE + w1 != INFINITY
  {
    hide RPow, ReadsAs, Missed, HexVal, LiteralAt, DigitsVal;
    var data := "0x" + ("1" + ("." + ("8" + ("p" + "1024")))) + "\0";
    assert From(data, 2) == "1" + ("." + "8") + "p1024" + [];
    assert "p1024" == ['p'] + "" + "1024";
    Power1024();
    LiteralRead("1", true, "8", "p1024", 'p', "", "1024", []);
    ghost var h := LiteralAt(From(data, 2));
    OneAndAHalf();
    NoPoint("1", "8");
    assert "1" + "." + "8" == "1.8";
    assert LiteralValue(h) == 24.0 * RPow(2, 1020);
    OverflowInput();
    var end;
    w0, w1, end := GetHex(data, 2);
    PowerSteps(1020);
    RPowPos(2, 1020);
    AtLeastInfinity(24.0 * RPow(2, 1020));
  }
}
