/** The scanner of fpconv_strtod as a whole: sign, mantissa and exponent of a decimal number. */
module ScanNumber {
  import opened Arith
  import opened Rational
  import opened Bignum
  import opened StrBufs
  import opened JsonStrings
  import opened Decimal
  import opened BigcompDigits
  import opened ShortestDigits
  import opened Scanner

  predicate AllZeros(s: seq<char>) {
    forall i :: 0 <= i < |s| ==> s[i] == '0'
  }

  /** Exponents beyond 19999 are taken for 19999. */
  function Cap(e: int): int { if e > 19999 then 19999 else if e < -19999 then -19999 else e }

  method SkipZeros(data: Bytes, i: nat) returns (j: nat)
    requires Terminated(data) && i < |data|
    ensures i <= j < |data| && AllZeros(data[i..j]) && data[j] != '0'
    ensures Run(From(data, i)) == data[i..j] + Run(From(data, j))
  {
    hide Run, From;
    j := i;
    RunStart(data, i);
    while data[j] == '0'
      invariant i <= j < |data| && AllZeros(data[i..j])
      invariant Run(From(data, i)) == data[i..j] + Run(From(data, j))
      decreases |data| - j
    {
      RunGrow(data, i, j);
      j := j + 1;
    }
  }

  // ----- exponent -----

  /** Leading zeros do not count; nine digits without them exceed the cap. */
  lemma ExponentDigits(z: Bytes, d: Bytes)
    requires AllZeros(z) && AllDigits(d) && (d != [] ==> d[0] != '0')
    ensures DigitsVal(z + d) == DigitsVal(d)
    ensures |d| > 8 ==> DigitsVal(d) > 19999
    ensures d == [] ==> DigitsVal(d) == 0
  {
    hide Pow, DigitsVal;
    NoDigits();
    DigitsConcat(z, d);
    DigitsZeros(z);
    if |d| > 8 {
      DigitsLead(d);
      PowMono(10, 5, |d| - 1);
      HundredThousand();
    }
  }

  lemma HundredThousand()
    ensures Pow(10, 5) == 100_000
  {
  }

  /** A run of digits as a number. */
  method RunNumber(data: Bytes, s1: nat) returns (L: nat, s: nat)
    requires Terminated(data) && s1 < |data|
    ensures s1 <= s < |data| && Run(From(data, s1)) == data[s1..s] && L == DigitsVal(data[s1..s])
  {
    hide Run, From, DigitsVal;
    s, L := s1, 0;
    RunStart(data, s1);
    NoDigits();
    while IsDigit(data[s])
      invariant s1 <= s < |data| && L == DigitsVal(data[s1..s])
      invariant Run(From(data, s1)) == data[s1..s] + Run(From(data, s))
      decreases |data| - s
    {
      RunGrow(data, s1, s);
      OneMore(data[s1..s], data[s]);
      L := 10 * L + DigitOf(data[s]);
      s := s + 1;
    }
    RunStop(data, s1, s);
  }

  /** The digits of an exponent, capped. */
  method ExponentValue(data: Bytes, s0: nat) returns (e: nat, s: nat)
    requires Terminated(data) && s0 < |data| && IsDigit(data[s0])
    ensures s0 <= s < |data| && Run(From(data, s0)) == data[s0..s] && e == Cap(DigitsVal(data[s0..s]))
  {
    hide Run, From, DigitsVal;
    s := SkipZeros(data, s0);
    ghost var z := data[s0..s];
    e := 0;
    if IsDigit(data[s]) {
      var s1, L := s, 0;
      L, s := RunNumber(data, s1);
      RunStep(data, s1);
      assert data[s0..s] == z + data[s1..s];
      ExponentDigits(z, data[s1..s]);
      if s - s1 > 8 || L > 19999 {
        e := 19999;
      } else {
        e := L;
      }
    } else {
      RunStep(data, s);
      ExponentDigits(z, []);
      assert z + [] == z;
    }
  }

  lemma NoDigits()
    ensures DigitsVal([]) == 0
  {
  }

  lemma OneMore(s: Bytes, c: Byte)
    requires IsDigit(c)
    ensures DigitsVal(s + [c]) == 10 * DigitsVal(s) + DigitOf(c) && DigitOf(c) >= 0
  {
    assert (s + [c])[..|s|] == s && (s + [c])[..|s| + 1] == s + [c];
    DigitsSnoc(s + [c], |s|);
  }

  lemma ExponentIs(data: Bytes, s00: nat, s1: nat)
    requires Terminated(data) && s00 < |data| && (data[s00] == 'e' || data[s00] == 'E') && s00 + 1 < |data|
    requires s1 == if data[s00 + 1] == '-' || data[s00 + 1] == '+' then s00 + 2 else s00 + 1
    ensures s1 < |data|
    ensures var d := Run(From(data, s1));
            Exponent(From(data, s00)) ==
            if d == [] then (0, 0)
            else (if data[s00 + 1] == '-' then -DigitsVal(d) else DigitsVal(d), s1 - s00 + |d|)
  {
    hide Run, DigitsVal;
    PeekFrom(data, s00);
    PeekFrom(data, s00 + 1);
    assert From(data, s00)[s1 - s00..] == From(data, s1);
  }

  /** The exponent part, if what follows the letter is one. */
  method ScanExponent(data: Bytes, s00: nat) returns (e: int, s: nat)
    requires Terminated(data) && s00 < |data| && (data[s00] == 'e' || data[s00] == 'E')
    ensures var (exp, n) := Exponent(From(data, s00));
            s00 + n < |data| && e == Cap(exp) && s == s00 + n
  {
    hide Run, DigitsVal, From, Exponent;
    var esign := false;
    e, s := 0, s00 + 1;
    if data[s] == '-' {
      esign := true;
      s := s + 1;
    } else if data[s] == '+' {
      s := s + 1;
    }
    ExponentIs(data, s00, s);
    RunStep(data, s);
    if IsDigit(data[s]) {
      e, s := ExponentValue(data, s);
      if esign {
        e := -e;
      }
    } else {
      s := s00;
    }
  }

  // ----- mantissa -----

  /**
   nd counted digits from s0 on, nd0 of them before the point; nf is what the point moved; zeros tells that some
   zero was seen.
   */
  datatype Mantissa =
    Mantissa(s0: nat, nd: nat, nd0: nat, dp1: int, dplen: nat, y: nat, z: nat, nz1: nat, nf: int, zeros: bool, end: nat)

  /** The counted digits lie inside the string. */
  ghost predicate Inside(m: Mantissa, data: Bytes) {
    m.nd0 <= m.nd && m.s0 + m.nd + (if m.nd > m.nd0 then m.dplen else 0) < |data|
  }

  /** The digits after the point start at dp1; if none is counted, the point lies past the digits or before them all. */
  ghost predicate Placed(m: Mantissa) {
    m.dp1 == m.nd0 + m.dplen || (m.nd == m.nd0 && m.dp1 <= 0)
  }

  ghost function Digits(m: Mantissa, data: Bytes): seq<char>
    requires Inside(m, data)
  {
    Counted(data[m.s0..], m.nd, m.nd0, m.nd0 + m.dplen)
  }

  /** c are counted digits: no leading zero, the last nz1 of them zeros, the first nine in y. */
  ghost predicate Clean(c: seq<char>, nz1: nat, y: int) {
    nz1 < |c| && EndsAt(c, |c| - nz1) && c[0] != '0' && y == Head(c)
  }

  /** m is what is to be known of the digits ip.fp. */
  ghost predicate Counts(m: Mantissa, data: Bytes, ip: Bytes, fp: Bytes) {
    if m.nd == 0 then AllZeros(ip + fp) && (m.zeros <==> ip + fp != [])
    else
      && Inside(m, data) && Placed(m)
      && Clean(Digits(m, data), m.nz1, m.y) && m.z == Second(Digits(m, data))
      && 0 <= m.nf <= |fp|
      && DigitsVal(ip + fp) == DigitsVal(Digits(m, data)) * Pow(10, |fp| - m.nf)
  }

  /** Leading zeros add nothing, trailing ones a power of ten. */
  lemma DropZeros(z: seq<char>, c: seq<char>, t: seq<char>)
    requires AllZeros(z) && AllZeros(t)
    ensures DigitsVal(z + c + t) == DigitsVal(c) * Pow(10, |t|)
  {
    hide Pow, DigitsVal;
    DigitsConcat(z + c, t);
    DigitsConcat(z, c);
    DigitsZeros(z);
    DigitsZeros(t);
  }

  /** The digits i before the point and g after it, once the last nz of g are dropped, are clean. */
  lemma CleanFraction(i: Bytes, g: Bytes, nd: nat, y: int, z: int, nf: int, nf0: int, nz: nat, nz1: nat, nz10: nat)
    requires AllDigits(i) && AllDigits(g) && Fraction(i, g, nd, y, z, nf, nf0, nz, nz1, nz10)
    requires nz10 <= |i| && (forall k :: |i| - nz10 <= k < |i| ==> i[k] == '0')
             && (nz10 < |i| ==> i[|i| - nz10 - 1] != '0')
    requires i + g != [] && (i + g)[0] != '0'
    ensures var c := i + g[..|g| - nz]; |c| == nd && Clean(c, nz1, y) && z == Second(c)
  {
    hide Head, Second;
    var c := i + g[..|g| - nz];
    assert i != [] ==> i[0] == (i + g)[0];
    assert i == [] ==> g[0] == (i + g)[0];
  }

  lemma Part(data: Bytes, i: nat, a: nat, b: nat)
    requires a <= b && i + b <= |data|
    ensures data[i..][a..b] == data[i + a..i + b]
  {
  }

  lemma CountedAre(m: Mantissa, data: Bytes, s: nat, e: nat, k: nat)
    requires m.s0 <= s <= s + m.dplen <= e < |data| && m.nd0 == s - m.s0 && k <= e - s - m.dplen && m.nd == m.nd0 + k
    ensures Inside(m, data) && Digits(m, data) == data[m.s0..s] + data[s + m.dplen..e][..k]
  {
    var a := m.nd0 + m.dplen;
    Part(data, m.s0, 0, m.nd0);
    Part(data, m.s0, a, a + k);
    assert data[s + m.dplen..e][..k] == data[s + m.dplen..s + m.dplen + k];
  }

  /** Digits before the point, and any after it. */
  lemma BeforeAndAfter(m: Mantissa, data: Bytes, p: nat, s: nat, e: nat, nz: nat, nz10: nat)
    requires p <= m.s0 < s <= s + m.dplen <= e < |data| && m.nd0 == s - m.s0
    requires AllZeros(data[p..m.s0]) && AllDigits(data[m.s0..s]) && AllDigits(data[s + m.dplen..e]) && data[m.s0] != '0'
    requires Fraction(data[m.s0..s], data[s + m.dplen..e], m.nd, m.y, m.z, m.nf, 0, nz, m.nz1, nz10)
    requires nz10 <= s - m.s0 && (forall k :: s - nz10 <= k < s ==> data[k] == '0')
             && (nz10 < s - m.s0 ==> data[s - nz10 - 1] != '0')
    requires m.dp1 == m.nd0 + m.dplen
    ensures Counts(m, data, data[p..m.s0] + data[m.s0..s], data[s + m.dplen..e])
  {
    hide Head, Second, DigitsVal, Pow, Clean;
    var z, i, g := data[p..m.s0], data[m.s0..s], data[s + m.dplen..e];
    CleanFraction(i, g, m.nd, m.y, m.z, m.nf, 0, nz, m.nz1, nz10);
    var k := |g| - nz;
    CountedAre(m, data, s, e, k);
    assert AllZeros(g[k..]);
    DropZeros(z, i + g[..k], g[k..]);
    assert z + i + g == z + (i + g[..k]) + g[k..];
  }

  /** Nothing but zeros before the first counted digit, which stands after the point. */
  lemma OnlyAfter(m: Mantissa, data: Bytes, z: Bytes, z1: Bytes, e: nat, nz: nat)
    requires m.s0 < e < |data| && m.nd0 == m.nd && m.dp1 <= 0 && AllZeros(z) && AllZeros(z1)
    requires AllDigits(data[m.s0..e]) && data[m.s0] != '0'
    requires Fraction([], data[m.s0..e], m.nd, m.y, m.z, m.nf, |z1|, nz, m.nz1, 0)
    ensures Counts(m, data, z, z1 + data[m.s0..e])
  {
    hide Head, Second, DigitsVal, Pow, Clean;
    var g := data[m.s0..e];
    CleanFraction([], g, m.nd, m.y, m.z, m.nf, |z1|, nz, m.nz1, 0);
    var k := |g| - nz;
    assert Digits(m, data) == [] + g[..k];
    assert AllZeros(g[k..]);
    DropZeros(z + z1, [] + g[..k], g[k..]);
    assert z + (z1 + g) == (z + z1) + ([] + g[..k]) + g[k..];
  }

  lemma OnlyZeros(m: Mantissa, data: Bytes, z: Bytes, z1: Bytes)
    requires m.nd == 0 && AllZeros(z) && AllZeros(z1) && (m.zeros <==> |z| + |z1| > 0)
    ensures Counts(m, data, z, z1)
  {
    assert AllZeros(z + z1);
  }

  /** The digits after a point at s: what the grammar reads there. */
  ghost function After(data: Bytes, s: nat): Bytes
    requires s < |data| && Terminated(data)
  {
    if data[s] == '.' then Run(From(data, s + 1)) else []
  }

  /** From the first digit to the end of the digits after the point. */
  method ScanMantissa(data: Bytes, p: nat) returns (m: Mantissa)
    requires Terminated(data) && p < |data|
    ensures var ip := Run(From(data, p));
            && p + |ip| < |data| && m.end < |data|
            && var fp := After(data, p + |ip|);
               m.end == p + |ip| + (if data[p + |ip|] == '.' then 1 else 0) + |fp| && Counts(m, data, ip, fp)
  {
    hide Run, From, Fraction, Head, Second, Counts, Clean;
    HeadNone();
    var s0 := SkipZeros(data, p);
    var s, nd, y, w := IntegerDigits(data, s0);
    ghost var z := data[p..s0];
    assert data[p..s0] + data[s0..s] == data[p..s];
    var nd0, dp1, dplen, nf, nz := nd, s - s0, 0, 0, 0;
    var nz1 := TrailingZeros(data, s0, s);
    var nz10 := nz1;
    if data[s] != '.' {
      m := Mantissa(s0, nd, nd0, dp1, dplen, y, w, nz1, nf, s0 > p, s);
      if nd > 0 {
        FractionNone(data[s0..s], nd, 0, nz1);
        assert data[s..s] == [];
        BeforeAndAfter(m, data, p, s, s, 0, nz1);
      } else {
        assert z + data[s0..s] == z;
        OnlyZeros(m, data, z, []);
      }
      return;
    }
    var i := s + 1;
    dp1, dplen := i - s0, 1;
    if nd == 0 {
      assert z + data[s0..s] == z;
      var j := SkipZeros(data, i);
      nz := j - i;
      if IsDigit(data[j]) {
        dp1 := s0 - j + dplen;
        ghost var z1 := data[i..j];
        var e;
        nf := nz;
        e, nd, y, w, nf, nz, nz1 := FractionDigits(data, j, [], 0, 0, 0, nf, 0);
        RunStep(data, j);
        m := Mantissa(j, nd, nd, dp1, dplen, y, w, nz1, nf, true, e);
        OnlyAfter(m, data, z, z1, e, nz);
      } else {
        RunStart(data, j);
        RunStop(data, j, j);
        assert data[i..j] + [] == data[i..j];
        m := Mantissa(s0, 0, 0, dp1, dplen, y, w, nz1, nf, nz > 0 || s0 > p, j);
        OnlyZeros(m, data, z, data[i..j]);
      }
    } else {
      var e;
      e, nd, y, w, nf, nz, nz1 := FractionDigits(data, i, data[s0..s], nd, y, w, 0, nz1);
      m := Mantissa(s0, nd, nd0, dp1, dplen, y, w, nz1, nf, s0 > p, e);
      BeforeAndAfter(m, data, p, s, e, nz, nz10);
    }
  }

  // ----- the number -----

  /** Zero has no counted digits; a found number is its counted digits times 10^e. */
  datatype Scanned =
    | Nothing
    | Hex(sign: bool, at: nat)
    | Zero(sign: bool, end: nat)
    | Found(sign: bool, m: Mantissa, e: int, end: nat)

  /** r is what num asks for. */
  ghost predicate Right(r: Scanned, data: Bytes, start: nat, num: Number) {
    match num
    case NoNumber => r.Nothing?
    case Hexadecimal(negative, len) => r.Hex? && r.sign == negative && 2 <= r.at == start + len < |data|
    case Decimal(negative, ip, fp, exp, len) =>
      && (r.Zero? || r.Found?) && r.sign == negative && r.end == start + len
      && (r.Zero? ==> AllZeros(ip + fp))
      && (r.Found? ==> r.m.nd > 0 && Counts(r.m, data, ip, fp) && r.e == Cap(exp) - r.m.nf)
  }

  /** The greedy reading in terms of positions. */
  lemma UnsignedAt(data: Bytes, p: nat)
    requires Terminated(data) && p < |data|
    ensures data[p] == '0' && (data[p + 1] == 'x' || data[p + 1] == 'X') ==>
              Scanner.Unsigned(From(data, p)) == Hexadecimal(false, 2) && p + 2 < |data|
    ensures !(data[p] == '0' && (data[p + 1] == 'x' || data[p + 1] == 'X')) ==>
              var ip := Run(From(data, p));
              && p + |ip| < |data|
              && var point := if data[p + |ip|] == '.' then 1 else 0;
                 var fp := After(data, p + |ip|);
                 var q := p + |ip| + point + |fp|;
                 && q < |data|
                 && Scanner.Unsigned(From(data, p)) ==
                    if ip == [] && fp == [] then NoNumber
                    else Decimal(false, ip, fp, Exponent(From(data, q)).0, q - p + Exponent(From(data, q)).1)
  {
    hide Run, Exponent, From;
    var ip := Run(From(data, p));
    HexPrefix(data, p);
    RunLength(data, p);
    FromDrop(data, p, |ip|);
    var q := p + |ip|;
    PeekFrom(data, q);
    if data[q] == '.' {
      RunLength(data, q + 1);
      FromDrop(data, q, 1);
      FromDrop(data, q, 1 + |Run(From(data, q + 1))|);
    } else {
      FromDrop(data, q, 0);
    }
  }

  lemma HexPrefix(data: Bytes, p: nat)
    requires Terminated(data) && p < |data|
    ensures var s := From(data, p);
            (Peek(s, 0) == '0' && (Peek(s, 1) == 'x' || Peek(s, 1) == 'X') <==>
             data[p] == '0' && (data[p + 1] == 'x' || data[p + 1] == 'X'))
  {
  }

  lemma RunLength(data: Bytes, p: nat)
    requires Terminated(data) && p < |data|
    ensures p + |Run(From(data, p))| < |data|
  {
  }

  lemma FromDrop(data: Bytes, i: nat, k: nat)
    requires i + k < |data|
    ensures |From(data, i)| == |data| - 1 - i && From(data, i)[k..] == From(data, i + k)
  {
  }

  lemma NoExponent(data: Bytes, q: nat)
    requires Terminated(data) && q < |data| && data[q] != 'e' && data[q] != 'E'
    ensures Exponent(From(data, q)) == (0, 0)
  {
    PeekFrom(data, q);
  }

  /** Everything after the sign. */
  method ScanUnsigned(data: Bytes, p: nat) returns (r: Scanned)
    requires Terminated(data) && p < |data|
    ensures Right(r, data, p, Scanner.Unsigned(From(data, p)))
  {
    hide Run, From, Exponent, Counts, Scanner.Unsigned;
    UnsignedAt(data, p);
    if data[p] == '0' && (data[p + 1] == 'x' || data[p + 1] == 'X') {
      return Hex(false, p + 2);
    }
    var m := ScanMantissa(data, p);
    ghost var ip := Run(From(data, p));
    ghost var fp := After(data, p + |ip|);
    SomeDigits(m, data, ip, fp);
    var e, end := 0, m.end;
    if data[end] == 'e' || data[end] == 'E' {
      if m.nd == 0 && !m.zeros {
        return Nothing;
      }
      e, end := ScanExponent(data, end);
    } else {
      NoExponent(data, end);
    }
    if m.nd == 0 {
      if !m.zeros {
        return Nothing;
      }
      return Zero(false, end);
    }
    return Found(false, m, e - m.nf, end);
  }

  lemma SomeDigits(m: Mantissa, data: Bytes, ip: Bytes, fp: Bytes)
    requires Counts(m, data, ip, fp)
    ensures m.nd == 0 ==> AllZeros(ip + fp)
    ensures m.nd == 0 && !m.zeros <==> ip == [] && fp == []
  {
    hide Head, Pow, Digits, Clean, DigitsVal;
    if m.nd > 0 && ip == [] && fp == [] {
      assert ip + fp == [];
      NoDigits();
      PowUnit(10);
      CleanPositive(m, data);
    }
  }

  lemma CleanPositive(m: Mantissa, data: Bytes)
    requires Inside(m, data) && Clean(Digits(m, data), m.nz1, m.y)
    ensures DigitsVal(Digits(m, data)) > 0
  {
    hide Head;
    NonzeroTail(Digits(m, data), 0);
  }

  lemma BlankStep(data: Bytes, s: nat)
    requires Terminated(data) && s < |data|
    ensures IsBlank(data[s]) ==> s + 1 < |data| && SkipBlank(From(data, s)) == SkipBlank(From(data, s + 1))
    ensures !IsBlank(data[s]) ==> SkipBlank(From(data, s)) == From(data, s)
  {
    PeekFrom(data, s);
  }

  /** The sign and what follows it, in terms of positions. */
  lemma GreedyAt(data: Bytes, start: nat, s: nat)
    requires Terminated(data) && start <= s < |data| && SkipBlank(From(data, start)) == From(data, s)
    ensures var signed := data[s] == '-' || data[s] == '+';
            && (signed ==> s + 1 < |data|)
            && var p := if signed then s + 1 else s;
               Greedy(From(data, start)) == Signed(Scanner.Unsigned(From(data, p)), data[s] == '-', p - start)
  {
    hide SkipBlank, Scanner.Unsigned, From;
    PeekFrom(data, s);
    FromDrop(data, start, 0);
    FromDrop(data, s, 0);
  }

  lemma EmptyNumber(data: Bytes, p: nat)
    requires Terminated(data) && p < |data| && data[p] == '\0'
    ensures Scanner.Unsigned(From(data, p)).NoNumber?
  {
    hide Scanner.Unsigned, From;
    RunStep(data, p);
    UnsignedAt(data, p);
  }

  /** The scanner from the first byte on: blanks, a sign, the number. */
  method Scan(data: Bytes, start: nat) returns (r: Scanned)
    requires Terminated(data) && start < |data|
    ensures Right(r, data, start, Greedy(From(data, start)))
  {
    hide From, SkipBlank, Scanner.Unsigned, Counts, Greedy;
    var s := start;
    while IsBlank(data[s])
      invariant start <= s < |data| && SkipBlank(From(data, s)) == SkipBlank(From(data, start))
      decreases |data| - s
    {
      BlankStep(data, s);
      s := s + 1;
    }
    BlankStep(data, s);
    GreedyAt(data, start, s);
    var sign := data[s] == '-';
    if data[s] == '-' || data[s] == '+' {
      s := s + 1;
      if data[s] == '\0' {
        EmptyNumber(data, s);
        return Nothing;
      }
    }
    r := ScanUnsigned(data, s);
    if sign {
      match r {
        case Hex(_, at) => r := Hex(true, at);
        case Zero(_, end) => r := Zero(true, end);
        case Found(_, m, e, end) => r := Found(true, m, e, end);
        case _ =>
      }
    }
  }

  /** The absolute value that a decimal number denotes. */
  ghost function NumberValue(n: Number): real
    requires n.Decimal?
  {
    DecimalValue(DigitsVal(n.ip + n.fp), n.exp - |n.fp|)
  }

  /** The counted digits times 10^e are the number if and only if its exponent was not capped. */
  lemma ScannedValue(r: Scanned, data: Bytes, start: nat, n: Number)
    requires Right(r, data, start, n) && n.Decimal?
    ensures r.Found? ==> Inside(r.m, data) && DigitsVal(Digits(r.m, data)) > 0
    ensures r.Found? ==> (DecimalValue(DigitsVal(Digits(r.m, data)), r.e) == NumberValue(n) <==>
            -19999 <= n.exp <= 19999)
    ensures r.Zero? ==> NumberValue(n) == 0.0
  {
    hide DigitsVal, Digits, Clean, Pow, RPow;
    if r.Zero? {
      DigitsZeros(n.ip + n.fp);
      assert 0 as real * RPow(10, n.exp - |n.fp|) == 0.0;
    } else {
      var c, k := DigitsVal(Digits(r.m, data)), |n.fp| - r.m.nf;
      CleanPositive(r.m, data);
      ScaleValue(c, n.exp - r.m.nf, n.exp - |n.fp|, k);
      SameExponent(c, r.e, n.exp - r.m.nf);
    }
  }

  lemma SameExponent(c: int, a: int, b: int)
    requires c > 0
    ensures DecimalValue(c, a) == DecimalValue(c, b) <==> a == b
  {
    hide RPow;
    if a < b { LessExponent(c, a, b); }
    if b < a { LessExponent(c, b, a); }
  }

  lemma LessExponent(c: int, a: int, b: int)
    requires c > 0 && a < b
    ensures DecimalValue(c, a) < DecimalValue(c, b)
  {
    hide RPow;
    RPowMono(10, a + 1, b);
    RPowSucc(10, a);
    RPowPos(10, a);
    RCancel(c as real, RPow(10, a), RPow(10, b));
  }

  lemma ScaleValue(c: int, e: int, e1: int, k: nat)
    requires e == e1 + k
    ensures DecimalValue(c * Pow(10, k), e1) == DecimalValue(c, e)
  {
    hide Pow, RPow;
    RPowAdd(10, e1, k);
    NatRPow(10, k);
    CastMul(c, Pow(10, k));
    Reassociate(c as real, Pow(10, k) as real, RPow(10, e1), RPow(10, e));
  }

  lemma Reassociate(c: real, p: real, q: real, pq: real)
    requires pq == q * p
    ensures c * p * q == c * pq
  {
    assert c * p * q == c * (q * p);
  }

  /** Scanner and s2b together: the Bigint times 10^e is the number read. */
  method ReadDecimal(data: Bytes, start: nat) returns (r: Scanned, b: Bigint?)
    requires Terminated(data) && start < |data|
    ensures Right(r, data, start, Greedy(From(data, start)))
    ensures r.Found? <==> b != null
    ensures b != null ==> fresh(b) && fresh(b.x) && b.Valid() && b.Val() > 0
    ensures var n := Greedy(From(data, start));
            b != null ==> (DecimalValue(b.Val(), r.e) == NumberValue(n) <==> -19999 <= n.exp <= 19999)
  {
    hide From, Greedy, Head, DigitsVal, DecimalValue, Clean, Pow;
    b := null;
    r := Scan(data, start);
    ghost var n := Greedy(From(data, start));
    if r.Found? {
      var m := r.m;
      CleanDigits(m, data);
      CleanPositive(m, data);
      b := S2b(data[m.s0..], m.nd0, m.nd, m.y, m.dplen);
      ScannedValue(r, data, start, n);
    }
  }

  lemma CleanDigits(m: Mantissa, data: Bytes)
    requires Inside(m, data) && Clean(Digits(m, data), m.nz1, m.y)
    ensures AllDigits(Digits(m, data)) && m.y == Head(Digits(m, data))
  {
  }
}
