/**
 The decimal scanner of fpconv_strtod: from bytes to an integer of counted digits and a power
 of ten, and s2b, which makes that integer a Bigint.
 */
module Scanner {
  import opened Arith
  import opened Words
  import opened Bignum
  import opened StrBufs
  import opened JsonStrings
  import opened Decimal
  import opened BigcompDigits

  // ----- the grammar, read greedily from the front -----

  /** The digits that s starts with. */
  function Run(s: Bytes): (r: Bytes)
    ensures |r| <= |s| && r == s[..|r|] && AllDigits(r)
    ensures !IsDigit(Peek(s, |r|))
  {
    if IsDigit(Peek(s, 0)) then [s[0]] + Run(s[1..]) else []
  }

  lemma {:induction false} RunIs(a: Bytes, b: Bytes)
    requires AllDigits(a) && !IsDigit(Peek(b, 0))
    ensures Run(a + b) == a
  {
    if a == [] {
      assert a + b == b;
    } else {
      assert IsDigit(a[0]) && (a + b)[1..] == a[1..] + b;
      RunIs(a[1..], b);
    }
  }

  predicate IsBlank(c: Byte) { 9 <= c as int <= 13 || c == ' ' }

  function SkipBlank(s: Bytes): (r: Bytes)
    ensures |r| <= |s| && !IsBlank(Peek(r, 0))
  {
    if IsBlank(Peek(s, 0)) then SkipBlank(s[1..]) else s
  }

  /** The exponent part at the start of s, if it is one: its value and length. */
  function Exponent(s: Bytes): (int, nat) {
    if Peek(s, 0) != 'e' && Peek(s, 0) != 'E' then (0, 0)
    else
      var sign := if Peek(s, 1) == '-' || Peek(s, 1) == '+' then 1 else 0;
      var digits := Run(s[1 + sign..]);
      if digits == [] then (0, 0)
      else
        (if Peek(s, 1) == '-' then -DigitsVal(digits) else DigitsVal(digits), 1 + sign + |digits|)
  }

  /**
   The parts of a decimal number: sign, digits before and after the point, exponent; len counts all of it. For a
   hexadecimal one len counts what stands before its digits.
   */
  datatype Number =
    | NoNumber
    | Hexadecimal(negative: bool, len: nat)
    | Decimal(negative: bool, ip: Bytes, fp: Bytes, exp: int, len: nat)

  /** From the sign on. */
  function Unsigned(s: Bytes): (n: Number)
    ensures !n.NoNumber? ==> !n.negative
  {
    if Peek(s, 0) == '0' && (Peek(s, 1) == 'x' || Peek(s, 1) == 'X') then Hexadecimal(false, 2)
    else
      var ip := Run(s);
      var t := s[|ip|..];
      var fp := if Peek(t, 0) == '.' then Run(t[1..]) else [];
      var point := if Peek(t, 0) == '.' then 1 else 0;
      if ip == [] && fp == [] then NoNumber
      else
        var (exp, n) := Exponent(t[point + |fp|..]);
        Decimal(false, ip, fp, exp, |ip| + point + |fp| + n)
  }

  /** n after a sign and len other bytes. */
  function Signed(n: Number, negative: bool, len: nat): Number {
    match n
    case NoNumber => NoNumber
    case Hexadecimal(_, k) => Hexadecimal(negative, len + k)
    case Decimal(_, ip, fp, exp, k) => Decimal(negative, ip, fp, exp, len + k)
  }

  function Greedy(s: Bytes): Number {
    var t := SkipBlank(s);
    if Peek(t, 0) == '-' || Peek(t, 0) == '+' then Signed(Unsigned(t[1..]), Peek(t, 0) == '-', |s| - |t| + 1)
    else Signed(Unsigned(t), false, |s| - |t|)
  }

  // ----- the counted digits -----

  function Min(a: nat, b: nat): nat { if a < b then a else b }

  /** The first nine digits, gathered in one word while scanning. */
  function Head(c: seq<char>): int {
    DigitsVal(c[..Min(9, |c|)])
  }

  /** The tenth digit to the sixteenth, gathered in a second word. */
  function Second(c: seq<char>): int {
    DigitsVal(c[Min(9, |c|)..Min(16, |c|)])
  }

  lemma SecondSnoc(c: seq<char>, d: char)
    ensures Second(c + [d]) == if 9 <= |c| < 16 then 10 * Second(c) + DigitOf(d) else Second(c)
  {
    hide DigitsVal;
    if |c| < 9 {
      assert (c + [d])[Min(9, |c| + 1)..Min(16, |c| + 1)] == [] == c[|c|..|c|];
    } else if |c| < 16 {
      var t := (c + [d])[9..];
      assert t[..|c| - 9] == c[9..] && t[..|c| - 9 + 1] == t && t[|c| - 9] == d;
      DigitsSnoc(t, |c| - 9);
      assert (c + [d])[9..|c| + 1] == t && c[9..|c|] == c[9..];
    } else {
      assert (c + [d])[9..16] == c[9..16];
    }
  }

  lemma SecondFits(c: seq<char>)
    requires AllDigits(c)
    ensures 0 <= Second(c) < 10_000_000 < BASE
  {
    var k, l := Min(9, |c|), Min(16, |c|);
    DigitsBound(c[k..l]);
    PowMono(10, l - k, 7);
    assert Pow(10, 3) == 1000 && Pow(10, 4) == 10_000;
    PowAdd(10, 3, 4);
  }

  lemma HeadSnoc(c: seq<char>, d: char)
    ensures Head(c + [d]) == if |c| < 9 then 10 * Head(c) + DigitOf(d) else Head(c)
  {
    if |c| < 9 {
      assert (c + [d])[..|c|] == c && (c + [d])[..|c| + 1] == c + [d] && c[..|c|] == c;
      DigitsSnoc(c + [d], |c|);
    } else {
      assert (c + [d])[..9] == c[..9];
    }
  }

  lemma HeadFits(c: seq<char>)
    requires AllDigits(c)
    ensures 0 <= Head(c) < 1_000_000_000 < BASE
  {
    var k := Min(9, |c|);
    DigitsBound(c[..k]);
    PowMono(10, k, 9);
    assert Pow(10, 9) == 1_000_000_000 by {
      assert Pow(10, 4) == 10_000 && Pow(10, 5) == 100_000;
      PowAdd(10, 4, 5);
    }
  }

  /** s2b: the integer of the nd counted digits, the first nine of which are already in y9. */
  method S2b(s: seq<char>, nd0: nat, nd: nat, y9: nat, dplen: nat) returns (b: Bigint)
    requires nd >= 1 && nd0 <= |s| && nd0 <= nd && (nd > nd0 ==> nd0 + dplen + (nd - nd0) <= |s|)
    requires AllDigits(Counted(s, nd, nd0, nd0 + dplen)) && y9 == Head(Counted(s, nd, nd0, nd0 + dplen))
    ensures fresh(b) && fresh(b.x) && b.Valid() && b.Val() == DigitsVal(Counted(s, nd, nd0, nd0 + dplen))
  {
    hide Pow, Value, DigitsVal, Head;
    ghost var c := Counted(s, nd, nd0, nd0 + dplen);
    assert |c| == nd;
    HeadFits(c);
    HeadIs(c);
    var x := (nd + 8) / 9;
    var k, y := 0, 1;
    while x > y
      invariant y >= 1
      decreases x - y
    {
      y := y * 2;
      k := k + 1;
    }
    b := new Bigint.Balloc(k);
    b.x[0] := y9;
    b.wds := 1;
    OneWord(b.x[..1]);
    assert c[..nd] == c;
    var i := 9;
    var p := 9;
    if 9 < nd0 {
      b := MoreDigits(b, s, 9, 9, nd0, c);
      i := nd0;
      p := nd0 + dplen;
    } else {
      p := dplen + 9;
    }
    if i < nd {
      b := MoreDigits(b, s, p, i, nd, c);
    }
  }

  /** Both loops of s2b: digits i to j - 1, found from s[p] on. */
  method MoreDigits(b0: Bigint, s: seq<char>, p0: nat, i0: nat, j: nat, ghost c: seq<char>) returns (b: Bigint)
    requires b0.Valid() && b0.wds >= 1 && i0 <= j <= |c| && p0 + (j - i0) <= |s| && AllDigits(c)
    requires s[p0..p0 + (j - i0)] == c[i0..j]
    requires b0.Val() == DigitsVal(c[..i0])
    modifies b0, b0.x
    ensures b == b0 || (fresh(b) && fresh(b.x))
    ensures b.Valid() && b.wds >= 1 && b.Val() == DigitsVal(c[..j])
  {
    hide Pow, Value, DigitsVal, Bigint.Val;
    b := b0;
    var i, p := i0, p0;
    while i < j
      invariant i0 <= i <= j && p == p0 + (i - i0) && (b == b0 || (fresh(b) && fresh(b.x))) && b.Valid() && b.wds >= 1
      invariant b.Val() == DigitsVal(c[..i])
    {
      DigitsSnoc(c, i);
      assert s[p] == s[p0..p0 + (j - i0)][i - i0] && c[i] == c[i0..j][i - i0];
      b := MultAddDigit(b, s[p]);
      p := p + 1;
      i := i + 1;
    }
  }

  lemma HeadIs(c: seq<char>)
    ensures Head(c) == DigitsVal(c[..Min(9, |c|)])
  {
  }

  lemma OneWord(s: seq<Word>)
    requires |s| == 1
    ensures Value(s) == s[0]
  {
    ValueNil();
    ValueSnoc(s, 0);
    assert s[..0] == [] && s[..1] == s;
    PowUnit(BASE);
  }

  method MultAddDigit(b0: Bigint, c: char) returns (b: Bigint)
    requires b0.Valid() && b0.wds >= 1 && IsDigit(c)
    modifies b0, b0.x
    ensures b == b0 || (fresh(b) && fresh(b.x))
    ensures b.Valid() && b.wds >= 1 && b.Val() == 10 * old(b0.Val()) + DigitOf(c)
  {
    b := MultAdd(b0, 10, DigitOf(c));
  }

  // ----- scanning -----

  /** A C string: the bytes before the final NUL. */
  ghost predicate Terminated(data: Bytes) { data != [] && data[|data| - 1] == '\0' }

  ghost function From(data: Bytes, i: nat): Bytes
    requires i < |data|
  {
    data[i..|data| - 1]
  }

  lemma PeekFrom(data: Bytes, i: nat)
    requires Terminated(data) && i < |data|
    ensures Peek(From(data, i), 0) == data[i]
    ensures data[i] != '\0' ==> i + 1 < |data| && From(data, i)[1..] == From(data, i + 1) && From(data, i)[0] == data[i]
  {
  }

  lemma RunStep(data: Bytes, i: nat)
    requires Terminated(data) && i < |data|
    ensures if IsDigit(data[i]) then i + 1 < |data| && Run(From(data, i)) == [data[i]] + Run(From(data, i + 1))
            else Run(From(data, i)) == []
  {
    PeekFrom(data, i);
  }

  /** One more digit of the run that starts at s0. */
  lemma RunGrow(data: Bytes, s0: nat, s: nat)
    requires Terminated(data) && s0 <= s < |data| && IsDigit(data[s])
    requires Run(From(data, s0)) == data[s0..s] + Run(From(data, s))
    ensures s + 1 < |data| && Run(From(data, s0)) == data[s0..s + 1] + Run(From(data, s + 1))
    ensures data[s0..s] + [data[s]] == data[s0..s + 1]
  {
    hide Run;
    RunStep(data, s);
    assert data[s0..s] + ([data[s]] + Run(From(data, s + 1))) == data[s0..s + 1] + Run(From(data, s + 1));
  }

  lemma RunStart(data: Bytes, s0: nat)
    requires s0 < |data|
    ensures Run(From(data, s0)) == data[s0..s0] + Run(From(data, s0)) && data[s0..s0] == []
  {
  }

  lemma RunStop(data: Bytes, s0: nat, s: nat)
    requires Terminated(data) && s0 <= s < |data| && !IsDigit(data[s])
    requires Run(From(data, s0)) == data[s0..s] + Run(From(data, s))
    ensures Run(From(data, s0)) == data[s0..s]
  {
    hide Run;
    RunStep(data, s);
    assert data[s0..s] + [] == data[s0..s];
  }

  /** The digits before the point: how many, and the first sixteen in two words. */
  method IntegerDigits(data: Bytes, s0: nat) returns (s: nat, nd: nat, y: nat, z: nat)
    requires Terminated(data) && s0 < |data|
    ensures s0 <= s < |data| && Run(From(data, s0)) == data[s0..s] && nd == s - s0
    ensures y == Head(data[s0..s]) && z == Second(data[s0..s])
  {
    hide Head, Second, Run, From;
    s, nd, y, z := s0, 0, 0, 0;
    HeadNone();
    RunStart(data, s0);
    while IsDigit(data[s])
      invariant s0 <= s < |data| && nd == s - s0 && AllDigits(data[s0..s])
      invariant y == Head(data[s0..s]) && z == Second(data[s0..s])
      invariant Run(From(data, s0)) == data[s0..s] + Run(From(data, s))
      decreases |data| - s
    {
      RunGrow(data, s0, s);
      HeadSnoc(data[s0..s], data[s]);
      SecondSnoc(data[s0..s], data[s]);
      HeadFits(data[s0..s]);
      SecondFits(data[s0..s]);
      if nd < 9 {
        y := 10 * y + DigitOf(data[s]);
      } else if nd < 16 {
        z := 10 * z + DigitOf(data[s]);
      }
      nd := nd + 1;
      s := s + 1;
    }
    RunStop(data, s0, s);
  }

  lemma HeadNone()
    ensures Head([]) == 0 && Second([]) == 0
  {
  }

  /** nz1: the zeros that end data[s0..s]. */
  method TrailingZeros(data: Bytes, s0: nat, s: nat) returns (nz1: nat)
    requires s0 <= s <= |data|
    ensures nz1 <= s - s0 && (forall i :: s - nz1 <= i < s ==> data[i] == '0')
    ensures nz1 < s - s0 ==> data[s - nz1 - 1] != '0'
  {
    nz1 := 0;
    while s - nz1 > s0 && data[s - nz1 - 1] == '0'
      invariant nz1 <= s - s0 && (forall i :: s - nz1 <= i < s ==> data[i] == '0')
      decreases s - nz1
    {
      nz1 := nz1 + 1;
    }
  }

  /** The state of the fraction loop: of the digits g seen, all but the last nz are counted after those in d. */
  ghost predicate Fraction(d: Bytes, g: Bytes, nd: nat, y: int, z: int, nf: int, nf0: int, nz: nat, nz1: nat, nz10: nat)
  {
    && nz <= |g| && (forall i :: |g| - nz <= i < |g| ==> g[i] == '0')
    && (nz < |g| ==> g[|g| - nz - 1] != '0')
    && nd == |d| + |g| - nz && nf == nf0 + |g| - nz
    && y == Head(d + g[..|g| - nz]) && z == Second(d + g[..|g| - nz])
    && nz1 == if nz < |g| then 0 else nz10
  }

  lemma FractionNone(d: Bytes, nd0: nat, nf0: int, nz10: nat)
    requires nd0 == |d|
    ensures Fraction(d, [], nd0, Head(d), Second(d), nf0, nf0, 0, nz10, nz10)
  {
    hide Head, Second;
    assert d + [] == d;
  }

  lemma FractionZero(d: Bytes, g: Bytes, nd: nat, y: int, z: int, nf: int, nf0: int, nz: nat, nz1: nat, nz10: nat)
    requires Fraction(d, g, nd, y, z, nf, nf0, nz, nz1, nz10)
    ensures Fraction(d, g + ['0'], nd, y, z, nf, nf0, nz + 1, nz1, nz10)
  {
    hide Head, Second;
    assert (g + ['0'])[..|g| - nz] == g[..|g| - nz];
  }

  lemma FractionDigit(d: Bytes, g: Bytes, c: Byte, nd: nat, y: int, z: int, nf: int, nf0: int, nz: nat, nz1: nat,
      nz10: nat)
    requires Fraction(d, g, nd, y, z, nf, nf0, nz, nz1, nz10) && c != '0'
    ensures Fraction(d, g + [c], |d| + |g| + 1, if |d| + |g| < 9 then 10 * Head(d + g) + DigitOf(c) else Head(d + g),
            if 9 <= |d| + |g| < 16 then 10 * Second(d + g) + DigitOf(c)
                else Second(d + g), nf + nz + 1, nf0, 0, 0, nz10)
  {
    hide Head, Second;
    HeadSnoc(d + g, c);
    SecondSnoc(d + g, c);
    assert (g + [c])[..|g| + 1] == g + [c];
    assert d + g + [c] == d + (g + [c]);
  }

  /** The digits after the point, from the first one that matters: zeros are counted once a later digit is not zero. */
  method FractionDigits(data: Bytes, i0: nat, ghost d: Bytes, nd0: nat, y0: nat, z0: nat, nf0: int, nz10: nat)
    returns (i: nat, nd: nat, y: nat, z: nat, nf: int, nz: nat, nz1: nat)
    requires Terminated(data) && i0 < |data| && AllDigits(d) && nd0 == |d| && y0 == Head(d) && z0 == Second(d)
    ensures i0 <= i < |data| && Run(From(data, i0)) == data[i0..i]
    ensures Fraction(d, data[i0..i], nd, y, z, nf, nf0, nz, nz1, nz10)
  {
    hide Head, Second, Run, From, Fraction;
    i, nd, y, z, nf, nz, nz1 := i0, nd0, y0, z0, nf0, 0, nz10;
    FractionNone(d, nd0, nf0, nz10);
    RunStart(data, i0);
    while IsDigit(data[i])
      invariant i0 <= i < |data| && Run(From(data, i0)) == data[i0..i] + Run(From(data, i))
      invariant AllDigits(data[i0..i])
      invariant Fraction(d, data[i0..i], nd, y, z, nf, nf0, nz, nz1, nz10)
      decreases |data| - i
    {
      ghost var g := data[i0..i];
      RunGrow(data, i0, i);
      if data[i] == '0' {
        FractionZero(d, g, nd, y, z, nf, nf0, nz, nz1, nz10);
      } else {
        FractionDigit(d, g, data[i], nd, y, z, nf, nf0, nz, nz1, nz10);
      }
      nz := nz + 1;
      if data[i] != '0' {
        nf := nf + nz;
        nd, y, z := CountZeros(d, g, nz - 1, nd, y, z, nf - nz, nf0, nz1, nz10);
        nd := nd + 1;
        if nd - 1 < 9 {
          y := 10 * y + DigitOf(data[i]);
        } else if nd <= 15 + 1 {
          z := 10 * z + DigitOf(data[i]);
        }
        nz, nz1 := 0, 0;
      }
      i := i + 1;
    }
    RunStop(data, i0, i);
  }

  /** The inner loop: the deferred zeros. */
  method CountZeros(ghost d: Bytes, ghost g: Bytes, zeros: nat, nd0: nat, y0: nat, z0: nat, ghost nf: int,
      ghost nf0: int, ghost nz1: nat, ghost nz10: nat)
    returns (nd: nat, y: nat, z: nat)
    requires AllDigits(d) && AllDigits(g) && Fraction(d, g, nd0, y0, z0, nf, nf0, zeros, nz1, nz10)
    ensures nd == |d| + |g| && y == Head(d + g) && z == Second(d + g)
  {
    hide Head, Second;
    nd, y, z := nd0, y0, z0;
    var k := 0;
    while k < zeros
      invariant 0 <= k <= zeros && nd == nd0 + k
      invariant y == Head(d + g[..|g| - zeros + k]) && z == Second(d + g[..|g| - zeros + k])
    {
      ghost var m := |g| - zeros + k;
      HeadSnoc(d + g[..m], '0');
      SecondSnoc(d + g[..m], '0');
      assert d + g[..m] + ['0'] == d + g[..m + 1];
      nd := nd + 1;
      if nd - 1 < 9 {
        y := y * 10;
      } else if nd <= 15 + 1 {
        z := z * 10;
      }
      k := k + 1;
    }
    assert g[..|g|] == g;
  }
}
