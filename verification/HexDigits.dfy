/** The digits of a hexadecimal float, packed into words from the last one back. */
module HexDigits {
  import opened Arith
  import opened Rational
  import opened Words
  import opened Bignum
  import opened StrBufs
  import opened JsonStrings
  import opened Ieee
  import opened ShortestDigits
  import opened HexFloat
  import opened HexRounding

  predicate IsHex(c: Byte) { HexDigit2Int(c) >= 0 }

  /** Hexadecimal digits with points among them. */
  predicate HexText(s: Bytes) {
    forall i :: 0 <= i < |s| ==> IsHex(s[i]) || s[i] == '.'
  }

  /** The integer of the digits, points skipped. */
  function HexVal(s: Bytes): (v: int)
    ensures HexText(s) ==> v >= 0
  {
    if s == [] then 0
    else
      var i := |s| - 1;
      assert HexText(s) ==> HexText(s[..i]) && (IsHex(s[i]) || s[i] == '.');
      if s[i] == '.' then HexVal(s[..i]) else 16 * HexVal(s[..i]) + HexDigit2Int(s[i])
  }

  function Count(s: Bytes): nat {
    if s == [] then 0 else Count(s[1..]) + (if s[0] == '.' then 0 else 1)
  }

  lemma CountSnoc(s: Bytes, c: Byte)
    ensures Count(s + [c]) == Count(s) + (if c == '.' then 0 else 1)
  {
    if s != [] {
      assert (s + [c])[1..] == s[1..] + [c];
      CountSnoc(s[1..], c);
    }
  }

  lemma {:induction false} CountBound(s: Bytes)
    ensures Count(s) <= |s|
  {
    if s != [] {
      CountBound(s[1..]);
    }
  }

  /** A digit put in front has the weight of all that follow it. */
  lemma {:induction false} HexFront(c: Byte, t: Bytes)
    ensures HexVal([c] + t) == (if c == '.' then 0 else HexDigit2Int(c) * Pow(16, Count(t))) + HexVal(t)
    decreases |t|
  {
    var s := [c] + t;
    if t == [] {
      assert s == [c] && s[..0] == [];
    } else {
      var i := |t| - 1;
      assert s[..|s| - 1] == [c] + t[..i] && t == t[..i] + [t[i]];
      HexFront(c, t[..i]);
      CountSnoc(t[..i], t[i]);
      PowStep(16, Count(t[..i]));
      if c != '.' { Rotate(HexDigit2Int(c), 16, Pow(16, Count(t[..i]))); }
    }
  }

  /** L |= d << n: the digit goes above the n bits in use. */
  lemma PutDigit(L: Word, d: nat, n: nat)
    requires n <= 28 && d < 16 && L < Pow(2, n)
    ensures Shl(d, n) == d * Pow(2, n) && Or(Shl(d, n), L) == d * Pow(2, n) + L < Pow(2, n + 4) <= BASE
  {
    hide Pow, Or;
    Sixteen(n);
    PowMono(2, n + 4, 32);
    Pow32();
    PowPos(2, n);
    MulMono(Pow(2, n), d + 1, 16);
    NextTimes(d, Pow(2, n));
    SmallMod(d * Pow(2, n));
    OrDisjoint(d, L, n);
  }

  lemma Sixteen(n: nat)
    ensures Pow(2, n + 4) == 16 * Pow(2, n) && Pow(2, 4) == 16
  {
    hide Pow;
    PowStep(2, n); PowStep(2, n + 1); PowStep(2, n + 2); PowStep(2, n + 3);
    PowStep(2, 3); PowStep(2, 2); PowStep(2, 1); PowStep(2, 0);
    PowUnit(2);
  }

  /** Weights in words and bits. */
  lemma SixteenPow(c: nat, j: nat, n: nat)
    requires 4 * c == 32 * j + n
    ensures Pow(16, c) == Pow(BASE, j) * Pow(2, n)
  {
    hide Pow;
    Sixteen(0);
    PowOfPow(2, 4, c);
    PowBase(j);
    PowAdd(2, 32 * j, n);
  }

  /** The room chosen for the digits. */
  method RoomForDigits(len: nat) returns (k: nat)
    requires len > 0
    ensures len <= 8 * Pow(2, k)
  {
    var n := len - 1;
    k := 0;
    while n > 7
      invariant n >= 0 && len <= (n + 1) * Pow(2, k)
      decreases n
    {
      HalfRoom(len, n, Pow(2, k));
      n := n / 2;
      k := k + 1;
    }
    PowPos(2, k);
    MulMono(Pow(2, k), n + 1, 8);
  }

  lemma HalfRoom(len: nat, n: nat, p: nat)
    requires len <= (n + 1) * p
    ensures len <= (n / 2 + 1) * (2 * p)
  {
    MulMono(p, n + 1, 2 * (n / 2 + 1));
    assert 2 * (n / 2 + 1) * p == (n / 2 + 1) * (2 * p);
  }

  /** The words filled so far, and the one being filled, hold the digits from i on. */
  ghost predicate Holds(x: seq<Word>, L: Word, n: nat, t: Bytes) {
    && n <= 32 && 4 * Count(t) == 32 * |x| + n && L < Pow(2, n)
    && Value(x) + L * Pow(BASE, |x|) == HexVal(t)
  }

  lemma HoldsNone()
    ensures Holds([], 0, 0, [])
  {
    ValueNil();
    PowUnit(2);
  }

  lemma HoldsPoint(x: seq<Word>, L: Word, n: nat, t: Bytes)
    requires Holds(x, L, n, t)
    ensures Holds(x, L, n, ['.'] + t)
  {
    hide Value, Pow;
    HexFront('.', t);
    assert (['.'] + t)[1..] == t;
  }

  /** A full word is put away. */
  lemma HoldsFull(x: seq<Word>, L: Word, t: Bytes)
    requires Holds(x, L, 32, t)
    ensures Holds(x + [L], 0, 0, t)
  {
    hide Value, Pow, HexVal;
    assert (x + [L])[..|x|] == x && (x + [L])[..|x| + 1] == x + [L];
    ValueSnoc(x + [L], |x|);
    PowUnit(2);
    assert 0 * Pow(BASE, |x| + 1) == 0;
  }

  lemma HoldsDigit(x: seq<Word>, L: Word, n: nat, t: Bytes, c: Byte)
    requires Holds(x, L, n, t) && n <= 28 && IsHex(c) && c != '.'
    ensures var d := HexDigit2Int(c);
            && Shl(d, n) == d * Pow(2, n) && Or(Shl(d, n), L) < BASE && (d > 0 ==> Or(Shl(d, n), L) > 0)
            && Holds(x, Or(Shl(d, n), L), n + 4, [c] + t)
  {
    hide Value, Pow, HexVal, Shl, Or, HexDigit2Int;
    var d := HexDigit2Int(c);
    HexRange(c);
    PutDigit(L, d, n);
    HexFront(c, t);
    assert ([c] + t)[1..] == t;
    SixteenPow(Count(t), |x|, n);
    PowPos(2, n);
    if d > 0 { MulPos(d, Pow(2, n)); }
    DigitArith(d, Pow(2, n), L, Pow(BASE, |x|));
  }

  lemma HexRange(c: Byte)
    ensures HexDigit2Int(c) < 16
  {
  }

  lemma DigitArith(d: int, p: int, L: int, w: int)
    ensures (d * p + L) * w == d * (w * p) + L * w
  {
    assert (d * p) * w == d * (w * p);
  }

  method PutAway(x: array<Word>, j: nat, L: Word, ghost t: Bytes)
    requires j < x.Length && Holds(x[..j], L, 32, t)
    modifies x
    ensures Holds(x[..j + 1], 0, 0, t)
  {
    HoldsFull(x[..j], L, t);
    ghost var o := x[..j];
    x[j] := L;
    assert x[..j + 1] == o + [L];
  }

  /** The next digit joins the word, after a full one is put away. */
  method TakeDigit(x: array<Word>, j0: nat, n0: nat, L0: Word, s: Bytes, i: nat, ghost k: nat)
    returns (j: nat, n: nat, L: Word)
    requires i < |s| <= 8 * Pow(2, k) && x.Length == Pow(2, k) && j0 < x.Length && n0 <= 32 && n0 % 4 == 0
    requires HexText(s) && s[i] != '.' && Holds(x[..j0], L0, n0, s[i + 1..])
    modifies x
    ensures j < x.Length && n <= 32 && n % 4 == 0 && Holds(x[..j], L, n, [s[i]] + s[i + 1..])
    ensures s[i] != '0' ==> L > 0
  {
    hide Value, Pow, HexVal, Holds, Shl, Or, HexDigit2Int;
    j, n, L := j0, n0, L0;
    if n == 32 {
      Room(x[..j], L, s, i, k);
      PutAway(x, j, L, s[i + 1..]);
      j := j + 1;
      L, n := 0, 0;
    }
    HoldsDigit(x[..j], L, n, s[i + 1..], s[i]);
    HexRange(s[i]);
    if s[i] != '0' { FirstHex(s[i]); }
    L := Or(Shl(HexDigit2Int(s[i]), n), L);
    n := n + 4;
  }

  /** The digit loop of gethex. */
  method HexToBigint(s: Bytes) returns (b: Bigint)
    requires s != [] && HexText(s) && IsHex(s[0]) && s[0] != '0'
    ensures fresh(b) && fresh(b.x) && b.Valid() && b.Val() == HexVal(s) > 0
  {
    hide Value, Pow, HexVal, Holds, Shl, Or, HexDigit2Int;
    var k := RoomForDigits(|s|);
    b := new Bigint.Balloc(k);
    CountBound(s);
    var j: nat, n: nat, L: Word := 0, 0, 0;
    var i := |s|;
    assert s[i..] == [];
    HoldsNone();
    FirstHex(s[0]);
    while i > 0
      invariant 0 <= i <= |s| && 0 <= n <= 32 && n % 4 == 0 && j < b.x.Length
      invariant Holds(b.x[..j], L, n, s[i..])
      invariant i == 0 ==> L > 0
      invariant fresh(b.x)
      modifies b.x
    {
      i := i - 1;
      assert s[i..] == [s[i]] + s[i + 1..];
      if s[i] == '.' {
        HoldsPoint(b.x[..j], L, n, s[i + 1..]);
      } else {
        j, n, L := TakeDigit(b.x, j, n, L, s, i, k);
      }
    }
    assert s[0..] == s;
    ghost var x := b.x[..j];
    LastWord(x, L, n, s);
    b.x[j] := L;
    assert b.x[..j + 1] == x + [L];
    b.wds := j + 1;
  }

  lemma FirstHex(c: Byte)
    requires IsHex(c) && c != '0'
    ensures HexDigit2Int(c) > 0 && c != '.'
  {
  }

  /** A digit still to come has a word to go to. */
  lemma Room(x: seq<Word>, L: Word, s: Bytes, i: nat, k: nat)
    requires i < |s| && Holds(x, L, 32, s[i + 1..]) && |s| <= 8 * Pow(2, k)
    ensures |x| + 1 < Pow(2, k)
  {
    hide Value, HexVal;
    CountBound(s[i + 1..]);
  }

  lemma LastWord(x: seq<Word>, L: Word, n: nat, s: Bytes)
    requires Holds(x, L, n, s) && L > 0
    ensures Value(x + [L]) == HexVal(s) > 0
  {
    hide Value, Pow, HexVal;
    assert (x + [L])[..|x|] == x && (x + [L])[..|x| + 1] == x + [L];
    ValueSnoc(x + [L], |x|);
    PowPos(BASE, |x|);
    MulPos(L, Pow(BASE, |x|));
  }

  /** Digits to double: exact accumulation, then one rounding. */
  method HexToDouble(s: Bytes, e0: int) returns (w0: Word, w1: Word)
    requires s != [] && HexText(s) && IsHex(s[0]) && s[0] != '0'
    ensures var x, n := BinaryValue(HexVal(s), e0), w0 * BASE + w1;
            n <= INFINITY && ReadsAs(x, n) <==> !Missed(x)
  {
    hide RPow, HexVal, ReadsAs, Missed, BinaryValue;
    var b := HexToBigint(s);
    w0, w1 := RoundHex(b, e0);
  }

  // ----- inputs that are missed -----

  /** The digits of 0x1.8p1024: 24 * 2^1020. */
  lemma OneAndAHalf()
    ensures HexText("1.8") && HexVal("1.8") == 24
  {
    assert "1.8"[..2] == "1." && "1."[..1] == "1" && "1"[..0] == [];
    assert HexVal("1") == 1 && HexVal("1.") == 1;
  }

  lemma OverflowInput()
    ensures Missed(24.0 * RPow(2, 1020))
  {
    hide RPow;
    PowerSteps(1020);
    RPowMono(2, 971, 1022);
    RPowMono(2, 1022, 1074);
    RPowMono(2, 1025, 1075);
    RPowSucc(2, 1024);
    RPowSucc(2, 1074);
    RPowSucc(2, 1075);
    RPowSucc(2, 1022);
    RPowSucc(2, 1023);
    RPowPos(2, 1020);
  }

  lemma PowerSteps(e: int)
    ensures RPow(2, e + 4) == 16.0 * RPow(2, e)
  {
    hide RPow;
    RPowSucc(2, e);
    RPowSucc(2, e + 1);
    RPowSucc(2, e + 2);
    RPowSucc(2, e + 3);
  }

  /** 0x0.fffffffffffff8p-1022, which rounds up to the smallest normal double. */
  lemma CarryInput()
    ensures Missed((0xff_ffff_ffff_fff8 as real) * RPow(2, -1078))
  {
    hide RPow;
    var w := RPow(2, -1078);
    RPowPos(2, -1078);
    RPowSucc(2, -1078);
    RPowSucc(2, -1077);
    RPowSucc(2, -1076);
    Bits56(-1078);
  }

  /** 0x1.00000000000001p-1075, just above half the smallest double. */
  lemma TinyInput()
    ensures Missed((0x100_0000_0000_0001 as real) * RPow(2, -1131))
  {
    hide RPow;
    RPowPos(2, -1131);
    PowerSteps(-1131);
    Bits56(-1131);
  }

  lemma Bits56(e: int)
    ensures RPow(2, e + 56) == (0x100_0000_0000_0000 as real) * RPow(2, e)
  {
    hide RPow;
    assert Pow(2, 7) == 128;
    PowAdd(2, 7, 7);
    PowAdd(2, 14, 14);
    PowAdd(2, 28, 28);
    NatRPow(2, 56);
    RPowAdd(2, 56, e);
  }
}
