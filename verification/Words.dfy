/** Little-endian sequences of 32-bit words and the natural numbers they denote. */
module Words {
  import opened Arith

  const BASE: int := 0x1_0000_0000
  const BASE64: int := 0x1_0000_0000_0000_0000

  /** ULong: an unsigned 32-bit integer. */
  type Word = w: int | 0 <= w < BASE

  /** ULLong: an unsigned 64-bit integer. */
  type Wide = w: int | 0 <= w < BASE64

  /** The number a word sequence denotes, least significant word first. */
  ghost function Value(s: seq<Word>): nat {
    if s == [] then 0 else
      var i := |s| - 1;
      PowPos(BASE, i); MulNonNeg(s[i], Pow(BASE, i));
      Value(s[..i]) + s[i] * Pow(BASE, i)
  }

  /** Unsigned 64-bit wrap-around. */
  function Wrap64(n: int): Wide { n % BASE64 }

  /** Unsigned 32-bit wrap-around. */
  function Wrap32(n: int): Word { n % BASE }

  /** A 64-bit difference of 33-bit quantities: bit 32 is the borrow, the low word the difference. */
  lemma BorrowSplit(d: int)
    requires -BASE <= d < BASE
    ensures Wrap64(d) / BASE % 2 == (if d < 0 then 1 else 0)
    ensures Wrap64(d) % BASE == (if d < 0 then d + BASE else d)
  {
    if d < 0 {
      assert Wrap64(d) == d + BASE64;
      assert d + BASE64 == (BASE - 1) * BASE + (d + BASE);
    }
  }

  lemma SmallMod(w: int)
    requires 0 <= w < BASE
    ensures w % BASE == w
  {
  }

  lemma ValueNil()
    ensures Value([]) == 0 && Pow(BASE, 0) == 1
  {
  }

  lemma ValueSnoc(s: seq<Word>, i: nat)
    requires i < |s|
    ensures Value(s[..i + 1]) == Value(s[..i]) + s[i] * Pow(BASE, i)
  {
    assert s[..i + 1][..i] == s[..i];
  }

  lemma {:induction false} ValueConcat(s: seq<Word>, t: seq<Word>)
    ensures Value(s + t) == Value(s) + Pow(BASE, |s|) * Value(t)
    decreases |t|
  {
    if t == [] {
      assert s + t == s;
    } else {
      var i := |t| - 1;
      ValueConcat(s, t[..i]);
      assert (s + t)[..|s| + i] == s + t[..i];
      PowAdd(BASE, |s|, i);
      Regroup(Value(s), Value(t[..i]), t[i], Pow(BASE, |s|), Pow(BASE, i));
    }
  }

  lemma Regroup(a: int, b: int, w: int, p: int, q: int)
    ensures a + p * b + w * (p * q) == a + p * (b + w * q)
  {
    MulAssoc(w, p, q);
    MulAssoc(p, w, q);
  }

  lemma {:induction false} ValueBound(s: seq<Word>)
    ensures Value(s) < Pow(BASE, |s|)
  {
    if s != [] {
      var i := |s| - 1;
      ValueBound(s[..i]);
      MulMono(Pow(BASE, i), s[i], BASE - 1);
      assert (BASE - 1) * Pow(BASE, i) + Pow(BASE, i) == BASE * Pow(BASE, i);
    }
  }

  lemma ValueHead(s: seq<Word>)
    requires s != []
    ensures Value(s) == s[0] + BASE * Value(s[1..])
  {
    assert s == s[..1] + s[1..];
    ValueConcat(s[..1], s[1..]);
    ValueSnoc(s, 0);
    PowUnit(BASE);
  }

  /** The top word brackets the value. */
  lemma ValueTop(s: seq<Word>)
    requires s != []
    ensures s[|s| - 1] * Pow(BASE, |s| - 1) <= Value(s) < (s[|s| - 1] + 1) * Pow(BASE, |s| - 1)
  {
    ValueBound(s[..|s| - 1]);
  }

  lemma {:induction false} ValueZeros(s: seq<Word>)
    requires forall i :: 0 <= i < |s| ==> s[i] == 0
    ensures Value(s) == 0
  {
    if s != [] {
      ValueZeros(s[..|s| - 1]);
    }
  }

  /** Dropping zero words at the top changes nothing. */
  lemma ValueTrim(s: seq<Word>, n: nat)
    requires n <= |s|
    requires forall i :: n <= i < |s| ==> s[i] == 0
    ensures Value(s) == Value(s[..n])
  {
    assert s == s[..n] + s[n..];
    ValueConcat(s[..n], s[n..]);
    ValueZeros(s[n..]);
  }

  /** A longer sequence with a nonzero top word denotes the larger number. */
  lemma ValueLonger(s: seq<Word>, t: seq<Word>)
    requires |s| < |t| && t[|t| - 1] != 0
    ensures Value(s) < Value(t)
  {
    ValueBound(s);
    PowMono(BASE, |s|, |t| - 1);
    ValueTop(t);
    MulMono(Pow(BASE, |t| - 1), 1, t[|t| - 1]);
  }

  /** At equal lengths the highest differing word decides. */
  lemma ValueCompare(s: seq<Word>, t: seq<Word>, i: nat)
    requires |s| == |t| && i < |s| && s[i] < t[i]
    requires forall j :: i < j < |s| ==> s[j] == t[j]
    ensures Value(s) < Value(t)
  {
    assert s == s[..i + 1] + s[i + 1..] && t == t[..i + 1] + t[i + 1..];
    assert s[i + 1..] == t[i + 1..];
    ValueConcat(s[..i + 1], s[i + 1..]);
    ValueConcat(t[..i + 1], t[i + 1..]);
    ValueTop(s[..i + 1]);
    ValueTop(t[..i + 1]);
    MulMono(Pow(BASE, i), s[i] + 1, t[i]);
  }

  /** Zero words below shift the value by whole words. */
  lemma ValueShift(z: seq<Word>, s: seq<Word>)
    requires forall i :: 0 <= i < |z| ==> z[i] == 0
    ensures Value(z + s) == Pow(BASE, |z|) * Value(s)
  {
    ValueConcat(z, s);
    ValueZeros(z);
  }

  lemma Pow32()
    ensures Pow(2, 32) == BASE
  {
    assert Pow(2, 2) == 4 && Pow(2, 4) == 16;
    PowAdd(2, 4, 4);
    PowAdd(2, 8, 8);
    PowAdd(2, 16, 16);
  }

  /** Word counts in terms of powers of two. */
  lemma PowBase(n: nat)
    ensures Pow(BASE, n) == Pow(2, 32 * n)
  {
    Pow32();
    PowOfPow(2, 32, n);
  }

  /** Bitwise or, bit by bit. */
  function Or(a: nat, b: nat): nat {
    if a == 0 && b == 0 then 0
    else 2 * Or(a / 2, b / 2) + (if a % 2 == 1 || b % 2 == 1 then 1 else 0)
  }

  /** Or of numbers with no common bit position is their sum. */
  lemma {:induction false} OrDisjoint(a: nat, b: nat, k: nat)
    requires b < Pow(2, k)
    ensures Or(a * Pow(2, k), b) == a * Pow(2, k) + b
    decreases k
  {
    if k == 0 {
      OrZero(a);
    } else {
      var h := a * Pow(2, k - 1);
      assert a * Pow(2, k) == 2 * h by { MulAssoc(a, 2, Pow(2, k - 1)); }
      MulNonNeg(a, Pow(2, k - 1));
      OrDisjoint(a, b / 2, k - 1);
    }
  }

  lemma {:induction false} OrZero(a: nat)
    ensures Or(a, 0) == a
  {
    if a != 0 {
      OrZero(a / 2);
    }
  }

  /** w << k as a 32-bit operation. */
  function Shl(w: Word, k: nat): Word { w * Pow(2, k) % BASE }

  /** w >> k. */
  function Shr(w: Word, k: nat): (r: Word)
    ensures r <= w
  {
    PowPos(2, k);
    DivShrinks(w, Pow(2, k));
    w / Pow(2, k)
  }

  lemma DivShrinks(a: nat, d: nat)
    requires d > 0
    ensures 0 <= a / d <= a
  {
    MulMono(a / d, 1, d);
  }

  lemma Pow32Split(k: nat)
    requires k <= 32
    ensures Pow(2, k) * Pow(2, 32 - k) == BASE
  {
    Pow32();
    PowAdd(2, k, 32 - k);
  }

  /** The low k bits. */
  function Low(w: nat, k: nat): nat {
    PowPos(2, k);
    w % Pow(2, k)
  }

  lemma SplitProduct(w: Word, p: nat, q: nat)
    requires p > 0 && q > 0 && p * q == BASE
    ensures w * p == (w % q) * p + (w / q) * BASE
    ensures 0 <= (w % q) * p <= BASE - p
    ensures 0 <= w / q < p
  {
    var hi, lo := w / q, w % q;
    assert w == hi * q + lo;
    assert w * p == hi * BASE + lo * p by {
      assert (hi * q + lo) * p == (hi * q) * p + lo * p;
      MulAssoc(hi, q, p);
    }
    MulNonNeg(lo, p);
    MulMono(p, lo, q - 1);
    assert (q - 1) * p == BASE - p;
    if hi >= p { MulMono(q, p, hi); }
  }

  /** The bits shifted out on the left are the high bits of the word. */
  lemma ShlSplit(w: Word, k: nat)
    requires k <= 32
    ensures w * Pow(2, k) == Shl(w, k) + Shr(w, 32 - k) * BASE
    ensures Shl(w, k) == Low(w, 32 - k) * Pow(2, k)
    ensures Shl(w, k) + Pow(2, k) <= BASE
    ensures Shr(w, 32 - k) < Pow(2, k)
  {
    PowPos(2, k); PowPos(2, 32 - k);
    Pow32Split(k);
    SplitProduct(w, Pow(2, k), Pow(2, 32 - k));
    DivModUnique(w * Pow(2, k), BASE, Shr(w, 32 - k), Low(w, 32 - k) * Pow(2, k));
  }

  /** Joining shifted words with | is addition. */
  lemma OrShl(w: Word, z: Word, k: nat)
    requires k <= 32 && z < Pow(2, k)
    ensures Or(Shl(w, k), z) == Shl(w, k) + z
    ensures Shl(w, k) + z < BASE
  {
    ShlSplit(w, k);
    PowPos(2, 32 - k);
    OrDisjoint(Low(w, 32 - k), z, k);
  }
}
