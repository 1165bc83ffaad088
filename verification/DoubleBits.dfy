/** d2b: the words of a double as an odd integer, a binary exponent and a bit count. */
module DoubleBits {
  import opened Arith
  import opened Words
  import opened Bignum
  import opened Division
  import opened Ieee

  const EXP_MSK1: int := 0x10_0000

  /** word0 and word1 of a finite nonnegative double. */
  function Join(w0: Word, w1: Word): (n: Bits)
    requires w0 < 0x7ff0_0000 || (w0 == 0x7ff0_0000 && w1 == 0)
  {
    w0 * BASE + w1
  }

  /** The significand seen from the two words. */
  lemma JoinFields(w0: Word, w1: Word)
    requires w0 < 0x7ff0_0000
    ensures ExpField(Join(w0, w1)) == w0 / EXP_MSK1
    ensures Fraction(Join(w0, w1)) == w0 % EXP_MSK1 * BASE + w1
    ensures Mantissa(Join(w0, w1)) == (w0 % EXP_MSK1 + (if w0 / EXP_MSK1 == 0 then 0 else EXP_MSK1)) * BASE + w1
  {
    assert w0 == w0 / EXP_MSK1 * EXP_MSK1 + w0 % EXP_MSK1;
    DivModUnique(Join(w0, w1), HIDDEN, w0 / EXP_MSK1, w0 % EXP_MSK1 * BASE + w1);
  }

  /** lo0bits: shift the trailing zero bits out of y and count them. */
  method Lo0bits(y0: Word) returns (y: Word, k: nat)
    requires y0 > 0
    ensures k < 32 && y0 == y * Pow(2, k) && y % 2 == 1
  {
    var x := y0;
    Pow2Values();
    hide Pow;
    if x % 8 != 0 {
      Halves(x);
      if x % 2 == 1 { return x, 0; }
      if x % 4 >= 2 { return x / 2, 1; }
      return x / 4, 2;
    }
    y, k := ByHalves(x);
  }

  /** The rest of lo0bits: halving from 16 bits down. */
  method ByHalves(y0: Word) returns (y: Word, k: nat)
    requires y0 > 0
    ensures k < 32 && y0 == y * Pow(2, k) && y % 2 == 1
  {
    var x := y0;
    Pow2Values();
    hide Pow;
    k := 0;
    x, k := DropIfClear(y0, x, k, 16, 0x1_0000);
    x, k := DropIfClear(y0, x, k, 8, 0x100);
    x, k := DropIfClear(y0, x, k, 4, 0x10);
    x, k := DropIfClear(y0, x, k, 2, 4);
    Halves(x);
    if x % 2 == 0 {
      DropFactor(y0, x, x / 2, k, 1, 2);
      k := k + 1;
      x := x / 2;
    }
    y := x;
  }

  /** y0 = x * 2^k and x = y * 2^n give y0 = y * 2^(k + n). */
  lemma DropFactor(y0: nat, x: nat, y: nat, k: nat, n: nat, p: nat)
    requires y0 == x * Pow(2, k) && Pow(2, n) == p && x == y * p
    ensures y0 == y * Pow(2, k + n)
  {
    PowAdd(2, n, k);
    MulAssoc(y, p, Pow(2, k));
  }

  lemma Halves(x: nat)
    ensures x % 2 == 0 && x % 4 != 0 ==> x / 2 % 2 == 1
    ensures x % 2 == 0 && x % 4 < 2 && x % 8 != 0 ==> x / 4 % 2 == 1
    ensures x % 4 >= 2 && x % 2 == 0 ==> x / 2 % 2 == 1
  {
    var h := x / 2;
    assert x == 2 * h + x % 2;
    if x % 2 == 0 && h % 2 == 0 {
      assert x == 4 * (h / 2);
      var q := h / 2;
      if q % 2 == 0 { assert x == 8 * (q / 2); }
    }
  }

  lemma NotTwice(x: nat, y: nat, p: nat)
    requires p > 1 && x == y * p && x % (p * p) != 0
    ensures y % p != 0 && 0 < y <= x
  {
    MulMono(y, 1, p);
    if y % p == 0 {
      var z := y / p;
      assert y == z * p;
      MulAssoc(z, p, p);
      DivModUnique(x, p * p, z, 0);
    }
  }

  /** If the low n bits of x are clear (x is a multiple of p), shift them out. */
  method DropIfClear(ghost y0: Word, x: Word, k: nat, n: nat, p: nat) returns (y: Word, j: nat)
    requires y0 == x * Pow(2, k) && Pow(2, n) == p && p > 1
    requires x % (p * p) != 0
    ensures y0 == y * Pow(2, j) && y % p != 0 && 0 < y <= x
    ensures j == k || j == k + n
  {
    hide Pow;
    y, j := x, k;
    if x % p == 0 {
      NotTwice(x, x / p, p);
      DropFactor(y0, x, x / p, k, n, p);
      y := x / p;
      j := k + n;
    }
  }

  ghost predicate HasBits(v: nat, bits: nat) {
    bits >= 1 && Pow(2, bits - 1) <= v < Pow(2, bits)
  }

  /** Two words as one value. */
  lemma TwoWords(b: Bigint)
    requires b.Shape() && b.x.Length >= 2
    ensures b.wds == 1 ==> b.Val() == b.x[0]
    ensures b.wds == 2 ==> b.Val() == b.x[0] + b.x[1] * BASE
    ensures 1 <= b.wds <= 2 ==> b.Val() % 2 == b.x[0] % 2
  {
    Parity(b.x[0], b.x[1]);
    ValueSnoc(b.x[..], 0);
    ValueSnoc(b.x[..], 1);
    ValueNil();
    assert b.x[..][..0] == [] && b.x[..][..1] == b.x[..1] && b.x[..][..2] == b.x[..2];
    assert Pow(BASE, 1) == BASE * Pow(BASE, 0);
  }

  lemma Parity(lo: nat, hi: nat)
    ensures (lo + hi * BASE) % 2 == lo % 2
  {
    DivModUnique(lo + hi * BASE, 2, lo / 2 + hi * 0x8000_0000, lo % 2);
  }

  /** x[0] = y | z << (32 - k), x[1] = z >> k hold z * 2^(32-k) + y. */
  lemma SplitZ(z: Word, y: Word, d1: Word, k: nat)
    requires 0 < k < 32 && d1 == y * Pow(2, k)
    ensures Or(Shl(z, 32 - k), y) < BASE
    ensures (Or(Shl(z, 32 - k), y) + Shr(z, k) * BASE) * Pow(2, k) == z * BASE + d1
    ensures y % 2 == 1 ==> Or(Shl(z, 32 - k), y) % 2 == 1
  {
    Pow32Split(32 - k);
    PowPos(2, k);
    EvenShl(z, 32 - k);
    ShlSplit(z, 32 - k);
    hide Pow, Shl, Shr, Or;
    SmallLow(y, Pow(2, 32 - k), Pow(2, k), d1);
    OrShl(z, y, 32 - k);
    if y % 2 == 1 { OddSum(Shl(z, 32 - k), y); }
    SplitZArith(Shl(z, 32 - k), Shr(z, k), z, y, d1, Pow(2, 32 - k), Pow(2, k));
  }

  lemma OddSum(a: int, b: int)
    requires a % 2 == 0 && b % 2 == 1
    ensures (a + b) % 2 == 1
  {
  }

  lemma SmallLow(y: nat, q: nat, p: nat, d: Word)
    requires q * p == BASE && d == y * p
    ensures y < q
  {
    if y >= q { MulMono(p, q, y); }
  }

  lemma EvenShl(z: Word, k: nat)
    requires 0 < k <= 32
    ensures Shl(z, k) % 2 == 0
  {
    ShlSplit(z, k);
    EvenProduct(Low(z, 32 - k), Pow(2, k - 1));
  }

  lemma EvenProduct(a: nat, h: nat)
    ensures a * (2 * h) % 2 == 0
  {
    Rotate(a, 2, h);
  }

  lemma SplitZArith(lo: int, hi: int, z: int, y: int, d1: int, q: int, p: int)
    requires z * q == lo + hi * BASE && q * p == BASE && d1 == y * p
    ensures (lo + y + hi * BASE) * p == z * BASE + d1
  {
    assert (lo + hi * BASE + y) * p == (z * q) * p + y * p;
    MulAssoc(z, q, p);
  }

  /** Dividing out 2^k takes k bits off. */
  lemma BitsLess(m: nat, v: nat, k: nat, n: nat)
    requires m == v * Pow(2, k) && HasBits(m, n)
    ensures k < n && HasBits(v, n - k)
  {
    PowPos(2, k);
    if k >= n {
      PowMono(2, n, k);
      PowPos(2, n - 1);
      AtLeast(v, Pow(2, k), m);
      assert false;
    }
    PowAdd(2, n - k, k);
    PowAdd(2, n - k - 1, k);
    assert n - k + k == n && n - k - 1 + k == n - 1;
    hide Pow;
    BitsCancel(Pow(2, k), v, Pow(2, n - k), Pow(2, n - k - 1), Pow(2, n), Pow(2, n - 1), m);
  }

  lemma AtLeast(v: nat, p: nat, m: nat)
    requires m == v * p && m > 0
    ensures m >= p
  {
    if v > 0 { MulMono(p, 1, v); }
  }

  lemma BitsCancel(c: nat, v: nat, hi: nat, lo: nat, hc: nat, lc: nat, m: nat)
    requires c > 0 && m == v * c && hc == hi * c && lc == lo * c && lc <= m < hc
    ensures lo <= v < hi
  {
    MulCancel(c, lo, v);
    MulCancel(c, v, hi);
  }

  /** The word-filling half of d2b: z * 2^32 + d1 with its k trailing zero bits removed. */
  method Significand(z0: Word, d1: Word) returns (b: Bigint, k: nat)
    requires z0 > 0 || d1 > 0
    ensures fresh(b) && fresh(b.x) && b.Valid() && 1 <= b.wds <= 2 && !b.sign
    ensures b.Val() % 2 == 1 && b.Val() * Pow(2, k) == z0 * BASE + d1
  {
    var z := z0;
    b := new Bigint.Balloc(1);
    assert b.maxwds == 2 && Pow(2, 0) == 1;
    hide Pow, Value, Or, Shl, Shr;
    if d1 != 0 {
      var y;
      y, k := Lo0bits(d1);
      if k != 0 {
        SplitZ(z, y, d1, k);
        b.x[0] := Or(Shl(z, 32 - k), y);
        z := Shr(z, k);
      } else {
        b.x[0] := y;
      }
      b.x[1] := z;
      b.wds := if z != 0 then 2 else 1;
      TwoWords(b);
    } else {
      z, k := Lo0bits(z);
      b.x[0] := z;
      b.wds := 1;
      TwoWords(b);
      WholeWord(z0, z, k);
      k := k + 32;
    }
  }

  lemma WholeWord(z0: nat, z: nat, k: nat)
    requires z0 == z * Pow(2, k)
    ensures z * Pow(2, k + 32) == z0 * BASE + 0
  {
    Pow32();
    PowAdd(2, k, 32);
    MulAssoc(z, Pow(2, k), BASE);
  }

  /**
   d2b: for a finite nonzero double, d = b * 2^e with b odd and of the given number of bits.
   The sign bit is assumed clear.
   */
  method D2b(d0: Word, d1: Word) returns (b: Bigint, e: int, bits: nat)
    requires d0 < 0x7ff0_0000 && Join(d0, d1) > 0
    ensures fresh(b) && fresh(b.x) && b.Valid() && b.wds >= 1 && !b.sign
    ensures b.Val() % 2 == 1 && HasBits(b.Val(), bits)
    ensures e >= -1074 && b.Val() * Pow(2, e + 1074) == Magnitude(Join(d0, d1))
    ensures ExpField(Join(d0, d1)) > 0 ==> bits <= 53 && bits + e == ExpField(Join(d0, d1)) - 1022
    ensures ExpField(Join(d0, d1)) == 0 ==> bits + e <= -1022
  {
    ghost var n := Join(d0, d1);
    JoinFields(d0, d1);
    var z: Word := d0 % EXP_MSK1;
    var de := d0 / EXP_MSK1;
    if de != 0 {
      z := z + EXP_MSK1;
    }
    var k;
    b, k := Significand(z, d1);
    ghost var m := Mantissa(n);
    MantissaBits(n);
    Fields(n);
    assert m > 0;
    hide Value, Pow, HasBits, Magnitude, Mantissa, Fraction;
    if de != 0 {
      BitsLess(m, b.Val(), k, 53);
      e := de - 1023 - 52 + k;
      bits := 53 - k;
    } else {
      e := de - 1023 - 52 + 1 + k;
      bits := WordBits(b);
      FewBits(m, b.Val(), k, bits);
    }
    UlpShift(n, b.Val(), k);
  }

  /** A normal significand has 53 bits, a subnormal one fewer. */
  lemma MantissaBits(n: Bits)
    ensures ExpField(n) > 0 ==> HasBits(Mantissa(n), 53)
    ensures ExpField(n) == 0 ==> Mantissa(n) < Pow(2, 52)
    ensures Pow(2, 52) == HIDDEN
  {
    Pow32();
    assert Pow(2, 4) == 16;
    Pow2Values();
    PowAdd(2, 32, 16);
    PowAdd(2, 48, 4);
    assert Pow(2, 53) == 2 * Pow(2, 52);
    Fields(n);
  }

  lemma FewBits(m: nat, v: nat, k: nat, bits: nat)
    requires m == v * Pow(2, k) && HasBits(v, bits) && m < Pow(2, 52)
    ensures bits + k <= 52
  {
    PowPos(2, k);
    if bits + k > 52 {
      PowAdd(2, bits - 1, k);
      MulMono(Pow(2, k), Pow(2, bits - 1), v);
      PowMono(2, 52, bits - 1 + k);
      assert false;
    }
  }

  /** bits = 32 * wds - hi0bits(top word). */
  method WordBits(b: Bigint) returns (bits: nat)
    requires b.Valid() && b.Val() > 0
    ensures HasBits(b.Val(), bits)
  {
    TopWord(b);
    var i := b.wds;
    var h := Hi0bits(b.x[i - 1]);
    bits := 32 * i - h;
    ValueTop(b.x[..i]);
    TopBits(b.Val(), b.x[i - 1], h, i - 1);
  }

  lemma TopBits(v: nat, top: Word, h: nat, i: nat)
    requires h < 32 && 0x8000_0000 <= top * Pow(2, h) < BASE
    requires top * Pow(BASE, i) <= v < (top + 1) * Pow(BASE, i)
    ensures HasBits(v, 32 * (i + 1) - h)
  {
    Pow32();
    assert Pow(2, 32) == 2 * Pow(2, 31);
    BitsLess(top * Pow(2, h), top, h, 32);
    PowBase(i);
    PowAdd(2, 32 - h, 32 * i);
    PowAdd(2, 31 - h, 32 * i);
    PowPos(2, 32 * i);
    hide Pow;
    MulMono(Pow(2, 32 * i), Pow(2, 31 - h), top);
    MulMono(Pow(2, 32 * i), top + 1, Pow(2, 32 - h));
    assert 32 * (i + 1) - h == 32 - h + 32 * i && 32 * (i + 1) - h - 1 == 31 - h + 32 * i;
  }

  lemma UlpShift(n: Bits, v: nat, k: nat)
    requires v * Pow(2, k) == Mantissa(n)
    ensures v * Pow(2, k + UlpExp(n)) == Magnitude(n)
  {
    PowAdd(2, k, UlpExp(n));
    MulAssoc(v, Pow(2, k), Pow(2, UlpExp(n)));
  }
}
