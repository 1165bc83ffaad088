/**
 The digit generator of dtoa.c: quorem, which takes the quotient of b by S from their top
 words alone, and dshift, which aligns S so that one correction of that estimate is enough.
 */
module Division {
  import opened Arith
  import opened Words
  import opened Bignum

  /** hi0bits: the number of leading zero bits, found by halving. */
  method Hi0bits(x0: Word) returns (k: nat)
    ensures x0 == 0 ==> k == 32
    ensures x0 > 0 ==> k < 32 && 0x8000_0000 <= x0 * Pow(2, k) < BASE
  {
    var x := x0;
    k := 0;
    Pow2Values();
    x, k := ShiftIfClear(x0, x, k, 16, 0x1_0000, 0x1_0000);
    x, k := ShiftIfClear(x0, x, k, 8, 0x100, 0x100_0000);
    x, k := ShiftIfClear(x0, x, k, 4, 0x10, 0x1000_0000);
    x, k := ShiftIfClear(x0, x, k, 2, 4, 0x4000_0000);
    if x < 0x8000_0000 {
      DoublePow(x0, x, k);
      k := k + 1;
      if x < 0x4000_0000 {
        return 32;
      }
    }
  }

  /** If the high n bits of x are clear (x below limit), shift them out. */
  method ShiftIfClear(ghost x0: Word, x: Word, k: nat, n: nat, p: nat, limit: nat) returns (y: Word, j: nat)
    requires x == x0 * Pow(2, k) && Pow(2, n) == p && p > 0 && p * limit == BASE
    ensures y == x0 * Pow(2, j) && (y >= x)
    ensures x < limit ==> j == k + n && y == x * p
    ensures x >= limit ==> j == k && y == x
  {
    y, j := x, k;
    if x < limit {
      MulMonoStrict(p, x, limit);
      MulMono(x, 1, p);
      y := Wrap32(x * p);
      j := k + n;
      PowAdd(2, k, n);
      MulAssoc(x0, Pow(2, k), p);
    }
  }

  lemma DoublePow(x0: nat, x: nat, k: nat)
    requires x == x0 * Pow(2, k)
    ensures 2 * x == x0 * Pow(2, k + 1)
  {
    Rotate(x0, 2, Pow(2, k));
  }

  lemma Pow2Values()
    ensures Pow(2, 0) == 1 && Pow(2, 1) == 2 && Pow(2, 2) == 4 && Pow(2, 4) == 0x10
    ensures Pow(2, 8) == 0x100 && Pow(2, 16) == 0x1_0000
  {
    PowAdd(2, 4, 4);
    PowAdd(2, 8, 8);
  }

  /** dshift: the left shift that leaves the top word of b with four leading zero bits, less p2 bits already due. */
  method DShift(b: Bigint, p2: nat) returns (rv: int)
    requires b.Valid() && b.wds >= 1 && b.x[b.wds - 1] > 0
    ensures 0 <= rv < 32
    ensures exists z ::
              0 <= z < 32 && 0x8000_0000 <= b.x[b.wds - 1] * Pow(2, z) < BASE && (rv + p2) % 32 == (z + 28) % 32
  {
    hide Pow;
    var z: int := Hi0bits(b.x[b.wds - 1]);
    rv := z - 4;
    if p2 > 0 {
      rv := rv - p2;
    }
    ShiftMod(z, p2);
    rv := rv % 32;
  }

  lemma ShiftMod(z: int, p2: nat)
    ensures ((z - 4 - p2) % 32 + p2) % 32 == (z + 28) % 32
  {
    var a := z - 4 - p2;
    var q, r := (z + 28) / 32, (z + 28) % 32;
    assert a == a / 32 * 32 + a % 32 && z + 28 == q * 32 + r;
    DivModUnique(a % 32 + p2, 32, q - a / 32 - 1, r);
  }

  /** The quotient of the top words, rounded up below, never exceeds the true quotient ... */
  lemma EstimateLow(b: nat, s: nat, tb: nat, t: nat, p: nat)
    requires tb * p <= b && s < (t + 1) * p
    ensures (tb / (t + 1)) * s <= b
  {
    var q := tb / (t + 1);
    assert q * (t + 1) <= tb;
    MulMono(q, s, (t + 1) * p);
    MulAssoc(q, t + 1, p);
    MulMono(p, q * (t + 1), tb);
  }

  /** ... and falls short of it by at most one. */
  lemma EstimateHigh(b: nat, s: nat, tb: nat, t: nat, p: nat)
    requires p > 0 && b < (tb + 1) * p && t * p <= s
    requires 0x800_0000 <= t && tb < BASE
    ensures b < (tb / (t + 1) + 2) * s
    ensures tb / (t + 1) < 32
  {
    var q := tb / (t + 1);
    assert tb < (q + 1) * (t + 1);
    if q >= 32 { MulMono(t + 1, 32, q); }
    assert tb + 1 <= (q + 1) * (t + 1) <= (q + 2) * t by {
      assert (q + 1) * (t + 1) == q * t + q + t + 1;
      assert (q + 2) * t == q * t + 2 * t;
    }
    MulMono(p, tb + 1, (q + 2) * t);
    MulAssoc(q + 2, t, p);
    MulMono(q + 2, t * p, s);
  }

  /** Two subtractions at most: the corrected estimate is the quotient. */
  lemma Corrected(b: nat, s: nat, q: nat, r: nat)
    requires s > 0 && b == q * s + r && r < s
    ensures q == b / s && r == b % s
  {
    DivModUnique(b, s, q, r);
  }

  /** Subtract q * S from b, word by word, with the carry of the product and the borrow of the difference. */
  method SubMul(b: Bigint, S: Bigint, q: Word)
    requires b.Valid() && S.Valid() && b.wds == S.wds >= 1 && b.x != S.x
    requires q * S.Val() <= b.Val()
    modifies b.x
    ensures Value(b.x[..b.wds]) == old(b.Val()) - q * S.Val()
  {
    hide Value, Pow;
    ValueNil();
    var n := S.wds;
    ghost var b0, sv := b.x[..n], S.x[..n];
    var borrow: Word, carry: Wide := 0, 0;
    var i := 0;
    while i == 0 || i < n
      modifies b.x
      invariant 0 <= i <= n && borrow <= 1 && carry < BASE
      invariant b.x[i..n] == b0[i..]
      invariant Value(b.x[..n][..i]) - (borrow + carry) * Pow(BASE, i) == Value(b0[..i]) - q * Value(sv[..i])
      decreases n + 1 - i
    {
      ghost var b1, out := b.x[..n], borrow + carry;
      assert b.x[i] == b0[i] && S.x[i] == sv[i];
      b.x[i], borrow, carry := SubMulWord(b.x[i], S.x[i], q, borrow, carry);
      SubRow(b0, b1, b.x[..n], sv, i, q, out, borrow + carry);
      i := i + 1;
    }
    assert b0[..i] == b0 && sv[..i] == sv && b.x[..n][..i] == b.x[..n];
    NoBorrow(b.x[..n], borrow + carry, old(b.Val()) - q * S.Val());
  }

  /** ys = s * q + carry; y = x - (ys & FFFFFFFF) - borrow. */
  method SubMulWord(x: Word, s: Word, q: Word, borrow: Word, carry: Wide) returns (w: Word, br: Word, c: Wide)
    requires borrow <= 1 && carry < BASE
    ensures x - s * q - (borrow + carry) == w - (br + c) * BASE && br <= 1 && c < BASE
  {
    var lo, hi := MulAcc(s, q, carry);
    c := hi;
    w, br := SubBorrow(x, lo, borrow);
  }

  lemma SubRow(b0: seq<Word>, b1: seq<Word>, b2: seq<Word>, s: seq<Word>, i: nat, q: Word, out: nat, out1: nat)
    requires i < |b0| == |b1| == |b2| == |s| && b1[..i] == b2[..i]
    requires b0[i] - s[i] * q - out == b2[i] - out1 * BASE
    requires Value(b1[..i]) - out * Pow(BASE, i) == Value(b0[..i]) - q * Value(s[..i])
    ensures Value(b2[..i + 1]) - out1 * Pow(BASE, i + 1) == Value(b0[..i + 1]) - q * Value(s[..i + 1])
  {
    hide Value, Pow;
    BorrowWord(b1, b2, b0, i, s[i] * q, q * Value(s[..i]), out, out1);
    ValueSnoc(s, i);
    Distribute(q, Value(s[..i]), s[i], Pow(BASE, i));
  }

  lemma Distribute(q: int, v: int, w: int, p: int)
    ensures q * (v + w * p) == q * v + (w * q) * p
  {
    MulAssoc(q, w, p);
  }

  /** Give up zero words at the top, as quorem does when word n (the top one) has become zero. */
  method TrimTop(b: Bigint, n0: nat)
    requires b.Shape() && b.wds == n0 + 1 <= b.maxwds
    modifies b`wds
    ensures b.Valid() && b.Val() == old(Value(b.x[..b.wds])) && b.wds <= old(b.wds)
  {
    hide Value, Pow;
    var n := n0;
    ghost var all := b.x[..n0 + 1];
    if b.x[n] == 0 {
      var e: int := n - 1;
      while e > 0 && b.x[e] == 0
        modifies {}
        invariant 0 <= n <= n0 && e == n - 1
        invariant forall i :: n <= i <= n0 ==> all[i] == 0
      {
        n := n - 1;
        e := e - 1;
      }
      b.wds := n;
      ValueTrim(all, n);
      assert all[..n] == b.x[..n];
    }
  }

  /**
   quorem: b becomes b mod S and the quotient is returned. The estimate comes from the top
   words; S must be aligned to 27 significant bits or more in its top word, and b no longer than S.
   */
  method QuoRem(b: Bigint, S: Bigint) returns (q: Word)
    requires b.Valid() && S.Valid() && b != S && b.x != S.x
    requires S.wds >= 1 && 0x800_0000 <= S.x[S.wds - 1] < 0x1000_0000
    requires b.wds <= S.wds
    modifies b, b.x
    ensures b.Valid() && b.sign == old(b.sign) && b.wds <= S.wds
    ensures S.Val() > 0 && q == old(b.Val()) / S.Val() && b.Val() == old(b.Val()) % S.Val()
  {
    hide Value, Pow;
    var n := S.wds;
    ghost var s, v := S.Val(), b.Val();
    AlignedPositive(S);
    if b.wds < n {
      LongerIsLarger(b, S);
      Corrected(v, s, 0, v);
      return 0;
    }
    n := n - 1;
    DivShrinks(b.x[n], S.x[n] + 1);
    q := b.x[n] / (S.x[n] + 1);
    Estimate(b, S, q);
    if q != 0 {
      SubMul(b, S, q);
      TrimTop(b, n);
    }
    q := Correct(b, S, q, n, v);
  }

  /** The comparison and single correction that end quorem. */
  method Correct(b: Bigint, S: Bigint, q0: Word, n: nat, ghost v: nat) returns (q: Word)
    requires b.Valid() && S.Valid() && b != S && b.x != S.x && S.Val() > 0
    requires S.wds == n + 1 && b.wds <= S.wds && q0 < 32
    requires b.Val() == v - q0 * S.Val() && v < (q0 + 2) * S.Val()
    modifies b, b.x
    ensures b.Valid() && b.sign == old(b.sign) && b.wds <= S.wds
    ensures q == v / S.Val() && b.Val() == v % S.Val()
  {
    hide Value, Pow;
    q := q0;
    ghost var s := S.Val();
    EmptyIsZero(b);
    var c := Cmp(b, S);
    if c >= 0 {
      q := q + 1;
      if b.wds < S.wds { LongerIsLarger(b, S); }
      SubMul(b, S, 1);
      TrimTop(b, n);
      OneMore(v, s, q0);
    }
    Corrected(v, s, q, b.Val());
  }

  lemma OneMore(v: int, s: int, q: int)
    ensures (v - q * s) - 1 * s == v - (q + 1) * s
    ensures v < (q + 2) * s ==> v - (q + 1) * s < s
  {
    assert (q + 2) * s == (q + 1) * s + s;
  }

  lemma AlignedPositive(S: Bigint)
    requires S.Valid() && S.wds >= 1 && S.x[S.wds - 1] > 0
    ensures S.Val() > 0
  {
    ValueTop(S.x[..S.wds]);
    PowPos(BASE, S.wds - 1);
    MulPos(S.x[S.wds - 1], Pow(BASE, S.wds - 1));
  }

  /** The top-word estimate is at most the quotient and at least the quotient less one. */
  lemma Estimate(b: Bigint, S: Bigint, q: nat)
    requires b.Valid() && S.Valid() && b.wds == S.wds >= 1
    requires 0x800_0000 <= S.x[S.wds - 1]
    requires q == b.x[b.wds - 1] / (S.x[S.wds - 1] as int + 1)
    ensures q * S.Val() <= b.Val() < (q + 2) * S.Val() && q < 32
  {
    hide Value, Pow;
    var n := S.wds - 1;
    ValueTop(S.x[..S.wds]);
    ValueTop(b.x[..b.wds]);
    PowPos(BASE, n);
    EstimateLow(b.Val(), S.Val(), b.x[n], S.x[n], Pow(BASE, n));
    EstimateHigh(b.Val(), S.Val(), b.x[n], S.x[n], Pow(BASE, n));
  }
}
