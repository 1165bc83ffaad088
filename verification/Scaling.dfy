/**
 The exact scaling of dtoa: big integers b, S, mlo, mhi with b/S = d/10^k, and mlo/S, mhi/S
 half the distances from d to its two neighbours, also over 10^k.
 */
module Scaling {
  import opened Arith
  import opened Rational
  import opened Words
  import opened Bignum
  import opened Division
  import opened Pow5
  import opened Ieee
  import opened DoubleBits
  import opened FreeDigits

  /** d is a power of two above the smallest normal double, so its lower neighbour is nearer. */
  ghost predicate SpecialCase(n: Bits) {
    Fraction(n) == 0 && ExpField(n) > 1
  }

  /** Half the gap to the upper neighbour is 2^HalfUp(n). */
  ghost function HalfGapUp(n: Bits): int { UlpExp(n) - 1075 }

  ghost function HalfGapDown(n: Bits): int {
    if SpecialCase(n) then UlpExp(n) - 1076 else UlpExp(n) - 1075
  }

  /** Powers of 2 and 5 in b, S and mlo. */
  datatype Exponents = Exponents(b2: int, s2: int, b5: int, s5: int, m2: int, m5: int)

  /**
   The bookkeeping of dtoa: b * 2^b2 * 5^b5 over 2^s2 * 5^s5 is d / 10^k, and so is
   2^m2 * 5^m5 for the half gap of exponent g.
   */
  ghost predicate Balanced(x: Exponents, k: int, be: int, g: int) {
    && x.b2 >= 0 && x.s2 >= 0 && x.b5 >= 0 && x.s5 >= 0 && x.m2 >= 0 && x.m5 >= 0
    && x.b2 + k == x.s2 + be && x.b5 + k == x.s5
    && x.m2 + k == x.s2 + g && x.m5 + k == x.s5
  }

  method ScaleExponents(be: int, bbits: nat, k: int, denorm: bool, spec: bool, leftright: bool) returns (x: Exponents)
    requires denorm ==> be >= -1074
    requires !denorm ==> bbits <= 53
    ensures leftright ==> Balanced(x, k, be, (if denorm then -1075 else bbits + be - 54) - (if spec then 1 else 0))
    ensures !leftright ==> Balanced(x, k, be, be)
  {
    // i = floor(log2 d)
    var i := bbits + be - 1;
    var j := bbits - i - 1;
    var b2, s2, b5, s5;
    if j >= 0 {
      b2, s2 := 0, j;
    } else {
      b2, s2 := -j, 0;
    }
    if k >= 0 {
      b5, s5 := 0, k;
      s2 := s2 + k;
    } else {
      b2 := b2 - k;
      b5, s5 := -k, 0;
    }
    var m2, m5 := b2, b5;
    if leftright {
      i := if denorm then be + (1023 + 52 - 1 + 1) else 1 + 53 - bbits;
      b2 := b2 + i;
      s2 := s2 + i;
    }
    if m2 > 0 && s2 > 0 {
      i := if m2 < s2 then m2 else s2;
      b2 := b2 - i;
      m2 := m2 - i;
      s2 := s2 - i;
    }
    if leftright && spec {
      b2 := b2 + 1;
      s2 := s2 + 1;
    }
    x := Exponents(b2, s2, b5, s5, m2, m5);
  }

  lemma ScaleReal(m: real, x2: int, x5: int, s2: int, s5: int, k: int, e: int)
    requires x2 + k == s2 + e && x5 + k == s5
    ensures (m * RPow(2, x2) * RPow(5, x5)) * RPow(10, k) == (RPow(2, s2) * RPow(5, s5)) * (m * RPow(2, e))
  {
    hide Pow, RPow;
    assert RPow(10, k) == RPow(2, k) * RPow(5, k) by { TenSplit(k); }
    assert RPow(2, x2) * RPow(2, k) == RPow(2, s2) * RPow(2, e) by { RPowAdd(2, x2, k); RPowAdd(2, s2, e); }
    assert RPow(5, x5) * RPow(5, k) == RPow(5, s5) by { RPowAdd(5, x5, k); }
    Regroup(RPow(10, k), m, RPow(2, x2), RPow(5, x5), RPow(2, k), RPow(5, k), RPow(2, s2), RPow(5, s5), RPow(2, e));
  }

  lemma ToReal(t: nat, m: nat, x2: nat, x5: nat)
    requires t == m * Pow(2, x2) * Pow(5, x5)
    ensures t as real == (m as real) * RPow(2, x2) * RPow(5, x5)
  {
    hide Pow, RPow;
    NatRPow(2, x2); NatRPow(5, x5);
    CastMul3(t, m, Pow(2, x2), Pow(5, x5), m as real, RPow(2, x2), RPow(5, x5));
  }

  lemma ToReal2(t: nat, s2: nat, s5: nat)
    requires t == Pow(2, s2) * Pow(5, s5)
    ensures t as real == RPow(2, s2) * RPow(5, s5)
  {
    hide Pow, RPow;
    NatRPow(2, s2); NatRPow(5, s5);
    CastMul2(t, Pow(2, s2), Pow(5, s5), RPow(2, s2), RPow(5, s5));
  }

  lemma CastMul2(t: int, b: int, c: int, rb: real, rc: real)
    requires t == b * c && rb == b as real && rc == c as real
    ensures t as real == rb * rc
  {
    CastMul(b, c);
  }

  lemma CastMul3(t: int, a: int, b: int, c: int, ra: real, rb: real, rc: real)
    requires t == a * b * c && ra == a as real && rb == b as real && rc == c as real
    ensures t as real == ra * rb * rc
  {
    CastMul2(a * b, a, b, ra, rb);
    CastMul2(t, a * b, c, ra * rb, rc);
  }

  /** Balanced exponents give the exact quotient. */
  lemma ScaleEq(B: nat, S: nat, m: nat, x2: nat, x5: nat, s2: nat, s5: nat, k: int, e: int)
    requires x2 + k == s2 + e && x5 + k == s5
    requires B == m * Pow(2, x2) * Pow(5, x5) && S == Pow(2, s2) * Pow(5, s5)
    ensures B as real * RPow(10, k) == S as real * ((m as real) * RPow(2, e))
  {
    hide Pow, RPow;
    ToReal(B, m, x2, x5);
    ToReal2(S, s2, s5);
    ScaleReal(m as real, x2, x5, s2, s5, k, e);
  }

  lemma Regroup(T: real, m: real, a2: real, a5: real, k2: real, k5: real, s2: real, s5: real, e2: real)
    requires T == k2 * k5 && a2 * k2 == s2 * e2 && a5 * k5 == s5
    ensures (m * a2 * a5) * T == (s2 * s5) * (m * e2)
  {
    assert (m * a2 * a5) * (k2 * k5) == m * ((a2 * k2) * (a5 * k5));
    assert m * ((s2 * e2) * s5) == (s2 * s5) * (m * e2);
  }

  /** A number of 32 q + 28 bits has exactly four leading zero bits in its top word. */
  lemma AlignedBits(S: Bigint, q: nat)
    requires S.Valid() && HasBits(S.Val(), 32 * q + 28)
    ensures Aligned(S)
  {
    hide Pow, Value;
    PowPos(2, 32 * q + 27);
    TopWord(S);
    var w := S.wds;
    ghost var top := S.x[w - 1];
    ValueBound(S.x[..w]);
    ValueTop(S.x[..w]);
    hide Bigint.Val;
    PowPos(BASE, w - 1);
    PowBase(q);
    PowAdd(2, 28, 32 * q);
    PowAdd(2, 27, 32 * q);
    PowPos(2, 32 * q);
    Pow27();
    PowStep(BASE, q);
    assert top * Pow(BASE, w - 1) >= Pow(BASE, w - 1) by { MulMono(Pow(BASE, w - 1), 1, top); }
    if w < q + 1 {
      PowMono(BASE, w, q);
    } else if w > q + 1 {
      PowMono(BASE, q + 1, w - 1);
    }
    assert w == q + 1;
    MulCancel(Pow(BASE, q), 0x800_0000, top + 1);
    MulCancel(Pow(BASE, q), top, 0x1000_0000);
  }

  lemma Pow27()
    ensures Pow(2, 27) == 0x800_0000 && Pow(2, 28) == 0x1000_0000
  {
    hide Pow;
    Pow2Values();
    PowAdd(2, 16, 8);
    PowAdd(2, 24, 2);
    PowStep(2, 26);
    PowStep(2, 27);
  }

  /** Multiplying by 2^k adds k bits. */
  lemma BitsMore(v: nat, bits: nat, k: nat)
    requires HasBits(v, bits)
    ensures HasBits(v * Pow(2, k), bits + k)
  {
    hide Pow;
    PowAdd(2, bits, k);
    PowAdd(2, bits - 1, k);
    PowPos(2, k);
    assert bits - 1 + k == bits + k - 1;
    MulMono(Pow(2, k), Pow(2, bits - 1), v);
    MulMonoStrict(Pow(2, k), v, Pow(2, bits));
  }

  /** The power-of-five multiplications: b * 5^b5, mhi = 5^m5 when gaps are wanted, S = 5^s5. */
  method Fives(b0: Bigint, x: Exponents, leftright: bool, cache: Cache) returns (b: Bigint, mhi: Bigint?, S: Bigint)
    requires b0.Valid() && b0.Val() > 0 && cache.Valid() && cache.Apart(b0)
    requires x.b5 >= 0 && x.s5 >= 0 && x.m5 == x.b5
    modifies b0, b0.x, cache.Repr
    ensures b == b0 || (fresh(b) && fresh(b.x))
    ensures fresh(S) && fresh(S.x) && Separate(b, S)
    ensures b.Valid() && b.Val() == old(b0.Val()) * Pow(5, x.b5)
    ensures S.Valid() && S.Val() == Pow(5, x.s5)
    ensures leftright <==> mhi != null
    ensures mhi != null ==> fresh(mhi) && fresh(mhi.x) && Separate(mhi, b) && Separate(mhi, S)
    ensures mhi != null ==> mhi.Valid() && mhi.Val() == Pow(5, x.m5) && cache.Apart(mhi)
    ensures cache.Valid() && cache.Apart(b) && fresh(cache.Repr - old(cache.Repr))
  {
    hide Value, Pow, Bigint.Val, Bigint.Valid, Cache.Valid, Cache.Node;
    PowUnit(5);
    b := b0;
    mhi := null;
    if leftright {
      b, mhi := FiveGaps(b, x.b5, cache);
    } else if x.b5 > 0 {
      b := Pow5Mult(b, x.b5, cache);
    }
    S := FiveS(x.s5, cache);
  }

  method FiveS(s5: nat, cache: Cache) returns (S: Bigint)
    requires cache.Valid()
    modifies cache.Repr
    ensures fresh(S) && fresh(S.x) && S.Valid() && S.Val() == Pow(5, s5)
    ensures cache.Valid() && fresh(cache.Repr - old(cache.Repr))
  {
    hide Value, Pow, Bigint.Val, Bigint.Valid, Cache.Valid, Cache.Node;
    PowUnit(5);
    S := I2b(1);
    if s5 > 0 {
      S := Pow5Mult(S, s5, cache);
    }
  }

  /** With gaps: mhi = 5^m5 is made once and multiplied into b (b5 == m5). */
  method FiveGaps(b0: Bigint, m5: nat, cache: Cache) returns (b: Bigint, mhi: Bigint)
    requires b0.Valid() && b0.Val() > 0 && cache.Valid() && cache.Apart(b0)
    modifies cache.Repr
    ensures b == b0 || (fresh(b) && fresh(b.x))
    ensures fresh(mhi) && fresh(mhi.x) && Separate(mhi, b)
    ensures b.Valid() && b.Val() == old(b0.Val()) * Pow(5, m5)
    ensures mhi.Valid() && mhi.Val() == Pow(5, m5)
    ensures cache.Valid() && cache.Apart(b) && cache.Apart(mhi) && fresh(cache.Repr - old(cache.Repr))
  {
    assert Pow(5, 0) == 1;
    PowPos(5, m5);
    hide Value, Pow, Bigint.Val, Bigint.Valid, Cache.Valid, Cache.Node;
    ghost var v := b0.Val();
    b := b0;
    mhi := I2b(1);
    if m5 > 0 {
      mhi := Pow5Mult(mhi, m5, cache);
      assert b.Val() == v;
      PositiveHasWords(mhi);
      PositiveHasWords(b);
      MulComm(mhi.Val(), v);
      b := Mult(mhi, b);
    }
  }

  /** S shifted by s2 + i, where i = dshift(S, s2), is aligned. */
  lemma ShiftAligns(S0: nat, top: Word, w: nat, z: nat, k: nat) returns (q: nat)
    requires w >= 1 && z < 32 && 0x8000_0000 <= top * Pow(2, z) < BASE
    requires top * Pow(BASE, w - 1) <= S0 < (top + 1) * Pow(BASE, w - 1)
    requires k % 32 == (z + 28) % 32
    ensures HasBits(S0 * Pow(2, k), 32 * q + 28)
  {
    TopBits(S0, top, z, w - 1);
    BitsMore(S0, 32 * w - z, k);
    var a, c := k / 32, (z + 28) / 32;
    assert k == 32 * a + k % 32 && z + 28 == 32 * c + (z + 28) % 32;
    q := w + a - c;
  }

  /** The shifts by powers of two: i aligns S, b and S are shifted by it too. */
  method Twos(b0: Bigint, S0: Bigint, b2: nat, s2: nat) returns (b: Bigint, S: Bigint, i: nat)
    requires b0.Valid() && S0.Valid() && b0.Val() > 0 && S0.Val() > 0 && Separate(b0, S0)
    ensures b == b0 || (fresh(b) && fresh(b.x))
    ensures S == S0 || (fresh(S) && fresh(S.x))
    ensures Separate(b, S) && b.Valid() && Aligned(S)
    ensures b.Val() == b0.Val() * Pow(2, b2 + i)
    ensures S.Val() == S0.Val() * Pow(2, s2 + i)
  {
    hide Value, Pow;
    PowUnit(2);
    i := AlignBy(S0, s2);
    hide Bigint.Val;
    ghost var vS := S0.Val();
    b, S := b0, S0;
    if b2 + i > 0 {
      b := LShift(b0, b2 + i);
    }
    assert S0.Val() == vS;
    if s2 + i > 0 {
      S := LShift(S0, s2 + i);
    }
    ghost var q: nat :| HasBits(vS * Pow(2, s2 + i), 32 * q + 28);
    AlignedBits(S, q);
  }

  method AlignBy(S0: Bigint, s2: nat) returns (i: nat)
    requires S0.Valid() && S0.Val() > 0
    ensures exists q: nat :: HasBits(S0.Val() * Pow(2, s2 + i), 32 * q + 28)
  {
    TopWord(S0);
    hide Value, Pow;
    i := DShift(S0, s2);
    ghost var z :| 0 <= z < 32 && 0x8000_0000 <= S0.x[S0.wds - 1] * Pow(2, z) < BASE && (i + s2) % 32 == (z + 28) % 32;
    ValueTop(S0.x[..S0.wds]);
    ghost var q := ShiftAligns(S0.Val(), S0.x[S0.wds - 1], S0.wds, z, s2 + i);
  }

  /** mlo is mhi, except in the special case, where mhi becomes a doubled copy. */
  method Gaps(m: Bigint, m2: nat, spec: bool) returns (mlo: Bigint, mhi: Bigint)
    requires m.Valid() && m.Val() > 0
    ensures mlo == m || (fresh(mlo) && fresh(mlo.x))
    ensures mhi == mlo || (fresh(mhi) && fresh(mhi.x) && Separate(mlo, mhi))
    ensures mlo.Valid() && mhi.Valid()
    ensures mlo.Val() == m.Val() * Pow(2, m2)
    ensures mhi.Val() == if spec then 2 * mlo.Val() else mlo.Val()
  {
    hide Pow, Value;
    PowUnit(2);
    PowPos(2, m2);
    MulPos(m.Val(), Pow(2, m2));
    mhi := m;
    if m2 > 0 {
      mhi := LShift(mhi, m2);
    }
    mlo := mhi;
    if spec {
      ghost var v := mlo.Val();
      mhi := new Bigint.Balloc(mhi.k);
      Bcopy(mhi, mlo);
      TopWord(mlo);
      assert mhi.Valid() && mhi.Val() == v;
      mhi := LShift(mhi, 1);
      assert mlo.Val() == v;
    }
  }

  /** B / S = y / 10^k. */
  ghost predicate Ratio(B: int, S: int, k: int, y: real) {
    B as real * RPow(10, k) == S as real * y
  }

  lemma RatioTen(B: int, S: int, k: int, y: real)
    requires Ratio(B, S, k, y)
    ensures Ratio(10 * B, S, k - 1, y)
  {
    hide RPow;
    RPowSucc(10, k - 1);
    TenOver(B as real, (10 * B) as real, RPow(10, k), RPow(10, k - 1));
  }

  lemma TenOver(b: real, b10: real, p: real, q: real)
    requires b10 == 10.0 * b && p == 10.0 * q
    ensures b10 * q == b * p
  {
  }

  /** Quotients over the same S compare as the numbers they stand for. */
  lemma RatioLess(A: nat, B: nat, S: nat, k: int, x: real, y: real)
    requires S > 0 && Ratio(A, S, k, x) && Ratio(B, S, k, y)
    ensures A < B <==> x < y
    ensures A <= B <==> x <= y
  {
    hide RPow;
    RPowPos(10, k);
    LessOver(A as real, B as real, S as real, RPow(10, k), x, y);
  }

  lemma LessOver(a: real, b: real, s: real, p: real, x: real, y: real)
    requires s > 0.0 && p > 0.0 && a * p == s * x && b * p == s * y
    ensures a < b <==> x < y
    ensures a <= b <==> x <= y
  {
    RCancel(p, a, b);
    RCancel(s, x, y);
  }

  lemma RatioOne(S: nat, k: int)
    ensures Ratio(S, S, k, RPow(10, k)) && Ratio(10 * S, S, k, RPow(10, k + 1))
  {
    hide RPow;
    RPowSucc(10, k);
    TenOver(S as real, (10 * S) as real, RPow(10, k + 1), RPow(10, k));
  }

  /** d = b * 2^be as a real. */
  lemma DoubleIs(n: Bits, v: nat, be: int)
    requires be >= -1074 && v * Pow(2, be + 1074) == Magnitude(n)
    ensures DoubleValue(n) == (v as real) * RPow(2, be)
  {
    hide Pow, RPow, Magnitude;
    NatRPow(2, be + 1074);
    RPowAdd(2, be + 1074, -1074);
    CastMul2(Magnitude(n), v, Pow(2, be + 1074), v as real, RPow(2, be + 1074));
    assert be + 1074 + -1074 == be;
    RMulAssoc(v as real, RPow(2, be + 1074), RPow(2, -1074));
  }

  /** The three quotients from the exponents, whatever common shift i was added. */
  lemma Quotients(n: Bits, v: nat, be: int, x: Exponents, i: nat, k: int, g: int, B: nat, S: nat, M: nat)
    requires be >= -1074 && v * Pow(2, be + 1074) == Magnitude(n)
    requires Balanced(x, k, be, g)
    requires B == v * Pow(5, x.b5) * Pow(2, x.b2 + i)
    requires S == Pow(5, x.s5) * Pow(2, x.s2 + i)
    requires M == Pow(5, x.m5) * Pow(2, x.m2 + i)
    ensures S > 0 && Ratio(B, S, k, DoubleValue(n)) && Ratio(M, S, k, RPow(2, g))
  {
    hide Pow, RPow, Magnitude, DoubleValue;
    DoubleIs(n, v, be);
    Reorder(v, Pow(5, x.b5), Pow(2, x.b2 + i));
    Reorder(1, Pow(5, x.m5), Pow(2, x.m2 + i));
    MulComm(Pow(5, x.s5), Pow(2, x.s2 + i));
    PowPos(5, x.s5);
    PowPos(2, x.s2 + i);
    MulPos(Pow(5, x.s5), Pow(2, x.s2 + i));
    ScaleEq(B, S, v, x.b2 + i, x.b5, x.s2 + i, x.s5, k, be);
    ScaleEq(M, S, 1, x.m2 + i, x.m5, x.s2 + i, x.s5, k, g);
  }

  lemma Reorder(v: int, p: int, q: int)
    ensures v * p * q == v * q * p
  {
  }

  /** k is floor(log10 d), or one more when a check is still to come. */
  ghost predicate Estimate(k: int, kCheck: bool, d: real) {
    || RPow(10, k) <= d < RPow(10, k + 1)
    || (kCheck && RPow(10, k - 1) <= d < RPow(10, k))
  }

  /** The correction of a k estimated one too large: b and mhi are multiplied by ten instead. */
  method CheckK(b0: Bigint, S: Bigint, mhi0: Bigint?, k0: int, kCheck: bool, ghost d: real, ghost g: real)
    returns (b: Bigint, mhi: Bigint?, k: int)
    requires b0.Valid() && b0.Val() > 0 && Aligned(S) && S.Val() > 0 && Separate(b0, S)
    requires mhi0 != null ==> mhi0.Valid() && Separate(mhi0, S) && Separate(b0, mhi0)
    requires Ratio(b0.Val(), S.Val(), k0, d) && Estimate(k0, kCheck, d)
    modifies b0, b0.x, if mhi0 != null then {mhi0, mhi0.x} else {}
    ensures b == b0 || (fresh(b) && fresh(b.x))
    ensures mhi == mhi0 || (mhi != null && fresh(mhi) && fresh(mhi.x))
    ensures b.Valid() && Separate(b, S) && S.Val() <= b.Val() < 10 * S.Val()
    ensures Ratio(b.Val(), S.Val(), k, d) && RPow(10, k) <= d < RPow(10, k + 1)
    ensures mhi == null <==> mhi0 == null
    ensures mhi != null ==> mhi.Valid() && Separate(mhi, S) && Separate(b, mhi)
    ensures k == k0 || k == k0 - 1
    ensures mhi0 != null ==> mhi.Val() == old(mhi0.Val()) * (if k == k0 then 1 else 10)
  {
    hide Pow, RPow, Value, Bigint.Val, Ratio;
    b, mhi, k := b0, mhi0, k0;
    TopWord(b);
    ghost var B, vS := b.Val(), S.Val();
    InRange(B, vS, k, d);
    if kCheck {
      var c := Cmp(b, S);
      if c < 0 {
        k := k - 1;
        b := MultAdd(b, 10, 0);
        RatioTen(B, vS, k0, d);
        InRange(10 * B, vS, k, d);
        if mhi != null {
          mhi := MultAdd(mhi, 10, 0);
        }
      }
    }
  }

  lemma InRange(B: nat, S: nat, k: int, d: real)
    requires S > 0 && Ratio(B, S, k, d)
    ensures S <= B <==> RPow(10, k) <= d
    ensures B < 10 * S <==> d < RPow(10, k + 1)
  {
    hide RPow, Ratio;
    RatioOne(S, k);
    RatioLess(S, B, S, k, RPow(10, k), d);
    RatioLess(B, 10 * S, S, k, d, RPow(10, k + 1));
  }

  lemma RatioTwice(M: int, S: int, k: int, g: int)
    requires Ratio(M, S, k, RPow(2, g))
    ensures Ratio(2 * M, S, k, RPow(2, g + 1))
  {
    hide RPow;
    RPowSucc(2, g);
    TwiceOver(M as real, (2 * M) as real, S as real, RPow(10, k), RPow(2, g), RPow(2, g + 1));
  }

  lemma TwiceOver(m: real, m2: real, s: real, p: real, y: real, y2: real)
    requires m2 == 2.0 * m && y2 == 2.0 * y && m * p == s * y
    ensures m2 * p == s * y2
  {
    assert m2 * p == 2.0 * (m * p);
    assert s * y2 == 2.0 * (s * y);
  }

  /** The first stage: b/S = d/10^k0 with S aligned, and the half gap over S still to be shifted by m2. */
  method Quotient(w0: Word, w1: Word, k0: int, spec: bool, leftright: bool, cache: Cache)
    returns (b: Bigint, S: Bigint, mhi: Bigint?, m2: nat)
    requires w0 < 0x7ff0_0000 && Join(w0, w1) > 0 && cache.Valid()
    requires spec <==> SpecialCase(Join(w0, w1))
    modifies cache.Repr
    ensures fresh(b) && fresh(b.x) && fresh(S) && fresh(S.x) && Separate(b, S)
    ensures b.Valid() && b.Val() > 0 && Aligned(S) && S.Val() > 0
    ensures Ratio(b.Val(), S.Val(), k0, DoubleValue(Join(w0, w1)))
    ensures leftright <==> mhi != null
    ensures mhi != null ==> fresh(mhi) && fresh(mhi.x) && Separate(mhi, b) && Separate(mhi, S)
    ensures mhi != null ==> mhi.Valid() && mhi.Val() > 0 && cache.Apart(mhi)
    ensures mhi != null ==> Ratio(mhi.Val() * Pow(2, m2), S.Val(), k0, RPow(2, HalfGapDown(Join(w0, w1))))
    ensures cache.Valid() && cache.Apart(b) && fresh(cache.Repr - old(cache.Repr))
  {
    hide Pow, RPow, Value, Bigint.Val, Ratio, DoubleValue, Magnitude, Cache.Valid, Cache.Node, HasBits;
    ghost var n := Join(w0, w1);
    JoinFields(w0, w1);
    var be, bbits;
    b, be, bbits := D2b(w0, w1);
    ghost var v := b.Val();
    var denorm := w0 / EXP_MSK1 == 0;
    var x := ScaleExponents(be, bbits, k0, denorm, spec, leftright);
    b, mhi, S := Fives(b, x, leftright, cache);
    ghost var vm := if mhi != null then mhi.Val() else 0;
    PowPos(5, x.b5); PowPos(5, x.s5); PowPos(5, x.m5);
    MulPos(v, Pow(5, x.b5));
    ghost var g := if leftright then HalfGapDown(n) else be;
    var i;
    b, S, i := Twos(b, S, x.b2, x.s2);
    m2 := x.m2 + i;
    Quotients(n, v, be, x, i, k0, g, b.Val(), S.Val(), Pow(5, x.m5) * Pow(2, m2));
    PowPos(2, x.b2 + i);
    MulPos(v * Pow(5, x.b5), Pow(2, x.b2 + i));
    assert mhi != null ==> mhi.Val() == vm;
  }

  /**
   The scaling of dtoa for the double of words w0, w1 and an estimate k0 of its decimal
   exponent: b/S = d/10^k with k = floor(log10 d), and with leftright the half gaps to both
   neighbours over S.
   */
  method Scale(w0: Word, w1: Word, k0: int, kCheck: bool, leftright: bool, cache: Cache)
    returns (b: Bigint, S: Bigint, mlo: Bigint?, mhi: Bigint?, k: int)
    requires w0 < 0x7ff0_0000 && Join(w0, w1) > 0 && cache.Valid()
    requires Estimate(k0, kCheck, DoubleValue(Join(w0, w1)))
    modifies cache.Repr
    ensures cache.Valid() && cache.Apart(b) && fresh(cache.Repr - old(cache.Repr))
    ensures fresh(b) && fresh(b.x) && fresh(S) && fresh(S.x) && Separate(b, S)
    ensures b.Valid() && Aligned(S) && S.Val() <= b.Val() < 10 * S.Val()
    ensures Ratio(b.Val(), S.Val(), k, DoubleValue(Join(w0, w1)))
    ensures RPow(10, k) <= DoubleValue(Join(w0, w1)) < RPow(10, k + 1)
    ensures leftright ==> mlo != null && mhi != null && fresh(mlo) && fresh(mlo.x) && fresh(mhi) && fresh(mhi.x)
    ensures leftright ==> Numbers(b, S, mlo, mhi) && mlo.Val() > 0 && cache.Apart(mlo) && cache.Apart(mhi)
    ensures leftright ==> Ratio(mlo.Val(), S.Val(), k, RPow(2, HalfGapDown(Join(w0, w1))))
    ensures leftright ==> Ratio(mhi.Val(), S.Val(), k, RPow(2, HalfGapUp(Join(w0, w1))))
  {
    hide Pow, RPow, Value, Bigint.Val, Ratio, DoubleValue, Cache.Valid, Cache.Node, Numbers;
    ghost var n := Join(w0, w1);
    JoinFields(w0, w1);
    var spec := w1 == 0 && w0 % EXP_MSK1 == 0 && w0 / EXP_MSK1 >= 2;
    var m2;
    b, S, mhi, m2 := Quotient(w0, w1, k0, spec, leftright, cache);
    ghost var vm, vS := if mhi != null then mhi.Val() else 0, S.Val();
    ghost var d, g := DoubleValue(n), RPow(2, HalfGapDown(n));
    b, mhi, k := CheckK(b, S, mhi, k0, kCheck, d, g);
    mlo := null;
    if leftright {
      if k != k0 {
        MulAssoc(10, vm, Pow(2, m2));
        RatioTen(vm * Pow(2, m2), vS, k0, g);
      }
      mlo, mhi := ScaledGaps(b, S, mhi, m2, spec, k, n);
    }
  }

  method ScaledGaps(ghost b: Bigint, ghost S: Bigint, m: Bigint, m2: nat, spec: bool, ghost k: int, ghost n: Bits)
    returns (mlo: Bigint, mhi: Bigint)
    requires b.Valid() && Aligned(S) && Separate(b, S) && Separate(m, b) && Separate(m, S)
    requires m.Valid() && m.Val() > 0 && (spec <==> SpecialCase(n))
    requires Ratio(m.Val() * Pow(2, m2), S.Val(), k, RPow(2, HalfGapDown(n)))
    ensures mlo == m || (fresh(mlo) && fresh(mlo.x))
    ensures mhi == mlo || (fresh(mhi) && fresh(mhi.x))
    ensures Numbers(b, S, mlo, mhi) && mlo.Val() > 0 && b.Val() == old(b.Val()) && S.Val() == old(S.Val())
    ensures Ratio(mlo.Val(), S.Val(), k, RPow(2, HalfGapDown(n)))
    ensures Ratio(mhi.Val(), S.Val(), k, RPow(2, HalfGapUp(n)))
  {
    hide Pow, RPow, Value, Bigint.Val, Ratio;
    PowPos(2, m2);
    MulPos(m.Val(), Pow(2, m2));
    ghost var vS := S.Val();
    mlo, mhi := Gaps(m, m2, spec);
    assert S.Val() == vS;
    if spec { RatioTwice(mlo.Val(), vS, k, HalfGapDown(n)); }
  }
}
