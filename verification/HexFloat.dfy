/** The numeric core of gethex: rounding an integer times a power of two to the nearest double. */
module HexFloat {
  import opened Arith
  import opened Rational
  import opened Words
  import opened Bignum
  import opened BitShift
  import opened Division
  import opened Ieee
  import opened DoubleBits
  import opened Scaling
  import opened ShortestDigits
  import opened Correction
  import opened Midpoint

  const EMAX := 1023
  const TOP := 0x10_0000_0000_0000   // 2^52

  lemma TopIs()
    ensures Pow(2, 52) == TOP && Pow(2, 53) == 2 * TOP && TOP == HIDDEN
  {
    HiddenPower();
    PowStep(2, 52);
  }

  /** What the bits shifted out amount to: 0 nothing, 1 less than half a unit, 2 half, 3 more. */
  function Lost(v: nat, n: nat): nat
    requires n > 0
  {
    var r := Low(v, n);
    PowPos(2, n);
    if r == 0 then 0 else if 2 * r < Pow(2, n) then 1 else if 2 * r == Pow(2, n) then 2 else 3
  }

  /** The top bit and the others of the part shifted out decide. */
  lemma LostBits(v: nat, n: nat)
    requires n > 0
    ensures Lost(v, n) == if Low(v, n) == 0 then 0 else if High(v, n - 1) % 2 == 0 then 1
            else if Low(v, n - 1) == 0 then 2 else 3
  {
    var p := Pow(2, n - 1);
    PowPos(2, n - 1);
    PowStep(2, n - 1);
    var h, l := v / p, v % p;
    assert v == h * p + l;
    assert h == 2 * (h / 2) + h % 2;
    assert v == (h / 2) * (2 * p) + (h % 2 * p + l) by {
      assert (2 * (h / 2) + h % 2) * p == (h / 2) * (2 * p) + h % 2 * p;
    }
    hide Pow;
    DivModUnique(v, 2 * p, h / 2, h % 2 * p + l);
  }

  method LostOf(b: Bigint, n: nat) returns (lostbits: nat)
    requires b.Valid() && n > 0 && (n - 1) / 32 < b.wds
    ensures lostbits == Lost(b.Val(), n)
  {
    hide Value, Pow, Low, High, Lost;
    LostBits(b.Val(), n);
    lostbits := 0;
    var on := AnyOn(b, n);
    if on {
      lostbits := 1;
      var k := n - 1;
      on := BitAt(b, k);
      if on {
        lostbits := 2;
        if k > 0 {
          on := AnyOn(b, k);
          if on {
            lostbits := 3;
          }
        } else {
          LowZero(b.Val());
        }
      }
    }
  }

  lemma LowZero(v: nat)
    ensures Low(v, 0) == 0
  {
    PowUnit(2);
  }

  /** The number of bits, from the leading zeros of the top word. */
  method BitCount(b: Bigint) returns (n: nat)
    requires b.Valid() && b.Val() > 0
    ensures HasBits(b.Val(), n) && 32 * (b.wds - 1) < n <= 32 * b.wds
  {
    hide Value, Pow;
    TopWord(b);
    var z := Hi0bits(b.x[b.wds - 1]);
    n := 32 * b.wds - z;
    ghost var s := b.x[..b.wds];
    ValueTop(s);
    TopBits(b.Val(), b.x[b.wds - 1], z, b.wds - 1);
  }

  // ----- the number between two grid points -----

  ghost function BinaryValue(m: nat, e: int): real {
    (m as real) * RPow(2, e)
  }

  /** x lies between q and q + 1 units of 2^e, on the side of the middle that lost tells. */
  ghost predicate LostIs(lost: nat, x: real, q: nat, e: int) {
    var lo, u := (q as real) * RPow(2, e), RPow(2, e - 1);
    if lost == 0 then x == lo
    else if lost == 1 then lo < x < lo + u
    else if lost == 2 then x == lo + u
    else lost == 3 && lo + u < x < lo + 2.0 * u
  }

  lemma LostReal(v: nat, n: nat, e: int)
    requires n > 0
    ensures LostIs(Lost(v, n), BinaryValue(v, e), High(v, n), e + n)
  {
    hide Pow, RPow;
    var q, r, p := High(v, n), Low(v, n), Pow(2, n);
    PowPos(2, n);
    assert v == q * p + r && 0 <= r < p;
    RPowPos(2, e);
    RPowSucc(2, e + n - 1);
    assert RPow(2, e + n) == (p as real) * RPow(2, e) by { NatRPow(2, n); RPowAdd(2, e, n); }
    CastMul(q, p);
    LostArith(v as real, q as real, r as real, p as real, RPow(2, e), RPow(2, e + n), RPow(2, e + n - 1));
    CompareHalf(r, p);
  }

  lemma CompareHalf(r: int, p: int)
    ensures 2 * r < p <==> 2.0 * (r as real) < p as real
    ensures 2 * r == p <==> 2.0 * (r as real) == p as real
    ensures r == 0 <==> r as real == 0.0
    ensures r < p <==> (r as real) < p as real
  {
  }

  lemma LostArith(v: real, q: real, r: real, p: real, w: real, u2: real, u: real)
    requires v == q * p + r && w > 0.0 && p > 0.0 && u2 == p * w && u2 == 2.0 * u
    ensures v * w == q * u2 + r * w
    ensures r == 0.0 <==> r * w == 0.0
    ensures r > 0.0 <==> r * w > 0.0
    ensures 2.0 * r < p <==> r * w < u
    ensures 2.0 * r == p <==> r * w == u
    ensures r < p <==> r * w < 2.0 * u
  {
    assert (q * p + r) * w == q * (p * w) + r * w;
    Scales(r, 0.0, w);
    Scales(2.0 * r, p, w);
    Scales(r, p, w);
    assert 2.0 * r * w == 2.0 * (r * w);
  }

  lemma Scales(a: real, b: real, w: real)
    requires w > 0.0
    ensures a < b <==> a * w < b * w
    ensures a == b <==> a * w == b * w
    ensures a > b <==> a * w > b * w
  {
    if a < b { RCancelRight(w, a, b); }
    if a > b { RCancelRight(w, b, a); }
  }

  /** Exactly 53 bits, and what was shifted out. */
  method Normalize(b0: Bigint, e0: int) returns (b: Bigint, e: int, lostbits: nat)
    requires b0.Valid() && b0.Val() > 0
    modifies b0`wds, b0.x
    ensures b == b0 || (fresh(b) && fresh(b.x))
    ensures b.Valid() && TOP <= b.Val() < 2 * TOP
    ensures LostIs(lostbits, BinaryValue(old(b0.Val()), e0), b.Val(), e)
  {
    hide Value, Pow, RPow, Low, High, Lost, BinaryValue;
    TopIs();
    ghost var v := b0.Val();
    b, e, lostbits := b0, e0, 0;
    var n := BitCount(b);
    if n > 53 {
      n := n - 53;
      LostReal(v, n, e0);
      TopBitsLeft(v, n);
      lostbits := LostOf(b, n);
      RShift(b, n);
      e := e + n;
    } else if n < 53 {
      n := 53 - n;
      Widened(v, n, e0);
      b := LShift(b, n);
      e := e - n;
    } else {
      Exact(v, e0);
    }
  }

  lemma TopBitsLeft(v: nat, n: nat)
    requires n > 0 && HasBits(v, n + 53)
    ensures TOP <= High(v, n) < 2 * TOP
  {
    hide Pow;
    TopIs();
    PowPos(2, n);
    PowAdd(2, n, 52);
    PowAdd(2, n, 53);
    var p, q := Pow(2, n), High(v, n);
    assert v == q * p + v % p;
    NextTimes(q, p);
    if q < TOP { MulMono(p, q + 1, TOP); }
    if q >= 2 * TOP { MulMono(p, 2 * TOP, q); }
  }

  lemma Widened(v: nat, n: nat, e: int)
    requires 0 < n < 53 && HasBits(v, 53 - n)
    ensures TOP <= v * Pow(2, n) < 2 * TOP && LostIs(0, BinaryValue(v, e), v * Pow(2, n), e - n)
  {
    hide Pow, RPow;
    TopIs();
    BitsMore(v, 53 - n, n);
    assert RPow(2, e) == (Pow(2, n) as real) * RPow(2, e - n) by { NatRPow(2, n); RPowAdd(2, e - n, n); }
    CastMul(v, Pow(2, n));
    assert ((v as real) * (Pow(2, n) as real)) * RPow(2, e - n) == (v as real) * ((Pow(2, n) as real) * RPow(2, e - n));
  }

  lemma Exact(v: nat, e: int)
    ensures LostIs(0, BinaryValue(v, e), v, e)
  {
  }

  // ----- packing -----

  /** q * 2^e as the two words of a double, the hidden bit dropped. */
  function Pack(q: int, e: int): int { (e + 1075) * HIDDEN + (q - TOP) }

  lemma Packed(q: nat, e: int)
    requires TOP <= q < 2 * TOP && -1074 <= e <= 971
    ensures var n := Pack(q, e);
            && 0 < n < INFINITY && ExpField(n) == e + 1075 && n % 2 == q % 2
            && DoubleValue(n) == (q as real) * RPow(2, e) && HalfGapUp(n) == e - 1
  {
    hide Pow, RPow, DoubleValue;
    var n := Pack(q, e);
    DivModUnique(n, HIDDEN, e + 1075, q - TOP);
    assert Mantissa(n) == q && UlpExp(n) == e + 1074;
    DoubleIs(n, q, e);
    EvenField(e + 1075, q - TOP);
  }

  lemma EvenField(f: int, q: int)
    ensures (f * HIDDEN + q) % 2 == q % 2
  {
    var h, m := HIDDEN / 2, q / 2;
    assert q == 2 * m + q % 2;
    assert f * HIDDEN == 2 * (f * h) by { Rotate(f, 2, h); }
    DivModUnique(f * HIDDEN + q, 2, f * h + m, q % 2);
  }

  /** The rounding decision. */
  function Rounded(q: nat, lostbits: nat): (r: nat)
    ensures q <= r <= q + 1
  {
    if lostbits >= 2 && (lostbits % 2 == 1 || q % 2 == 1) then q + 1 else q
  }

  /** Rounded up or not, the pattern is the nearest one; a carry out of the significand moves into the exponent. */
  lemma RoundedReads(x: real, q: nat, e: int, lostbits: nat)
    requires TOP <= q < 2 * TOP && -1074 <= e <= 971 && LostIs(lostbits, x, q, e)
    ensures Pack(q, e) + 1 <= INFINITY && ReadsAs(x, if Rounded(q, lostbits) == q then Pack(q, e) else Pack(q, e) + 1)
    ensures Pack(2 * TOP, e) == Pack(TOP, e + 1) && Pack(q, e) + 1 == Pack(q + 1, e)
  {
    hide RPow, DoubleValue, ReadsAs;
    var n := Pack(q, e);
    Packed(q, e);
    NextValue(n);
    RPowPos(2, e - 1);
    Between(x, n);
  }

  /** From 2^1024 on, everything reads as infinity. */
  lemma BeyondRange(x: real, q: nat, e: int, lostbits: nat)
    requires TOP <= q && e >= 972 && LostIs(lostbits, x, q, e)
    ensures ReadsAs(x, INFINITY)
  {
    hide Pow, RPow, Nearest, LostIs;
    TopIs();
    RPowMono(2, 972, e);
    RPowPos(2, 972);
    RPowPos(2, e);
    RPowPos(2, e - 1);
    RMulMono(RPow(2, e), TOP as real, q as real);
    RMulMonoLeft(TOP as real, RPow(2, 972), RPow(2, e));
    assert (TOP as real) * RPow(2, 972) == RPow(2, 1024) by { NatRPow(2, 52); RPowAdd(2, 52, 972); }
    LowerEnd(lostbits, x, q, e);
    AtLeastInfinity(x);
  }

  lemma LowerEnd(lostbits: nat, x: real, q: nat, e: int)
    requires LostIs(lostbits, x, q, e)
    ensures x >= (q as real) * RPow(2, e)
  {
    hide RPow;
    RPowPos(2, e - 1);
  }

  lemma RMulMonoLeft(c: real, a: real, b: real)
    requires c >= 0.0 && a <= b
    ensures c * a <= c * b
  {
  }

  lemma AtLeastInfinity(x: real)
    requires x >= RPow(2, 1024)
    ensures ReadsAs(x, INFINITY)
  {
    hide Pow, RPow, Nearest, Magnitude;
    var X := x * RPow(2, 1074);
    assert Magnitude(INFINITY) as real == RPow(2, 1024) * RPow(2, 1074) by {
      InfinityMagnitude();
      NatRPow(2, 2098);
      RPowAdd(2, 1024, 1074);
    }
    RPowPos(2, 1074);
    RMulMono(RPow(2, 1074), RPow(2, 1024), x);
    Increasing(INFINITY - 1, INFINITY);
    AboveAll(X, Magnitude(INFINITY), Magnitude(INFINITY - 1));
    NearestIffInterval(X, INFINITY);
  }

  lemma AboveAll(X: real, m: int, prev: int)
    requires X >= m as real && prev < m
    ensures 2.0 * (m as real - X) < (m - prev) as real
  {
  }

  /** A 53-bit number, or 2^53, takes two words. */
  lemma TwoWordNumber(b: Bigint)
    requires b.Valid() && TOP <= b.Val() <= 2 * TOP
    ensures b.wds == 2 && b.Val() == b.x[0] + b.x[1] * BASE && 0x10_0000 <= b.x[1] <= 0x20_0000
    ensures b.Val() == 2 * TOP <==> b.x[1] == 0x20_0000
    ensures b.Val() % 2 == b.x[0] % 2
  {
    hide Value, Pow;
    ghost var s := b.x[..b.wds];
    ValueBound(s);
    PowUnit(BASE);
    if b.wds >= 3 {
      ValueTop(s);
      PowMono(BASE, 2, b.wds - 1);
      PowStep(BASE, 1);
      MulMono(Pow(BASE, b.wds - 1), 1, s[b.wds - 1]);
    }
    TwoWords(b);
  }

  lemma TopZeros(w: Word, k: nat)
    requires 0 < w && 0x8000_0000 <= w * Pow(2, k) < BASE
    ensures k < 11 <==> w >= 0x20_0000
  {
    assert Pow(2, 10) == 0x400 && Pow(2, 11) == 0x800 by {
      assert Pow(2, 5) == 32;
      PowAdd(2, 5, 5);
    }
    hide Pow;
    if k < 11 {
      PowMono(2, k, 10);
      MulComm(w, Pow(2, k));
      MulMono(w, Pow(2, k), 0x400);
    } else {
      PowMono(2, 11, k);
      MulComm(w, Pow(2, k));
      MulMono(w, 0x800, Pow(2, k));
    }
  }

  lemma PackWords(x0: Word, x1: Word, q: nat, e: int)
    requires q == x0 + x1 * BASE && 0x10_0000 <= x1 < 0x20_0000
    ensures (x1 - 0x10_0000 + (e + 1075) * 0x10_0000) * BASE + x0 == Pack(q, e)
  {
  }

  lemma UpperEnd(lostbits: nat, x: real, q: nat, e: int)
    requires LostIs(lostbits, x, q, e)
    ensures x < ((q + 1) as real) * RPow(2, e)
  {
    hide RPow;
    RPowPos(2, e - 1);
    RPowSucc(2, e - 1);
    assert ((q + 1) as real) * RPow(2, e) == (q as real) * RPow(2, e) + RPow(2, e);
  }

  /** The increment, with the renormalization after a carry out of 53 bits. */
  method RoundUp(b0: Bigint, e0: int) returns (b: Bigint, e: int)
    requires b0.Valid() && TOP <= b0.Val() < 2 * TOP
    modifies b0, b0.x
    ensures b == b0 || (fresh(b) && fresh(b.x))
    ensures b.Valid() && TOP <= b.Val() < 2 * TOP
    ensures Pack(b.Val(), e) == Pack(old(b0.Val()) + 1, e0) && e == if old(b0.Val()) + 1 == 2 * TOP then e0 + 1 else e0
  {
    hide Value, Pow;
    TwoWordNumber(b0);
    var k := b0.wds;
    e := e0;
    b := Increment(b0);
    TwoWordNumber(b);
    if b.wds > k {
      assert false;
    }
    var z := Hi0bits(b.x[k - 1]);
    TopZeros(b.x[k - 1], z);
    if z < 32 - 21 {
      Halved(b.Val());
      RShift(b, 1);
      e := e + 1;
    }
  }

  lemma Halved(v: nat)
    requires v == 2 * TOP
    ensures High(v, 1) == TOP
  {
    PowUnit(2);
  }

  // ----- the overflow test -----

  /** k significands of 53 or 54 bits. */
  lemma TopTimes(e: int)
    ensures (TOP as real) * RPow(2, e) == RPow(2, e + 52) && ((2 * TOP) as real) * RPow(2, e) == RPow(2, e + 53)
    ensures RPow(2, e) == 2.0 * RPow(2, e - 1) && RPow(2, e - 1) > 0.0
  {
    hide Pow, RPow;
    TopIs();
    NatRPow(2, 52);
    NatRPow(2, 53);
    RPowAdd(2, 52, e);
    RPowAdd(2, 53, e);
    RPowSucc(2, e - 1);
    RPowPos(2, e - 1);
  }

  /** Where x lies, from the exponent of its unit. */
  lemma Binade(x: real, q: nat, e: int, lostbits: nat)
    requires TOP <= q < 2 * TOP && LostIs(lostbits, x, q, e)
    ensures RPow(2, e + 52) <= x < RPow(2, e + 53)
  {
    hide RPow, LostIs;
    TopTimes(e);
    LowerEnd(lostbits, x, q, e);
    UpperEnd(lostbits, x, q, e);
    RMulMono(RPow(2, e), TOP as real, q as real);
    RMulMono(RPow(2, e), (q + 1) as real, (2 * TOP) as real);
  }

  /** In the first binade past the range, only what rounds to 2^1024 itself looks like infinity. */
  lemma StrayLow(x: real, q: nat, lostbits: nat)
    requires TOP <= q < 2 * TOP && LostIs(lostbits, x, q, 972)
    ensures Rounded(q, lostbits) == TOP <==> x <= RPow(2, 1024) + RPow(2, 971)
  {
    hide RPow;
    TopTimes(972);
    if q > TOP {
      LowerEnd(lostbits, x, q, 972);
      AboveTop(x, q as real, TOP as real, RPow(2, 972), RPow(2, 971));
    }
  }

  lemma AboveTop(x: real, q: real, t: real, w: real, u: real)
    requires x >= q * w && q >= t + 1.0 && w == 2.0 * u && u > 0.0
    ensures x > t * w + u
  {
    RMulMono(w, t + 1.0, q);
    assert (t + 1.0) * w == t * w + w;
  }

  lemma TopPlus(w: real)
    ensures ((TOP + 1) as real) * w == (TOP as real) * w + w
    ensures ((2 * TOP - 1) as real) * w == ((2 * TOP) as real) * w - w
  {
  }

  /** In the last binade that passes the first test, only a carry is caught by the second. */
  lemma StrayHigh(x: real, q: nat, lostbits: nat)
    requires TOP <= q < 2 * TOP && LostIs(lostbits, x, q, EMAX)
    ensures Rounded(q, lostbits) == 2 * TOP <==> x >= RPow(2, 1076) - RPow(2, 1022)
  {
    hide RPow, LostIs;
    TopTimes(EMAX);
    TopPlus(RPow(2, EMAX));
    if q < 2 * TOP - 1 {
      UpperEnd(lostbits, x, q, EMAX);
      RMulMono(RPow(2, EMAX), (q + 1) as real, (2 * TOP - 1) as real);
    } else {
      LostHalf(lostbits, x, q, EMAX);
      OddTop(lostbits);
    }
  }

  lemma LostHalf(lostbits: nat, x: real, q: nat, e: int)
    requires LostIs(lostbits, x, q, e)
    ensures lostbits <= 3 && (lostbits >= 2 <==> x >= (q as real) * RPow(2, e) + RPow(2, e - 1))
  {
    RPowPos(2, e - 1);
  }

  lemma OddTop(lostbits: nat)
    requires lostbits <= 3
    ensures Rounded(2 * TOP - 1, lostbits) == 2 * TOP <==> lostbits >= 2
  {
  }

  /** Is infinity what comes out? In terms of the number. */
  lemma Stray(x: real, q: nat, e: int, lostbits: nat)
    requires TOP <= q < 2 * TOP && e > 971 && LostIs(lostbits, x, q, e)
    ensures e > EMAX || (e == 972 && Rounded(q, lostbits) == TOP) || (e == EMAX && Rounded(q, lostbits) == 2 * TOP) <==>
            x <= RPow(2, 1024) + RPow(2, 971) || x >= RPow(2, 1076) - RPow(2, 1022)
  {
    hide RPow, LostIs;
    Binade(x, q, e, lostbits);
    TopTimes(972);
    TopTimes(1024);
    RPowPos(2, 1022);
    RPowSucc(2, 1075);
    RPowSucc(2, 1024);
    RPowMono(2, 971, 1023);
    RPowMono(2, 1022, 1074);
    RPowSucc(2, 1074);
    RPowSucc(2, 1023);
    if e == 972 { StrayLow(x, q, lostbits); } else { RPowMono(2, 1025, e + 52); }
    if e == EMAX { StrayHigh(x, q, lostbits); }
    if e > EMAX { RPowMono(2, 1076, e + 52); }
    if e < EMAX { RPowMono(2, e + 53, 1075); }
  }

  /** Below 2^1024 exactly when the unit is at most 2^971. */
  lemma InRange(x: real, q: nat, e: int, lostbits: nat)
    requires TOP <= q < 2 * TOP && LostIs(lostbits, x, q, e)
    ensures x < RPow(2, 1024) <==> e <= 971
  {
    hide RPow, LostIs;
    Binade(x, q, e, lostbits);
    if e <= 971 { RPowMono(2, e + 53, 1024); } else { RPowMono(2, 1024, e + 52); }
  }
}
