/** gethex from its digits on: subnormal results, and the rounding of every positive number. */
module HexRounding {
  import opened Arith
  import opened Rational
  import opened Words
  import opened Bignum
  import opened BitShift
  import opened Ieee
  import opened DoubleBits
  import opened ShortestDigits
  import opened HexFloat

  const EMIN := -1074   // the exponent of the smallest unit

  // ----- fewer bits -----

  /** lostbits after n more bits are shifted out: a half bit, and whether anything lies below it. */
  function Sticky(lostbits: nat, q: nat, n: nat): nat
    requires n > 0
  {
    (if lostbits > 0 || Low(q, n - 1) != 0 then 1 else 0) + (if High(q, n - 1) % 2 == 1 then 2 else 0)
  }

  /** The part of x beyond q whole units. */
  lemma Beyond(lostbits: nat, x: real, q: nat, e: int)
    requires LostIs(lostbits, x, q, e)
    ensures 0.0 <= x - (q as real) * RPow(2, e) < RPow(2, e)
    ensures x == (q as real) * RPow(2, e) <==> lostbits == 0
  {
    hide RPow;
    RPowPos(2, e - 1);
    RPowSucc(2, e - 1);
  }

  /** q cut at bit n - 1 and at bit n. */
  lemma CutTwice(q: nat, n: nat)
    requires n > 0
    ensures High(q, n) == High(q, n - 1) / 2
    ensures q == High(q, n - 1) * Pow(2, n - 1) + Low(q, n - 1) && Low(q, n - 1) < Pow(2, n - 1)
  {
    var p := Pow(2, n - 1);
    PowPos(2, n - 1);
    PowStep(2, n - 1);
    hide Pow;
    var h, l := q / p, q % p;
    HalfCut(q, h, l, p);
  }

  lemma HalfCut(q: nat, h: nat, l: nat, p: nat)
    requires p > 0 && q == h * p + l && l < p
    ensures q / (2 * p) == h / 2
  {
    var b := h % 2;
    assert h == 2 * (h / 2) + b;
    assert h * p == (h / 2) * (2 * p) + b * p by { assert (2 * (h / 2) + b) * p == (h / 2) * (2 * p) + b * p; }
    assert b * p <= p;
    DivModUnique(q, 2 * p, h / 2, b * p + l);
  }

  /** The same number on a grid 2^n times coarser. */
  lemma Coarser(lostbits: nat, x: real, q: nat, e: int, n: nat)
    requires n > 0 && LostIs(lostbits, x, q, e)
    ensures LostIs(Sticky(lostbits, q, n), x, High(q, n), e + n)
  {
    hide Pow, RPow, High, Low;
    var h, l, w, u := High(q, n - 1), Low(q, n - 1), RPow(2, e), RPow(2, e + n - 1);
    Beyond(lostbits, x, q, e);
    CutTwice(q, n);
    RPowPos(2, e);
    RPowSucc(2, e + n - 1);
    assert u == (Pow(2, n - 1) as real) * w by { NatRPow(2, n - 1); RPowAdd(2, e, n - 1); }
    CastMul(h, Pow(2, n - 1));
    PositionReal(x, q as real, h as real, l as real, Pow(2, n - 1) as real, w, u);
    Halve(h, u);
  }

  /** x = h u + y with 0 <= y < u, and y is zero only where nothing was lost. */
  lemma PositionReal(x: real, q: real, h: real, l: real, p: real, w: real, u: real)
    requires q == h * p + l && 0.0 <= l <= p - 1.0 && w > 0.0 && u == p * w && 0.0 <= x - q * w < w
    ensures 0.0 <= x - h * u < u
    ensures x == h * u <==> l == 0.0 && x == q * w
  {
    assert q * w == h * u + l * w by { assert (h * p + l) * w == h * (p * w) + l * w; }
    RMulMono(w, 0.0, l);
    RMulMono(w, l, p - 1.0);
    assert (p - 1.0) * w == u - w;
    if l > 0.0 { RCancelRight(w, 0.0, l); }
  }

  lemma Halve(h: nat, u: real)
    ensures (h as real) * u == ((h / 2) as real) * (2.0 * u) + (if h % 2 == 1 then u else 0.0)
  {
    var k := h / 2;
    assert h == 2 * k + h % 2;
    HalveReal(h as real, k as real, (h % 2) as real, u);
  }

  lemma HalveReal(h: real, k: real, b: real, u: real)
    requires h == 2.0 * k + b
    ensures h * u == k * (2.0 * u) + b * u
  {
  }

  // ----- subnormal doubles -----

  /** Up to 2^53 a pattern is its own value in units of 2^-1074. */
  lemma SmallMagnitude(n: Bits)
    requires n <= 2 * HIDDEN
    ensures Magnitude(n) == n
  {
    PowUnit(2);
    Fields(n);
    if n >= 2 * HIDDEN { DivModUnique(n, HIDDEN, 2, 0); }
    else if n >= HIDDEN { DivModUnique(n, HIDDEN, 1, n - HIDDEN); }
    else { DivModUnique(n, HIDDEN, 0, n); }
  }

  lemma UnitScale()
    ensures RPow(2, -1074) * RPow(2, 1074) == 1.0 && RPow(2, -1075) * RPow(2, 1074) == 0.5
  {
    hide RPow;
    RPowInverse(2, -1074);
    RPowSucc(2, -1075);
    assert RPow(2, -1074) * RPow(2, 1074) == 2.0 * (RPow(2, -1075) * RPow(2, 1074));
  }

  /** In units of 2^-1074. */
  lemma InSmallUnits(x: real, h: nat, lostbits: nat)
    requires LostIs(lostbits, x, h, EMIN)
    ensures var X, r := x * RPow(2, 1074), h as real;
            if lostbits == 0 then X == r else if lostbits == 1 then r < X < r + 0.5
            else if lostbits == 2 then X == r + 0.5 else lostbits == 3 && r + 0.5 < X < r + 1.0
  {
    hide RPow;
    UnitScale();
    RPowPos(2, 1074);
    Scaled4(x, h as real, RPow(2, -1074), RPow(2, -1075), RPow(2, 1074));
  }

  lemma Scaled4(x: real, r: real, w: real, u: real, s: real)
    requires s > 0.0 && w * s == 1.0 && u * s == 0.5
    ensures x == r * w <==> x * s == r
    ensures x > r * w <==> x * s > r
    ensures x < r * w + u <==> x * s < r + 0.5
    ensures x == r * w + u <==> x * s == r + 0.5
    ensures x > r * w + u <==> x * s > r + 0.5
    ensures x < r * w + 2.0 * u <==> x * s < r + 1.0
  {
    assert (r * w) * s == r * (w * s);
    assert (r * w + u) * s == (r * w) * s + u * s;
    assert (r * w + 2.0 * u) * s == (r * w) * s + 2.0 * (u * s);
    Scales(x, r * w, s);
    Scales(x, r * w + u, s);
    Scales(x, r * w + 2.0 * u, s);
  }

  /** Rounding the units is rounding to the nearest subnormal, or to the smallest normal double. */
  lemma SubnormalReads(x: real, h: nat, lostbits: nat)
    requires h < TOP && LostIs(lostbits, x, h, EMIN)
    ensures ReadsAs(x, Rounded(h, lostbits))
  {
    hide RPow, Magnitude, Nearest, LostIs;
    var n, X := Rounded(h, lostbits), x * RPow(2, 1074);
    InSmallUnits(x, h, lostbits);
    SmallMagnitude(n);
    SmallMagnitude(n + 1);
    if n > 0 { SmallMagnitude(n - 1); }
    NearUnit(X, h, lostbits);
    NearestIffInterval(X, n);
  }

  lemma NearUnit(X: real, h: nat, lostbits: nat)
    requires var r := h as real;
             if lostbits == 0 then X == r else if lostbits == 1 then r < X < r + 0.5
             else if lostbits == 2 then X == r + 0.5 else lostbits == 3 && r + 0.5 < X < r + 1.0
    ensures var n := Rounded(h, lostbits);
            && (2.0 * (n as real - X) < 1.0 || (2.0 * (n as real - X) == 1.0 && n % 2 == 0))
            && (2.0 * (X - n as real) < 1.0 || (2.0 * (X - n as real) == 1.0 && n % 2 == 0))
  {
  }

  // ----- what the code makes of them -----

  /** w & ~0x100000. */
  function DropHidden(w: Word): Word {
    if w / 0x10_0000 % 2 == 1 then w - 0x10_0000 else w
  }

  /** A number of at most 53 bits, up to 2^52, in its words. */
  lemma SmallNumber(b: Bigint)
    requires b.Valid() && 0 < b.Val() <= TOP
    ensures 1 <= b.wds <= 2 && b.Val() % 2 == b.x[0] % 2
    ensures b.Val() == b.x[0] + (if b.wds > 1 then b.x[1] * BASE else 0)
    ensures b.wds > 1 ==> b.x[1] <= 0x10_0000 && (b.x[1] == 0x10_0000 <==> b.Val() == TOP)
    ensures b.wds == 1 ==> b.Val() < TOP
  {
    hide Value, Pow;
    TopWord(b);
    ghost var s := b.x[..b.wds];
    PowUnit(BASE);
    if b.wds >= 3 {
      ValueTop(s);
      PowMono(BASE, 2, b.wds - 1);
      PowStep(BASE, 1);
      MulMono(Pow(BASE, b.wds - 1), 1, s[b.wds - 1]);
    } else if b.wds == 2 {
      TwoWords(b);
    } else {
      SingleWord(b);
    }
  }

  lemma SingleWord(b: Bigint)
    requires b.Valid() && b.wds == 1
    ensures b.Val() == b.x[0]
  {
    ValueSnoc(b.x[..], 0);
    ValueNil();
    assert b.x[..][..0] == [] && b.x[..][..1] == b.x[..1];
  }

  /** The words of a subnormal result: 2^52 loses its only bit to the mask. */
  method SubnormalWords(b: Bigint) returns (w0: Word, w1: Word)
    requires b.Valid() && 0 < b.Val() <= TOP
    ensures w0 * BASE + w1 == if b.Val() == TOP then 0 else b.Val()
  {
    hide Value, Pow, Bigint.Val;
    SmallNumber(b);
    w0 := if b.wds > 1 then DropHidden(b.x[1]) else 0;
    w1 := b.x[0];
  }

  /** The rounding of a subnormal with at least one bit left. */
  method RoundSubnormal(b0: Bigint, lost0: nat, n: nat) returns (w0: Word, w1: Word)
    requires b0.Valid() && TOP <= b0.Val() < 2 * TOP && 0 < n < 53
    modifies b0, b0.x
    ensures var r := Rounded(old(High(b0.Val(), n)), old(Sticky(lost0, b0.Val(), n)));
            0 < r <= TOP && w0 * BASE + w1 == if r == TOP then 0 else r
  {
    hide Value, Pow, Bigint.Val, High, Low, Rounded;
    ghost var q := b0.Val();
    var b, k, lostbits := b0, n - 1, lost0;
    TwoWordNumber(b);
    if lostbits != 0 {
      lostbits := 1;
    } else if k > 0 {
      var any := AnyOn(b, k);
      lostbits := if any then 1 else 0;
    }
    if k == 0 { LowZero(q); }
    var on := BitAt(b, k);
    if on {
      lostbits := lostbits + 2;
    }
    assert lostbits == Sticky(lost0, q, n);
    RShift(b, n);
    ShiftedRange(q, n);
    SmallNumber(b);
    RoundedIs(b.Val(), lostbits);
    if lostbits != 0 {
      var up := lostbits >= 2 && (lostbits % 2 == 1 || b.x[0] % 2 == 1);
      if up {
        b := Increment(b);
      }
    }
    w0, w1 := SubnormalWords(b);
  }

  lemma RoundedIs(q: nat, lostbits: nat)
    ensures Rounded(q, lostbits) == if lostbits >= 2 && (lostbits % 2 == 1 || q % 2 == 1) then q + 1 else q
  {
  }

  lemma ShiftedRange(q: nat, n: nat)
    requires TOP <= q < 2 * TOP && 0 < n < 53
    ensures 0 < High(q, n) < TOP
  {
    TopIs();
    PowStep(2, n - 1);
    PowPos(2, n);
    PowPos(2, n - 1);
    PowMono(2, n, 52);
    hide Pow;
    var p := Pow(2, n);
    assert q == q / p * p + q % p;
    if q / p >= TOP { MulMono(p, TOP, q / p); MulMono(TOP, 2, p); MulComm(TOP, p); }
  }

  /** The numbers on which gethex does not round to nearest. */
  ghost predicate Missed(x: real) {
    // just above half the smallest double: what the first shift lost is not looked at
    || RPow(2, -1075) < x < RPow(2, -1075) + RPow(2, -1127)
    // rounding up to the smallest normal double: the carry is masked away
    || RPow(2, -1022) - RPow(2, -1075) <= x < RPow(2, -1022)
    // overflow by less than 52 binades: the unit's exponent is compared with that of a whole double
    || RPow(2, 1024) + RPow(2, 971) < x < RPow(2, 1076) - RPow(2, 1022)
  }

  /** Powers of two by size, as far as Missed needs them. */
  lemma Landmarks()
    ensures 0.0 < RPow(2, -1127) < RPow(2, -1075) < RPow(2, -1074) < RPow(2, -1022) - RPow(2, -1075)
    ensures RPow(2, -1074) == 2.0 * RPow(2, -1075) && RPow(2, -1022) < RPow(2, 971) < RPow(2, 1024)
  {
    hide RPow;
    RPowPos(2, -1127);
    RPowSucc(2, -1127);
    RPowMono(2, -1126, -1075);
    RPowSucc(2, -1075);
    RPowSucc(2, -1074);
    RPowMono(2, -1073, -1022);
    RPowSucc(2, -1022);
    RPowMono(2, -1021, 971);
    RPowSucc(2, 971);
    RPowMono(2, 972, 1024);
    RPowPos(2, -1022);
    RPowPos(2, 971);
  }

  lemma NormalMissed(x: real, q: nat, e: int, lostbits: nat)
    requires TOP <= q < 2 * TOP && LostIs(lostbits, x, q, e) && EMIN <= e <= 971
    ensures !Missed(x)
  {
    hide RPow, LostIs;
    Binade(x, q, e, lostbits);
    Landmarks();
    RPowMono(2, -1022, e + 52);
    RPowMono(2, e + 53, 1024);
  }

  lemma LargeMissed(x: real, q: nat, e: int, lostbits: nat)
    requires TOP <= q < 2 * TOP && LostIs(lostbits, x, q, e) && e > 971
    ensures Missed(x) <==> !(x <= RPow(2, 1024) + RPow(2, 971) || x >= RPow(2, 1076) - RPow(2, 1022))
  {
    hide RPow, LostIs;
    Binade(x, q, e, lostbits);
    Landmarks();
    RPowMono(2, 1024, e + 52);
  }

  /** Which numbers round up to 2^-1022. */
  lemma NearNormal(x: real, h: nat, lostbits: nat)
    requires 0 < h < TOP && LostIs(lostbits, x, h, EMIN)
    ensures Rounded(h, lostbits) == TOP <==> x >= RPow(2, -1022) - RPow(2, -1075)
  {
    hide RPow, LostIs;
    TopTimes(EMIN);
    TopMinus(x, h, lostbits, RPow(2, EMIN), RPow(2, EMIN - 1));
  }

  lemma TopMinus(x: real, h: nat, lostbits: nat, w: real, u: real)
    requires 0 < h < TOP && LostIs(lostbits, x, h, EMIN) && w == RPow(2, EMIN) && u == RPow(2, EMIN - 1)
             && w == 2.0 * u && u > 0.0
    ensures Rounded(h, lostbits) == TOP <==> x >= (TOP as real) * w - u
  {
    hide RPow;
    if h < TOP - 1 {
      UpperEnd(lostbits, x, h, EMIN);
      BelowTop(x, (h + 1) as real, TOP as real, w, u);
    } else {
      LastUnit(h as real, TOP as real, w);
    }
  }

  lemma LastUnit(h: real, t: real, w: real)
    requires h == t - 1.0
    ensures h * w == t * w - w
  {
  }

  lemma BelowTop(x: real, h1: real, t: real, w: real, u: real)
    requires x < h1 * w && h1 <= t - 1.0 && w == 2.0 * u && u > 0.0
    ensures x < t * w - u
  {
    RMulMono(w, h1, t - 1.0);
    assert (t - 1.0) * w == t * w - w;
  }

  /** Some bits left: missed exactly when the result should have been the smallest normal double. */
  lemma SubnormalMissed(x: real, q: nat, e: int, lostbits: nat)
    requires TOP <= q < 2 * TOP && LostIs(lostbits, x, q, e) && -1127 < e < EMIN
    ensures var r := Rounded(High(q, EMIN - e), Sticky(lostbits, q, EMIN - e));
            r <= TOP && ReadsAs(x, r) && (Missed(x) <==> r == TOP)
  {
    hide RPow, LostIs, High, Low, Sticky, Rounded, ReadsAs;
    var n := EMIN - e;
    Coarser(lostbits, x, q, e, n);
    ShiftedRange(q, n);
    SubnormalReads(x, High(q, n), Sticky(lostbits, q, n));
    NearNormal(x, High(q, n), Sticky(lostbits, q, n));
    Binade(x, q, e, lostbits);
    Landmarks();
    RPowMono(2, -1074, e + 52);
    RPowMono(2, e + 53, -1022);
  }

  /** No bits left: zero or the smallest double. */
  lemma VanishingReads(x: real, q: nat, e: int, lostbits: nat)
    requires TOP <= q < 2 * TOP && LostIs(lostbits, x, q, e) && e <= -1127
    ensures ReadsAs(x, if e == -1127 && (lostbits > 0 || q > TOP) then 1 else 0)
  {
    hide Pow, RPow, LostIs, ReadsAs;
    var n := EMIN - e;
    Coarser(lostbits, x, q, e, n);
    VanishingBits(q, n);
    SubnormalReads(x, High(q, n), Sticky(lostbits, q, n));
  }

  lemma VanishingBits(q: nat, n: nat)
    requires TOP <= q < 2 * TOP && n >= 53
    ensures High(q, n) == 0
    ensures n == 53 ==> High(q, n - 1) == 1 && Low(q, n - 1) == q - TOP
    ensures n > 53 ==> High(q, n - 1) == 0 && Low(q, n - 1) == q
  {
    TopIs();
    PowMono(2, 53, n);
    hide Pow;
    DivModUnique(q, Pow(2, n), 0, q);
    if n == 53 {
      DivModUnique(q, TOP, 1, q - TOP);
    } else {
      PowMono(2, 53, n - 1);
      DivModUnique(q, Pow(2, n - 1), 0, q);
    }
  }

  /** Missed exactly just above the tie between zero and the smallest double. */
  lemma VanishingMissed(x: real, q: nat, e: int, lostbits: nat)
    requires TOP <= q < 2 * TOP && LostIs(lostbits, x, q, e) && e <= -1127
    ensures Missed(x) <==> e == -1127 && q == TOP && lostbits > 0
  {
    hide RPow, LostIs;
    Landmarks();
    Binade(x, q, e, lostbits);
    if e == -1127 {
      TopTimes(-1127);
      Beyond(lostbits, x, q, e);
      if q > TOP { OneAbove(x, q as real, TOP as real, RPow(2, e)); }
    } else {
      RPowMono(2, e + 53, -1075);
    }
  }

  lemma OneAbove(x: real, q: real, t: real, w: real)
    requires x - q * w >= 0.0 && q >= t + 1.0 && w > 0.0
    ensures x >= t * w + w
  {
    RMulMono(w, t + 1.0, q);
    assert (t + 1.0) * w == t * w + w;
  }

  /** The branch for numbers below the smallest normal double. */
  method Denormalize(b: Bigint, e: int, lostbits: nat, ghost x: real) returns (w0: Word, w1: Word)
    requires b.Valid() && TOP <= b.Val() < 2 * TOP && e < EMIN && LostIs(lostbits, x, b.Val(), e)
    modifies b, b.x
    ensures w0 * BASE + w1 <= INFINITY && (ReadsAs(x, w0 * BASE + w1) <==> !Missed(x))
  {
    hide Value, Pow, RPow, Bigint.Val, LostIs, ReadsAs, Missed, High, Low, Sticky, Rounded;
    ghost var q := b.Val();
    var n := EMIN - e;
    if n >= 53 {
      VanishingReads(x, q, e, lostbits);
      VanishingMissed(x, q, e, lostbits);
      VanishingBits(q, n);
      OnlyOne(x, 0, 1);
      if n == 53 {
        var any := AnyOn(b, n - 1);
        if any {
          return 0, 1;
        }
      }
      return 0, 0;
    }
    SubnormalMissed(x, q, e, lostbits);
    OnlyOne(x, 0, Rounded(High(q, n), Sticky(lostbits, q, n)));
    w0, w1 := RoundSubnormal(b, lostbits, n);
  }

  lemma OnlyOne(x: real, n: Bits, m: Bits)
    ensures n != m ==> !(ReadsAs(x, n) && ReadsAs(x, m))
  {
    hide ReadsAs;
    if ReadsAs(x, n) && ReadsAs(x, m) { ReadsUnique(x, n, m); }
  }

  /** A pattern for every number: the nearest one, ties to even, except on the numbers Missed describes. */
  method RoundHex(b0: Bigint, e0: int) returns (w0: Word, w1: Word)
    requires b0.Valid() && b0.Val() > 0
    modifies b0, b0.x
    ensures var x, n := BinaryValue(old(b0.Val()), e0), w0 * BASE + w1;
            n <= INFINITY && ReadsAs(x, n) <==> !Missed(x)
  {
    hide Value, Pow, RPow, LostIs, ReadsAs, Missed;
    ghost var x := BinaryValue(b0.Val(), e0);
    var b, e, lostbits := Normalize(b0, e0);
    ghost var q, e1 := b.Val(), e;
    if e > EMAX {
      BeyondRange(x, q, e, lostbits);
      Stray(x, q, e, lostbits);
      LargeMissed(x, q, e, lostbits);
      return 0x7ff0_0000, 0;
    }
    if e < EMIN {
      w0, w1 := Denormalize(b, e, lostbits, x);
      return;
    }
    if e <= 971 {
      RoundedReads(x, q, e, lostbits);
      NormalMissed(x, q, e, lostbits);
    } else {
      BeyondRange(x, q, e, lostbits);
      Stray(x, q, e, lostbits);
      LargeMissed(x, q, e, lostbits);
    }
    w0, w1 := RoundNormal(b, e, lostbits);
  }

  /** Rounding and packing where the hidden bit is kept, overflow after a carry included. */
  method RoundNormal(b0: Bigint, e0: int, lostbits: nat) returns (w0: Word, w1: Word)
    requires b0.Valid() && TOP <= b0.Val() < 2 * TOP && EMIN <= e0 <= EMAX
    modifies b0, b0.x
    ensures var r := Rounded(old(b0.Val()), lostbits);
            w0 * BASE + w1 == if e0 == EMAX && r == 2 * TOP then INFINITY else Pack(r, e0)
  {
    hide Value, Pow;
    var b, e := b0, e0;
    TwoWordNumber(b);
    if lostbits != 0 {
      var up := lostbits >= 2 && (lostbits % 2 == 1 || b.x[0] % 2 == 1);
      if up {
        b, e := RoundUp(b, e);
        if e > EMAX {
          return 0x7ff0_0000, 0;
        }
      }
    }
    TwoWordNumber(b);
    HiddenBit(b.x[1]);
    w0 := DropHidden(b.x[1]) + (e + 0x3ff + 52) * 0x10_0000;
    w1 := b.x[0];
    PackWords(w1, b.x[1], b.Val(), e);
  }

  lemma HiddenBit(w: Word)
    requires 0x10_0000 <= w < 0x20_0000
    ensures DropHidden(w) == w - 0x10_0000
  {
  }
}
