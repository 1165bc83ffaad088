/** bigcomp as a whole: rounding a long decimal that lies between two neighbouring doubles. */
module Midpoint {
  import opened Arith
  import opened Rational
  import opened Words
  import opened Bignum
  import opened Division
  import opened Pow5
  import opened Ieee
  import opened DoubleBits
  import opened Decimal
  import opened FreeDigits
  import opened Scaling
  import opened ShortestDigits
  import opened ScaledDoubles
  import opened Unscaling
  import opened Correction
  import opened BigcompDigits

  /** The point half way from n to the next double. */
  ghost function HalfWayUp(n: Bits): real {
    DoubleValue(n) + RPow(2, HalfGapUp(n))
  }

  /** The value of a string whose first digit has weight 10^p5. */
  ghost function LongDecimal(digits: seq<char>, p5: int): real {
    DecimalValue(DigitsVal(digits), p5 - |digits| + 1)
  }

  /** mid is x with one more nonzero digit, of weight 10^e. */
  ghost predicate OneMoreDigit(x: real, e: int, mid: real) {
    exists c: int {:trigger DecimalValue(c, e)} :: 1 <= c <= 9 && mid == x + DecimalValue(c, e)
  }

  /** The integer excess is the real one, scaled. */
  lemma ExcessReal(B: nat, D: nat, digits: seq<char>, p5: int, mid: real)
    requires digits != [] && Ratio(B, D, p5, mid)
    ensures Excess(B, D, digits) as real * RPow(10, p5 - |digits| + 1) == D as real * (LongDecimal(digits, p5) - mid)
  {
    hide RPow, Pow, DigitsVal;
    var m, N := |digits| - 1, DigitsVal(digits);
    assert RPow(10, p5) == RPow(10, p5 - m) * (Pow(10, m) as real) by { RPowAdd(10, p5 - m, m); NatRPow(10, m); }
    assert p5 - |digits| + 1 == p5 - m;
    ExcessCast(N, D, B, Pow(10, m), Excess(B, D, digits));
    ExcessArith(N as real, D as real, B as real, Pow(10, m) as real, Excess(B, D, digits) as real, RPow(10, p5 - m),
        RPow(10, p5), mid);
  }

  lemma ExcessCast(N: int, D: int, B: int, t: int, x: int)
    requires x == N * D - B * t
    ensures x as real == (N as real) * (D as real) - (B as real) * (t as real)
  {
    CastMul(N, D);
    CastMul(B, t);
  }

  lemma ExcessArith(N: real, D: real, B: real, t: real, x: real, q: real, p: real, mid: real)
    requires x == N * D - B * t && p == q * t && B * p == D * mid
    ensures x * q == D * (N * q - mid)
  {
    assert x * q == (N * D) * q - (B * t) * q;
    assert (B * t) * q == B * (q * t);
    assert (N * D) * q == D * (N * q);
  }

  lemma ScaledSign(x: int, q: real, D: real, y: real)
    requires q > 0.0 && D > 0.0 && x as real * q == D * y
    ensures x < 0 <==> y < 0.0
    ensures x == 0 <==> y == 0.0
    ensures x > 0 <==> y > 0.0
  {
    if x < 0 { RCancelRight(q, x as real, 0.0); RCancel(D, y, 0.0); }
    if x > 0 { RCancelRight(q, 0.0, x as real); RCancel(D, 0.0, y); }
    if x == 0 { RCancel(D, y, 0.0); }
  }

  /** 10 X = -c D says that y is -c units of the next place. */
  lemma ShortReal(X: int, D: int, c: int, q: real, q1: real, y: real)
    requires D > 0 && q1 > 0.0 && q == 10.0 * q1 && X as real * q == D as real * y
    ensures 10 * X == -c * D <==> y == -(c as real) * q1
  {
    CastMul(-c, D);
    ShortArith(X as real, D as real, c as real, q, q1, y);
    TenCast(X, -c * D, X as real, (-c * D) as real);
  }

  lemma TenCast(X: int, z: int, rX: real, rz: real)
    requires rX == X as real && rz == z as real
    ensures 10 * X == z <==> 10.0 * rX == rz
  {
  }

  lemma ShortArith(X: real, D: real, c: real, q: real, q1: real, y: real)
    requires D > 0.0 && q1 > 0.0 && q == 10.0 * q1 && X * q == D * y
    ensures 10.0 * X == -c * D <==> y == -c * q1
  {
    assert X * q == (10.0 * X) * q1;
    if 10.0 * X == -c * D {
      assert D * y == (-c * D) * q1 == D * (-c * q1);
      RCancel(D, y, -c * q1);
    }
    if y == -c * q1 {
      assert (10.0 * X) * q1 == D * (-c * q1) == (-c * D) * q1;
      RCancelRight(q1, 10.0 * X, -c * D);
    }
  }

  lemma ShortIff(B: nat, D: nat, digits: seq<char>, p5: int, mid: real)
    requires digits != [] && D > 0 && Ratio(B, D, p5, mid)
    ensures OneDigitShort(B, D, digits) <==> OneMoreDigit(LongDecimal(digits, p5), p5 - |digits|, mid)
  {
    hide RPow, Pow, DigitsVal, LongDecimal, Ratio;
    ExcessReal(B, D, digits, p5, mid);
    RPowSucc(10, p5 - |digits|);
    RPowPos(10, p5 - |digits|);
    hide Excess;
    ShortPlaces(Excess(B, D, digits), D, LongDecimal(digits, p5), p5 - |digits|, mid);
  }

  lemma ShortPlaces(X: int, D: int, x: real, e: int, mid: real)
    requires D > 0 && X as real * RPow(10, e + 1) == D as real * (x - mid)
    requires RPow(10, e + 1) == 10.0 * RPow(10, e) && RPow(10, e) > 0.0
    ensures X < 0 < X + D && 10 * X % D == 0 <==> OneMoreDigit(x, e, mid)
  {
    hide RPow, DecimalValue;
    if X < 0 < X + D && 10 * X % D == 0 {
      var c := ShortDigit(X, D);
      DigitPlace(X, D, c, x, e, mid);
      assert mid == x + DecimalValue(c, e);
    }
    if OneMoreDigit(x, e, mid) {
      var c: int :| 1 <= c <= 9 && mid == x + DecimalValue(c, e);
      DigitPlace(X, D, c, x, e, mid);
      DigitShort(X, D, c);
    }
  }

  lemma DigitPlace(X: int, D: int, c: int, x: real, e: int, mid: real)
    requires D > 0 && X as real * RPow(10, e + 1) == D as real * (x - mid)
    requires RPow(10, e + 1) == 10.0 * RPow(10, e) && RPow(10, e) > 0.0
    ensures 10 * X == -c * D <==> mid == x + DecimalValue(c, e)
  {
    hide RPow;
    ShortReal(X, D, c, RPow(10, e + 1), RPow(10, e), x - mid);
    MinusValue(c, e);
  }

  lemma MinusValue(c: int, e: int)
    ensures -(c as real) * RPow(10, e) == -DecimalValue(c, e)
  {
  }

  /** b->x[0] |= 1 on an even number adds one. */
  method SetLowBit(b: Bigint)
    requires b.Valid() && b.wds >= 1 && b.Val() % 2 == 0
    modifies b.x
    ensures b.Valid() && b.Val() == old(b.Val()) + 1
  {
    hide Pow, Value, Or;
    ghost var s := b.x[..b.wds];
    ValueHead(s);
    EvenHead(s[0], Value(s[1..]));
    OrOne(s[0]);
    b.x[0] := Or(b.x[0], 1);
    ghost var t := b.x[..b.wds];
    ValueHead(t);
    assert t[1..] == s[1..];
  }

  lemma EvenHead(w: Word, rest: nat)
    requires (w + BASE * rest) % 2 == 0
    ensures w % 2 == 0
  {
    Parity(w, rest);
  }

  lemma OrOne(w: Word)
    requires w % 2 == 0
    ensures Or(w, 1) == w + 1 < BASE
  {
    OrDisjoint(w / 2, 1, 1);
    PowUnit(2);
  }

  /** The half-way point above the number held, as an odd integer and a power of two. */
  method HalfWayNumber(w0: Word, w1: Word, scale: nat) returns (b: Bigint, p2: int)
    requires HeldWords(w0, w1, scale)
    ensures fresh(b) && fresh(b.x) && b.Valid() && b.Val() > 0
    ensures (b.Val() as real) * RPow(2, p2) == HalfWayUp(UnscaledWords(w0, w1, scale))
  {
    hide Pow, RPow, Value, Bigint.Val, Magnitude, HasBits, DoubleValue, Unscaled, HalfGapUp;
    HeldFields(Join(w0, w1), scale);
    HeldPositive(Join(w0, w1));
    var bbits;
    b, p2, bbits := D2b(w0, w1);
    ghost var v := b.Val();
    HeldUnit(w0, w1, scale, v, p2, bbits);
    p2 := p2 - scale;
    ghost var e := p2;
    var i := 53 - bbits;
    var j := 53 + 1022 - 1 + p2;
    if i > j {
      i := j;
    }
    i := i + 1;
    b := LShift(b, i);
    EvenShift(v, i);
    SetLowBit(b);
    p2 := p2 - i;
    HalfWayIs(UnscaledWords(w0, w1, scale), v, e, i, b.Val());
  }

  lemma EvenShift(m: nat, i: nat)
    requires i >= 1
    ensures m * Pow(2, i) % 2 == 0
  {
    EvenProduct(m, Pow(2, i - 1));
  }

  lemma HalfWayIs(n: Bits, m: nat, e: int, i: nat, v: nat)
    requires DoubleValue(n) == (m as real) * RPow(2, e) && HalfGapUp(n) == e - i
    requires v == m * Pow(2, i) + 1
    ensures (v as real) * RPow(2, e - i) == HalfWayUp(n)
  {
    hide Pow, RPow, DoubleValue;
    assert RPow(2, e) == (Pow(2, i) as real) * RPow(2, e - i) by { RPowAdd(2, i, e - i); NatRPow(2, i); }
    CastMul(m, Pow(2, i));
    HalfWayArith(v as real, m as real, Pow(2, i) as real, RPow(2, e - i), RPow(2, e));
  }

  lemma HalfWayArith(v: real, m: real, t: real, q: real, p: real)
    requires v == m * t + 1.0 && p == t * q
    ensures v * q == m * p + q
  {
    assert (m * t) * q == m * (t * q);
  }

  lemma QuotientIs(B: nat, D: nat, v: nat, x2: nat, x5: nat, s2: nat, s5: nat, p5: int, e: int)
    requires x2 + p5 == s2 + e && x5 + p5 == s5
    requires B == v * Pow(5, x5) * Pow(2, x2) && D == Pow(5, s5) * Pow(2, s2)
    ensures D > 0 && B as real * RPow(10, p5) == D as real * ((v as real) * RPow(2, e))
  {
    hide Pow, RPow;
    Reorder(v, Pow(5, x5), Pow(2, x2));
    MulComm(Pow(5, s5), Pow(2, s2));
    PowPos(2, s2);
    PowPos(5, s5);
    MulPos(Pow(5, s5), Pow(2, s2));
    ScaleEq(B, D, v, x2, x5, s2, s5, p5, e);
  }

  /** Scaling b and d by the powers of five and two. */
  method MidScale(b0: Bigint, p2: int, p5: int, cache: Cache)
    returns (b: Bigint, d: Bigint, ghost x2: nat, ghost x5: nat, ghost s2: nat, ghost s5: nat)
    requires b0.Valid() && b0.Val() > 0 && cache.Valid() && cache.Apart(b0)
    modifies b0, b0.x, cache.Repr
    ensures cache.Valid() && cache.Apart(b) && cache.Apart(d) && fresh(cache.Repr - old(cache.Repr))
    ensures b == b0 || (fresh(b) && fresh(b.x))
    ensures fresh(d) && fresh(d.x) && Separate(b, d)
    ensures b.Valid() && Aligned(d)
    ensures x2 + p5 == s2 + p2 && x5 + p5 == s5
    ensures b.Val() == old(b0.Val()) * Pow(5, x5) * Pow(2, x2) && d.Val() == Pow(5, s5) * Pow(2, s2)
  {
    hide Pow, Value, Bigint.Val, Cache.Valid, Cache.Node;
    PowUnit(5);
    ghost var v := b0.Val();
    var q2 := p2 - p5;
    d := I2b(1);
    b := b0;
    if p5 > 0 {
      d := Pow5Mult(d, p5, cache);
    } else if p5 < 0 {
      b := Pow5Mult(b, -p5, cache);
    }
    x5, s5 := if p5 < 0 then -p5 else 0, if p5 > 0 then p5 else 0;
    var b2, d2;
    if q2 > 0 {
      b2, d2 := q2, 0;
    } else {
      b2, d2 := 0, -q2;
    }
    PowPos(5, x5);
    PowPos(5, s5);
    MulPos(v, Pow(5, x5));
    var i;
    b, d, i := Twos(b, d, b2, d2);
    x2, s2 := b2 + i, d2 + i;
  }

  /** b / d = mid / 10^p5 with d aligned, from mid = b0 * 2^p2. */
  method MidQuotient(b0: Bigint, p2: int, p5: int, cache: Cache) returns (b: Bigint, d: Bigint)
    requires b0.Valid() && b0.Val() > 0 && cache.Valid() && cache.Apart(b0)
    modifies b0, b0.x, cache.Repr
    ensures cache.Valid() && cache.Apart(b) && cache.Apart(d) && fresh(cache.Repr - old(cache.Repr))
    ensures b == b0 || (fresh(b) && fresh(b.x))
    ensures fresh(d) && fresh(d.x) && Separate(b, d)
    ensures b.Valid() && Aligned(d) && d.Val() > 0
    ensures Ratio(b.Val(), d.Val(), p5, (old(b0.Val()) as real) * RPow(2, p2))
  {
    hide Pow, RPow, Value, Bigint.Val, Cache.Valid, Cache.Node;
    ghost var v := b0.Val();
    ghost var x2, x5, s2, s5;
    b, d, x2, x5, s2, s5 := MidScale(b0, p2, p5, cache);
    QuotientIs(b.Val(), d.Val(), v, x2, x5, s2, s5, p5, p2);
  }

  /** The decimal is below ten units of its first digit, so the half-way point is below sixteen. */
  lemma BelowSixteen(n: Bits, digits: seq<char>, p5: int)
    requires digits != [] && AllDigits(digits) && n > 0
    requires DoubleValue(n) <= LongDecimal(digits, p5)
    ensures HalfWayUp(n) < 16.0 * RPow(10, p5)
  {
    hide RPow, DoubleValue, HalfGapUp, LongDecimal;
    GapBelow(n);
    RPowPos(10, p5);
    BelowTen(digits, p5);
    Sixteen(DoubleValue(n), RPow(2, HalfGapUp(n)), LongDecimal(digits, p5), RPow(10, p5));
  }

  lemma BelowTen(digits: seq<char>, p5: int)
    requires digits != [] && AllDigits(digits)
    ensures LongDecimal(digits, p5) <= 10.0 * RPow(10, p5)
  {
    hide RPow, Pow, DigitsVal;
    var L, N := |digits|, DigitsVal(digits);
    DigitsBound(digits);
    RPowPos(10, p5 - L + 1);
    RPowSucc(10, p5);
    assert RPow(10, p5 + 1) == (Pow(10, L) as real) * RPow(10, p5 - L + 1) by {
      RPowAdd(10, L, p5 - L + 1);
      NatRPow(10, L);
    }
    RMulMono(RPow(10, p5 - L + 1), N as real, Pow(10, L) as real);
  }

  lemma GapBelow(n: Bits)
    requires n > 0
    ensures 2.0 * RPow(2, HalfGapUp(n)) <= DoubleValue(n)
  {
    hide RPow, DoubleValue;
    ValueInGaps(n);
    RPowPos(2, HalfGapUp(n));
    Fields(n);
    RMulMono(RPow(2, HalfGapUp(n)), 2.0, (2 * Mantissa(n)) as real);
  }

  lemma Sixteen(d: real, g: real, x: real, p: real)
    requires 2.0 * g <= d <= x <= 10.0 * p && p > 0.0
    ensures d + g < 16.0 * p
  {
  }

  /** Nothing is left to do but to divide by 2^scale, exactly. */
  ghost predicate Final(r: Outcome, scale: nat) {
    !r.Refine? && (r.Accept? ==> r.word0 < 0x7ff0_0000 && Exact(Join(r.word0, r.word1), scale))
  }

  /** The double that an outcome stands for, once divided by 2^scale. */
  ghost function Result(r: Outcome, scale: nat): Bits
    requires r.Accept? ==> r.word0 < 0x7ff0_0000
    requires !r.Refine?
  {
    match r
    case Accept(w0, w1) => UnscaledWords(w0, w1, scale)
    case Overflow => INFINITY
  }

  /** r is n or the next double up, and is what x reads as exactly when the flaw of the last test is out of play. */
  ghost predicate Settled(r: Outcome, scale: nat, x: real, n: Bits, flawed: bool)
    requires n < INFINITY
  {
    && Final(r, scale)
    && (Result(r, scale) == n || Result(r, scale) == n + 1)
    && (ReadsAs(x, Result(r, scale)) <==> !(n % 2 == 1 && flawed))
  }

  /** Where x lies between n and its upper neighbour decides how it reads. */
  lemma Between(x: real, n: Bits)
    requires 0 < n < INFINITY && DoubleValue(n) <= x <= DoubleValue(n + 1)
    ensures x < HalfWayUp(n) ==> ReadsAs(x, n)
    ensures x == HalfWayUp(n) ==> ReadsAs(x, if n % 2 == 0 then n else n + 1)
    ensures x > HalfWayUp(n) ==> ReadsAs(x, n + 1)
    ensures x < HalfWayUp(n) ==> !ReadsAs(x, n + 1)
  {
    hide DoubleValue, RPow, ReadsAs;
    HalfGaps(n);
    NextValue(n);
    if x <= HalfWayUp(n) && !(x == HalfWayUp(n) && n % 2 == 1) { ReadsSame(x, n); } else { ReadsUpper(x, n); }
    if x < HalfWayUp(n) { NotUpper(x, n); }
  }

  lemma NotUpper(x: real, n: Bits)
    requires 0 < n < INFINITY && DoubleValue(n) <= x < HalfWayUp(n)
    ensures !ReadsAs(x, n + 1)
  {
    hide DoubleValue, RPow, Nearest;
    NextValue(n);
    if n + 1 < INFINITY {
      ReadsAsIff(x, n + 1);
    } else {
      var X := x * RPow(2, 1074);
      assert x == X * RPow(2, -1074) by { RPowInverse(2, 1074); Unscale(x, RPow(2, 1074), RPow(2, -1074)); }
      LowerSide(x, X, n + 1);
      NearestIffInterval(X, n + 1);
    }
  }

  /** rv += sulp(rv): the next double up. */
  method NextDouble(w0: Word, w1: Word, scale: nat) returns (r: Outcome)
    requires HeldWords(w0, w1, scale)
    ensures Final(r, scale) && Result(r, scale) == UnscaledWords(w0, w1, scale) + 1
  {
    hide Unscaled, Held, DoubleValue, RPow;
    var u0, u1 := AddPlace(w0, w1, scale);
    UpExact(Join(w0, w1), scale);
    TopUnscaled(INFINITY);
    r := if u0 < 0x7ff0_0000 then Accept(u0, u1) else Overflow;
  }

  /** The end of bigcomp: keep rv, take the next double, or on a tie the even one. */
  method Settle(dd: int, w0: Word, w1: Word, scale: nat, ghost x: real, ghost flawed: bool) returns (r: Outcome)
    requires HeldWords(w0, w1, scale)
    requires var n := UnscaledWords(w0, w1, scale); 0 < n < INFINITY && DoubleValue(n) <= x <= DoubleValue(n + 1)
    requires var mid := HalfWayUp(UnscaledWords(w0, w1, scale));
             && (flawed ==> x < mid)
             && Sign(dd) == if flawed then 0 else if x < mid then -1 else if x > mid then 1 else 0
    ensures Settled(r, scale, x, UnscaledWords(w0, w1, scale), flawed)
  {
    hide DoubleValue, RPow, ReadsAs, HalfWayUp, Unscaled, Held;
    HeldValue(Join(w0, w1), scale);
    Between(x, UnscaledWords(w0, w1, scale));
    if dd < 0 {
      return Accept(w0, w1);
    } else if dd > 0 {
      r := NextDouble(w0, w1, scale);
      return;
    }
    var odd := OddByField(w0, w1, scale);
    if odd {
      r := NextDouble(w0, w1, scale);
    } else {
      r := Accept(w0, w1);
    }
  }

  lemma StringMatters(B: nat, D: nat, digits: seq<char>, p5: int, mid: real)
    requires digits != [] && D > 0 && Ratio(B, D, p5, mid)
    ensures var x := LongDecimal(digits, p5);
            && (OneDigitShort(B, D, digits) ==> x < mid)
            && Sign(Excess(B, D, digits)) == if x < mid then -1 else if x > mid then 1 else 0
  {
    hide RPow, Pow, DigitsVal, LongDecimal, Ratio;
    ExcessReal(B, D, digits, p5, mid);
    RPowPos(10, p5 - |digits| + 1);
    ScaledSign(Excess(B, D, digits), RPow(10, p5 - |digits| + 1), D as real, LongDecimal(digits, p5) - mid);
  }

  /**
   bigcomp for the upward case (dsign == 1): the decimal s0, whose first digit has weight 10^(nd + e0 - 1), lies
   between the number held and the next double.
   */
  method Bigcomp(w0: Word, w1: Word, scale: nat, s0: seq<char>, nd: nat, nd0: nat, dp1: nat, e0: int, cache: Cache)
    returns (r: Outcome)
    requires HeldWords(w0, w1, scale) && cache.Valid()
    requires nd0 <= |s0| && (nd > nd0 ==> dp1 + (nd - nd0) <= |s0|)
    requires EndsAt(Counted(s0, nd, nd0, dp1), nd)
    requires var n, x := UnscaledWords(w0, w1, scale), LongDecimal(Counted(s0, nd, nd0, dp1), nd + e0 - 1);
             0 < n < INFINITY && DoubleValue(n) <= x <= DoubleValue(n + 1)
    requires RPow(10, nd + e0 - 1) <= HalfWayUp(UnscaledWords(w0, w1, scale))
    modifies cache.Repr
    ensures cache.Valid() && fresh(cache.Repr - old(cache.Repr))
    ensures var n, digits, p5 := UnscaledWords(w0, w1, scale), Counted(s0, nd, nd0, dp1), nd + e0 - 1;
            var x := LongDecimal(digits, p5);
            Settled(r, scale, x, n, OneMoreDigit(x, p5 - |digits|, HalfWayUp(n)))
  {
    hide Pow, RPow, Value, Bigint.Val, DoubleValue, DigitsVal, LongDecimal, Cache.Valid, Cache.Node, HalfWayUp;
    hide Ratio, Verdict, OneMoreDigit, Settled, EndsAt, Excess, OneDigitShort, Unscaled;
    ghost var n, digits := UnscaledWords(w0, w1, scale), Counted(s0, nd, nd0, dp1);
    var p5 := nd + e0 - 1;
    ghost var x, mid := LongDecimal(digits, p5), HalfWayUp(n);
    var b, p2 := HalfWayNumber(w0, w1, scale);
    var d;
    b, d := MidQuotient(b, p2, p5, cache);
    ghost var B, D := b.Val(), d.Val();
    FirstDigitRange(n, digits, nd, p5, B, D);
    NoLonger(b, d);
    var dig := QuoRem(b, d);
    FirstMatched(B, D, digits, dig, b.Val());
    if dig == 0 {
      // a further digit is never needed: the half-way point has a digit in the place of the first one of s0
      assert false;
    }
    var dd := CompareDigits(b, d, dig, s0, nd, nd0, dp1, B);
    StringMatters(B, D, digits, p5, mid);
    ShortIff(B, D, digits, p5, mid);
    VerdictIs(B, D, digits);
    r := Settle(dd, w0, w1, scale, x, OneDigitShort(B, D, digits));
  }

  lemma VerdictIs(B: nat, D: nat, digits: seq<char>)
    requires digits != [] && D > 0
    ensures Verdict(B, D, digits) == if OneDigitShort(B, D, digits) then 0 else Sign(Excess(B, D, digits))
  {
  }

  lemma FirstDigitRange(n: Bits, digits: seq<char>, nd: nat, p5: int, B: nat, D: nat)
    requires EndsAt(digits, nd) && n > 0
    requires DoubleValue(n) <= LongDecimal(digits, p5) && RPow(10, p5) <= HalfWayUp(n)
    requires D > 0 && Ratio(B, D, p5, HalfWayUp(n))
    ensures digits != [] && D <= B < 16 * D
  {
    hide Pow, RPow, DoubleValue, DigitsVal, LongDecimal, HalfWayUp, Ratio;
    BelowSixteen(n, digits, p5);
    RatioOne(D, p5);
    RatioLess(D, B, D, p5, RPow(10, p5), HalfWayUp(n));
    RatioSixteen(D, p5);
    RatioLess(B, 16 * D, D, p5, HalfWayUp(n), 16.0 * RPow(10, p5));
  }

  lemma RatioSixteen(D: nat, p5: int)
    ensures Ratio(16 * D, D, p5, 16.0 * RPow(10, p5))
  {
    hide RPow;
    SixteenOver((16 * D) as real, D as real, RPow(10, p5));
  }

  lemma SixteenOver(a: real, d: real, p: real)
    requires a == 16.0 * d
    ensures a * p == d * (16.0 * p)
  {
  }

  lemma FirstMatched(B: nat, D: nat, digits: seq<char>, dig: nat, rem: nat)
    requires D > 0 && D <= B && dig == B / D && rem == B % D
    ensures dig >= 1 && Matched(B, D, digits, 0, dig, rem)
  {
    assert digits[..0] == [];
    assert Pow(10, 0) == 1 && DigitsVal([]) == 0;
    DivFacts(B, D, dig, rem);
  }

  lemma DivFacts(B: nat, D: nat, dig: nat, rem: nat)
    requires D > 0 && D <= B && dig == B / D && rem == B % D
    ensures dig >= 1 && B == dig * D + rem && rem < D
  {
  }
}
