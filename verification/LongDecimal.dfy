/**
 Decimals of more digits than strtod takes at once: the digits are cut to 18, the correction loop runs on those,
 and bigcomp settles what they leave open.
 */
module LongDecimals {
  import opened Arith
  import opened Rational
  import opened Words
  import opened Bignum
  import opened Pow5
  import opened Ieee
  import opened DoubleBits
  import opened Decimal
  import opened FreeDigits
  import opened Scaling
  import opened ShortestDigits
  import opened ScaledDoubles
  import opened Unscaling
  import opened Correction
  import opened Refinement
  import opened CorrectionLoop
  import opened BigcompDigits
  import opened Midpoint
  import opened JsonStrings
  import opened Scanner
  import opened ScanNumber
  import opened ReadBack

  const STRTOD_DIGLIM := 40

  /** The nd digits found from s0 on, nd0 of them before the point. */
  ghost predicate Laid(s0: Bytes, nd: nat, nd0: nat, dp1: int, dplen: nat) {
    && nd0 <= nd && nd0 <= |s0| && (nd > nd0 ==> nd0 + dplen + (nd - nd0) <= |s0|)
    && (dp1 == nd0 + dplen || (nd == nd0 && dp1 <= 0))
    && var c := Counted(s0, nd, nd0, nd0 + dplen);
       c != [] && AllDigits(c) && c[0] != '0'
  }

  // ----- cutting -----

  /** How many of the first 18 digits are left without the zeros at their end. */
  method CutZeros(s0: Bytes, nd: nat, nd0: nat, dp1: int, dplen: nat) returns (i: nat)
    requires Laid(s0, nd, nd0, dp1, dplen) && nd > 18
    ensures var c := Counted(s0, nd, nd0, nd0 + dplen);
            1 <= i <= 18 && c[i - 1] != '0' && forall k :: i <= k < 18 ==> c[k] == '0'
  {
    ghost var c := Counted(s0, nd, nd0, nd0 + dplen);
    var j: int;
    i, j := 18, 18;
    if i > nd0 {
      j := j + dplen;
    }
    while true
      invariant 1 <= i <= 18 && forall k :: i <= k < 18 ==> c[k] == '0'
      invariant if i > nd0 then j == i + dplen else if i == nd0 then j == i || j == i + dplen else j == i
      decreases i
    {
      j := j - 1;
      if j < dp1 && j >= dp1 - dplen {
        j := dp1 - dplen - 1;
      }
      assert j == if i - 1 < nd0 then i - 1 else i - 1 + dplen;
      assert s0[j] == c[i - 1];
      if s0[j] != '0' {
        return;
      }
      i := i - 1;
    }
  }

  /** The value of the first nd digits, fewer than nine, computed again. */
  method Recompute(s0: Bytes, nd: nat, nd0: nat, dp1: int, ghost c: seq<char>) returns (y: nat)
    requires nd0 <= nd < 9 && nd <= |c| && nd0 <= |s0| && c[..nd0] == s0[..nd0] && AllDigits(c[..nd])
    requires nd > nd0 ==> 0 <= dp1 && dp1 + (nd - nd0) <= |s0| && c[nd0..nd] == s0[dp1..dp1 + (nd - nd0)]
    ensures y == DigitsVal(c[..nd])
  {
    hide DigitsVal;
    y := 0;
    NoDigits();
    assert c[..0] == [];
    var i := 0;
    while i < nd0
      invariant 0 <= i <= nd0 && y == DigitsVal(c[..i])
    {
      assert s0[i] == s0[..nd0][i] == c[..nd0][i] == c[..nd][i];
      DigitsSnoc(c, i);
      y := 10 * y + DigitOf(s0[i]);
      i := i + 1;
    }
    var j := dp1;
    while i < nd
      invariant nd0 <= i <= nd && j == dp1 + (i - nd0) && y == DigitsVal(c[..i])
    {
      assert s0[j] == s0[dp1..dp1 + (nd - nd0)][i - nd0] == c[nd0..nd][i - nd0] == c[..nd][i];
      DigitsSnoc(c, i);
      y := 10 * y + DigitOf(s0[j]);
      i := i + 1;
      j := j + 1;
    }
  }

  lemma PrefixCounted(s0: Bytes, nd: nat, nd0: nat, dplen: nat, nd1: nat)
    requires nd0 <= nd && nd0 <= |s0| && (nd > nd0 ==> nd0 + dplen + (nd - nd0) <= |s0|) && nd1 <= nd
    ensures var c, k := Counted(s0, nd, nd0, nd0 + dplen), Min(nd0, nd1);
            && k <= |s0| && (nd1 > k ==> k + dplen + (nd1 - k) <= |s0|)
            && Counted(s0, nd1, k, k + dplen) == c[..nd1]
            && c[..k] == s0[..k]
            && (nd1 > k ==> k == nd0 && c[k..nd1] == s0[k + dplen..k + dplen + (nd1 - k)])
  {
    var a, c := s0[..nd0], Counted(s0, nd, nd0, nd0 + dplen);
    if nd1 <= nd0 {
      assert c[..nd1] == a[..nd1] == s0[..nd1] == s0[..nd1] + [];
    } else {
      var p, b := nd0 + dplen, s0[nd0 + dplen..nd0 + dplen + (nd - nd0)];
      assert c == a + b;
      assert b[..nd1 - nd0] == s0[p..p + (nd1 - nd0)];
      assert c[..nd1] == a + b[..nd1 - nd0];
      assert c[nd0..nd1] == b[..nd1 - nd0];
      assert c[..nd0] == a;
    }
  }

  /** The digits s2b gets: 18 of them at most, ending in a nonzero one. */
  method Truncate(s0: Bytes, nd: nat, nd0: nat, dp1: int, dplen: nat, y: nat, e: int)
    returns (nd1: nat, nd01: nat, y1: nat, e1: int)
    requires Laid(s0, nd, nd0, dp1, dplen) && nd > 18 && y == Head(Counted(s0, nd, nd0, nd0 + dplen))
    ensures var c := Counted(s0, nd, nd0, nd0 + dplen);
            && 1 <= nd1 <= 18 && nd01 == Min(nd0, nd1) && e1 == e + nd - nd1 && y1 == Head(c[..nd1])
            && c[nd1 - 1] != '0' && forall k :: nd1 <= k < 18 ==> c[k] == '0'
  {
    hide DigitsVal, Head;
    ghost var c := Counted(s0, nd, nd0, nd0 + dplen);
    nd1 := CutZeros(s0, nd, nd0, dp1, dplen);
    nd01, y1, e1 := if nd0 > nd1 then nd1 else nd0, y, e + nd - nd1;
    PrefixCounted(s0, nd, nd0, dplen, nd1);
    HeadPrefix(c, nd1);
    if nd1 < 9 {
      y1 := Recompute(s0, nd1, nd01, dp1, c);
    }
  }

  lemma HeadPrefix(c: seq<char>, k: nat)
    requires k <= |c|
    ensures Head(c[..k]) == if k < 9 then DigitsVal(c[..k]) else Head(c)
  {
    hide DigitsVal;
    var h := c[..k];
    assert Head(h) == DigitsVal(h[..Min(9, k)]) && Head(c) == DigitsVal(c[..Min(9, |c|)]);
    if k < 9 {
      assert h[..k] == h;
    } else {
      assert h[..9] == c[..9];
    }
  }

  // ----- what cutting does to the value -----

  /** The first k digits, with the weight they have in c. */
  ghost function Prefix(c: seq<char>, k: nat, e: int): real
    requires k <= |c|
  {
    DecimalValue(DigitsVal(c[..k]), e + |c| - k)
  }

  lemma PrefixBounds(c: seq<char>, k: nat, e: int)
    requires AllDigits(c) && 1 <= k <= |c| && c[0] != '0'
    ensures var x, t, q := DecimalValue(DigitsVal(c), e), Prefix(c, k, e), RPow(10, e + |c| - k);
            t <= x < t + q && (t == x <==> DigitsVal(c[k..]) == 0) && RPow(10, e + |c| - 1) <= t
  {
    hide Pow, RPow, DigitsVal, AllDigits;
    var m := |c| - k;
    var a, b := PrefixDigits(c, k);
    RPowPos(10, e);
    TenTimesPower(m, e);
    TenTimesPower(k - 1, e + m);
    assert k - 1 + (e + m) == e + |c| - 1 && m + e == e + |c| - k;
    PrefixReal(a, b, Pow(10, m), Pow(10, k - 1), DigitsVal(c), RPow(10, e), RPow(10, m + e));
  }

  lemma TenTimesPower(m: nat, e: int)
    ensures RPow(10, m + e) == (Pow(10, m) as real) * RPow(10, e)
  {
    hide Pow, RPow;
    RPowAdd(10, m, e);
    NatRPow(10, m);
  }

  lemma PrefixDigits(c: seq<char>, k: nat) returns (a: int, b: int)
    requires AllDigits(c) && 1 <= k <= |c| && c[0] != '0'
    ensures a == DigitsVal(c[..k]) && b == DigitsVal(c[k..]) && DigitsVal(c) == a * Pow(10, |c| - k) + b
    ensures 0 <= b < Pow(10, |c| - k) && a >= Pow(10, k - 1)
  {
    hide Pow, DigitsVal;
    a, b := DigitsVal(c[..k]), DigitsVal(c[k..]);
    assert c == c[..k] + c[k..];
    DigitsConcat(c[..k], c[k..]);
    DigitsBound(c[k..]);
    DigitsLead(c[..k]);
  }

  lemma PrefixReal(a: int, b: int, P: int, K: int, v: int, w: real, q: real)
    requires v == a * P + b && 0 <= b < P && a >= K && w > 0.0 && q == (P as real) * w
    ensures (a as real) * q <= (v as real) * w < (a as real) * q + q
    ensures (a as real) * q == (v as real) * w <==> b == 0
    ensures (K as real) * q <= (a as real) * q
  {
    CastMul(a, P);
    assert v as real == (a as real) * (P as real) + b as real;
    assert ((a as real) * (P as real)) * w == (a as real) * q;
    assert (v as real) * w == (a as real) * q + (b as real) * w;
    BelowUnit(b as real, P as real, w);
    RMulMono(w, 0.0, P as real);
    RMulMono(q, K as real, a as real);
  }

  lemma BelowUnit(b: real, P: real, w: real)
    requires 0.0 <= b < P && w > 0.0
    ensures 0.0 <= b * w < P * w && (b * w == 0.0 <==> b == 0.0)
  {
  }

  /** Dropping the zeros at the end of a prefix changes nothing. */
  lemma PrefixShorter(c: seq<char>, i: nat, k: nat, e: int)
    requires i <= k <= |c| && forall j :: i <= j < k ==> c[j] == '0'
    ensures Prefix(c, i, e) == Prefix(c, k, e)
  {
    hide DigitsVal, DecimalValue;
    DropTail(c[..k], i, e + |c| - k);
    assert c[..k][..i] == c[..i];
  }

  // ----- one pass on cut digits -----

  /** How a pass on cut digits ends the loop: keep the approximation or call bigcomp; or try the next lower double. */
  datatype CutExit = Keep | Compare | Again(word0: Word, word1: Word)

  /** Where the cut decimal t lies from the number n that the approximation stands for. */
  ghost predicate Located(r: CutExit, t: real, n: Bits, scale: nat) {
    var d, gd, gu := DoubleValue(n), RPow(2, HalfGapDown(n)), RPow(2, HalfGapUp(n));
    match r
    case Keep => t <= d && d - t <= gd
    case Compare => d < t && t - d <= gu
    case Again(w0, w1) =>
      && HeldWords(w0, w1, scale) && w1 == 0xffff_ffff && n > 0 && UnscaledWords(w0, w1, scale) == n - 1
      && SpecialCase(n) && d - t > gd && d - t <= gu
  }

  /** The exits where bc.nd > nd: discarded digits make delta smaller when the approximation is not below. */
  method CutExits(i: int, dsign: bool, delta: Bigint, bs: Bigint, w0: Word, w1: Word, scale: nat, ghost t: real)
    returns (r: CutExit)
    requires Kept(w0, w1, scale) && delta.Valid() && bs.Valid() && i <= 0
    requires Told(i, dsign, delta.Val(), bs.Val(), UnscaledWords(w0, w1, scale), t)
    ensures Located(r, t, UnscaledWords(w0, w1, scale), scale) && (r.Again? ==> w1 == 0)
  {
    hide RPow, Pow, DoubleValue, Value, Bigint.Val, Unscaled, HalfGapUp, HalfGapDown, SpecialCase;
    NearerBelow(w0, w1, scale);
    HalfGaps(UnscaledWords(w0, w1, scale));
    if dsign {
      return Compare;
    }
    if w1 != 0 || w0 % EXP_MSK1 != 0 || w0 / EXP_MSK1 <= 2 * 53 + 1 {
      return Keep;
    }
    ZeroTest(delta);
    if delta.x[0] == 0 && delta.wds <= 1 {
      return Keep;
    }
    var above := TwiceAbove(delta, bs);
    if above {
      var o := DropDown(w0, w1, scale);
      r := Again(o.word0, o.word1);
    } else {
      r := Keep;
    }
  }

  // ----- what a pass on cut digits means for the whole decimal -----

  /** x has the first 18 digits of t, whose last place is q. */
  ghost predicate Cut(x: real, t: real, q: real) {
    q > 0.0 && 100000000000000000.0 * q <= t < x < t + q
  }

  /** The place of the 18th digit is far below the gap between doubles. */
  lemma GapCovers(n: Bits, y: real, q: real)
    requires 0 < n < INFINITY && q > 0.0
    requires 100000000000000000.0 * q <= y <= DoubleValue(n) + RPow(2, HalfGapUp(n))
    ensures 3.0 * q < RPow(2, HalfGapUp(n))
  {
    hide RPow, DoubleValue, HalfGapUp;
    ValueInGaps(n);
    RPowPos(2, HalfGapUp(n));
    Fields(n);
    var m, u := 2 * Ieee.Mantissa(n), RPow(2, HalfGapUp(n));
    assert m <= 18014398509481984;
    RMulMono(u, m as real, 18014398509481984.0);
    FarLess(q, y, DoubleValue(n), u);
  }

  lemma FarLess(q: real, y: real, d: real, u: real)
    requires u > 0.0 && 100000000000000000.0 * q <= y <= d + u && d <= 18014398509481984.0 * u
    ensures 3.0 * q < u
  {
  }

  lemma KeepReads(n: Bits, scale: nat, x: real, t: real, q: real)
    requires 0 < n < INFINITY && Cut(x, t, q) && Located(Keep, t, n, scale)
    ensures ReadsAs(x, n)
  {
    hide RPow, DoubleValue, HalfGapUp, HalfGapDown, ReadsAs;
    HalfGaps(n);
    GapCovers(n, t, q);
    ReadsSame(x, n);
  }

  lemma CompareBetween(n: Bits, scale: nat, x: real, t: real, q: real)
    requires 0 < n < INFINITY && Cut(x, t, q) && Located(Compare, t, n, scale)
    ensures DoubleValue(n) <= x <= DoubleValue(n + 1) && t <= HalfWayUp(n)
  {
    hide RPow, DoubleValue, HalfGapUp, HalfGapDown;
    GapCovers(n, t, q);
    NextValue(n);
  }

  /** After drop_down the next pass ends the loop. */
  lemma AgainNear(n: Bits, scale: nat, t: real, w0: Word, w1: Word)
    requires 0 < n < INFINITY && Located(Again(w0, w1), t, n, scale)
    ensures n > 1 && Dist(DoubleValue(n - 1), t) <= RPow(2, HalfGapUp(n - 1))
    ensures Dist(DoubleValue(n), t) <= RPow(2, HalfGapUp(n))
  {
    hide RPow, DoubleValue, HalfGapUp, HalfGapDown;
    HalfGaps(n);
    NextValue(n - 1);
    Fields(n);
  }

  // ----- the flaw of bigcomp seen from the decimal -----

  /** Some odd double's upper half-way point is x with one more nonzero digit. */
  ghost predicate Flawed(x: real, e: int) {
    exists n: Bits {:trigger HalfWayUp(n)} :: 0 < n < INFINITY && n % 2 == 1 && OneMoreDigit(x, e, HalfWayUp(n))
  }

  lemma OneMoreNear(x: real, e: int, mid: real)
    requires OneMoreDigit(x, e, mid)
    ensures x < mid < x + RPow(10, e + 1)
  {
    hide RPow, DecimalValue;
    var c: int :| 1 <= c <= 9 && mid == x + DecimalValue(c, e);
    OneDigit(c, e);
  }

  lemma OneDigit(c: int, e: int)
    requires 1 <= c <= 9
    ensures 0.0 < DecimalValue(c, e) < RPow(10, e + 1)
  {
    hide RPow;
    RPowPos(10, e);
    RPowSucc(10, e);
    NineUnits(c as real, RPow(10, e), DecimalValue(c, e));
  }

  lemma NineUnits(c: real, w: real, v: real)
    requires 1.0 <= c <= 9.0 && w > 0.0 && v == c * w
    ensures 0.0 < v < 10.0 * w
  {
    RMulMono(w, 1.0, c);
    RMulMono(w, c, 9.0);
  }

  /** Then the cut digits lie above that double. */
  lemma FlawedAt(n: Bits, x: real, t: real, q: real, e: int)
    requires 0 < n < INFINITY && Cut(x, t, q) && RPow(10, e + 1) <= q && OneMoreDigit(x, e, HalfWayUp(n))
    ensures DoubleValue(n) < t && x < HalfWayUp(n) < DoubleValue(n + 1)
  {
    hide RPow, DoubleValue, HalfGapUp, OneMoreDigit;
    OneMoreNear(x, e, HalfWayUp(n));
    GapCovers(n, t, q);
    NextValue(n);
  }

  /** At most the double next below x can be the one. */
  lemma FlawedHere(n: Bits, x: real, t: real, q: real, e: int)
    requires 0 < n < INFINITY && Cut(x, t, q) && RPow(10, e + 1) <= q && DoubleValue(n) <= x <= DoubleValue(n + 1)
    ensures Flawed(x, e) <==> n % 2 == 1 && OneMoreDigit(x, e, HalfWayUp(n))
  {
    hide RPow, DoubleValue, HalfWayUp, OneMoreDigit;
    if Flawed(x, e) {
      var m: Bits :| 0 < m < INFINITY && m % 2 == 1 && OneMoreDigit(x, e, HalfWayUp(m));
      FlawedAt(m, x, t, q, e);
      if m < n { Ordered(m + 1, n); }
      if n < m { Ordered(n + 1, m); }
    }
  }

  /** A kept approximation is out of the flaw's reach. */
  lemma KeepUnflawed(n: Bits, scale: nat, x: real, t: real, q: real, e: int)
    requires 0 < n < INFINITY && Cut(x, t, q) && RPow(10, e + 1) <= q && Located(Keep, t, n, scale)
    ensures !Flawed(x, e)
  {
    hide RPow, DoubleValue, HalfWayUp, OneMoreDigit, ReadsAs;
    if Flawed(x, e) {
      var m: Bits :| 0 < m < INFINITY && m % 2 == 1 && OneMoreDigit(x, e, HalfWayUp(m));
      FlawedAt(m, x, t, q, e);
      Between(x, m);
      KeepReads(n, scale, x, t, q);
      ReadsUnique(x, m, n);
    }
  }

  // ----- the whole loop -----

  /** What the loop compares with: the first 18 of more than 40 digits, else all of them. */
  ghost function Taken(c: seq<char>, e: int): real {
    if |c| > STRTOD_DIGLIM then Prefix(c, 18, e) else DecimalValue(DigitsVal(c), e)
  }

  /** The place after the last digit that bigcomp is given. */
  function NextPlace(m: Mantissa, e: int): int {
    e + m.nd - 1 - (if m.nd - m.nz1 > m.nd0 then m.nd - m.nz1 else m.nd0)
  }

  /** The cut digits lie below half the smallest double, the decimal above it. */
  ghost predicate Vanished(t: real, x: real) { t < RPow(2, -1075) < x }

  /**
   More than 40 digits, more than 18 of them before the zeros at the end, and either the flaw of bigcomp's last test
   or a decimal that vanishes by being cut.
   */
  ghost predicate Misjudged(m: Mantissa, c: seq<char>, e: int) {
    var x := DecimalValue(DigitsVal(c), e);
    |c| > STRTOD_DIGLIM && |c| - m.nz1 > 18 && (Flawed(x, NextPlace(m, e)) || Vanished(Taken(c, e), x))
  }

  /** r is the double that x reads as, unless x is misjudged. */
  ghost predicate Answers(r: Outcome, scale: nat, x: real, misjudged: bool) {
    && Final(r, scale)
    && (ReadsAs(x, Result(r, scale)) <==> !misjudged)
  }

  /** bigcomp's contract, seen from the decimal. */
  lemma ComparedAnswers(r: Outcome, scale: nat, n: Bits, x: real, t: real, q: real, e: int)
    requires 0 < n < INFINITY && Cut(x, t, q) && RPow(10, e + 1) <= q && DoubleValue(n) <= x <= DoubleValue(n + 1)
    requires Located(Compare, t, n, scale)
    requires Settled(r, scale, x, n, OneMoreDigit(x, e, HalfWayUp(n)))
    ensures Answers(r, scale, x, Flawed(x, e) || Vanished(t, x))
  {
    hide RPow, DoubleValue, HalfWayUp, OneMoreDigit, ReadsAs, Flawed, Unscaled, HalfGapUp, HalfGapDown;
    FlawedHere(n, x, t, q, e);
    NotVanishing(n, t);
    HalfGaps(n);
  }

  /** Next to a double that is not zero nothing vanishes. */
  lemma NotVanishing(n: Bits, t: real)
    requires 0 < n < INFINITY && DoubleValue(n) - t <= RPow(2, HalfGapUp(n))
    ensures t >= RPow(2, -1075)
  {
    hide RPow, DoubleValue;
    ValueInGaps(n);
    Fields(n);
    RPowPos(2, HalfGapUp(n));
    RMulMono(RPow(2, HalfGapUp(n)), 2.0, (2 * Ieee.Mantissa(n)) as real);
    RPowMono(2, -1075, HalfGapUp(n));
  }

  lemma KeptAnswers(w0: Word, w1: Word, scale: nat, x: real, t: real, q: real, e: int)
    requires w0 < 0x7ff0_0000 && 0 < UnscaledWords(w0, w1, scale) < INFINITY && Exact(Join(w0, w1), scale)
    requires Cut(x, t, q) && RPow(10, e + 1) <= q
    requires Located(Keep, t, UnscaledWords(w0, w1, scale), scale)
    ensures Answers(Accept(w0, w1), scale, x, Flawed(x, e) || Vanished(t, x))
  {
    hide RPow, DoubleValue, ReadsAs, Flawed, Unscaled, HalfGapUp, HalfGapDown;
    KeepReads(UnscaledWords(w0, w1, scale), scale, x, t, q);
    KeepUnflawed(UnscaledWords(w0, w1, scale), scale, x, t, q, e);
    HalfGaps(UnscaledWords(w0, w1, scale));
    NotVanishing(UnscaledWords(w0, w1, scale), t);
  }

  /** The flaw needs a double below the cut digits and a half-way point above the decimal. */
  lemma FlawedBetween(x: real, t: real, q: real, e: int)
    requires Cut(x, t, q) && RPow(10, e + 1) <= q && Flawed(x, e)
    ensures t > RPow(2, -1075) && x < DoubleValue(LARGEST) + RPow(2, HalfGapUp(LARGEST))
  {
    hide RPow, DoubleValue, OneMoreDigit, HalfGapUp;
    var n: Bits :| 0 < n < INFINITY && n % 2 == 1 && OneMoreDigit(x, e, HalfWayUp(n));
    FlawedAt(n, x, t, q, e);
    LargestIs();
    TopHalfWay(n);
    HalfGaps(n);
    NotVanishing(n, DoubleValue(n));
  }

  lemma TopHalfWay(n: Bits)
    requires 0 < n < INFINITY
    ensures HalfWayUp(n) <= HalfWayUp(LARGEST)
  {
    hide RPow, DoubleValue;
    LargestIs();
    Fields(n);
    Ordered(n, LARGEST);
    RPowMono(2, HalfGapUp(n), HalfGapUp(LARGEST));
  }

  /** Overflow while the loop is still moving. */
  lemma OverAnswers(scale: nat, x: real, t: real, q: real, e: int)
    requires Cut(x, t, q) && RPow(10, e + 1) <= q && t > DoubleValue(LARGEST) + RPow(2, HalfGapUp(LARGEST))
    ensures Answers(Overflow, scale, x, Flawed(x, e) || Vanished(t, x))
  {
    hide RPow, DoubleValue, ReadsAs, Flawed, HalfGapUp;
    InfiniteReads(x);
    if Flawed(x, e) { FlawedBetween(x, t, q, e); }
    LargestIs();
    HalfGaps(LARGEST);
    NotVanishing(LARGEST, t);
  }

  /** Zero while the loop is still moving: right if and only if the decimal itself is no more than half the smallest. */
  lemma GoneAnswers(scale: nat, x: real, t: real, q: real, e: int)
    requires scale == SCALE && Cut(x, t, q) && RPow(10, e + 1) <= q && t < RPow(2, -1075)
    ensures Answers(Accept(0, 0), scale, x, Flawed(x, e) || Vanished(t, x))
  {
    hide RPow, DoubleValue, ReadsAs, Flawed;
    ZeroExact(SCALE);
    if Flawed(x, e) { FlawedBetween(x, t, q, e); }
    ZeroReads(x);
  }

  /** The string that bigcomp gets denotes x, and its first digit has the weight of x's. */
  lemma BigcompString(m: Mantissa, data: Bytes, e: int)
    requires Inside(m, data) && m.nd > 0 && Clean(Digits(m, data), m.nz1, m.y)
    ensures var s0, nd, dp1, e0 := data[m.s0..], m.nd - m.nz1, m.nd0 + m.dplen, e + m.nz1;
            && nd > 0 && m.nd0 <= |s0| && (nd > m.nd0 ==> dp1 + (nd - m.nd0) <= |s0|)
            && var c := Counted(s0, nd, m.nd0, dp1);
               && EndsAt(c, nd) && LongDecimal(c, nd + e0 - 1) == DecimalValue(DigitsVal(Digits(m, data)), e)
               && nd + e0 - 1 == m.nd + e - 1 && nd + e0 - 1 - |c| == NextPlace(m, e)
  {
    hide Clean, EndsAt, LongDecimal, DecimalValue, DigitsVal;
    BigcompInput(m, data, e);
    CountedLength(m, data);
  }

  /**
   The correction loop on cut digits: it ends by keeping an approximation, by bigcomp, or at either end of the
   range.
   */
  method CorrectCut(bd0: Bigint, e1: int, w0: Word, w1: Word, scale: nat, data: Bytes, m: Mantissa, e: int,
      nearest: real -> Bits, cache: Cache, ghost t: real, ghost q: real)
    returns (r: Outcome)
    requires Inside(m, data) && m.nd > 0 && Clean(Digits(m, data), m.nz1, m.y)
    requires bd0.Valid() && bd0.Val() > 0 && cache.Valid() && cache.Apart(bd0) && t == DecimalValue(bd0.Val(), e1)
    requires Rounds(nearest) && Kept(w0, w1, scale) && Starting(UnscaledWords(w0, w1, scale), t, scale)
    requires Cut(DecimalValue(DigitsVal(Digits(m, data)), e), t, q)
    requires RPow(10, m.nd + e - 1) <= t && RPow(10, NextPlace(m, e) + 1) <= q
    modifies cache.Repr
    ensures cache.Valid() && fresh(cache.Repr - old(cache.Repr))
    ensures var x := DecimalValue(DigitsVal(Digits(m, data)), e);
            Answers(r, scale, x, Flawed(x, NextPlace(m, e)) || Vanished(t, x))
  {
    hide Pow, RPow, Value, Bigint.Val, DoubleValue, DecimalValue, DigitsVal, Cache.Valid, Cache.Node, Clean, Digits;
    hide Flawed, Cut, Located, EndsAt, NextPlace, Counted, LongDecimal, HalfWayUp, Settled, OneMoreDigit, Vanished;
    hide Unscaled, HalfGapUp, Told, InProportion, Measured, Stepped, Close, Suits, Held, Answers, Exact;
    ghost var x, N, place, left: nat := DecimalValue(DigitsVal(Digits(m, data)), e), bd0.Val(), NextPlace(m, e), 3;
    StartGoing(w0, w1, scale, t);
    var v0, v1 := w0, w1;
    while true
      invariant Going(left, v0, v1, scale, t)
      invariant bd0.Valid() && bd0.Val() == N && cache.Valid() && cache.Apart(bd0)
      invariant fresh(cache.Repr - old(cache.Repr))
      decreases left, if v1 == 0 then 1 else 0
    {
      NearerBelow(v0, v1, scale);
      var i, dsign, delta, bs := Measure(bd0, e1, v0, v1, scale, cache);
      if i > 0 {
        var moved, aadj;
        ghost var quot;
        moved, aadj, quot := Adjust(i, dsign, delta, bs, v0, v1, scale, nearest, left, t);
        left := left - 1;
        match moved {
          case Over =>
            OverAnswers(scale, x, t, q, place);
            return Overflow;
          case Gone =>
            GoneNear(left, scale, t);
            GoneAnswers(scale, x, t, q, place);
            return Accept(0, 0);
          case Largest =>
            GoingOn(moved, left, scale, t, BIG0, BIG1);
            v0, v1 := BIG0, BIG1;
          case To(u0, u1) =>
            GoingOn(moved, left, scale, t, u0, u1);
            v0, v1 := u0, u1;
        }
      } else {
        var exit := CutExits(i, dsign, delta, bs, v0, v1, scale, t);
        ghost var n := UnscaledWords(v0, v1, scale);
        match exit {
          case Keep =>
            HeldValue(Join(v0, v1), scale);
            KeptAnswers(v0, v1, scale, x, t, q, place);
            return Accept(v0, v1);
          case Again(u0, u1) =>
            AgainGoing(left, v0, v1, scale, t, u0, u1);
            left, v0, v1 := 0, u0, u1;
          case Compare =>
            CompareBetween(n, scale, x, t, q);
            BigcompString(m, data, e);
            r := Bigcomp(v0, v1, scale, data[m.s0..], m.nd - m.nz1, m.nd0, m.nd0 + m.dplen, e + m.nz1, cache);
            ComparedAnswers(r, scale, n, x, t, q, place);
            return;
        }
      }
    }
  }

  lemma GoneNear(k: nat, scale: nat, t: real)
    requires Nears(Gone, k, scale, t)
    ensures scale == SCALE && t < RPow(2, -1075)
  {
  }

  lemma AgainGoing(left: nat, w0: Word, w1: Word, scale: nat, t: real, u0: Word, u1: Word)
    requires Going(left, w0, w1, scale, t) && Located(Again(u0, u1), t, UnscaledWords(w0, w1, scale), scale)
    ensures Going(0, u0, u1, scale, t) && u1 != 0
  {
    hide RPow, DoubleValue, Unscaled, HalfGapUp, HalfGapDown;
    NearerBelow(w0, w1, scale);
    AgainNear(UnscaledWords(w0, w1, scale), scale, t, u0, u1);
    AgainWords(UnscaledWords(w0, w1, scale), scale, t, u0, u1);
  }

  lemma AgainWords(n: Bits, scale: nat, t: real, w0: Word, w1: Word)
    requires Located(Again(w0, w1), t, n, scale)
    ensures HeldWords(w0, w1, scale) && w1 == 0xffff_ffff && n > 0 && UnscaledWords(w0, w1, scale) == n - 1
  {
  }

  /** Without the zeros at the end, 18 digits or fewer are kept whole. */
  lemma CutOrWhole(c: seq<char>, nz: nat, y: int, i: nat)
    requires Clean(c, nz, y) && |c| > 18 && 1 <= i <= 18 && c[i - 1] != '0' && forall k :: i <= k < 18 ==> c[k] == '0'
    ensures if |c| - nz > 18 then |c| - nz > i && DigitsVal(c[18..]) > 0
            else |c| - nz == i && DigitsVal(c[18..]) == 0
  {
    hide Head, DigitsVal;
    var n := |c| - nz;
    if n > 18 {
      assert c[18..][n - 1 - 18] == c[n - 1];
      NonzeroTail(c[18..], n - 1 - 18);
    } else {
      DigitsZeros(c[18..]);
    }
  }

  /** What is left of the decimal by the cut: less than a unit of the 18th place, which is 10^-17 of its size. */
  lemma CutFacts(m: Mantissa, data: Bytes, e: int, i: nat)
    requires Inside(m, data) && m.nd > STRTOD_DIGLIM && Clean(Digits(m, data), m.nz1, m.y)
    requires var c := Digits(m, data);
             |c| == m.nd && 1 <= i <= 18 && c[i - 1] != '0' && forall k :: i <= k < 18 ==> c[k] == '0'
    ensures var c := Digits(m, data);
            var x, t, q := DecimalValue(DigitsVal(c), e), Taken(c, e), RPow(10, e + m.nd - 18);
            && t == DecimalValue(DigitsVal(c[..i]), e + m.nd - i)
            && (m.nd - m.nz1 > i <==> m.nd - m.nz1 > 18)
            && (if m.nd - m.nz1 > i then Cut(x, t, q) && RPow(10, m.nd + e - 1) <= t
                && RPow(10, NextPlace(m, e) + 1) <= q
                else t == x)
  {
    hide RPow, Pow, DigitsVal, DecimalValue, Head, Digits;
    var c := Digits(m, data);
    CutOrWhole(c, m.nz1, m.y, i);
    PrefixShorter(c, i, 18, e);
    PrefixBounds(c, 18, e);
    RPowPos(10, e + m.nd - 18);
    SeventeenPlaces(e + m.nd - 18);
    if m.nd - m.nz1 > i { RPowMono(10, NextPlace(m, e) + 1, e + m.nd - 18); }
  }

  lemma SeventeenPlaces(e: int)
    ensures RPow(10, e + 17) == 100000000000000000.0 * RPow(10, e)
  {
    hide RPow;
    TenTimesPower(17, e);
    TenTo17();
  }

  lemma TenTo17()
    ensures Pow(10, 17) == 100_000_000_000_000_000
  {
    assert Pow(10, 4) == 10_000;
    PowAdd(10, 4, 4);
    PowAdd(10, 8, 8);
    PowAdd(10, 16, 1);
    assert Pow(10, 1) == 10;
  }

  /** Cut the digits if they are too many, and make the big integer. */
  method Gather(data: Bytes, m: Mantissa, e: int) returns (bd0: Bigint, nd: nat, e1: int)
    requires Inside(m, data) && m.nd > 0 && Placed(m) && Clean(Digits(m, data), m.nz1, m.y)
    ensures fresh(bd0) && fresh(bd0.x) && bd0.Valid() && bd0.Val() > 0
    ensures DecimalValue(bd0.Val(), e1) == Taken(Digits(m, data), e)
    ensures var c := Digits(m, data);
            var x, t, q := DecimalValue(DigitsVal(c), e), Taken(c, e), RPow(10, e + m.nd - 18);
            if m.nd - m.nz1 > nd then
              && m.nd > STRTOD_DIGLIM && m.nd - m.nz1 > 18 && Cut(x, t, q) && RPow(10, m.nd + e - 1) <= t
              && RPow(10, NextPlace(m, e) + 1) <= q
            else t == x && (m.nd > STRTOD_DIGLIM ==> m.nd - m.nz1 <= 18)
  {
    hide Pow, RPow, Value, Bigint.Val, DecimalValue, DigitsVal, Head, Cut, Digits, NextPlace, Laid, Taken;
    ghost var c := Digits(m, data);
    var s0 := data[m.s0..];
    CountedLength(m, data);
    CleanDigits(m, data);
    var nd0, y;
    nd, nd0, y, e1 := m.nd, m.nd0, m.y, e;
    if m.nd > STRTOD_DIGLIM {
      LaidOut(m, data);
      nd, nd0, y, e1 := Truncate(s0, m.nd, m.nd0, m.dp1, m.dplen, m.y, e);
      CutFacts(m, data, e, nd);
    }
    TakenDigits(m, data, nd, nd0);
    WholeTaken(c, e);
    bd0 := S2b(s0, nd0, nd, y, m.dplen);
  }

  /**
   From an approximation on, held 2^scale times too large: cut the digits if they are too many, make the big integer,
   and correct.
   */
  method CorrectFrom(data: Bytes, m: Mantissa, e: int, w0: Word, w1: Word, scale: nat, shl32: Word,
      nearest: real -> Bits, cache: Cache)
    returns (r: Outcome)
    requires Inside(m, data) && m.nd > 0 && Placed(m) && Clean(Digits(m, data), m.nz1, m.y) && cache.Valid()
    requires Rounds(nearest) && Kept(w0, w1, scale)
    requires Starting(UnscaledWords(w0, w1, scale), Taken(Digits(m, data), e), scale)
    modifies cache.Repr
    ensures cache.Valid() && fresh(cache.Repr - old(cache.Repr))
    ensures var c := Digits(m, data); Answers(r, scale, DecimalValue(DigitsVal(c), e), Misjudged(m, c, e))
  {
    hide Pow, RPow, Value, Bigint.Val, DoubleValue, DecimalValue, DigitsVal, Cache.Valid, Cache.Node, Head;
    hide Cut, Flawed, Vanished, Digits, NextPlace, Correct, Answers, Laid, Taken, Unscaled, HalfGapUp, Starting;
    hide Clean, Placed, Inside;
    ghost var c := Digits(m, data);
    CountedLength(m, data);
    var bd0, nd, e1 := Gather(data, m, e);
    if m.nd - m.nz1 > nd {
      r := CorrectCut(bd0, e1, w0, w1, scale, data, m, e, nearest, cache, Taken(c, e), RPow(10, e + m.nd - 18));
    } else {
      r := CorrectWhole(bd0, e1, w0, w1, scale, shl32, m.nd - m.nz1 == nd, nearest, cache);
      WholeAnswers(r, scale, DecimalValue(DigitsVal(c), e));
    }
  }

  lemma WholeTaken(c: seq<char>, e: int)
    ensures |c| <= STRTOD_DIGLIM ==> Taken(c, e) == DecimalValue(DigitsVal(c), e)
  {
  }

  lemma WholeAnswers(r: Outcome, scale: nat, x: real)
    requires Correct(r, x, 0, scale) && !r.Refine?
    ensures Answers(r, scale, x, false)
  {
    hide ReadsAs, RPow, DoubleValue, Unscaled;
  }

  lemma LaidOut(m: Mantissa, data: Bytes)
    requires Inside(m, data) && m.nd > 0 && Placed(m) && Clean(Digits(m, data), m.nz1, m.y)
    ensures Laid(data[m.s0..], m.nd, m.nd0, m.dp1, m.dplen)
            && Digits(m, data) == Counted(data[m.s0..], m.nd, m.nd0, m.nd0 + m.dplen)
  {
    hide Head;
  }

  lemma TakenDigits(m: Mantissa, data: Bytes, nd: nat, nd0: nat)
    requires Inside(m, data) && Clean(Digits(m, data), m.nz1, m.y) && 1 <= nd <= m.nd && nd0 == Min(m.nd0, nd)
    ensures |Digits(m, data)| == m.nd
    ensures var s0, c := data[m.s0..], Digits(m, data);
            && nd0 <= |s0| && (nd > nd0 ==> nd0 + m.dplen + (nd - nd0) <= |s0|)
            && Counted(s0, nd, nd0, nd0 + m.dplen) == c[..nd] && AllDigits(c[..nd]) && DigitsVal(c[..nd]) > 0
            && (nd == m.nd ==> c[..nd] == c)
  {
    hide Head, DigitsVal, Counted;
    CountedLength(m, data);
    PrefixCounted(data[m.s0..], m.nd, m.nd0, m.dplen, nd);
    PrefixPositive(Digits(m, data), nd);
  }

  lemma PrefixPositive(c: seq<char>, k: nat)
    requires 1 <= k <= |c| && AllDigits(c) && c[0] != '0'
    ensures AllDigits(c[..k]) && DigitsVal(c[..k]) > 0 && (k == |c| ==> c[..k] == c)
  {
    hide DigitsVal;
    NonzeroTail(c[..k], 0);
  }
}
