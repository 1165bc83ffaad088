/** The free-format (mode 0 and 1) digit loop of dtoa over its four big numbers. */
module FreeDigits {
  import opened Arith
  import opened Words
  import opened Bignum
  import opened Division
  import opened Decimal
  import opened DigitBuffer
  import opened FreeTheory

  ghost predicate Separate(a: Bigint, b: Bigint) {
    a != b && a.x != b.x
  }

  /** S leaves four zero bits at its top, as dshift arranges. */
  ghost predicate Aligned(S: Bigint)
    reads S`wds, S.x
  {
    S.Valid() && S.wds >= 1 && 0x800_0000 <= S.x[S.wds - 1] < 0x1000_0000
  }

  /** The zero test of the digit loops, !b->x[0] && b->wds <= 1. */
  lemma ZeroTest(b: Bigint)
    requires b.Valid()
    ensures b.x[0] == 0 && b.wds <= 1 <==> b.Val() == 0
  {
    if b.Val() > 0 {
      TopWord(b);
    } else if b.wds >= 1 {
      ValueTop(b.x[..b.wds]);
      PowPos(BASE, b.wds - 1);
      if b.x[b.wds - 1] > 0 { MulPos(b.x[b.wds - 1], Pow(BASE, b.wds - 1)); }
    }
  }

  /** A dividend below 16 S is no longer than an aligned S. */
  lemma NoLonger(b: Bigint, S: Bigint)
    requires b.Valid() && Aligned(S) && b.Val() < 16 * S.Val()
    ensures b.wds <= S.wds
  {
    hide Value, Pow;
    if b.wds > S.wds {
      var n := S.wds;
      ValueTop(S.x[..n]);
      ValueTop(b.x[..b.wds]);
      PowMono(BASE, n, b.wds - 1);
      PowPos(BASE, b.wds - 1);
      PowSnoc(n - 1);
      TooLong(b.Val(), S.Val(), b.x[b.wds - 1], S.x[n - 1], Pow(BASE, b.wds - 1), Pow(BASE, n), Pow(BASE, n - 1));
      assert false;
    }
  }

  lemma PowSnoc(n: nat)
    ensures Pow(BASE, n + 1) == BASE * Pow(BASE, n)
  {
  }

  lemma TooLong(b: nat, s: nat, tb: nat, t: nat, pb: nat, pn: nat, p: nat)
    requires tb * pb <= b && tb > 0 && pb >= pn && pn == BASE * p
    requires s < (t + 1) * p && t < 0x1000_0000
    ensures b >= 16 * s
  {
    MulMono(pb, 1, tb);
    MulMono(p, t + 1, 0x1000_0000);
  }

  /** The two comparisons of a step: b with mlo, and b with S - mhi. */
  method Compare(b: Bigint, S: Bigint, mlo: Bigint, mhi: Bigint) returns (j: int, j1: int)
    requires b.Valid() && S.Valid() && mlo.Valid() && mhi.Valid()
    requires S.Val() > 0 && mlo.Val() > 0 && mhi.Val() > 0
    ensures j < 0 <==> b.Val() < mlo.Val()
    ensures j > 0 <==> b.Val() > mlo.Val()
    ensures j1 > 0 <==> b.Val() + mhi.Val() > S.Val()
    ensures j1 == 0 ==> b.Val() + mhi.Val() == S.Val()
    ensures b.Val() > 0 && j1 < 0 ==> b.Val() + mhi.Val() < S.Val()
  {
    TopWord(S); TopWord(mlo); TopWord(mhi);
    EmptyIsZero(b);
    hide Value, Pow;
    ghost var vb, vS, vhi := b.Val(), S.Val(), mhi.Val();
    j := Cmp(b, mlo);
    var delta := Diff(S, mhi);
    assert b.Val() == vb;
    if delta.sign {
      j1 := 1;
    } else {
      j1 := Cmp(b, delta);
    }
  }

  /** Is 2 b above S, or equal to it with an odd digit? */
  method HalfUp(b: Bigint, S: Bigint, dig: nat) returns (up: bool)
    requires b.Valid() && S.Valid() && b.Val() > 0 && S.Val() > 0
    ensures up <==> 2 * b.Val() > S.Val() || (2 * b.Val() == S.Val() && dig % 2 == 1)
  {
    TopWord(S);
    assert Pow(2, 1) == 2;
    hide Value, Pow;
    ghost var vS := S.Val();
    var b2 := LShift(b, 1);
    assert S.Val() == vS;
    var j1 := Cmp(b2, S);
    return j1 > 0 || (j1 == 0 && dig % 2 == 1);
  }

  /** The tests that choose between stopping with dig, stopping with dig + 1, and going on. */
  method Decide(b: Bigint, S: Bigint, mlo: Bigint, mhi: Bigint, dig: nat, closed: bool) returns (c: Choice)
    requires b.Valid() && S.Valid() && mlo.Valid() && mhi.Valid()
    requires b.Val() < S.Val() && 0 < mlo.Val() <= mhi.Val()
    ensures Sound(c, b.Val(), S.Val(), mlo.Val(), mhi.Val(), closed, dig)
  {
    hide Value, Pow;
    ZeroTest(b);
    ghost var vb, vS, vlo, vhi := b.Val(), S.Val(), mlo.Val(), mhi.Val();
    hide Bigint.Val;
    var j, j1 := Compare(b, S, mlo, mhi);
    if j1 == 0 && closed {
      if dig == 9 { return Up; }
      return if j > 0 then Up else Keep;
    }
    if j < 0 || (j == 0 && closed) {
      if b.x[0] == 0 && b.wds <= 1 { return Keep; }
      if j1 > 0 {
        var up := HalfUp(b, S, dig);
        if up { return Up; }
      }
      return Keep;
    }
    return if j1 > 0 then Up else Next;
  }

  /** One digit: q = b / S is a decimal digit and b becomes the remainder. */
  method NextDigit(b: Bigint, S: Bigint) returns (q: Word)
    requires b.Valid() && Aligned(S) && Separate(b, S) && b.Val() < 10 * S.Val()
    modifies b, b.x
    ensures b.Valid() && q <= 9 && b.Val() < S.Val()
    ensures old(b.Val()) == q * S.Val() + b.Val()
  {
    NoLonger(b, S);
    hide Value, Pow;
    ghost var v, s := b.Val(), S.Val();
    q := QuoRem(b, S);
    DigitRange(v, s);
  }

  lemma DigitRange(v: nat, s: nat)
    requires s > 0 && v < 10 * s
    ensures v / s <= 9 && v % s < s && v == (v / s) * s + v % s
  {
    var q := v / s;
    if q >= 10 { MulMono(s, 10, q); }
  }

  /** b, mlo and mhi times ten; mlo and mhi stay one number if they were one. */
  method TimesTen(b0: Bigint, mlo0: Bigint, mhi0: Bigint) returns (b: Bigint, mlo: Bigint, mhi: Bigint)
    requires b0.Valid() && mlo0.Valid() && mhi0.Valid()
    requires Separate(b0, mlo0) && Separate(b0, mhi0) && (mlo0 == mhi0 || Separate(mlo0, mhi0))
    modifies b0, b0.x, mlo0, mlo0.x, mhi0, mhi0.x
    ensures b.Valid() && mlo.Valid() && mhi.Valid()
    ensures b.Val() == 10 * old(b0.Val())
    ensures mlo.Val() == 10 * old(mlo0.Val()) && mhi.Val() == 10 * old(mhi0.Val())
    ensures Separate(b, mlo) && Separate(b, mhi) && (mlo == mhi || Separate(mlo, mhi))
    ensures b == b0 || (fresh(b) && fresh(b.x))
    ensures mlo == mlo0 || (fresh(mlo) && fresh(mlo.x))
    ensures mhi == mhi0 || (fresh(mhi) && fresh(mhi.x))
  {
    hide Value, Pow;
    b := MultAdd(b0, 10, 0);
    if mlo0 == mhi0 {
      mhi := MultAdd(mhi0, 10, 0);
      mlo := mhi;
    } else {
      mlo := MultAdd(mlo0, 10, 0);
      mhi := MultAdd(mhi0, 10, 0);
    }
  }

  /** After i - 1 digits: b / S is ten times what the digits so far leave of v, on the grid 10^-(i-2). */
  ghost predicate Progress(v: Interval, digits: seq<char>, i: nat, b: nat, lo: nat, hi: nat) {
    && i == |digits| + 1
    && AllDigits(digits)
    && (i >= 2 ==> digits[0] != '0')
    && v.b * Pow(10, i - 1) == 10 * DigitsVal(digits) * v.S + b && b < 10 * v.S
    && lo == v.lo * Pow(10, i - 1) && hi == v.hi * Pow(10, i - 1)
    && (i == 1 ==> v.S <= b)
    && (i >= 2 ==> b % 10 == 0 && Beyond(b / 10, v.S, v.lo * Pow(10, i - 2), v.hi * Pow(10, i - 2), v.closed))
    && (i >= 2 ==> forall r: int {:trigger v.Has(r, Pow(10, i - 2))} :: !v.Has(r, Pow(10, i - 2)))
  }

  /** What the finished digits satisfy, k0 being the exponent of the unit of v and k that of the first digit. */
  ghost predicate Shortest(v: Interval, digits: seq<char>, k0: int, k: int) {
    && digits != [] && AllDigits(digits) && digits[0] != '0' && digits[|digits| - 1] != '0'
    && |digits| <= 17
    && (k == k0 || (k == k0 + 1 && digits == "1"))
    && (var r, t := DigitsVal(digits) * Pow(10, k - k0), Pow(10, |digits| - 1);
        && v.Has(r, t)
        && (v.Closest(r, t) || (k == k0 + 1 && v.closed && 10 * v.S - v.b == v.hi)))
    && (forall N: nat, f: int {:trigger v.HasDecimal(N, f)} :: N < Pow(10, |digits| - 1) ==> !v.HasDecimal(N, f))
  }

  /** A digit appended: the value so far on the grid 10^-(i-1), with remainder rem. */
  lemma Appended(v: Interval, digits: seq<char>, i: nat, b: nat, lo: nat, hi: nat, c: char, rem: nat)
    requires Progress(v, digits, i, b, lo, hi) && v.Proper()
    requires IsDigit(c) && b == DigitOf(c) * v.S + rem && rem < v.S
    ensures AllDigits(digits + [c]) && (digits + [c])[0] != '0'
    ensures v.b * Pow(10, i - 1) == DigitsVal(digits + [c]) * v.S + rem
  {
    var d := digits + [c];
    assert d[..i - 1] == digits;
    DigitsSnoc(d, i - 1);
    assert d[..i] == d;
    hide Pow, DigitsVal;
    if i == 1 { LeadDigit(b, DigitOf(c), v.S, rem); }
    AddDigit(DigitsVal(digits), DigitOf(c), v.S);
  }

  lemma LeadDigit(b: int, q: int, S: int, rem: int)
    requires b == q * S + rem && rem < S <= b
    ensures q != 0
  {
  }

  lemma AddDigit(D: int, d: int, S: int)
    ensures (10 * D + d) * S == 10 * D * S + d * S
  {
  }

  /** Going on: the loop is in step again after everything is multiplied by ten, before the 18th digit. */
  lemma GoOn(v: Interval, d: seq<char>, i: nat, rem: nat)
    requires v.Proper() && v.b <= 0x20_0000_0000_0000 * (v.lo + v.hi)
    requires i == |d| && 1 <= i <= 17 && AllDigits(d) && d[0] != '0'
    requires v.b * Pow(10, i - 1) == DigitsVal(d) * v.S + rem && rem < v.S
    requires Beyond(rem, v.S, v.lo * Pow(10, i - 1), v.hi * Pow(10, i - 1), v.closed)
    ensures i < 17 && Progress(v, d, i + 1, 10 * rem, 10 * (v.lo * Pow(10, i - 1)), 10 * (v.hi * Pow(10, i - 1)))
  {
    var t := Pow(10, i - 1);
    PowPos(10, i - 1);
    SumTimes(v.lo, v.hi, t);
    AtMost17(v, i, t);
    assert Pow(10, i) == 10 * t;
    hide Pow, DigitsVal;
    forall r: int ensures !v.Has(r, t) {
      NoneOnGrid(v, t, DigitsVal(d), rem, r);
    }
    TenDivides(rem);
    GoOnArith(v.b, t, DigitsVal(d), v.S, rem, v.lo, v.hi);
  }

  lemma TenDivides(n: nat)
    ensures 10 * n % 10 == 0 && 10 * n / 10 == n
  {
    DivModUnique(10 * n, 10, n, 0);
  }

  lemma SumTimes(a: int, b: int, t: int)
    ensures (a + b) * t == a * t + b * t
  {
  }

  lemma GoOnArith(b: int, t: int, D: int, S: int, rem: int, lo: int, hi: int)
    requires b * t == D * S + rem
    ensures b * (10 * t) == 10 * D * S + 10 * rem
    ensures lo * (10 * t) == 10 * (lo * t) && hi * (10 * t) == 10 * (hi * t)
  {
    Rotate(b, 10, t);
    Rotate(lo, 10, t);
    Rotate(hi, 10, t);
  }

  /** The interval is at least 2^-53 of the value wide, so a 17-digit grid always has a point in it. */
  lemma AtMost17(v: Interval, i: nat, t: nat)
    requires v.Proper() && v.b <= 0x20_0000_0000_0000 * (v.lo + v.hi)
    requires 1 <= i <= 17 && t == Pow(10, i - 1)
    requires (v.lo + v.hi) * t <= v.S
    ensures i < 17
  {
    if i == 17 {
      assert Pow(10, 2) == 100 && Pow(10, 4) == 10000;
      PowAdd(10, 4, 4);
      PowAdd(10, 8, 8);
      MulMono(v.lo + v.hi, 0x20_0000_0000_0001, t);
      assert false;
    }
  }

  /** Stopping at digit i with a point of the interval makes the digits shortest. */
  lemma Stopped(v: Interval, digits: seq<char>, i: nat, b: nat, lo: nat, hi: nat, e: char, k0: int)
    requires Progress(v, digits, i, b, lo, hi) && v.Proper() && i <= 17
    requires IsDigit(e) && e != '0'
    requires v.Has(DigitsVal(digits + [e]), Pow(10, i - 1))
    requires v.Closest(DigitsVal(digits + [e]), Pow(10, i - 1))
    ensures Shortest(v, digits + [e], k0, k0)
  {
    var d := digits + [e];
    forall N: nat, f: int | N < Pow(10, |d| - 1) ensures !v.HasDecimal(N, f) {
      NoShorter(v, i, N, f);
    }
    assert DigitsVal(d) * Pow(10, 0) == DigitsVal(d);
  }

  /** The one digit 9 rounded up to 10. */
  lemma StoppedAtTen(v: Interval, k0: int)
    requires v.Proper() && v.Has(10, 1)
    requires v.Closest(10, 1) || (v.closed && 10 * v.S - v.b == v.hi)
    ensures Shortest(v, "1", k0, k0 + 1)
  {
    assert DigitsVal("1") == 1 by { assert "1"[..0] == []; }
    assert Pow(10, 0) == 1 && Pow(10, 1) == 10;
    assert (k0 + 1) - k0 == 1;
    assert DigitsVal("1") * Pow(10, 1) == 10;
    forall N: nat, f: int | N < Pow(10, 0) ensures !v.HasDecimal(N, f) {
      NoShorter(v, 1, N, f);
    }
  }

  /** The grid point that a stopping choice picks. */
  lemma Picked(v: Interval, digits: seq<char>, i: nat, b: nat, lo: nat, hi: nat, q: nat, rem: nat, c: Choice)
    requires Progress(v, digits, i, b, lo, hi) && v.Proper() && i <= 17 && q <= 9
    requires b == q * v.S + rem && rem < v.S
    requires c != Next && Sound(c, rem, v.S, lo, hi, v.closed, q)
    ensures var t, r := Pow(10, i - 1), 10 * DigitsVal(digits) + (if c == Keep then q else q + 1);
            v.Has(r, t) && (v.Closest(r, t) || (c == Up && q == 9 && v.closed && r * v.S - v.b * t == v.hi * t))
  {
    hide Pow, DigitsVal, Interval.Has, Interval.Closest;
    PowPos(10, i - 1);
    Appended(v, digits, i, b, lo, hi, DigitChar(q), rem);
    LastDigit(digits, q, i);
    SoundResult(v, Pow(10, i - 1), DigitsVal(digits + [DigitChar(q)]), rem, c, q);
  }

  lemma FinishBelowTen(v: Interval, digits: seq<char>, i: nat, b: nat, lo: nat, hi: nat, q: nat, rem: nat, c: Choice,
      k0: int)
    requires Progress(v, digits, i, b, lo, hi) && v.Proper() && i <= 17 && q <= 9
    requires b == q * v.S + rem && rem < v.S
    requires c != Next && Sound(c, rem, v.S, lo, hi, v.closed, q) && (c == Up ==> q < 9)
    ensures Shortest(v, digits + [DigitChar(if c == Keep then q else q + 1)], k0, k0)
  {
    hide Pow, DigitsVal, Progress, Interval.Has, Interval.Closest, Interval.HasDecimal, Shortest;
    var p := if c == Keep then q else q + 1;
    if c == Keep { KeptNonzero(v, digits, i, b, lo, hi, q, rem); }
    Picked(v, digits, i, b, lo, hi, q, rem, c);
    Places(v, digits, i, b, lo, hi);
    LastDigit(digits, p, i);
    Stopped(v, digits, i, b, lo, hi, DigitChar(p), k0);
  }

  lemma Places(v: Interval, digits: seq<char>, i: nat, b: nat, lo: nat, hi: nat)
    requires Progress(v, digits, i, b, lo, hi)
    ensures i == |digits| + 1
  {
  }

  lemma FinishTen(v: Interval, digits: seq<char>, i: nat, b: nat, lo: nat, hi: nat, rem: nat, k0: int)
    requires Progress(v, digits, i, b, lo, hi) && v.Proper() && i <= 17
    requires b == 9 * v.S + rem && rem < v.S && Sound(Up, rem, v.S, lo, hi, v.closed, 9)
    ensures digits == [] && Shortest(v, "1", k0, k0 + 1)
  {
    hide Pow, DigitsVal, Progress, Interval.Has, Interval.Closest, Shortest;
    Picked(v, digits, i, b, lo, hi, 9, rem, Up);
    OnlyFirst(v, digits, i, b, lo, hi, rem, Up);
    PowUnit(10);
    NoDigitsVal();
    StoppedAtTen(v, k0);
  }

  lemma NoDigitsVal()
    ensures DigitsVal([]) == 0 && Pow(10, 0) == 1
  {
  }

  /** The decimal a stopping choice leaves, for digit q and remainder rem. */
  lemma Finish(v: Interval, digits: seq<char>, i: nat, b: nat, lo: nat, hi: nat, q: nat, rem: nat, c: Choice, k0: int)
    requires Progress(v, digits, i, b, lo, hi) && v.Proper() && i <= 17 && q <= 9
    requires b == q * v.S + rem && rem < v.S
    requires c != Next && Sound(c, rem, v.S, lo, hi, v.closed, q)
    ensures c == Keep ==> Shortest(v, digits + [DigitChar(q)], k0, k0)
    ensures c == Up && q < 9 ==> Shortest(v, digits + [DigitChar(q + 1)], k0, k0)
    ensures c == Up && q == 9 ==> digits == [] && Shortest(v, "1", k0, k0 + 1)
  {
    hide Pow, DigitsVal, Progress, Sound, Interval.Has, Interval.Closest, Interval.HasDecimal, Shortest;
    if c == Up && q == 9 {
      FinishTen(v, digits, i, b, lo, hi, rem, k0);
    } else {
      FinishBelowTen(v, digits, i, b, lo, hi, q, rem, c, k0);
    }
  }

  lemma LastDigit(digits: seq<char>, q: nat, i: nat)
    requires q <= 9 && i == |digits| + 1
    ensures DigitsVal(digits + [DigitChar(q)]) == 10 * DigitsVal(digits) + q
  {
    var d := digits + [DigitChar(q)];
    DigitsSnoc(d, i - 1);
    assert d[..i - 1] == digits && d[..i] == d;
  }

  /** A kept digit is not zero: otherwise the previous step would have stopped. */
  lemma KeptNonzero(v: Interval, digits: seq<char>, i: nat, b: nat, lo: nat, hi: nat, q: nat, rem: nat)
    requires Progress(v, digits, i, b, lo, hi) && v.Proper() && q <= 9
    requires b == q * v.S + rem && rem < v.S && Sound(Keep, rem, v.S, lo, hi, v.closed, q)
    ensures DigitChar(q) != '0'
  {
    if q == 0 {
      assert b == rem;
      if i >= 2 {
        ScalePrevious(v, i);
        assert false;
      }
      assert false;
    }
  }

  lemma ScalePrevious(v: Interval, i: nat)
    requires i >= 2
    ensures v.lo * Pow(10, i - 1) == 10 * (v.lo * Pow(10, i - 2))
    ensures v.hi * Pow(10, i - 1) == 10 * (v.hi * Pow(10, i - 2))
  {
    Rotate(v.lo, 10, Pow(10, i - 2));
    Rotate(v.hi, 10, Pow(10, i - 2));
  }

  /** A 9 is rounded up only as the first digit. */
  lemma OnlyFirst(v: Interval, digits: seq<char>, i: nat, b: nat, lo: nat, hi: nat, rem: nat, c: Choice)
    requires Progress(v, digits, i, b, lo, hi) && v.Proper()
    requires b == 9 * v.S + rem && rem < v.S && c == Up && Sound(c, rem, v.S, lo, hi, v.closed, 9)
    ensures i == 1 && digits == []
  {
    if i >= 2 {
      ScalePrevious(v, i);
      NoNine(rem, v.S, v.lo * Pow(10, i - 2), v.hi * Pow(10, i - 2), v.closed, c, b / 10);
      assert false;
    }
  }

  /** Storing the last digit, or rounding a final '9' up through roundoff. */
  method Store(s: array<char>, i: nat, q: nat, c: Choice, k0: int, ghost v: Interval, ghost b: nat, ghost lo: nat,
      ghost hi: nat, ghost rem: nat)
    returns (n: nat, k: int)
    requires 1 <= i <= 17 && i < s.Length && q <= 9 && c != Next
    requires Progress(v, s[..i - 1], i, b, lo, hi) && v.Proper()
    requires b == q * v.S + rem && rem < v.S && Sound(c, rem, v.S, lo, hi, v.closed, q)
    modifies s
    ensures n <= 17 && n < s.Length && Shortest(v, s[..n], k0, k)
  {
    ghost var digits := s[..i - 1];
    Finish(v, digits, i, b, lo, hi, q, rem, c, k0);
    k := k0;
    if c == Up && q == 9 {
      s[i - 1] := '9';
      assert s[..1] == ['9'];
      var carry;
      n, carry := RoundOff(s, i);
      NineIsAll();
      assert s[..n] == "1";
      k := k + 1;
    } else {
      s[i - 1] := DigitChar(if c == Up then q + 1 else q);
      n := i;
      assert s[..n] == digits + [s[i - 1]];
    }
  }

  lemma NineIsAll()
    ensures DigitsVal(['9']) + 1 == Pow(10, 1)
  {
    DigitsNines(['9']);
  }

  /** The four big numbers of the loop: valid, S aligned, no storage shared except that mlo may be mhi. */
  ghost predicate Numbers(b: Bigint, S: Bigint, mlo: Bigint, mhi: Bigint)
    reads b`wds, b.x, S`wds, S.x, mlo`wds, mlo.x, mhi`wds, mhi.x
  {
    && b.Valid() && Aligned(S) && mlo.Valid() && mhi.Valid() && mlo.Val() <= mhi.Val()
    && Separate(b, S) && Separate(mlo, S) && Separate(mhi, S)
    && Separate(b, mlo) && Separate(b, mhi) && (mlo == mhi || Separate(mlo, mhi))
  }

  lemma TurnFacts(v: Interval, digits: seq<char>, i: nat, b: nat, lo: nat, hi: nat)
    requires Progress(v, digits, i, b, lo, hi) && v.Proper() && i >= 1
    ensures i == |digits| + 1 && b < 10 * v.S
    ensures lo == v.lo * Pow(10, i - 1) > 0 && hi == v.hi * Pow(10, i - 1)
  {
    hide Pow, DigitsVal;
    PositiveGaps(v, i);
  }

  /** One turn of the digit loop: emit a digit and stop, or emit it and multiply by ten. */
  method Turn(b0: Bigint, S: Bigint, mlo0: Bigint, mhi0: Bigint, closed: bool, i: nat, k0: int, s: array<char>,
      ghost v: Interval)
    returns (done: bool, n: nat, k: int, b: Bigint, mlo: Bigint, mhi: Bigint)
    requires Numbers(b0, S, mlo0, mhi0) && S.Val() == v.S && closed == v.closed
    requires 1 <= i <= 17 && s.Length >= 18
    requires v.Proper() && v.b <= 0x20_0000_0000_0000 * (v.lo + v.hi)
    requires Progress(v, s[..i - 1], i, b0.Val(), mlo0.Val(), mhi0.Val())
    modifies b0, b0.x, mlo0, mlo0.x, mhi0, mhi0.x, s
    ensures done ==> n <= 17 && Shortest(v, s[..n], k0, k)
    ensures !done ==> i < 17 && Numbers(b, S, mlo, mhi) && Progress(v, s[..i], i + 1, b.Val(), mlo.Val(), mhi.Val())
    ensures b == b0 || (fresh(b) && fresh(b.x))
    ensures mlo == mlo0 || (fresh(mlo) && fresh(mlo.x))
    ensures mhi == mhi0 || (fresh(mhi) && fresh(mhi.x))
  {
    hide Value, Pow, Bigint.Val, DigitsVal, Progress, Shortest, AllDigits;
    b, mlo, mhi := b0, mlo0, mhi0;
    n, k, done := 0, k0, false;
    ghost var digits, vb, lo, hi := s[..i - 1], b0.Val(), mlo0.Val(), mhi0.Val();
    TurnFacts(v, digits, i, vb, lo, hi);
    var q := NextDigit(b0, S);
    ghost var rem := b0.Val();
    var c := Decide(b0, S, mlo0, mhi0, q, closed);
    if c != Next {
      n, k := Store(s, i, q, c, k0, v, vb, lo, hi, rem);
      done := true;
      return;
    }
    Appended(v, digits, i, vb, lo, hi, DigitChar(q), rem);
    s[i - 1] := DigitChar(q);
    assert s[..i] == digits + [DigitChar(q)];
    GoOn(v, s[..i], i, rem);
    b, mlo, mhi := TimesTen(b0, mlo0, mhi0);
  }

  /**
   The loop of dtoa for modes 0 and 1: from S <= b < 10 S and the half gaps mlo, mhi, the
   digits in s are the shortest decimal in the rounding interval. closed says whether the
   interval includes its ends (mode 0, even significand).
   */
  method FreeFormat(b0: Bigint, S: Bigint, mlo0: Bigint, mhi0: Bigint, closed: bool, k0: int, s: array<char>)
    returns (n: nat, k: int)
    requires Numbers(b0, S, mlo0, mhi0) && s.Length >= 18
    requires var v := Interval(b0.Val(), S.Val(), mlo0.Val(), mhi0.Val(), closed);
             v.Proper() && v.b <= 0x20_0000_0000_0000 * (v.lo + v.hi)
    modifies b0, b0.x, mlo0, mlo0.x, mhi0, mhi0.x, s
    ensures n <= 17 && Shortest(old(Interval(b0.Val(), S.Val(), mlo0.Val(), mhi0.Val(), closed)), s[..n], k0, k)
  {
    ghost var v := Interval(b0.Val(), S.Val(), mlo0.Val(), mhi0.Val(), closed);
    var b, mlo, mhi := b0, mlo0, mhi0;
    var i := 1;
    assert s[..0] == [] && Pow(10, 0) == 1 && DigitsVal([]) == 0;
    assert Progress(v, s[..0], 1, b.Val(), mlo.Val(), mhi.Val());
    hide Value, Pow, Bigint.Val, DigitsVal;
    while true
      invariant 1 <= i <= 17
      invariant Numbers(b, S, mlo, mhi) && S.Val() == v.S
      invariant b == b0 || (fresh(b) && fresh(b.x))
      invariant mlo == mlo0 || (fresh(mlo) && fresh(mlo.x))
      invariant mhi == mhi0 || (fresh(mhi) && fresh(mhi.x))
      invariant Progress(v, s[..i - 1], i, b.Val(), mlo.Val(), mhi.Val())
      decreases 17 - i
    {
      var done;
      done, n, k, b, mlo, mhi := Turn(b, S, mlo, mhi, closed, i, k0, s, v);
      if done {
        return;
      }
      i := i + 1;
    }
  }

  lemma PositiveGaps(v: Interval, i: nat)
    requires v.Proper() && i >= 1
    ensures v.lo * Pow(10, i - 1) > 0 && v.hi * Pow(10, i - 1) > 0
  {
    PowPos(10, i - 1);
    MulPos(v.lo, Pow(10, i - 1));
    MulPos(v.hi, Pow(10, i - 1));
  }
}
