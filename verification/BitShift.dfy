/** The right-hand side of the Bigint kernel: increment, rshift and any_on. */
module BitShift {
  import opened Arith
  import opened Words
  import opened Bignum

  // ----- increment -----

  lemma {:induction false} OnesValue(s: seq<Word>)
    requires forall i :: 0 <= i < |s| ==> s[i] == BASE - 1
    ensures Value(s) == Pow(BASE, |s|) - 1
  {
    if s != [] {
      OnesValue(s[..|s| - 1]);
      LastOnes(Pow(BASE, |s| - 1));
    }
  }

  lemma LastOnes(p: int)
    ensures p - 1 + (BASE - 1) * p == BASE * p - 1
  {
  }

  /** All ones up to word i become zeros, and word i takes the carry. */
  lemma CarryInto(s: seq<Word>, t: seq<Word>, i: nat)
    requires |s| == |t| && i < |s| && s[i] < BASE - 1
    requires (forall j :: 0 <= j < i ==> s[j] == BASE - 1 && t[j] == 0) && t[i] == s[i] + 1 && t[i + 1..] == s[i + 1..]
    ensures Value(t) == Value(s) + 1
  {
    hide Pow, Value;
    assert s == s[..i + 1] + s[i + 1..] && t == t[..i + 1] + t[i + 1..];
    ValueConcat(s[..i + 1], s[i + 1..]);
    ValueConcat(t[..i + 1], t[i + 1..]);
    ValueSnoc(s, i);
    ValueSnoc(t, i);
    OnesValue(s[..i]);
    ValueZeros(t[..i]);
    NextTimes(s[i], Pow(BASE, i));
  }

  /** increment: b + 1, in place unless every word in use is all ones and the array is full. */
  method Increment(b: Bigint) returns (r: Bigint)
    requires b.Valid() && b.wds >= 1
    modifies b, b.x
    ensures r == b || (fresh(r) && fresh(r.x))
    ensures r.Valid() && r.Val() == old(b.Val()) + 1 && r.sign == old(b.sign)
    ensures r.wds == old(b.wds) || r.wds == old(b.wds) + 1
  {
    hide Value, Pow;
    ghost var s := b.x[..b.wds];
    var i := 0;
    while i < b.wds
      invariant 0 <= i <= b.wds
      invariant forall j :: 0 <= j < i ==> s[j] == BASE - 1
      invariant forall j :: 0 <= j < i ==> b.x[j] == 0
      invariant b.x[i..b.wds] == s[i..]
      modifies b.x
    {
      assert b.x[i] == s[i..][0];
      if b.x[i] < 0xffff_ffff {
        b.x[i] := b.x[i] + 1;
        CarryInto(s, b.x[..b.wds], i);
        return b;
      }
      b.x[i] := 0;
      i := i + 1;
    }
    OnesValue(s);
    ValueZeros(b.x[..b.wds]);
    r := Append(b, 1);
  }

  /** The bits from position k up. */
  function High(v: nat, k: nat): nat {
    PowPos(2, k);
    DivShrinks(v, Pow(2, k));
    v / Pow(2, k)
  }

  // ----- words below and above a bit position -----

  /** v = s split at bit 32 n + k: the word n gives its low k bits to the remainder. */
  lemma SplitAt(s: seq<Word>, n: nat, k: nat, q: nat)
    requires n < |s| && k < 32 && Value(s[n..]) == q * Pow(2, k) + Low(s[n], k)
    ensures High(Value(s), 32 * n + k) == q
    ensures Low(Value(s), 32 * n + k) == Value(s[..n]) + Pow(BASE, n) * Low(s[n], k) < Pow(2, 32 * n + k)
  {
    hide Value, Pow;
    assert s == s[..n] + s[n..];
    ValueConcat(s[..n], s[n..]);
    ValueBound(s[..n]);
    PowBase(n);
    PowAdd(2, 32 * n, k);
    PowPos(2, k);
    SplitArith(Value(s), Value(s[..n]), Pow(BASE, n), q, Pow(2, k), Low(s[n], k));
  }

  lemma SplitArith(v: nat, lo: nat, p: nat, q: nat, t: nat, low: nat)
    requires v == lo + p * (q * t + low) && lo < p && low < t
    ensures p * t > 0 && v / (p * t) == q && v % (p * t) == lo + p * low < p * t
  {
    MulMono(p, low + 1, t);
    MulComm(p, low + 1); MulComm(p, t); MulComm(p, low);
    assert (low + 1) * p == low * p + p;
    assert p * (q * t + low) == q * (p * t) + p * low;
    DivModUnique(v, p * t, q, lo + p * low);
  }

  /** The low bits of a number are those of its first word. */
  lemma LowOfValue(s: seq<Word>, k: nat) returns (q: nat)
    requires s != [] && k < 32
    ensures Value(s) == q * Pow(2, k) + Low(s[0], k)
    ensures q % 2 == High(s[0], k) % 2
  {
    hide Value, Pow;
    ValueHead(s);
    PowPos(2, k);
    Pow32Split(k);
    PowStep(2, 32 - k - 1);
    q := High(s[0], k) + Value(s[1..]) * Pow(2, 32 - k);
    LowArith(s[0], Value(s[1..]), Pow(2, k), Pow(2, 32 - k), Pow(2, 32 - k - 1));
  }

  lemma LowArith(w: nat, rest: nat, p: nat, q: nat, h: nat)
    requires p > 0 && p * q == BASE && q == 2 * h
    ensures w + BASE * rest == (w / p + rest * q) * p + w % p
    ensures (w / p + rest * q) % 2 == w / p % 2
  {
    assert w == w / p * p + w % p;
    assert (rest * q) * p == rest * (p * q);
    assert (w / p + rest * q) * p == w / p * p + (rest * q) * p;
    assert rest * q == 2 * (rest * h);
    EvenAdds(w / p, rest * h);
  }

  lemma EvenAdds(a: int, b: int)
    ensures (a + 2 * b) % 2 == a % 2
  {
  }

  /** x[k >> 5] & 1 << (k & 31): bit k of the number. */
  method BitAt(b: Bigint, k: nat) returns (on: bool)
    requires b.Valid() && k / 32 < b.wds
    ensures on <==> High(b.Val(), k) % 2 == 1
  {
    hide Value, Pow;
    ghost var s := b.x[..b.wds];
    PowPos(2, k % 32);
    ghost var q := LowOfValue(s[k / 32..], k % 32);
    SplitAt(s, k / 32, k % 32, q);
    assert 32 * (k / 32) + k % 32 == k;
    on := Shr(b.x[k / 32], k % 32) % 2 == 1;
  }

  // ----- any_on -----

  /** any_on: is any of the low k bits set? */
  method AnyOn(b: Bigint, k0: nat) returns (on: bool)
    requires b.Valid()
    ensures on <==> Low(b.Val(), k0) != 0
  {
    hide Value, Pow;
    var k := k0;
    var nwds := b.wds;
    var n := k / 32;
    ghost var s := b.x[..b.wds];
    AnySplit(s, k);
    if n > nwds {
      n := nwds;
    } else if n < nwds && k % 32 != 0 {
      k := k % 32;
      PowPos(2, k);
      var x2 := b.x[n];
      var x1 := Shl(Shr(x2, k), k);
      ShiftBack(x2, k);
      if x1 != x2 {
        return true;
      }
    }
    var i := n;
    while i > 0
      invariant 0 <= i <= n && forall j :: i <= j < n ==> s[j] == 0
    {
      i := i - 1;
      if b.x[i] != 0 {
        NonzeroValue(s[..n], i);
        return true;
      }
    }
    ValueZeros(s[..n]);
    return false;
  }

  /** Shifting right and back clears the low bits. */
  lemma ShiftBack(w: Word, k: nat)
    requires k < 32
    ensures Shl(Shr(w, k), k) == w - Low(w, k)
  {
    hide Pow;
    PowPos(2, k);
    assert w / Pow(2, k) * Pow(2, k) == w - w % Pow(2, k);
    SmallMod(w - Low(w, k));
  }

  lemma NonzeroValue(s: seq<Word>, i: nat)
    requires i < |s| && s[i] != 0
    ensures Value(s) > 0
  {
    hide Pow;
    assert s == s[..i + 1] + s[i + 1..];
    ValueConcat(s[..i + 1], s[i + 1..]);
    ValueSnoc(s, i);
    PowPos(BASE, i);
    MulPos(s[i], Pow(BASE, i));
    PowPos(BASE, i + 1);
    MulNonNeg(Pow(BASE, i + 1), Value(s[i + 1..]));
  }

  /** The low k bits are zero when the low bits of word k / 32 and all words below it are. */
  lemma AnySplit(s: seq<Word>, k: nat)
    ensures k / 32 < |s| ==>
              (Low(Value(s), k) != 0 <==> Low(s[k / 32], k % 32) != 0 || Value(s[..k / 32]) != 0)
    ensures k / 32 >= |s| ==> Low(Value(s), k) == Value(s)
    ensures k % 32 == 0 && k / 32 < |s| ==> Low(s[k / 32], 0) == 0
    ensures s[..|s|] == s
  {
    hide Value, Pow;
    PowPos(2, k);
    PowUnit(2);
    var n := k / 32;
    assert 32 * n + k % 32 == k;
    if n < |s| {
      var q := LowOfValue(s[n..], k % 32);
      SplitAt(s, n, k % 32, q);
      PowPos(BASE, n);
      if Low(s[n], k % 32) > 0 { MulPos(Pow(BASE, n), Low(s[n], k % 32)); } else { assert Pow(BASE, n) * 0 == 0; }
    } else {
      ValueBound(s);
      PowBase(|s|);
      PowMono(2, 32 * |s|, k);
      DivModUnique(Value(s), Pow(2, k), 0, Value(s));
    }
  }

  // ----- rshift -----

  /** The words o and the bits y above them are the first j + 1 words of a, without their low k bits. */
  ghost predicate Shifted(a: seq<Word>, o: seq<Word>, y: Word, k: nat) {
    && |o| < |a|
    && Value(a[..|o| + 1]) == (Value(o) + y * Pow(BASE, |o|)) * Pow(2, k) + Low(a[0], k)
    && (|o| > 0 && y == 0 && a[|o|] != 0 ==> o[|o| - 1] != 0)
  }

  lemma ShiftedFirst(a: seq<Word>, k: nat)
    requires a != []
    ensures Shifted(a, [], Shr(a[0], k), k)
  {
    ValueNil();
    ValueSnoc(a, 0);
    PowUnit(BASE);
    PowPos(2, k);
    assert a[0] == a[0] / Pow(2, k) * Pow(2, k) + a[0] % Pow(2, k);
  }

  /** A word as its high bits and its low ones, moved up to join y. */
  lemma WordParts(w: Word, y: Word, k: nat)
    requires 0 < k < 32 && y < Pow(2, 32 - k)
    ensures Shl(w, 32 - k) + y < BASE && Or(Shl(w, 32 - k), y) == Shl(w, 32 - k) + y
    ensures Shl(w, 32 - k) == Low(w, k) * Pow(2, 32 - k) && Shr(w, k) < Pow(2, 32 - k)
    ensures w == Shr(w, k) * Pow(2, k) + Low(w, k) && Pow(2, k) * Pow(2, 32 - k) == BASE
  {
    hide Pow;
    OrShl(w, y, 32 - k);
    ShlSplit(w, 32 - k);
    Pow32Split(k);
    PowPos(2, k);
    PowPos(2, 32 - k);
    HighBits(w, Pow(2, k), Pow(2, 32 - k));
  }

  /** One word: its low bits join y, its high bits are carried on. */
  lemma ShiftedNext(a: seq<Word>, o: seq<Word>, y: Word, k: nat)
    requires Shifted(a, o, y, k) && |o| + 1 < |a| && 0 < k < 32 && y < Pow(2, 32 - k)
    ensures var w := a[|o| + 1];
            && Shl(w, 32 - k) + y < BASE && Or(Shl(w, 32 - k), y) == Shl(w, 32 - k) + y
            && Shr(w, k) < Pow(2, 32 - k)
            && Shifted(a, o + [Shl(w, 32 - k) + y], Shr(w, k), k)
  {
    hide Value, Pow, Shl, Shr, Or, Low;
    var j := |o|;
    var w := a[j + 1];
    WordParts(w, y, k);
    PowPos(2, 32 - k);
    ValueSnoc(a, j + 1);
    var oj := Shl(w, 32 - k) + y;
    assert (o + [oj])[..j] == o && (o + [oj])[..j + 1] == o + [oj];
    ValueSnoc(o + [oj], j);
    PowStep(BASE, j);
    ShiftArith(w, Shr(w, k), Low(w, k), y, Value(o), Pow(BASE, j), Pow(2, k), Pow(2, 32 - k));
    if Shr(w, k) == 0 && w != 0 {
      MulPos(Low(w, k), Pow(2, 32 - k));
    }
  }

  lemma HighBits(w: Word, p: nat, q: nat)
    requires p > 0 && q > 0 && p * q == BASE
    ensures w == w / p * p + w % p && w / p < q
  {
    if w / p >= q { MulMono(p, q, w / p); MulComm(p, q); }
  }

  lemma ShiftArith(w: int, hi: int, low: int, y: int, v: int, p: int, t: int, u: int)
    requires w == hi * t + low && t * u == BASE
    ensures (v + y * p) * t + w * (BASE * p) == (v + (low * u + y) * p + hi * (BASE * p)) * t
  {
    assert (low * u * p) * t == low * p * BASE by {
      assert (low * u * p) * t == low * p * (t * u);
    }
    assert hi * (BASE * p) * t == (hi * t) * (BASE * p);
    assert w * (BASE * p) == (hi * t) * (BASE * p) + low * (BASE * p);
    assert (low * u + y) * p == low * u * p + y * p;
    assert low * (BASE * p) == low * p * BASE;
    SumTimes(v, y * p, low * u * p, hi * (BASE * p), t);
  }

  lemma SumTimes(a: int, b: int, c: int, d: int, t: int)
    ensures (a + (c + b) + d) * t == (a + b) * t + c * t + d * t
  {
  }

  /**
   The bit loop of rshift: words n and on move down, each shifted right by k; the number of words left is
   returned.
   */
  method ShiftDown(b: Bigint, n: nat, k: nat) returns (m: nat)
    requires b.Valid() && n < b.wds && 0 < k < 32
    modifies b.x
    ensures m <= b.wds && Value(b.x[..m]) == old(High(b.Val(), 32 * n + k))
    ensures (m > 1 ==> b.x[m - 1] != 0) && (m == 0 ==> b.x[0] == 0)
  {
    hide Value, Pow, Shifted, Shl, Shr, Or;
    ghost var s := b.x[..b.wds];
    ghost var a := s[n..];
    var y: Word := Shr(b.x[n], k);
    var j, i := 0, n + 1;
    ShiftedFirst(a, k);
    ShrFits(b.x[n], k);
    while i < b.wds
      invariant i == n + 1 + j && n < i <= b.wds && y < Pow(2, 32 - k)
      invariant b.x[i..b.wds] == s[i..] && Shifted(a, b.x[..j], y, k)
      modifies b.x
    {
      assert b.x[i] == s[i..][0] == a[j + 1];
      ShiftedNext(a, b.x[..j], y, k);
      ghost var o := b.x[..j];
      var w := b.x[i];
      b.x[j] := Or(Shl(w, 32 - k), y);
      y := Shr(w, k);
      assert b.x[..j + 1] == o + [b.x[j]];
      i := i + 1;
      j := j + 1;
    }
    ghost var o := b.x[..j];
    b.x[j] := y;
    m := if y != 0 then j + 1 else j;
    ShiftedLast(s, n, a, o, y, k, b.x[..j + 1]);
    assert b.x[..m] == if y != 0 then o + [y] else o;
  }

  lemma ShrFits(w: Word, k: nat)
    requires 0 < k < 32
    ensures Shr(w, k) < Pow(2, 32 - k)
  {
    hide Pow;
    PowPos(2, k); PowPos(2, 32 - k);
    Pow32Split(k);
    HighBits(w, Pow(2, k), Pow(2, 32 - k));
  }

  lemma ShiftedLast(s: seq<Word>, n: nat, a: seq<Word>, o: seq<Word>, y: Word, k: nat, t: seq<Word>)
    requires n < |s| && a == s[n..] && |o| == |a| - 1 && Shifted(a, o, y, k) && 0 < k < 32 && t == o + [y]
    ensures Value(t) == High(Value(s), 32 * n + k) && (y == 0 ==> Value(o) == Value(t))
    ensures a[|a| - 1] != 0 && |o| > 0 && y == 0 ==> o[|o| - 1] != 0
  {
    hide Value, Pow;
    assert a[..|o| + 1] == a && t[..|o|] == o && t[..|o| + 1] == t;
    ValueSnoc(t, |o|);
    SplitAt(s, n, k, Value(t));
    if y == 0 { assert 0 * Pow(BASE, |o|) == 0; }
  }

  /** Whole words moved down. */
  method MoveDown(b: Bigint, n: nat) returns (m: nat)
    requires b.Valid() && n < b.wds
    modifies b.x
    ensures m == b.wds - n && b.x[..m] == old(b.x[n..b.wds])
  {
    ghost var s := b.x[..b.wds];
    var j, i := 0, n;
    while i < b.wds
      invariant i == n + j && n <= i <= b.wds == |s| && b.x[i..b.wds] == s[i..] && b.x[..j] == s[n..i]
      modifies b.x
    {
      assert b.x[i] == s[i..][0];
      b.x[j] := b.x[i];
      i := i + 1;
      j := j + 1;
    }
    m := j;
    assert s[n..i] == s[n..];
  }

  /** rshift: b / 2^k, in place. Zero is left with no words. */
  method RShift(b: Bigint, k: nat)
    requires b.Valid()
    modifies b`wds, b.x
    ensures b.Valid() && b.Val() == High(old(b.Val()), k)
  {
    hide Value, Pow;
    ghost var s := b.x[..b.wds];
    var n, m := k / 32, 0;
    if n < b.wds {
      if k % 32 != 0 {
        m := ShiftDown(b, n, k % 32);
      } else {
        m := MoveDown(b, n);
        WordsDown(s, n);
        assert b.x[..m] == s[n..];
      }
    } else {
      AllGone(s, k);
    }
    assert 32 * n + k % 32 == k;
    b.wds := m;
    if m == 0 {
      b.x[0] := 0;
    }
    ValueNil();
  }

  lemma WordsDown(s: seq<Word>, n: nat)
    requires n < |s|
    ensures Value(s[n..]) == High(Value(s), 32 * n)
  {
    hide Value, Pow;
    PowUnit(2);
    SplitAt(s, n, 0, Value(s[n..]));
  }

  lemma AllGone(s: seq<Word>, k: nat)
    requires k / 32 >= |s|
    ensures High(Value(s), k) == 0
  {
    hide Value, Pow;
    ValueBound(s);
    PowBase(|s|);
    PowMono(2, 32 * |s|, k);
    PowPos(2, k);
    DivModUnique(Value(s), Pow(2, k), 0, Value(s));
  }
}
