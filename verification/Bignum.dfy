/**
 The multi-word integer kernel of dtoa.c. A Bigint owns an array of 1 << k words of
 which the low wds are in use; every operation below works on that array in place or
 on a freshly allocated one, with the carry and borrow loops of the original.
 */
module Bignum {
  import opened Arith
  import opened Words

  class Bigint {
    const k: nat
    const maxwds: nat
    const x: array<Word>
    var sign: bool
    var wds: nat
    var next: Bigint?

    /** Balloc: room for 1 << k words, contents arbitrary. */
    constructor Balloc(k: nat)
      ensures this.k == k && Shape() && wds == 0 && !sign && fresh(x)
    {
      this.k := k;
      PowPos(2, k);
      var n := Pow(2, k);
      maxwds := n;
      x := new Word[n];
      sign := false;
      wds := 0;
      next := null;
    }

    ghost predicate Shape() {
      maxwds == Pow(2, k) && x.Length == maxwds && maxwds >= 1
    }

    /**
     Words in use fit the capacity and the top one is nonzero. Zero has two forms:
     wds == 1, and wds == 0 with a zero word kept at x[0].
     */
    ghost predicate Valid()
      reads this`wds, x
    {
      && Shape()
      && wds <= maxwds
      && (wds == 0 ==> x[0] == 0)
      && (wds > 1 ==> x[wds - 1] != 0)
    }

    ghost function Val(): nat
      requires wds <= x.Length
      reads this`wds, x
    {
      Value(x[..wds])
    }
  }

  /** One carry step: the word w and carry c1 replace the old carry c at weight p. */
  lemma CarryStep(done: int, src: int, xi: int, m: int, c: int, w: int, c1: int, p: int, a: int)
    requires done + c * p == src * m + a
    requires xi * m + c == w + c1 * BASE
    ensures done + w * p + c1 * (BASE * p) == (src + xi * p) * m + a
  {
    assert c1 * (BASE * p) == (c1 * BASE) * p by { MulAssoc(c1, BASE, p); }
    assert (xi * p) * m == (xi * m) * p by { MulAssoc(xi, p, m); MulAssoc(xi, m, p); }
    assert (xi * m + c) * p == (w + c1 * BASE) * p;
  }

  lemma MulAddWord(x0: seq<Word>, x1: seq<Word>, x2: seq<Word>, i: nat, m: nat, a: nat, c: nat, c1: nat)
    requires i < |x0| && i < |x1| && i < |x2| && x1[..i] == x2[..i]
    requires x0[i] * m + c == x2[i] + c1 * BASE
    requires Value(x1[..i]) + c * Pow(BASE, i) == Value(x0[..i]) * m + a
    ensures Value(x2[..i + 1]) + c1 * Pow(BASE, i + 1) == Value(x0[..i + 1]) * m + a
  {
    CarryStep(Value(x1[..i]), Value(x0[..i]), x0[i], m, c, x2[i], c1, Pow(BASE, i), a);
    ValueSnoc(x2, i);
    ValueSnoc(x0, i);
  }

  /** The 64-bit product step y = x * m + c, split into its low word and the carry y >> 32. */
  method MulAcc(x: Word, m: Word, c: Wide) returns (lo: Word, hi: Wide)
    requires c < BASE
    ensures x * m + c == lo + hi * BASE && hi <= (if c <= m then m else c)
    ensures x > 0 && m > 0 ==> lo > 0 || hi > 0
  {
    MulMono(m, x, BASE - 1);
    if x > 0 { MulMono(m, 1, x); }
    var y: Wide := x * m + c;
    lo, hi := y % BASE, y / BASE;
  }

  /** multadd: b * m + a, growing b by one word (and reallocating it) on a final carry. */
  method MultAdd(b: Bigint, m: nat, a: nat) returns (r: Bigint)
    requires b.Valid()
    requires 0 < m < 0x8000_0000 && a < 0x8000_0000
    requires b.wds == 0 ==> a == 0
    modifies b, b.x
    ensures r == b || (fresh(r) && fresh(r.x))
    ensures r.Valid() && r.Val() == old(b.Val()) * m + a && r.sign == old(b.sign) && r.wds >= old(b.wds)
  {
    hide Value, Pow;
    ValueNil();
    var wds := b.wds;
    var x := b.x;
    var i := 0;
    var carry: Wide := a;
    ghost var x0 := x[..];
    while i == 0 || i < wds
      invariant 0 <= i <= x.Length && (i <= wds || (wds == 0 && i == 1))
      invariant carry < 0x8000_0001
      invariant x[i..] == x0[i..]
      invariant Value(x[..][..i]) + carry * Pow(BASE, i) == Value(x0[..i]) * m + a
      invariant i == 1 && wds == 0 ==> x[0] == 0 && carry == 0
      invariant i > 0 && x0[i - 1] > 0 ==> x[i - 1] > 0 || carry > 0
      decreases x.Length + 1 - i
      modifies x
    {
      ghost var x1, c := x[..], carry;
      assert x[i] == x0[i];
      x[i], carry := MulAcc(x[i], m, carry);
      MulAddWord(x0, x1, x[..], i, m, a, c, carry);
      i := i + 1;
    }
    assert x0[..wds] == old(b.x[..b.wds]);
    assert x[..][..wds] == x[..wds];
    r := b;
    if carry != 0 {
      r := Append(b, carry);
    }
  }

  /** Store w above the words in use, moving to the next capacity when they fill the array. */
  method Append(b: Bigint, w: Word) returns (r: Bigint)
    requires b.Shape() && b.wds <= b.maxwds && w != 0
    modifies b, b.x
    ensures r == b || (fresh(r) && fresh(r.x))
    ensures r.Valid() && r.sign == old(b.sign) && r.wds == old(b.wds) + 1
    ensures r.Val() == old(b.Val()) + w * Pow(BASE, old(b.wds))
    ensures r.x[..old(b.wds)] == old(b.x[..b.wds])
  {
    hide Value;
    r := b;
    var wds := b.wds;
    if wds >= b.maxwds {
      r := new Bigint.Balloc(b.k + 1);
      Bcopy(r, b);
    }
    ghost var low := r.x[..wds];
    r.x[wds] := w;
    r.wds := wds + 1;
    assert r.x[..wds] == low;
    ValueSnoc(r.x[..], wds);
    assert r.x[..][..wds + 1] == r.x[..wds + 1] && r.x[..][..wds] == low;
  }

  /** Bcopy: sign, word count and words. */
  method Bcopy(dst: Bigint, src: Bigint)
    requires dst.Shape() && src.wds <= src.x.Length && src.wds <= dst.maxwds
    requires dst != src && dst.x != src.x
    modifies dst, dst.x
    ensures dst.sign == src.sign && dst.wds == src.wds
    ensures dst.x[..src.wds] == src.x[..src.wds]
  {
    dst.sign := src.sign;
    dst.wds := src.wds;
    for i := 0 to src.wds
      invariant dst.x[..i] == src.x[..i]
      invariant dst.wds == src.wds
      modifies dst.x
    {
      dst.x[i] := src.x[i];
    }
  }

  /** i2b: a one-word number. */
  method I2b(i: Word) returns (b: Bigint)
    ensures fresh(b) && fresh(b.x) && b.Valid() && b.wds == 1 && b.Val() == i && b.k == 1 && !b.sign
  {
    b := new Bigint.Balloc(1);
    b.x[0] := i;
    b.wds := 1;
    ValueSnoc(b.x[..], 0);
    assert b.x[..][..1] == b.x[..1];
  }

  /** The inner product step: word i of d gains y times word i of a. */
  lemma ProductWord(a: seq<Word>, d0: seq<Word>, d1: seq<Word>, d2: seq<Word>, i: nat, y: Word, c: nat, c1: nat)
    requires i < |a| && i < |d0| && i < |d1| && i < |d2| && d1[..i] == d2[..i]
    requires a[i] * y + d0[i] + c == d2[i] + c1 * BASE
    requires Value(d1[..i]) + c * Pow(BASE, i) == Value(d0[..i]) + y * Value(a[..i])
    ensures Value(d2[..i + 1]) + c1 * Pow(BASE, i + 1) == Value(d0[..i + 1]) + y * Value(a[..i + 1])
  {
    ValueSnoc(d2, i);
    ValueSnoc(d0, i);
    ValueSnoc(a, i);
    ProductStep(Value(d1[..i]), Value(d0[..i]), Value(a[..i]), y, a[i], d0[i], d2[i], c, c1, Pow(BASE, i));
  }

  lemma ProductStep(v1: int, v0: int, va: int, y: int, ai: int, ci: int, w: int, c: int, d: int, p: int)
    requires ai * y + ci + c == w + d * BASE
    requires v1 + c * p == v0 + y * va
    ensures v1 + w * p + d * (BASE * p) == v0 + ci * p + y * (va + ai * p)
  {
    MulAssoc(d, BASE, p);
    assert (ai * y + ci + c) * p == (w + d * BASE) * p;
    assert (ai * y + ci + c) * p == (ai * y) * p + ci * p + c * p;
    assert y * (va + ai * p) == y * va + y * (ai * p);
    MulAssoc(y, ai, p);
  }

  /** The inner loop of mult: add y * a into the words of c from offset j up, returning the final carry. */
  method RowLoop(c: Bigint, a: Bigint, y: Word, j: nat) returns (carry: Wide)
    requires a.Valid() && a.wds >= 1 && j + a.wds <= c.x.Length && c.x != a.x
    modifies c.x
    ensures carry < BASE
    ensures c.x[..j] == old(c.x[..j]) && c.x[j + a.wds..] == old(c.x[j + a.wds..])
    ensures Value(c.x[j..][..a.wds]) + carry * Pow(BASE, a.wds) == Value(old(c.x[j..])[..a.wds]) + y * a.Val()
  {
    hide Value, Pow;
    ValueNil();
    var i := 0;
    carry := 0;
    ghost var low, d0, av := c.x[..j], c.x[j..], a.x[..a.wds];
    while i == 0 || i < a.wds
      modifies c.x
      invariant 0 <= i <= a.wds && carry < BASE
      invariant c.x[..j] == low && c.x[j + i..] == d0[i..]
      invariant Value(c.x[j..][..i]) + carry * Pow(BASE, i) == Value(d0[..i]) + y * Value(av[..i])
      decreases a.wds + 1 - i
    {
      ghost var d1, cin := c.x[j..], carry;
      assert c.x[j + i] == d0[i] && a.x[i] == av[i];
      c.x[j + i], carry := MulAdd2(a.x[i], y, c.x[j + i], carry);
      ProductWord(av, d0, d1, c.x[j..], i, y, cin, carry);
      i := i + 1;
    }
    assert av[..i] == av;
  }

  /** One row of mult: the carry goes to word j + |a|, which is zero; rows with y == 0 are skipped. */
  method AddRow(c: Bigint, a: Bigint, y: Word, j: nat)
    requires a.Valid() && a.wds >= 1 && j + a.wds < c.x.Length && c.x != a.x
    requires c.x[j + a.wds] == 0
    modifies c.x
    ensures forall i :: j + a.wds < i < c.x.Length ==> c.x[i] == old(c.x[i])
    ensures Value(c.x[..j + a.wds + 1]) == old(Value(c.x[..j + a.wds])) + Pow(BASE, j) * (y * a.Val())
  {
    hide Value, Pow;
    var wa := a.wds;
    ghost var c0 := c.x[..];
    var carry: Wide := 0;
    if y != 0 {
      carry := RowLoop(c, a, y, j);
      ghost var c1 := c.x[..];
      assert forall i :: j + wa < i < c.x.Length ==>
               c.x[i] == c.x[j + wa..][i - (j + wa)] == c0[j + wa..][i - (j + wa)];
      c.x[j + wa] := carry;
      assert c.x[..j] == c1[..j] && c.x[j..][..wa] == c1[j..][..wa];
    }
    RowJoin(c0, c.x[..], j, wa, carry, y * a.Val());
    assert c0[..j + wa] == old(c.x[..j + wa]) && c.x[..][..j + wa + 1] == c.x[..j + wa + 1];
  }

  /** A row added from word j up raises the value by 2^(32 j) times the row. */
  lemma RowJoin(c0: seq<Word>, c1: seq<Word>, j: nat, wa: nat, carry: Word, row: int)
    requires j + wa < |c0| == |c1| && c1[..j] == c0[..j] && c1[j + wa] == carry
    requires Value(c1[j..][..wa]) + carry * Pow(BASE, wa) == Value(c0[j..][..wa]) + row
    ensures Value(c1[..j + wa + 1]) == Value(c0[..j + wa]) + Pow(BASE, j) * row
  {
    hide Value, Pow;
    var low, mid := c0[..j], c0[j..][..wa];
    assert c0[..j + wa] == low + mid;
    ValueConcat(low, mid);
    ValueSnoc(c1[j..], wa);
    assert c1[..j + wa + 1] == low + c1[j..][..wa + 1];
    ValueConcat(low, c1[j..][..wa + 1]);
  }

  /** z = x * y + w + c never exceeds 64 bits. */
  method MulAdd2(x: Word, y: Word, w: Word, c: Wide) returns (lo: Word, hi: Wide)
    requires c < BASE
    ensures x * y + w + c == lo + hi * BASE && hi < BASE
  {
    MulMono(y, x, BASE - 1);
    MulMono(BASE - 1, y, BASE - 1);
    MulNonNeg(x, y);
    var z: Wide := x * y + w + c;
    lo, hi := z % BASE, z / BASE;
  }

  lemma RowSum(v: int, v1: int, va: int, b: seq<Word>, j: nat)
    requires j < |b| && v == va * Value(b[..j]) && v1 == v + Pow(BASE, j) * (b[j] * va)
    ensures v1 == va * Value(b[..j + 1])
  {
    ValueSnoc(b, j);
    var vb, y, p := Value(b[..j]), b[j], Pow(BASE, j);
    assert va * (vb + y * p) == va * vb + va * (y * p);
    MulAssoc(va, y, p);
    assert p * (y * va) == (va * y) * p;
  }

  /** mult: the product in a fresh number. */
  method Mult(a0: Bigint, b0: Bigint) returns (c: Bigint)
    requires a0.Valid() && b0.Valid() && (a0.wds >= 1 || b0.wds >= 1)
    ensures fresh(c) && fresh(c.x) && c.Valid() && !c.sign
    ensures c.Val() == a0.Val() * b0.Val()
  {
    if a0.wds < b0.wds {
      c := Product(b0, a0);
    } else {
      c := Product(a0, b0);
    }
  }

  /** mult after its operand swap: a is at least as long as b. */
  method Product(a: Bigint, b: Bigint) returns (c: Bigint)
    requires a.Valid() && b.Valid() && b.wds <= a.wds && a.wds >= 1
    ensures fresh(c) && fresh(c.x) && c.Valid() && !c.sign
    ensures c.Val() == a.Val() * b.Val()
  {
    var k := a.k;
    var wa, wb := a.wds, b.wds;
    var wc := wa + wb;
    if wc > a.maxwds {
      k := k + 1;
    }
    c := new Bigint.Balloc(k);
    Clear(c, wc);
    Rows(c, a, b);
    Trim(c, wc);
  }

  /** The outer loop of mult, one row per word of b. */
  method Rows(c: Bigint, a: Bigint, b: Bigint)
    requires a.Valid() && b.Valid() && b.wds <= a.wds && a.wds >= 1 && a.wds + b.wds <= c.x.Length
    requires c.x != a.x && c.x != b.x
    requires forall i :: 0 <= i < a.wds + b.wds ==> c.x[i] == 0
    modifies c.x
    ensures Value(c.x[..a.wds + b.wds]) == a.Val() * b.Val()
  {
    hide Value, Pow;
    ValueNil();
    var wa, wb := a.wds, b.wds;
    ghost var bv, va := b.x[..wb], a.Val();
    ValueZeros(c.x[..wa]);
    for j := 0 to wb
      invariant forall i :: wa + j <= i < wa + wb ==> c.x[i] == 0
      invariant Value(c.x[..wa + j]) == va * Value(bv[..j])
      modifies c.x
    {
      ghost var vc := Value(c.x[..wa + j]);
      AddRow(c, a, b.x[j], j);
      assert b.x[j] == bv[j];
      RowSum(vc, Value(c.x[..wa + j + 1]), va, bv, j);
    }
    assert bv[..wb] == bv;
  }

  method Clear(c: Bigint, n: nat)
    requires n <= c.x.Length
    modifies c.x
    ensures forall i :: 0 <= i < n ==> c.x[i] == 0
    ensures c.x[n..] == old(c.x[n..])
  {
    for i := 0 to n
      invariant forall j :: 0 <= j < i ==> c.x[j] == 0
      invariant c.x[i..] == old(c.x[i..])
    {
      c.x[i] := 0;
    }
  }

  /** Drop zero words from the top of the n words computed. */
  method Trim(c: Bigint, n: nat)
    requires c.Shape() && 1 <= n <= c.maxwds
    modifies c`wds
    ensures c.Valid() && c.Val() == Value(c.x[..n])
  {
    hide Value, Pow;
    var wc := n;
    ghost var all := c.x[..n];
    while wc > 0 && c.x[wc - 1] == 0
      invariant 0 <= wc <= n
      invariant forall i :: wc <= i < n ==> all[i] == 0
    {
      wc := wc - 1;
    }
    c.wds := wc;
    ValueTrim(all, wc);
    assert all[..wc] == c.x[..wc];
    assert wc == 0 ==> all[0] == 0;
  }

  /** One step of a left shift: the new word x << k | z, and the bits x >> (32 - k) that leave it. */
  method ShiftAcc(x: Word, k: nat, z: Word) returns (lo: Word, hi: Word)
    requires 0 < k < 32 && z < Pow(2, k)
    ensures x * Pow(2, k) + z == lo + hi * BASE && hi < Pow(2, k)
    ensures x > 0 ==> lo > 0 || hi > 0
  {
    OrShl(x, z, k);
    ShlSplit(x, k);
    lo, hi := Or(Shl(x, k), z), Shr(x, 32 - k);
    PowPos(2, k);
    if x > 0 { MulPos(x, Pow(2, k)); }
  }

  /** The bit-shifting loop of lshift: words of b, moved up n words and k bits; returns the bits left over. */
  method ShiftWords(dst: Bigint, b: Bigint, n: nat, k: nat) returns (z: Word)
    requires b.Valid() && b.wds >= 1 && 0 < k < 32
    requires n + b.wds <= dst.x.Length && dst.x != b.x
    modifies dst.x
    ensures dst.x[..n] == old(dst.x[..n])
    ensures b.x[b.wds - 1] > 0 ==> dst.x[n + b.wds - 1] > 0 || z > 0
    ensures Value(dst.x[n..n + b.wds]) + z * Pow(BASE, b.wds) == b.Val() * Pow(2, k)
  {
    hide Value, Pow;
    ValueNil();
    var i := 0;
    z := 0;
    PowPos(2, k);
    ghost var src, low, p := b.x[..b.wds], dst.x[..n], Pow(2, k);
    while i == 0 || i < b.wds
      modifies dst.x
      invariant 0 <= i <= b.wds && dst.x[..n] == low
      invariant z < p
      invariant Value(dst.x[n..][..i]) + z * Pow(BASE, i) == Value(src[..i]) * p + 0
      invariant i > 0 && src[i - 1] > 0 ==> dst.x[n + i - 1] > 0 || z > 0
      decreases b.wds + 1 - i
    {
      ghost var z0, d0 := z, dst.x[n..];
      assert src[i] == b.x[i];
      dst.x[n + i], z := ShiftAcc(b.x[i], k, z);
      MulAddWord(src, d0, dst.x[n..], i, p, 0, z0, z);
      i := i + 1;
    }
    assert src[..i] == src;
    assert dst.x[n..][..i] == dst.x[n..n + i];
  }

  /** The word-copying loop of lshift, taken when the shift is a whole number of words. */
  method CopyWords(dst: Bigint, b: Bigint, n: nat)
    requires b.Valid() && b.wds >= 1
    requires n + b.wds <= dst.x.Length && dst.x != b.x
    modifies dst.x
    ensures dst.x[..n] == old(dst.x[..n])
    ensures dst.x[n..n + b.wds] == b.x[..b.wds]
  {
    var i := 0;
    while i == 0 || i < b.wds
      modifies dst.x
      invariant 0 <= i <= b.wds && dst.x[..n] == old(dst.x[..n])
      invariant dst.x[n..n + i] == b.x[..i]
      decreases b.wds + 1 - i
    {
      dst.x[n + i] := b.x[i];
      i := i + 1;
    }
  }

  lemma ShiftPow(k: nat)
    ensures Pow(2, k) == Pow(BASE, k / 32) * Pow(2, k % 32)
  {
    assert k == 32 * (k / 32) + k % 32;
    PowBase(k / 32);
    PowAdd(2, 32 * (k / 32), k % 32);
  }

  /** The smallest capacity exponent, from b->k up, with room for n1 words. */
  method RoomFor(k: nat, maxwds: nat, n1: nat) returns (k1: nat)
    requires maxwds == Pow(2, k)
    ensures k1 >= k && Pow(2, k1) >= n1
  {
    PowPos(2, k);
    k1 := k;
    var i := maxwds;
    while n1 > i
      invariant k1 >= k && i == Pow(2, k1) && i >= 1
      decreases n1 - i
    {
      i := i * 2;
      k1 := k1 + 1;
    }
  }

  /** lshift: b * 2^k in a freshly allocated number, normalized unless b is zero. */
  method LShift(b: Bigint, k0: nat) returns (r: Bigint)
    requires b.Valid() && (b.Val() == 0 ==> b.wds == 1)
    ensures fresh(r) && fresh(r.x) && r.Shape() && 1 <= r.wds <= r.maxwds && !r.sign
    ensures b.Val() > 0 ==> r.Valid()
    ensures r.Val() == b.Val() * Pow(2, k0)
  {
    hide Value, Pow, Bigint.Val;
    if b.Val() > 0 { TopWord(b); }
    var n := k0 / 32;
    var n1 := n + b.wds + 1;
    var k1 := RoomFor(b.k, b.maxwds, n1);
    r := new Bigint.Balloc(k1);
    Clear(r, n);
    var z := FillShifted(r, b, n, k0 % 32);
    if z != 0 {
      n1 := n1 + 1;
    }
    r.wds := n1 - 1;
    ShiftedIs(r, b, n, z, k0);
  }

  lemma ShiftedIs(r: Bigint, b: Bigint, n: nat, z: Word, k: nat)
    requires b.Valid() && b.wds >= 1 && n == k / 32 && r.Shape() && r.wds <= r.maxwds
    requires r.wds == n + b.wds + (if z != 0 then 1 else 0)
    requires forall i :: 0 <= i < n ==> r.x[i] == 0
    requires z != 0 ==> r.x[n + b.wds] == z
    requires z == 0 && b.Val() > 0 ==> r.x[n + b.wds - 1] > 0
    requires Value(r.x[n..n + b.wds]) + z * Pow(BASE, b.wds) == b.Val() * Pow(2, k % 32)
    ensures r.Val() == b.Val() * Pow(2, k) && (b.Val() > 0 ==> r.Valid())
  {
    hide Value, Pow;
    var s := r.x[..r.wds];
    assert s[n..n + b.wds] == r.x[n..n + b.wds];
    JoinShift(s, n, b.wds, z, b.Val(), k);
  }

  method FillShifted(r: Bigint, b: Bigint, n: nat, k: nat) returns (z: Word)
    requires b.Valid() && b.wds >= 1 && k < 32
    requires n + b.wds + 1 <= r.x.Length && r.x != b.x
    modifies r.x
    ensures forall i :: 0 <= i < n ==> r.x[i] == old(r.x[i])
    ensures z != 0 ==> r.x[n + b.wds] == z
    ensures z == 0 && b.Val() > 0 ==> r.x[n + b.wds - 1] > 0
    ensures Value(r.x[n..n + b.wds]) + z * Pow(BASE, b.wds) == b.Val() * Pow(2, k)
  {
    hide Value, Pow;
    PowUnit(2);
    ghost var low, m := r.x[..n], b.wds;
    if b.Val() > 0 { TopWord(b); }
    if k != 0 {
      z := ShiftWords(r, b, n, k);
      ghost var mid := r.x[n..n + m];
      assert r.x[n + m - 1] == mid[m - 1];
      r.x[n + b.wds] := z;
      assert r.x[n..n + m] == mid;
      assert r.x[..n] == low;
    } else {
      CopyWords(r, b, n);
      z := 0;
      assert r.x[n + m - 1] == r.x[n..n + m][m - 1];
    }
    forall i | 0 <= i < n ensures r.x[i] == low[i] {
      assert r.x[..n][i] == low[i];
    }
  }

  lemma TopWord(b: Bigint)
    requires b.Valid() && b.Val() > 0
    ensures b.wds >= 1 && b.x[b.wds - 1] > 0
  {
    if b.wds == 1 { ValueSnoc(b.x[..], 0); assert b.x[..][..1] == b.x[..1]; }
  }

  /** Zero words below, the shifted words, and the spill word if any, denote v * 2^k. */
  lemma JoinShift(s: seq<Word>, n: nat, m: nat, z: Word, v: nat, k: nat)
    requires n == k / 32 && |s| == n + m + (if z != 0 then 1 else 0)
    requires forall i :: 0 <= i < n ==> s[i] == 0
    requires z != 0 ==> s[n + m] == z
    requires Value(s[n..n + m]) + z * Pow(BASE, m) == v * Pow(2, k % 32)
    ensures Value(s) == v * Pow(2, k)
  {
    hide Value, Pow;
    var t := s[n..];
    assert t[..m] == s[n..n + m];
    if z != 0 {
      ValueSnoc(t, m);
      assert t[..m + 1] == t;
    } else {
      assert t[..m] == t;
    }
    assert s == s[..n] + t;
    ValueShift(s[..n], t);
    ShiftPow(k);
    Rotate(Pow(BASE, n), v, Pow(2, k % 32));
  }

  /** More words means a larger number, unless the longer one is a zero kept in one word. */
  lemma LongerIsLarger(a: Bigint, b: Bigint)
    requires a.Valid() && b.Valid() && a.wds < b.wds
    requires a.wds == 0 ==> b.Val() > 0
    ensures a.Val() < b.Val()
  {
    if a.wds >= 1 {
      ValueLonger(a.x[..a.wds], b.x[..b.wds]);
    }
  }

  lemma EmptyIsZero(a: Bigint)
    requires a.wds <= a.x.Length
    ensures a.wds == 0 ==> a.Val() == 0
  {
  }

  /**
   cmp: the sign of a - b. When the word counts differ their difference is returned, so a
   zero of no words compares below a zero of one word; two of them must not meet.
   */
  method Cmp(a: Bigint, b: Bigint) returns (r: int)
    requires a.Valid() && b.Valid()
    requires a.wds >= 1 || b.wds >= 1
    ensures (a.wds >= 1 && b.wds >= 1) || a.Val() != b.Val() ==>
              (r < 0 <==> a.Val() < b.Val()) && (r > 0 <==> a.Val() > b.Val())
    ensures a.Val() == b.Val() && a.wds == 0 ==> r < 0
    ensures a.Val() == b.Val() && b.wds == 0 ==> r > 0
  {
    var i := a.wds;
    var j := b.wds;
    i := i - j;
    if i != 0 {
      EmptyIsZero(a);
      EmptyIsZero(b);
      if i < 0 && (a.wds > 0 || b.Val() > 0) { LongerIsLarger(a, b); }
      if i > 0 && (b.wds > 0 || a.Val() > 0) { LongerIsLarger(b, a); }
      return i;
    }
    ghost var s, t := a.x[..j], b.x[..j];
    while true
      invariant 0 < j <= a.wds
      invariant forall l :: j <= l < a.wds ==> s[l] == t[l]
      decreases j
    {
      j := j - 1;
      if a.x[j] != b.x[j] {
        if a.x[j] < b.x[j] { ValueCompare(s, t, j); } else { ValueCompare(t, s, j); }
        return if a.x[j] < b.x[j] then -1 else 1;
      }
      if j <= 0 { break; }
    }
    assert s == t;
    return 0;
  }

  /** One borrow step: y = x - s - borrow in 64 bits, its low word and bit 32. */
  method SubBorrow(x: Word, s: Word, borrow: Word) returns (w: Word, out: Word)
    requires borrow <= 1
    ensures x - s - borrow == w - out * BASE && out <= 1
  {
    BorrowSplit(x - s - borrow);
    var y := Wrap64(x - s - borrow);
    w, out := y % BASE, y / BASE % 2;
  }

  lemma BorrowWord(c1: seq<Word>, c2: seq<Word>, a: seq<Word>, i: nat, s: int, vs: int, br: int, br1: int)
    requires i < |a| && i < |c1| && i < |c2| && c1[..i] == c2[..i]
    requires a[i] - s - br == c2[i] - br1 * BASE
    requires Value(c1[..i]) - br * Pow(BASE, i) == Value(a[..i]) - vs
    ensures Value(c2[..i + 1]) - br1 * Pow(BASE, i + 1) == Value(a[..i + 1]) - (vs + s * Pow(BASE, i))
  {
    ValueSnoc(c2, i);
    ValueSnoc(a, i);
    BorrowStep(Value(c1[..i]), Value(a[..i]) - vs, a[i], s, br, c2[i], br1, Pow(BASE, i));
  }

  lemma BorrowStep(vc: int, va: int, x: int, s: int, br: int, w: int, br1: int, p: int)
    requires vc - br * p == va
    requires x - s - br == w - br1 * BASE
    ensures vc + w * p - br1 * (BASE * p) == va + x * p - s * p
  {
    assert (x - s - br) * p == (w - br1 * BASE) * p;
    MulAssoc(br1, BASE, p);
  }

  /** diff: |a - b|, with sign set exactly when a < b. */
  method Diff(a0: Bigint, b0: Bigint) returns (c: Bigint)
    requires a0.Valid() && b0.Valid() && a0.wds >= 1 && b0.wds >= 1
    ensures fresh(c) && fresh(c.x) && c.Valid() && c.wds >= 1
    ensures c.sign <==> a0.Val() < b0.Val()
    ensures c.Val() == if a0.Val() < b0.Val() then b0.Val() - a0.Val() else a0.Val() - b0.Val()
  {
    hide Value, Pow;
    var i := Cmp(a0, b0);
    if i == 0 {
      c := new Bigint.Balloc(0);
      c.wds := 1;
      c.x[0] := 0;
      ValueZeros(c.x[..1]);
      return;
    }
    if i < 0 {
      c := Subtract(b0, a0);
      c.sign := true;
    } else {
      c := Subtract(a0, b0);
    }
  }

  /** diff past its comparison: a - b for a > b, in a number of a's capacity. */
  method Subtract(a: Bigint, b: Bigint) returns (c: Bigint)
    requires a.Valid() && b.Valid() && b.wds >= 1 && a.Val() > b.Val()
    ensures fresh(c) && fresh(c.x) && c.Valid() && c.wds >= 1 && !c.sign
    ensures c.Val() == a.Val() - b.Val()
  {
    hide Value, Pow;
    c := new Bigint.Balloc(a.k);
    TopWord(a);
    if a.wds < b.wds { LongerIsLarger(a, b); }
    var wa := a.wds;
    BorrowLoops(c, a, b);
    ghost var all, v := c.x[..wa], a.Val() - b.Val();
    while c.x[wa - 1] == 0
      modifies {}
      invariant 1 <= wa <= |all| <= c.x.Length && all == c.x[..|all|]
      invariant forall i :: wa <= i < |all| ==> all[i] == 0
      decreases wa
    {
      assert all[wa - 1] == c.x[wa - 1];
      if wa == 1 { ValueZeros(all); }
      wa := wa - 1;
    }
    c.wds := wa;
    ValueTrim(all, wa);
    assert all[..wa] == c.x[..wa];
  }

  /** The two subtraction loops of diff; the final borrow is zero because a > b. */
  method BorrowLoops(c: Bigint, a: Bigint, b: Bigint)
    requires a.Valid() && b.Valid() && 1 <= b.wds <= a.wds && a.Val() > b.Val()
    requires a.wds <= c.x.Length && c.x != a.x && c.x != b.x
    modifies c.x
    ensures Value(c.x[..a.wds]) == a.Val() - b.Val()
  {
    hide Value, Pow;
    ghost var va, vb := a.Val(), b.Val();
    var borrow := BorrowLow(c, a, b);
    borrow := BorrowHigh(c, a, b.wds, borrow, vb);
    assert c.x[..][..a.wds] == c.x[..a.wds];
    NoBorrow(c.x[..a.wds], borrow, va - vb);
  }

  /** A nonnegative difference leaves no borrow. */
  lemma NoBorrow(s: seq<Word>, borrow: nat, d: nat)
    requires Value(s) - borrow * Pow(BASE, |s|) == d
    ensures borrow == 0
  {
    ValueBound(s);
    if borrow >= 1 { MulMono(Pow(BASE, |s|), 1, borrow); }
  }

  method BorrowHigh(c: Bigint, a: Bigint, wb: nat, borrow0: Word, ghost vb: nat) returns (borrow: Word)
    requires a.Valid() && wb <= a.wds <= c.x.Length && c.x != a.x && borrow0 <= 1
    requires Value(c.x[..][..wb]) - borrow0 * Pow(BASE, wb) == Value(a.x[..a.wds][..wb]) - vb
    modifies c.x
    ensures borrow <= 1
    ensures Value(c.x[..][..a.wds]) - borrow * Pow(BASE, a.wds) == a.Val() - vb
  {
    hide Value, Pow;
    ValueNil();
    ghost var av := a.x[..a.wds];
    borrow := borrow0;
    var i := wb;
    while i < a.wds
      modifies c.x
      invariant wb <= i <= a.wds && borrow <= 1
      invariant Value(c.x[..][..i]) - borrow * Pow(BASE, i) == Value(av[..i]) - vb
    {
      ghost var c1, br := c.x[..], borrow;
      assert av[i] == a.x[i];
      c.x[i], borrow := SubBorrow(a.x[i], 0, borrow);
      BorrowWord(c1, c.x[..], av, i, 0, vb, br, borrow);
      i := i + 1;
    }
    assert av[..i] == av;
  }

  method BorrowLow(c: Bigint, a: Bigint, b: Bigint) returns (borrow: Word)
    requires a.Valid() && b.Valid() && 1 <= b.wds <= a.wds
    requires a.wds <= c.x.Length && c.x != a.x && c.x != b.x
    modifies c.x
    ensures borrow <= 1
    ensures Value(c.x[..][..b.wds]) - borrow * Pow(BASE, b.wds) == Value(a.x[..a.wds][..b.wds]) - b.Val()
  {
    hide Value, Pow;
    ValueNil();
    ghost var av, bv := a.x[..a.wds], b.x[..b.wds];
    var i := 0;
    borrow := 0;
    while i == 0 || i < b.wds
      modifies c.x
      invariant 0 <= i <= b.wds && borrow <= 1
      invariant Value(c.x[..][..i]) - borrow * Pow(BASE, i) == Value(av[..i]) - Value(bv[..i])
      decreases b.wds + 1 - i
    {
      ghost var c1, br := c.x[..], borrow;
      assert av[i] == a.x[i] && bv[i] == b.x[i];
      c.x[i], borrow := SubBorrow(a.x[i], b.x[i], borrow);
      BorrowWord(c1, c.x[..], av, i, bv[i], Value(bv[..i]), br, borrow);
      ValueSnoc(bv, i);
      i := i + 1;
    }
    assert bv[..i] == bv;
  }
}
