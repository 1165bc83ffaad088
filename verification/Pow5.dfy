/** pow5mult and its shared, lazily extended list of the powers 5^4, 5^8, 5^16, ... */
module Pow5 {
  import opened Arith
  import opened Words
  import opened Bignum

  /** The static variable p5s and the list hanging from it. */
  class Cache {
    var p5s: Bigint?
    ghost var nodes: seq<Bigint>
    ghost var Repr: set<object>

    constructor ()
      ensures Valid() && nodes == [] && fresh(Repr)
    {
      p5s := null;
      nodes := [];
      Repr := {this};
    }

    /** The list is exactly nodes, and node i holds 5^(4 * 2^i). */
    ghost predicate Valid()
      reads this, Repr
      ensures Valid() ==> this in Repr
    {
      && this in Repr
      && (forall i :: 0 <= i < |nodes| ==> nodes[i] in Repr && nodes[i].x in Repr)
      && p5s == (if nodes == [] then null else nodes[0])
      && (forall i :: 0 <= i < |nodes| ==> Node(nodes, i))
      && (forall i, j :: 0 <= i < j < |nodes| ==> nodes[i] != nodes[j])
    }

    static ghost predicate Node(nodes: seq<Bigint>, i: nat)
      requires i < |nodes|
      reads nodes[i], nodes[i].x
    {
      && nodes[i].Valid() && nodes[i].wds >= 1
      && nodes[i].Val() == Pow(5, 4 * Pow(2, i))
      && nodes[i].next == (if i + 1 < |nodes| then nodes[i + 1] else null)
    }

    /** b shares no storage with the list. */
    ghost predicate Apart(b: Bigint)
      reads this
    {
      b !in Repr && b.x !in Repr
    }
  }

  /** Repeated squaring: v^k from (v^2)^(k / 2). */
  lemma PowSquare(v: nat, k: nat)
    ensures Pow(v, k) == (if k % 2 == 1 then v else 1) * Pow(v * v, k / 2)
  {
    var h := k / 2;
    PowProduct(v, v, h);
    PowAdd(v, h, h);
    assert k == h + h + k % 2;
    if k % 2 == 1 { assert Pow(v, k) == v * Pow(v, h + h); }
  }

  lemma SquareNode(i: nat)
    ensures Pow(5, 4 * Pow(2, i)) * Pow(5, 4 * Pow(2, i)) == Pow(5, 4 * Pow(2, i + 1))
  {
    PowAdd(5, 4 * Pow(2, i), 4 * Pow(2, i));
  }

  /** The node after p5, created as its square at the end of the list. */
  method Next(cache: Cache, p5: Bigint, ghost i: nat) returns (p51: Bigint)
    requires cache.Valid() && i < |cache.nodes| && p5 == cache.nodes[i] && p5.Valid()
    modifies cache, p5`next
    ensures cache.Valid() && fresh(cache.Repr - old(cache.Repr)) && old(cache.nodes) <= cache.nodes
    ensures i + 1 < |cache.nodes| && p51 == cache.nodes[i + 1]
    ensures p51.Valid() && p51.wds >= 1 && p51.Val() == old(p5.Val()) * old(p5.Val()) > 0
    ensures p51 in cache.Repr && p51.x in cache.Repr
  {
    hide Value, Pow;
    assert Cache.Node(cache.nodes, i);
    SquareNode(i);
    NodePositive(i + 1);
    if p5.next != null {
      p51 := p5.next;
      assert Cache.Node(cache.nodes, i + 1);
      return;
    }
    p51 := Mult(p5, p5);
    PositiveHasWords(p51);
    ghost var nodes := cache.nodes;
    p5.next := p51;
    p51.next := null;
    cache.nodes := nodes + [p51];
    cache.Repr := cache.Repr + {p51, p51.x};
    forall j | 0 <= j < |cache.nodes| ensures Cache.Node(cache.nodes, j) {
      if j < |nodes| { assert old(Cache.Node(nodes, j)); }
    }
  }

  lemma PositiveHasWords(b: Bigint)
    requires b.Valid() && b.Val() > 0
    ensures b.wds >= 1
  {
    TopWord(b);
  }

  /** One squaring step: an odd count takes one factor v, the rest is halved onto v * v. */
  lemma SquareStep(b: nat, v: nat, k: nat, target: nat)
    requires b * Pow(v, k) == target
    ensures k % 2 == 1 ==> (b * v) * Pow(v * v, k / 2) == target
    ensures k % 2 == 0 ==> b * Pow(v * v, k / 2) == target
  {
    PowSquare(v, k);
    MulAssoc(b, v, Pow(v * v, k / 2));
  }

  /** if(k & 1): multiply the current power in. */
  method TakeFactor(b0: Bigint, p5: Bigint, k: nat, ghost target: nat) returns (b: Bigint)
    requires b0.Valid() && p5.Valid() && p5.wds >= 1
    requires b0.Val() * Pow(p5.Val(), k) == target
    ensures b == b0 || (fresh(b) && fresh(b.x))
    ensures b.Valid() && b.Val() * Pow(p5.Val() * p5.Val(), k / 2) == target
  {
    hide Value, Pow;
    b := b0;
    SquareStep(b.Val(), p5.Val(), k, target);
    if k % 2 == 1 {
      b := Mult(b, p5);
    }
  }

  /** The for(;;) loop of pow5mult. */
  method Squarings(b0: Bigint, k0: nat, cache: Cache, ghost target: nat) returns (b: Bigint)
    requires b0.Valid() && cache.Valid() && cache.Apart(b0) && k0 > 0
    requires cache.nodes != [] && b0.Val() * Pow(Pow(5, 4), k0) == target
    modifies cache.Repr
    ensures b == b0 || (fresh(b) && fresh(b.x))
    ensures b.Valid() && b.Val() == target
    ensures cache.Valid() && cache.Apart(b)
    ensures fresh(cache.Repr - old(cache.Repr)) && old(cache.nodes) <= cache.nodes
  {
    hide Value, Pow;
    PowUnit(2);
    b := b0;
    var k := k0;
    var p5 := cache.p5s;
    ghost var i := 0;
    assert Cache.Node(cache.nodes, 0);
    NodePositive(0);
    hide Cache.Valid, Cache.Node;
    while true
      invariant cache.Valid() && i < |cache.nodes| && p5 == cache.nodes[i] && k > 0
      invariant p5.Valid() && p5.wds >= 1 && p5.Val() > 0 && p5 in cache.Repr && p5.x in cache.Repr
      invariant b == b0 || (fresh(b) && fresh(b.x))
      invariant b.Valid() && cache.Apart(b)
      invariant b.Val() * Pow(p5.Val(), k) == target
      invariant fresh(cache.Repr - old(cache.Repr)) && old(cache.nodes) <= cache.nodes
      decreases k
    {
      b := TakeFactor(b, p5, k, target);
      k := k / 2;
      if k == 0 {
        PowZero(p5.Val() * p5.Val());
        break;
      }
      p5 := Next(cache, p5, i);
      i := i + 1;
    }
  }

  lemma PowZero(v: nat)
    ensures Pow(v, 0) == 1
  {
  }

  lemma NodePositive(i: nat)
    ensures Pow(5, 4 * Pow(2, i)) > 0
  {
    PowPos(5, 4 * Pow(2, i));
  }

  /** 5^k from its last two bits and the fourth power. */
  lemma SplitPow(b: nat, k: nat)
    ensures k % 4 == 0 ==> b * Pow(Pow(5, 4), k / 4) == b * Pow(5, k)
    ensures k % 4 != 0 ==> (b * [5, 25, 125][k % 4 - 1] + 0) * Pow(Pow(5, 4), k / 4) == b * Pow(5, k)
    ensures k / 4 == 0 ==> Pow(Pow(5, 4), k / 4) == 1
    ensures Pow(5, 4) == 625
  {
    PowOfPow(5, 4, k / 4);
    assert Pow(5, 1) == 5 && Pow(5, 2) == 25 && Pow(5, 3) == 125;
    PowAdd(5, k % 4, 4 * (k / 4));
    MulAssoc(b, Pow(5, k % 4), Pow(5, 4 * (k / 4)));
  }

  /** pow5mult: b * 5^k, by squarings taken from the list. */
  method Pow5Mult(b0: Bigint, k0: nat, cache: Cache) returns (b: Bigint)
    requires b0.Valid() && cache.Valid() && cache.Apart(b0)
    modifies b0, b0.x, cache.Repr
    ensures b == b0 || (fresh(b) && fresh(b.x))
    ensures b.Valid() && b.Val() == old(b0.Val()) * Pow(5, k0)
    ensures cache.Valid() && cache.Apart(b)
    ensures fresh(cache.Repr - old(cache.Repr)) && old(cache.nodes) <= cache.nodes
  {
    hide Value, Pow;
    PowUnit(2);
    b := b0;
    var i := k0 % 4;
    ghost var target := b.Val() * Pow(5, k0);
    SplitPow(b.Val(), k0);
    if i != 0 {
      b := MultAdd(b, [5, 25, 125][i - 1], 0);
    }
    var k := k0 / 4;
    if k == 0 {
      return;
    }
    Start(cache);
    hide Cache.Valid, Cache.Node;
    b := Squarings(b, k, cache, target);
  }

  /** First use: the list begins as the single node 625. */
  method Start(cache: Cache)
    requires cache.Valid()
    modifies cache
    ensures cache.Valid() && cache.nodes != []
    ensures fresh(cache.Repr - old(cache.Repr)) && old(cache.nodes) <= cache.nodes
  {
    assert Pow(2, 0) == 1 && Pow(5, 4) == 625;
    hide Value, Pow;
    if cache.p5s == null {
      cache.p5s := I2b(625);
      cache.p5s.next := null;
      cache.nodes := [cache.p5s];
      cache.Repr := {cache, cache.p5s, cache.p5s.x};
      assert Cache.Node(cache.nodes, 0);
    }
  }
}
