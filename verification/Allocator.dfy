/** Balloc and Bfree: free lists by capacity, filled first from a private pool and then from malloc. */
module Allocator {
  import opened Arith

  const KMAX := 7
  const PRIVATE_MEM := (2304 + 8 - 1) / 8   // in units of a double

  /** The doubles a block of 1 << k words takes: a header of 32 bytes holds the first word. */
  function Size(k: nat): nat {
    PowPos(2, k);
    (32 + (Pow(2, k) - 1) * 4 + 8 - 1) / 8
  }

  /** Which is room for the 24 bytes before the words and for all 1 << k words, to the next multiple of eight. */
  lemma SizeHolds(k: nat)
    ensures 24 + 4 * Pow(2, k) <= 8 * Size(k) < 40 + 4 * Pow(2, k)
  {
    PowPos(2, k);
  }

  /** Where a block lies: in the pool from a position on, or in memory of its own. */
  datatype Place = Pool(start: nat) | Malloc

  class Block {
    const k: nat
    const maxwds: nat
    const place: Place
    var next: Block?
    var sign: nat
    var wds: nat

    constructor (k: nat, place: Place)
      ensures this.k == k && maxwds == Pow(2, k) && this.place == place
    {
      PowPos(2, k);
      this.k := k;
      this.maxwds := Pow(2, k);
      this.place := place;
      next, sign, wds := null, 0, 0;
    }
  }

  /** Two blocks share no memory. */
  ghost predicate Apart(b: Block, c: Block) {
    b.place.Pool? && c.place.Pool? ==>
      b.place.start + Size(b.k) <= c.place.start || c.place.start + Size(c.k) <= b.place.start
  }

  /** A block has its capacity, and lies in the part of the pool handed out if in the pool. */
  ghost predicate Sound(b: Block, pmemNext: nat) {
    b.maxwds == Pow(2, b.k) && (b.place.Pool? ==> b.k <= KMAX && b.place.start + Size(b.k) <= pmemNext)
  }

  ghost function After(l: seq<Block>, i: nat): Block? {
    if i + 1 < |l| then l[i + 1] else null
  }

  /** A finite chain of next pointers: distinct blocks of capacity 1 << k, so there is no cycle. */
  ghost predicate Chain(head: Block?, l: seq<Block>, k: nat)
    reads l`next
  {
    && head == (if l == [] then null else l[0])
    && (forall i :: 0 <= i < |l| ==> l[i].k == k && l[i].next == After(l, i))
    && (forall i, j :: 0 <= i < j < |l| ==> l[i] != l[j])
  }

  lemma TailChain(l: seq<Block>, k: nat)
    requires l != [] && Chain(l[0], l, k)
    ensures Chain(l[0].next, l[1..], k) && l[0] !in l[1..]
    ensures forall b :: b in l && b != l[0] ==> b in l[1..]
  {
    var t := l[1..];
    forall i | 0 <= i < |t|
      ensures t[i].k == k && t[i].next == After(t, i)
    {
      assert t[i] == l[i + 1];
    }
    assert l[0].next == After(l, 0);
    assert forall i, j :: 0 <= i < j < |t| ==> t[i] == l[i + 1] && t[j] == l[j + 1];
    assert forall i :: 0 < i < |l| ==> l[i] == t[i - 1];
  }

  lemma HeadOf(l: seq<Block>, k: nat)
    requires l != []
    ensures forall h: Block? :: Chain(h, l, k) ==> h == l[0] && l[0].k == k
  {
  }

  /** Blocks that share no memory, in the part of the pool handed out or outside it. */
  ghost predicate Laid(blocks: set<Block>, pmemNext: nat) {
    && (forall b :: b in blocks ==> Sound(b, pmemNext))
    && (forall b, c :: b in blocks && c in blocks && b != c ==> Apart(b, c))
  }

  /** A block cut from the pool above all others, or made by malloc, keeps clear of them. */
  lemma LaidMore(blocks: set<Block>, p: nat, rv: Block, q: nat)
    requires Laid(blocks, p) && p <= q && rv !in blocks && rv.maxwds == Pow(2, rv.k)
    requires rv.place.Pool? ==> rv.k <= KMAX && rv.place.start == p && q == p + Size(rv.k)
    ensures Laid(blocks + {rv}, q) && forall b :: b in blocks ==> Apart(rv, b)
  {
    hide Size, Pow;
  }

  class State {
    const freelist: array<Block?>
    var pmemNext: nat
    ghost var lists: seq<seq<Block>>   // the contents of the free lists
    ghost var free: set<Block>
    ghost var live: set<Block>         // handed out and not given back, the p5s list included

    /** The free lists hold the free blocks, each in the list of its capacity. */
    ghost predicate Listed()
      reads this, freelist, free`next
    {
      && freelist.Length == KMAX + 1 == |lists|
      && (forall k, i :: 0 <= k <= KMAX && 0 <= i < |lists[k]| ==> lists[k][i] in free)
      && (forall k :: 0 <= k <= KMAX ==> Chain(freelist[k], lists[k], k))
      && (forall b :: b in free ==> b.k <= KMAX && b in lists[b.k])
    }

    ghost predicate Valid()
      reads this, freelist, free`next
    {
      Listed() && free !! live && pmemNext <= PRIVATE_MEM && Laid(free + live, pmemNext)
    }

    constructor ()
      ensures Valid() && live == {} && free == {} && fresh(freelist)
    {
      freelist := new Block?[KMAX + 1](_ => null);
      pmemNext := 0;
      lists := seq(KMAX + 1, _ => []);
      free, live := {}, {};
    }

    /** Taking the first block of list k. */
    method Take(k: nat) returns (rv: Block)
      requires Valid() && k <= KMAX && freelist[k] != null
      modifies this, freelist
      ensures Valid() && rv in old(free) && rv.k == k
      ensures live == old(live) + {rv} && free == old(free) - {rv} && pmemNext == old(pmemNext)
      ensures old(lists)[k] != [] && lists == old(lists)[k := old(lists)[k][1..]] && old(lists)[k][0] == rv
    {
      hide Laid, Chain;
      HeadIs(k);
      Capacities();
      rv := freelist[k];
      ghost var l := lists[k];
      assert Chain(freelist[k], l, k);
      HeadOf(l, k);
      TailChain(l, k);
      freelist[k] := rv.next;
      lists := lists[k := l[1..]];
      free, live := free - {rv}, live + {rv};
      assert free + live == old(free + live);
      assert Chain(freelist[k], lists[k], k);
      assert forall j :: 0 <= j <= KMAX && j != k ==> lists[j] == old(lists)[j] && freelist[j] == old(freelist[j]);
    }

    /** A block not seen before. */
    method Carve(k: nat) returns (rv: Block)
      requires Valid()
      modifies this
      ensures Valid() && fresh(rv) && rv.k == k
      ensures live == old(live) + {rv} && free == old(free) && lists == old(lists) && pmemNext >= old(pmemNext)
    {
      hide Laid, Chain;
      var len := Size(k);
      ghost var blocks, p := free + live, pmemNext;
      if k <= KMAX && pmemNext + len <= PRIVATE_MEM {
        rv := new Block(k, Pool(pmemNext));
        pmemNext := pmemNext + len;
      } else {
        rv := new Block(k, Malloc);
      }
      live := live + {rv};
      LaidMore(blocks, p, rv, pmemNext);
      assert free + live == blocks + {rv};
    }

    lemma Capacities()
      requires Listed()
      ensures forall k, i :: 0 <= k <= KMAX && 0 <= i < |lists[k]| ==> lists[k][i].k == k
    {
      forall k, i | 0 <= k <= KMAX && 0 <= i < |lists[k]|
        ensures lists[k][i].k == k
      {
        assert Chain(freelist[k], lists[k], k);
      }
    }

    lemma HeadIs(k: nat)
      requires Valid() && k <= KMAX
      ensures freelist[k] == null <==> lists[k] == []
    {
      assert Chain(freelist[k], lists[k], k);
    }

    lemma LiveApart(rv: Block)
      requires Valid() && rv in live
      ensures rv.maxwds == Pow(2, rv.k) && forall b :: b in live && b != rv ==> Apart(rv, b)
    {
      assert rv in free + live;
    }

    /** Balloc: a block of exactly 1 << k words that is no part of anything in use. */
    method Balloc(k: nat) returns (rv: Block)
      requires Valid()
      modifies this, freelist, free`sign, free`wds
      ensures Valid() && rv.k == k && rv.maxwds == Pow(2, k) && rv.sign == 0 && rv.wds == 0
      ensures rv !in old(live) && live == old(live) + {rv}
      ensures forall b :: b in old(live) ==> Apart(rv, b)
      ensures if k <= KMAX && old(lists)[k] != [] then rv == old(lists)[k][0]
              && lists == old(lists)[k := old(lists)[k][1..]]
              else fresh(rv) && lists == old(lists)
    {
      hide Laid, Chain, Apart;
      if k <= KMAX {
        HeadIs(k);
      }
      if k <= KMAX && freelist[k] != null {
        rv := Take(k);
      } else {
        rv := Carve(k);
      }
      LiveApart(rv);
      rv.sign, rv.wds := 0, 0;
    }

    /** Bfree: back to the front of its list; a block too large for the lists is released. Null is ignored. */
    method Bfree(v: Block?)
      requires Valid() && (v != null ==> v in live)
      modifies this, freelist, (if v == null then {} else {v})`next
      ensures Valid() && live == old(live) - {v} && pmemNext == old(pmemNext)
      ensures if v != null && v.k <= KMAX then lists == old(lists)[v.k := [v] + old(lists)[v.k]]
              && free == old(free) + {v}
              else lists == old(lists) && free == old(free)
    {
      if v != null {
        if v.k > KMAX {
          live := live - {v};
          LaidLess(old(free + live), free + live, pmemNext);
        } else {
          PutBack(v);
        }
      }
    }

    method PutBack(v: Block)
      requires Valid() && v in live && v.k <= KMAX
      modifies this, freelist, v`next
      ensures Valid() && live == old(live) - {v} && pmemNext == old(pmemNext)
      ensures lists == old(lists)[v.k := [v] + old(lists)[v.k]] && free == old(free) + {v}
    {
      hide Laid, Chain;
      ghost var k, l := v.k, lists[v.k];
      assert Chain(freelist[k], l, k);
      assert forall j, i :: 0 <= j <= KMAX && 0 <= i < |lists[j]| ==> lists[j][i] != v;
      v.next := freelist[v.k];
      freelist[v.k] := v;
      ConsChain(v, l, k);
      lists := lists[v.k := [v] + lists[v.k]];
      free, live := free + {v}, live - {v};
      assert free + live == old(free + live);
      assert forall j :: 0 <= j <= KMAX && j != k ==> lists[j] == old(lists)[j] && freelist[j] == old(freelist[j]);
    }
  }

  lemma ConsChain(v: Block, l: seq<Block>, k: nat)
    requires v.k == k && v !in l && Chain(v.next, l, k)
    ensures Chain(v, [v] + l, k)
  {
    var t := [v] + l;
    forall i | 0 <= i < |t|
      ensures t[i].k == k && t[i].next == After(t, i)
    {
      if i > 0 {
        assert t[i] == l[i - 1] && l[i - 1].next == After(l, i - 1);
      }
    }
  }

  lemma LaidLess(blocks: set<Block>, fewer: set<Block>, p: nat)
    requires Laid(blocks, p) && fewer <= blocks
    ensures Laid(fewer, p)
  {
  }
}
