/** The large-object heap of kernel/heap.c as a list of blocks: what taking and
    freeing a block does to the list, and what every run of the two keeps. */
module HeapBlocks {
  /** A block with a payload of `size` granules of 16 bytes. Its header is one granule more. */
  datatype Block = Block(size: nat, free: bool)

  /** A live allocation: where its header is and how large its payload. */
  datatype Allocation = Allocation(header: nat, size: nat)

  /** The granules that a list of blocks covers, headers included. */
  function Extent(bs: seq<Block>): nat {
    if bs == [] then 0 else 1 + bs[0].size + Extent(bs[1..])
  }

  /** Where the header of block `k` is. */
  function Pos(bs: seq<Block>, k: nat): nat
    requires k <= |bs|
  {
    Extent(bs[..k])
  }

  /** No two neighbours are both free. */
  predicate Coalesced(bs: seq<Block>) {
    forall i :: 0 <= i < |bs| - 1 ==> !(bs[i].free && bs[i + 1].free)
  }

  /** The live allocations of a list whose first header is at `base`. */
  function Live(bs: seq<Block>, base: nat): set<Allocation> {
    if bs == [] then {}
    else (if bs[0].free then {} else {Allocation(base, bs[0].size)}) + Live(bs[1..], base + 1 + bs[0].size)
  }

  lemma {:induction false} ExtentConcat(a: seq<Block>, b: seq<Block>)
    ensures Extent(a + b) == Extent(a) + Extent(b)
  {
    if a == [] {
      assert a + b == b;
    } else {
      ExtentConcat(a[1..], b);
      assert (a + b)[1..] == a[1..] + b;
    }
  }

  lemma {:induction false} LiveConcat(a: seq<Block>, b: seq<Block>, base: nat)
    ensures Live(a + b, base) == Live(a, base) + Live(b, base + Extent(a))
  {
    if a == [] {
      assert a + b == b;
    } else {
      LiveConcat(a[1..], b, base + 1 + a[0].size);
      assert (a + b)[1..] == a[1..] + b;
    }
  }

  lemma {:induction false} LiveWithin(bs: seq<Block>, base: nat, x: Allocation)
    requires x in Live(bs, base)
    ensures base <= x.header && x.header + 1 + x.size <= base + Extent(bs)
  {
    if bs != [] && !(!bs[0].free && x == Allocation(base, bs[0].size)) {
      LiveWithin(bs[1..], base + 1 + bs[0].size, x);
    }
  }

  /** Live allocations do not overlap. */
  lemma {:induction false} LiveDisjoint(bs: seq<Block>, base: nat, x: Allocation, y: Allocation)
    requires x in Live(bs, base) && y in Live(bs, base) && x != y
    ensures x.header + 1 + x.size <= y.header || y.header + 1 + y.size <= x.header
  {
    if bs != [] {
      var first := Allocation(base, bs[0].size);
      var next := base + 1 + bs[0].size;
      if !bs[0].free && x == first {
        LiveWithin(bs[1..], next, y);
      } else if !bs[0].free && y == first {
        LiveWithin(bs[1..], next, x);
      } else {
        LiveDisjoint(bs[1..], next, x, y);
      }
    }
  }

  /** What is covered and what is live, for a list in three parts. */
  lemma {:induction false} Sandwich(a: seq<Block>, t: seq<Block>, c: seq<Block>)
    ensures Extent(a + t + c) == Extent(a) + Extent(t) + Extent(c)
    ensures Live(a + t + c, 0) == Live(a, 0) + Live(t, Extent(a)) + Live(c, Extent(a) + Extent(t))
  {
    hide Extent, Live;
    ExtentConcat(a + t, c);
    ExtentConcat(a, t);
    LiveConcat(a + t, c, 0);
    LiveConcat(a, t, 0);
  }

  // ---- Taking a block ----

  /** Block `k` taken for `need` granules, the rest split off when it can hold a header and one granule. */
  function Taken(bs: seq<Block>, k: nat, need: nat): seq<Block>
    requires k < |bs| && bs[k].size >= need
  {
    bs[..k] + TakenBlock(bs[k].size, need) + bs[k + 1..]
  }

  function TakenBlock(size: nat, need: nat): (r: seq<Block>)
    requires size >= need
    ensures r != [] && !r[0].free && r[0].size >= need
  {
    if size >= need + 2 then [Block(need, false), Block(size - need - 1, true)] else [Block(size, false)]
  }

  lemma {:induction false} Three(bs: seq<Block>, k: nat)
    requires k < |bs|
    ensures bs == bs[..k] + [bs[k]] + bs[k + 1..]
  {
  }

  lemma {:induction false} ExtentOne(b: Block)
    ensures Extent([b]) == 1 + b.size
  {
    assert [b][1..] == [];
  }

  lemma {:induction false} TakenExtent(size: nat, need: nat)
    requires size >= need
    ensures Extent(TakenBlock(size, need)) == 1 + size
  {
    var r := TakenBlock(size, need);
    ExtentOne(r[0]);
    if size >= need + 2 {
      assert r[1..] == [r[1]];
      ExtentOne(r[1]);
    } else {
      assert r == [r[0]];
    }
  }

  lemma {:induction false} TakenLive(size: nat, need: nat, base: nat)
    requires size >= need
    ensures Live(TakenBlock(size, need), base) == {Allocation(base, TakenBlock(size, need)[0].size)}
  {
    hide Live, Extent;
    var r := TakenBlock(size, need);
    LiveOne(r[0], base);
    if size >= need + 2 {
      assert r == [r[0]] + [r[1]];
      LiveConcat([r[0]], [r[1]], base);
      LiveOne(r[1], base + Extent([r[0]]));
    } else {
      assert r == [r[0]];
    }
  }

  /** Taking a free block keeps the region tiled and coalesced, and adds exactly one live allocation. */
  lemma {:induction false} TakenKeeps(bs: seq<Block>, k: nat, need: nat)
    requires k < |bs| && bs[k].free && bs[k].size >= need && Coalesced(bs)
    ensures var r := Taken(bs, k, need);
      && Extent(r) == Extent(bs) && Coalesced(r)
      && Live(r, 0) == Live(bs, 0) + {Allocation(Pos(bs, k), r[k].size)}
      && need <= r[k].size <= need + 1 && !r[k].free && Pos(r, k) == Pos(bs, k)
  {
    hide Extent, Live;
    var a, t, c := bs[..k], TakenBlock(bs[k].size, need), bs[k + 1..];
    var r := Taken(bs, k, need);
    Three(bs, k);
    assert r[..k] == a && r[k] == t[0];
    Sandwich(a, [bs[k]], c);
    Sandwich(a, t, c);
    ExtentOne(bs[k]);
    TakenExtent(bs[k].size, need);
    LiveOne(bs[k], Extent(a));
    TakenLive(bs[k].size, need, Extent(a));
  }

  lemma {:induction false} LiveOne(b: Block, base: nat)
    ensures Live([b], base) == if b.free then {} else {Allocation(base, b.size)}
  {
    assert [b][1..] == [];
  }

  // ---- Freeing a block ----

  /** Where the free stretch around block `k` begins. */
  function Lo(bs: seq<Block>, k: nat): (lo: nat)
    requires k < |bs|
    ensures lo <= k
  {
    if k > 0 && bs[k - 1].free then k - 1 else k
  }

  /** Where it ends. */
  function Hi(bs: seq<Block>, k: nat): (hi: nat)
    requires k < |bs|
    ensures k < hi <= |bs|
  {
    if k + 1 < |bs| && bs[k + 1].free then k + 2 else k + 1
  }

  /** Block `k` freed: one free block covers it and its free neighbours on both sides. */
  function Freed(bs: seq<Block>, k: nat): seq<Block>
    requires k < |bs|
  {
    bs[..Lo(bs, k)] + [Joined(bs, k)] + bs[Hi(bs, k)..]
  }

  function Joined(bs: seq<Block>, k: nat): Block
    requires k < |bs|
  {
    var lo, hi := Lo(bs, k), Hi(bs, k);
    Block((if lo < k then bs[lo].size + 1 else 0) + bs[k].size + if hi > k + 1 then 1 + bs[k + 1].size else 0, true)
  }

  /** The stretch covers as much as the joined block and holds one live allocation. */
  lemma {:induction false} MiddleIs(bs: seq<Block>, k: nat, base: nat)
    requires k < |bs| && !bs[k].free
    ensures var mid := bs[Lo(bs, k)..Hi(bs, k)];
      && Extent(mid) == Extent([Joined(bs, k)])
      && Live(mid, base) == {Allocation(base + if Lo(bs, k) < k then 1 + bs[k - 1].size else 0, bs[k].size)}
  {
    hide Extent, Live;
    var lo, hi := Lo(bs, k), Hi(bs, k);
    var left, right := bs[lo..k], bs[k + 1..hi];
    assert bs[lo..hi] == left + [bs[k]] + right;
    ExtentOne(Joined(bs, k));
    ExtentConcat(left + [bs[k]], right);
    ExtentConcat(left, [bs[k]]);
    LiveConcat(left + [bs[k]], right, base);
    LiveConcat(left, [bs[k]], base);
    ExtentOne(bs[k]);
    LiveOne(bs[k], base + Extent(left));
    SideIs(left, base);
    SideIs(right, base + Extent(left) + 1 + bs[k].size);
    assert left == [] || left == [bs[k - 1]];
    assert right == [] || right == [bs[k + 1]];
  }

  lemma {:induction false} SideIs(side: seq<Block>, base: nat)
    requires |side| <= 1 && (side != [] ==> side[0].free)
    ensures Extent(side) == (if side == [] then 0 else 1 + side[0].size) && Live(side, base) == {}
  {
    if side != [] {
      assert side[1..] == [];
    }
  }

  lemma {:induction false} NotBefore(a: seq<Block>, x: Allocation)
    requires x.header >= Extent(a)
    ensures x !in Live(a, 0)
  {
    if x in Live(a, 0) { LiveWithin(a, 0, x); }
  }

  lemma {:induction false} NotAfter(c: seq<Block>, base: nat, x: Allocation)
    requires x.header < base
    ensures x !in Live(c, base)
  {
    if x in Live(c, base) { LiveWithin(c, base, x); }
  }

  /** Freeing keeps the region tiled, leaves no two free neighbours, and removes
      exactly the one allocation. */
  lemma {:induction false} FreedKeeps(bs: seq<Block>, k: nat)
    requires k < |bs| && !bs[k].free && Coalesced(bs)
    ensures var r := Freed(bs, k);
      && Extent(r) == Extent(bs) && Coalesced(r)
      && Live(r, 0) == Live(bs, 0) - {Allocation(Pos(bs, k), bs[k].size)}
      && Allocation(Pos(bs, k), bs[k].size) in Live(bs, 0)
  {
    hide Extent, Live, Coalesced, Lo, Hi, Joined;
    FreedCoalesced(bs, k);
    var lo, hi := Lo(bs, k), Hi(bs, k);
    var a, mid, c := bs[..lo], bs[lo..hi], bs[hi..];
    Parts(bs, lo, hi);
    Sandwich(a, mid, c);
    Sandwich(a, [Joined(bs, k)], c);
    MiddleIs(bs, k, Extent(a));
    JoinedFree(bs, k);
    LiveOne(Joined(bs, k), Extent(a));
    PosFromLo(bs, k);
    var x := Allocation(Pos(bs, k), bs[k].size);
    PosInMiddle(bs, k);
    NotBefore(a, x);
    NotAfter(c, Extent(a) + Extent(mid), x);
    TakeAway(Live(a, 0), x, Live(c, Extent(a) + Extent(mid)));
  }

  lemma {:induction false} Parts(bs: seq<Block>, lo: nat, hi: nat)
    requires lo <= hi <= |bs|
    ensures bs == bs[..lo] + bs[lo..hi] + bs[hi..]
  {
  }

  lemma {:induction false} TakeAway(a: set<Allocation>, x: Allocation, c: set<Allocation>)
    requires x !in a && x !in c
    ensures a + {} + c == a + {x} + c - {x}
  {
  }

  lemma {:induction false} JoinedFree(bs: seq<Block>, k: nat)
    requires k < |bs|
    ensures Joined(bs, k).free
  {
  }

  lemma {:induction false} PosInMiddle(bs: seq<Block>, k: nat)
    requires k < |bs|
    ensures Extent(bs[..Lo(bs, k)]) <= Pos(bs, k) < Extent(bs[..Lo(bs, k)]) + Extent(bs[Lo(bs, k)..Hi(bs, k)])
  {
    hide Extent;
    PosFromLo(bs, k);
    var lo, hi := Lo(bs, k), Hi(bs, k);
    assert bs[lo..hi] == bs[lo..k] + [bs[k]] + bs[k + 1..hi];
    ExtentConcat(bs[lo..k] + [bs[k]], bs[k + 1..hi]);
    ExtentConcat(bs[lo..k], [bs[k]]);
    ExtentOne(bs[k]);
    if lo < k {
      assert bs[lo..k] == [bs[k - 1]];
      ExtentOne(bs[k - 1]);
    }
  }

  lemma {:induction false} PosFromLo(bs: seq<Block>, k: nat)
    requires k < |bs|
    ensures Pos(bs, k) == Extent(bs[..Lo(bs, k)]) + if Lo(bs, k) < k then 1 + bs[k - 1].size else 0
  {
    if Lo(bs, k) < k { PosStep(bs, k - 1); }
  }

  lemma {:induction false} PosStep(bs: seq<Block>, k: nat)
    requires k < |bs|
    ensures Pos(bs, k + 1) == Pos(bs, k) + 1 + bs[k].size
  {
    hide Extent;
    assert bs[..k + 1] == bs[..k] + [bs[k]];
    ExtentConcat(bs[..k], [bs[k]]);
    ExtentOne(bs[k]);
  }

  lemma {:induction false} FreedCoalesced(bs: seq<Block>, k: nat)
    requires k < |bs| && Coalesced(bs)
    ensures Coalesced(Freed(bs, k))
  {
    var lo, hi := Lo(bs, k), Hi(bs, k);
    var r := Freed(bs, k);
    assert lo > 0 ==> !bs[lo - 1].free by {
      if 0 < lo < k { assert bs[lo - 1 + 1].free; }
    }
    assert hi < |bs| ==> !bs[hi].free by {
      if k + 1 < hi < |bs| { assert bs[k + 1].free && hi == k + 1 + 1; }
    }
    forall i | 0 <= i < |r| - 1
      ensures !(r[i].free && r[i + 1].free)
    {
      if i + 1 < lo {
        assert r[i] == bs[i] && r[i + 1] == bs[i + 1];
      } else if i > lo {
        assert r[i] == bs[i - lo - 1 + hi] && r[i + 1] == bs[i - lo - 1 + hi + 1];
      }
    }
  }

  /** With everything freed, the heap is one free block over the whole region. */
  lemma {:induction false} AllFreeIsOne(bs: seq<Block>)
    requires Coalesced(bs) && bs != [] && Live(bs, 0) == {}
    ensures bs == [Block(Extent(bs) - 1, true)]
  {
    AllFree(bs, 0);
    if |bs| > 1 { TwoFree(bs); }
    ExtentOne(bs[0]);
    assert bs == [bs[0]];
  }

  lemma {:induction false} TwoFree(bs: seq<Block>)
    requires |bs| > 1 && bs[0].free && bs[1].free
    ensures !Coalesced(bs)
  {
    assert bs[0 + 1].free;
  }

  lemma {:induction false} AllFree(bs: seq<Block>, base: nat)
    requires Live(bs, base) == {}
    ensures forall i :: 0 <= i < |bs| ==> bs[i].free
  {
    if bs != [] {
      assert Allocation(base, bs[0].size) !in Live(bs, base);
      AllFree(bs[1..], base + 1 + bs[0].size);
    }
  }
}
