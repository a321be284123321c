/** What memory looks like once the merge loop of kernel/pmm.c has taken a buddy
    for more than it is. Links between pages stay sound, but one list keeps a page
    that the merged block covers, or the merged block covers a page that was not
    free; and no later step mends that. */
module BuddyBroken {
  import opened Bits
  import opened Dyadic
  import opened FreeLists
  import opened BuddyModel

  /** After freeing (x, o), every page that was not free and is not in the block
      belongs to what it belonged to before. */
  ghost predicate OthersKept(owner: seq<Owner>, owner': seq<Owner>, x: nat, o: nat) {
    |owner'| == |owner|
    && forall p :: 0 <= p < |owner| && !InBlock(p, x, o) && !owner[p].Free? ==> owner'[p] == owner[p]
  }

  /** The memory with list heads that agree with the links. */
  ghost function Straight(m: Mem, lists: seq<seq<nat>>): (r: Mem)
    requires m.Shape() && |lists| == MAX_ORDER + 1
    ensures r.Shape()
  {
    m.(heads := seq(MAX_ORDER + 1, o requires 0 <= o <= MAX_ORDER => At(lists[o], 0)))
  }

  /** Every list holds only heads of free blocks of its order. */
  ghost predicate Sorted(owner: seq<Owner>, lists: seq<seq<nat>>)
    requires |lists| == MAX_ORDER + 1
  {
    forall o: nat, i: nat {:trigger i in lists[o]} :: o <= MAX_ORDER && i in lists[o] ==>
      i < |owner| && owner[i] == Free(o, i)
  }

  /** All free blocks headed outside the region are listed; the region's head is not. */
  ghost predicate Outside(owner: seq<Owner>, lists: seq<seq<nat>>, idx: nat, ord: nat)
    requires |lists| == MAX_ORDER + 1
  {
    && (forall o: nat, i: nat {:trigger i in lists[o]} ::
          o <= MAX_ORDER && i < |owner| && owner[i] == Free(o, i) && !InBlock(i, idx, ord) ==> i in lists[o])
    && (forall o: nat :: o <= MAX_ORDER ==> idx !in lists[o])
  }

  /** Links are sound for some lists, whose heads are right from order `ord` up. */
  ghost predicate Loose(m: Mem, owner: seq<Owner>, lists: seq<seq<nat>>, idx: nat, ord: nat) {
    && m.Shape() && |lists| == MAX_ORDER + 1 && |owner| == |m.next|
    && Links(Straight(m, lists), lists) && Sorted(owner, lists) && Outside(owner, lists, idx, ord)
    && forall o: nat :: ord <= o <= MAX_ORDER ==> m.heads[o] == At(lists[o], 0)
  }

  /** List `k` still leads to a page of the region. */
  ghost predicate Stuck(m: Mem, lists: seq<seq<nat>>, idx: nat, ord: nat, k: nat)
    requires m.Shape() && |lists| == MAX_ORDER + 1
  {
    && k < ord <= MAX_ORDER
    && (InBlock(m.heads[k], idx, ord)
        || (m.heads[k] == At(lists[k], 0) && exists z: nat :: z in lists[k] && InBlock(z, idx, ord)))
  }

  /** Page `q` of the region is neither free nor part of the block being freed. */
  ghost predicate Overrun(owner: seq<Owner>, x: nat, o: nat, idx: nat, ord: nat, q: nat) {
    InBlock(q, idx, ord) && !InBlock(q, x, o) && (q >= |owner| || !owner[q].Free?)
  }

  /** Some list leads into the region, or the region covers a page that was not free. */
  ghost predicate Wedged(m: Mem, owner: seq<Owner>, lists: seq<seq<nat>>, x: nat, o: nat, idx: nat, ord: nat)
    requires m.Shape() && |lists| == MAX_ORDER + 1
  {
    (exists k :: Stuck(m, lists, idx, ord, k)) || (exists q :: Overrun(owner, x, o, idx, ord, q))
  }

  ghost predicate Broken(m: Mem, owner: seq<Owner>, lists: seq<seq<nat>>, x: nat, o: nat, idx: nat, ord: nat) {
    Loose(m, owner, lists, idx, ord) && Wedged(m, owner, lists, x, o, idx, ord)
  }

  lemma {:induction false} LooseParts(m: Mem, owner: seq<Owner>, lists: seq<seq<nat>>, idx: nat, ord: nat)
    requires Loose(m, owner, lists, idx, ord)
    ensures m.Shape() && |lists| == MAX_ORDER + 1 && |owner| == |m.next|
  {
  }

  lemma {:induction false} SortedDisjoint(owner: seq<Owner>, lists: seq<seq<nat>>)
    requires |lists| == MAX_ORDER + 1 && Sorted(owner, lists)
    ensures Disjoint(lists)
  {
    forall o1: nat, o2: nat, i: nat | o1 < |lists| && o2 < |lists| && i in lists[o1] &&
      i in lists[o2] ensures o1 == o2 {
      assert owner[i] == Free(o1, i) && owner[i] == Free(o2, i);
    }
  }

  /** Unlinking a page changes the links as if it were done on the page's own list. */
  lemma {:induction false} UnlinkLoose(m: Mem, lists: seq<seq<nat>>, j: nat, p: nat, ord: nat)
    requires m.Shape() && |lists| == MAX_ORDER + 1 && j <= MAX_ORDER && ord <= MAX_ORDER && p < |lists[j]|
    requires Links(Straight(m, lists), lists) && Disjoint(lists)
    ensures lists[j][p] < |m.next|
    ensures var y, lists' := lists[j][p], lists[j := Without(lists[j], p)];
      Links(Straight(RemoveMem(m, ord, y), lists'), lists')
  {
    hide Linked, Disjoint;
    RemoveLinks(Straight(m, lists), lists, j, p);
    var y, lists' := lists[j][p], lists[j := Without(lists[j], p)];
    SameLinks(RemoveMem(Straight(m, lists), j, y), RemoveMem(m, ord, y), lists');
  }

  lemma {:induction false} SameLinks(a: Mem, b: Mem, lists: seq<seq<nat>>)
    requires Links(a, lists) && b.Shape() && b.next == a.next && b.prev == a.prev
    ensures Links(Straight(b, lists), lists)
  {
    forall o: nat | o <= MAX_ORDER ensures Linked(b.next, b.prev, At(lists[o], 0), lists[o]) {
      assert Linked(a.next, a.prev, a.heads[o], lists[o]);
    }
  }

  /** A merge step on the buddy `y`, whose own order may be smaller than the list's. */
  lemma {:induction false} LooseStep(m: Mem, owner: seq<Owner>, lists: seq<seq<nat>>, idx: nat, ord: nat, y: nat,
      j: nat, p: nat)
    requires Loose(m, owner, lists, idx, ord) && ord < MAX_ORDER && j <= ord && Aligned(idx, ord)
    requires y == Buddy(idx, ord)
    requires p < |lists[j]| && lists[j][p] == y
    ensures y < |m.next|
    ensures Loose(RemoveMem(m, ord, y), owner, lists[j := Without(lists[j], p)], Lower(idx, y), ord + 1)
  {
    SortedDisjoint(owner, lists);
    UnlinkLoose(m, lists, j, p, ord);
    BuddyHalves(idx, ord);
    PowerPositive(ord);
    assert Linked(m.next, m.prev, At(lists[j], 0), lists[j]);
    hide Links, Linked, Aligned, Pow2, Buddy, At, Disjoint;
    var lists' := lists[j := Without(lists[j], p)];
    StillSorted(owner, lists, j, p, idx, ord, y);
  }

  lemma {:induction false} StillSorted(owner: seq<Owner>, lists: seq<seq<nat>>, j: nat, p: nat, idx: nat, ord: nat,
      y: nat)
    requires |lists| == MAX_ORDER + 1 && j <= MAX_ORDER && p < |lists[j]| && lists[j][p] == y && Distinct(lists[j])
    requires Sorted(owner, lists) && Outside(owner, lists, idx, ord)
    requires y == idx + Pow2(ord) || idx == y + Pow2(ord)
    ensures Sorted(owner, lists[j := Without(lists[j], p)])
    ensures Outside(owner, lists[j := Without(lists[j], p)], Lower(idx, y), ord + 1)
  {
    var lists', l := lists[j := Without(lists[j], p)], Lower(idx, y);
    PowerPositive(ord);
    hide Pow2, Distinct, Without;
    assert y in lists[j] && owner[y] == Free(j, y);
    forall o: nat, i: nat | o <= MAX_ORDER ensures i in lists'[o] <==> i in lists[o] && i != y {
      if o == j {
        InWithout(lists[j], p, i);
      } else if i in lists[o] {
        assert owner[i] == Free(o, i);
      }
    }
  }

  /** A list that leads into the region goes on doing so. */
  lemma {:induction false} StuckStep(m: Mem, owner: seq<Owner>, lists: seq<seq<nat>>, idx: nat, ord: nat, y: nat,
      j: nat, p: nat, k: nat)
    requires Loose(m, owner, lists, idx, ord) && ord < MAX_ORDER && j <= ord
    requires (y == idx + Pow2(ord) || idx == y + Pow2(ord))
    requires p < |lists[j]| && lists[j][p] == y && y < |m.next| && Stuck(m, lists, idx, ord, k)
    ensures Stuck(RemoveMem(m, ord, y), lists[j := Without(lists[j], p)], Lower(idx, y), ord + 1, k)
  {
    hide Stuck, Pow2, Sorted, Outside, At;
    assert Linked(m.next, m.prev, Straight(m, lists).heads[j], lists[j]);
    StuckKeeps(m, lists, idx, ord, y, j, p, k);
  }

  lemma {:induction false} StuckKeeps(m: Mem, lists: seq<seq<nat>>, idx: nat, ord: nat, y: nat, j: nat, p: nat, k: nat)
    requires m.Shape() && |lists| == MAX_ORDER + 1 && ord < MAX_ORDER && j <= ord
    requires (y == idx + Pow2(ord) || idx == y + Pow2(ord)) && Distinct(lists[j])
    requires p < |lists[j]| && lists[j][p] == y && y < |m.next| && Stuck(m, lists, idx, ord, k)
    ensures Stuck(RemoveMem(m, ord, y), lists[j := Without(lists[j], p)], Lower(idx, y), ord + 1, k)
  {
    PowerPositive(ord);
    hide Pow2, UnlinkNext, UnlinkPrev, Distinct;
    var l, lists' := Lower(idx, y), lists[j := Without(lists[j], p)];
    if !InBlock(m.heads[k], l, ord + 1) {
      var z: nat :| z in lists[k] && InBlock(z, idx, ord);
      if k == j {
        InWithout(lists[j], p, z);
        AtWithout(lists[j], p, 0);
      }
      assert z in lists'[k];
    }
  }

  /** The first wrong step: the buddy heads a free block smaller than the list's. */
  lemma {:induction false} FirstBroken(m: Mem, owner: seq<Owner>, lists: seq<seq<nat>>, x: nat, o: nat, idx: nat,
      ord: nat, y: nat, j: nat, p: nat)
    requires Loose(m, owner, lists, idx, ord) && ord < MAX_ORDER && j < ord && Aligned(idx, ord) && y == Buddy(idx, ord)
    requires p < |lists[j]| && lists[j][p] == y && Partition(owner)
    requires forall k: nat :: k <= MAX_ORDER ==> m.heads[k] == At(lists[k], 0)
    requires idx <= x && x + Pow2(o) <= idx + Pow2(ord)
    ensures y < |m.next|
    ensures Broken(RemoveMem(m, ord, y), owner, lists[j := Without(lists[j], p)], x, o, Lower(idx, y), ord + 1)
  {
    LooseStep(m, owner, lists, idx, ord, y, j, p);
    BuddyHalves(idx, ord);
    if p == 0 {
      HeadStays(m, lists, idx, ord, y, j);
    } else {
      assert y in lists[j] && owner[y] == Free(j, y);
      PieceBehind(m, owner, lists, x, o, idx, ord, y, j, p);
    }
    hide Loose, Stuck, Overrun, RemoveMem, Lower, Aligned, Buddy, Partition;
  }

  /** The rest of the region the step took: free and still listed, or not free at all. */
  lemma {:induction false} PieceBehind(m: Mem, owner: seq<Owner>, lists: seq<seq<nat>>, x: nat, o: nat, idx: nat,
      ord: nat, y: nat, j: nat, p: nat)
    requires Loose(m, owner, lists, idx, ord) && ord < MAX_ORDER && j < ord && Aligned(y, ord)
    requires y == idx + Pow2(ord) || idx == y + Pow2(ord)
    requires 0 < p < |lists[j]| && lists[j][p] == y && Partition(owner) && y < |owner| && owner[y] == Free(j, y)
    requires forall k: nat :: k <= MAX_ORDER ==> m.heads[k] == At(lists[k], 0)
    requires idx <= x && x + Pow2(o) <= idx + Pow2(ord)
    ensures Wedged(RemoveMem(m, ord, y), owner, lists[j := Without(lists[j], p)], x, o, Lower(idx, y), ord + 1)
  {
    hide Aligned, Partition, Loose, Without, At, Pow2, RemoveMem, Stuck, Overrun, Lower;
    LooseParts(m, owner, lists, idx, ord);
    Pow2Half(j, ord);
    var z := y + Pow2(j);
    if z >= |owner| || !owner[z].Free? {
      OverrunAt(owner, x, o, idx, ord, y, z);
    } else {
      var k := NextPiece(owner, y, ord, j);
      KeepsPiece(m, owner, lists, idx, ord, y, j, p, z, k);
    }
  }

  lemma {:induction false} HeadStays(m: Mem, lists: seq<seq<nat>>, idx: nat, ord: nat, y: nat, j: nat)
    requires m.Shape() && |lists| == MAX_ORDER + 1 && ord < MAX_ORDER && j < ord && y < |m.next|
    requires y == idx + Pow2(ord) || idx == y + Pow2(ord)
    requires 0 < |lists[j]| && lists[j][0] == y && m.heads[j] == At(lists[j], 0)
    ensures Stuck(RemoveMem(m, ord, y), lists[j := Without(lists[j], 0)], Lower(idx, y), ord + 1, j)
  {
    PowerPositive(ord);
    hide Pow2, UnlinkNext, UnlinkPrev, Without;
  }

  lemma {:induction false} OverrunAt(owner: seq<Owner>, x: nat, o: nat, idx: nat, ord: nat, y: nat, z: nat)
    requires y == idx + Pow2(ord) || idx == y + Pow2(ord)
    requires y <= z < y + Pow2(ord) && (z >= |owner| || !owner[z].Free?)
    requires idx <= x && x + Pow2(o) <= idx + Pow2(ord)
    ensures Overrun(owner, x, o, Lower(idx, y), ord + 1, z)
  {
    PowerPositive(ord);
    hide Pow2;
  }

  lemma {:induction false} Pow2Half(j: nat, ord: nat)
    requires j < ord
    ensures 0 < Pow2(j) && 2 * Pow2(j) <= Pow2(ord)
  {
    Pow2Monotone(j + 1, ord);
  }

  /** The page behind a small free block at an aligned place heads a block that is no larger. */
  lemma {:induction false} NextPiece(owner: seq<Owner>, y: nat, ord: nat, j: nat) returns (k: nat)
    requires Partition(owner) && Aligned(y, ord) && j < ord && y < |owner| && owner[y] == Free(j, y)
    requires y + Pow2(j) < |owner| && owner[y + Pow2(j)].Free?
    ensures k <= j && owner[y + Pow2(j)] == Free(k, y + Pow2(j))
  {
    var z := y + Pow2(j);
    AlignedLess(y, ord, j + 1);
    Halves(y, j);
    PowerPositive(j);
    k := owner[z].o;
    assert BlockOk(owner, z);
    hide Aligned, Pow2, Buddy, Partition;
    if k > j {
      Nested(z, y, j + 1, owner[z].h, k);
      Covers(owner, z, y);
    } else {
      AlignedLess(z, j, k);
      StartsAt(z, owner[z].h, k);
    }
  }

  lemma {:induction false} Covers(owner: seq<Owner>, p: nat, q: nat)
    requires p < |owner| && BlockOk(owner, p) && !owner[p].None? && InBlock(q, owner[p].h, owner[p].o)
    ensures q < |owner| && owner[q] == owner[p]
  {
  }

  lemma {:induction false} KeepsPiece(m: Mem, owner: seq<Owner>, lists: seq<seq<nat>>, idx: nat, ord: nat, y: nat,
      j: nat, p: nat, z: nat, k: nat)
    requires Loose(m, owner, lists, idx, ord) && ord < MAX_ORDER && j < ord && 0 < p < |lists[j]| && lists[j][p] == y
    requires y < |m.next| && (y == idx + Pow2(ord) || idx == y + Pow2(ord)) && y < z < y + Pow2(ord) && k <= j
    requires z < |owner| && owner[z] == Free(k, z) && m.heads[k] == At(lists[k], 0)
    ensures Stuck(RemoveMem(m, ord, y), lists[j := Without(lists[j], p)], Lower(idx, y), ord + 1, k)
  {
    PowerPositive(ord);
    assert z in lists[k];
    assert Linked(m.next, m.prev, At(lists[j], 0), lists[j]);
    hide Loose, Pow2, UnlinkNext, UnlinkPrev;
    if k == j {
      InWithout(lists[j], p, z);
      AtWithout(lists[j], p, 0);
    }
    assert z in lists[j := Without(lists[j], p)][k];
  }

  /** Listing the merged block touches no other list. */
  lemma {:induction false} PushLoose(m: Mem, owner: seq<Owner>, lists: seq<seq<nat>>, idx: nat, ord: nat)
    requires Loose(m, owner, lists, idx, ord) && ord <= MAX_ORDER && idx < |m.next|
    ensures Links(Straight(PushMem(m, ord, idx), lists[ord := [idx] + lists[ord]]), lists[ord := [idx] + lists[ord]])
  {
    SortedDisjoint(owner, lists);
    hide Linked, Disjoint;
    var a := Straight(m, lists);
    PushLinks(a, lists, ord, idx);
    SameLinks(PushMem(a, ord, idx), PushMem(m, ord, idx), lists[ord := [idx] + lists[ord]]);
  }

  /** Two lists spelled by the same links from the same head are the same. */
  lemma {:induction false} SameList(next: seq<nat>, prev: seq<nat>, h: nat, s: seq<nat>, t: seq<nat>, i: nat)
    requires Linked(next, prev, h, s) && Linked(next, prev, h, t) && i < |s|
    ensures i < |t| && t[i] == s[i]
  {
    if i > 0 { SameList(next, prev, h, s, t, i - 1); }
  }

  /** No bookkeeping that keeps the other blocks fits memory that is broken. */
  lemma {:induction false} BrokenForGood(m: Mem, owner: seq<Owner>, lists: seq<seq<nat>>, x: nat, o: nat, idx: nat,
      ord: nat, m': Mem, b': Book)
    requires Broken(m, owner, lists, x, o, idx, ord) && ord <= MAX_ORDER && idx < |m.next|
    requires m'.Shape() && m' == PushMem(m, ord, idx).(bmp := m'.bmp)
    ensures !(Core(m', b') && OthersKept(owner, b'.owner, x, o))
  {
    PushLoose(m, owner, lists, idx, ord);
    hide Loose, Links, Pow2, Partition, ListsMatch;
    if Core(m', b') && OthersKept(owner, b'.owner, x, o) {
      BlockAtHead(m', b', ord, idx);
      forall k: nat ensures !Stuck(m, lists, idx, ord, k) {
        if k < ord { NotStuck(m, lists, idx, ord, k, m', b'); }
      }
    }
  }

  /** What heads a list heads a free block of its order. */
  lemma {:induction false} BlockAtHead(m: Mem, b: Book, ord: nat, idx: nat)
    requires Core(m, b) && ord <= MAX_ORDER && m.heads[ord] == idx < |m.next|
    ensures idx + Pow2(ord) <= |m.next| && forall p :: InBlock(p, idx, ord) ==> b.owner[p] == Free(ord, idx)
  {
    assert Linked(m.next, m.prev, m.heads[ord], b.lists[ord]);
    hide Linked, Pow2, Aligned;
    assert idx in b.lists[ord];
    BlockClosed(b.owner, idx, ord);
  }

  lemma {:induction false} NotStuck(m: Mem, lists: seq<seq<nat>>, idx: nat, ord: nat, k: nat, m': Mem, b': Book)
    requires m.Shape() && |lists| == MAX_ORDER + 1 && k < ord <= MAX_ORDER && idx < |m.next|
    requires m'.Shape() && m' == PushMem(m, ord, idx).(bmp := m'.bmp)
    requires Links(Straight(PushMem(m, ord, idx), lists[ord := [idx] + lists[ord]]), lists[ord := [idx] + lists[ord]])
    requires Core(m', b') && idx + Pow2(ord) <= |m.next|
    requires forall p :: InBlock(p, idx, ord) ==> b'.owner[p] == Free(ord, idx)
    ensures !Stuck(m, lists, idx, ord, k)
  {
    var r, lists' := PushMem(m, ord, idx), lists[ord := [idx] + lists[ord]];
    assert Linked(r.next, r.prev, Straight(r, lists').heads[k], lists'[k]);
    assert Linked(m'.next, m'.prev, m'.heads[k], b'.lists[k]);
    assert m'.heads[k] == m.heads[k];
    hide Linked, Pow2, Links, Partition;
    if InBlock(m.heads[k], idx, ord) {
      PowerPositive(k);
      BlockAtHead(m', b', k, m.heads[k]);
    }
    forall z: nat | m.heads[k] == At(lists[k], 0) && z in lists[k] ensures !InBlock(z, idx, ord) {
      var i :| 0 <= i < |lists[k]| && lists[k][i] == z;
      SameList(m'.next, m'.prev, m'.heads[k], lists[k], b'.lists[k], i);
      assert z in b'.lists[k];
    }
  }

  /** A broken memory stays broken through every further step of the loop. */
  lemma {:induction false} BrokenStep(m: Mem, owner: seq<Owner>, lists: seq<seq<nat>>, x: nat, o: nat, idx: nat,
      ord: nat, y: nat, j: nat, p: nat)
    requires Broken(m, owner, lists, x, o, idx, ord) && ord < MAX_ORDER && j <= ord && Aligned(idx, ord)
    requires y == Buddy(idx, ord)
    requires p < |lists[j]| && lists[j][p] == y
    ensures y < |m.next|
    ensures Broken(RemoveMem(m, ord, y), owner, lists[j := Without(lists[j], p)], x, o, Lower(idx, y), ord + 1)
  {
    LooseStep(m, owner, lists, idx, ord, y, j, p);
    BuddyHalves(idx, ord);
    PowerPositive(ord);
    hide Loose, Aligned, Buddy, Pow2, RemoveMem, Stuck;
    if k :| Stuck(m, lists, idx, ord, k) {
      StuckStep(m, owner, lists, idx, ord, y, j, p, k);
    } else {
      var q :| Overrun(owner, x, o, idx, ord, q);
      assert Overrun(owner, x, o, Lower(idx, y), ord + 1, q);
    }
  }

  /** Only links and heads matter. */
  lemma {:induction false} BrokenBits(m: Mem, m': Mem, owner: seq<Owner>, lists: seq<seq<nat>>, x: nat, o: nat,
      idx: nat, ord: nat)
    requires Broken(m, owner, lists, x, o, idx, ord) && m'.Shape() && m' == m.(bmp := m'.bmp)
    ensures Broken(m', owner, lists, x, o, idx, ord)
  {
    SameLinks(Straight(m, lists), m', lists);
    hide Linked, Links, Pow2, InBlock;
    if k :| Stuck(m, lists, idx, ord, k) {
      assert Stuck(m', lists, idx, ord, k);
    }
  }

  /** Before the first wrong step everything is where the bookkeeping says. */
  lemma {:induction false} IntactLoose(m: Mem, b: Book, owner: seq<Owner>, idx: nat, ord: nat)
    requires Core(m, b) && ord <= MAX_ORDER && idx < |owner| && b.owner == SetBlock(owner, idx, ord, Live(ord, idx))
    ensures Loose(m, owner, b.lists, idx, ord)
    ensures forall k: nat :: k <= MAX_ORDER ==> m.heads[k] == At(b.lists[k], 0)
  {
    PowerPositive(ord);
    SameLinks(m, m, b.lists);
    hide Partition, Pow2;
    forall k: nat | k <= MAX_ORDER ensures m.heads[k] == At(b.lists[k], 0) && idx !in b.lists[k] {
      assert Linked(m.next, m.prev, m.heads[k], b.lists[k]);
      assert b.owner[idx] == Live(ord, idx);
    }
    forall k: nat, i: nat | k <= MAX_ORDER && i in b.lists[k] ensures i < |owner| && owner[i] == Free(k, i) {
    }
  }
}
