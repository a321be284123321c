/** The buddy allocator's memory as values: links, list heads and the free
    bitmap, and the bookkeeping that says which block every page belongs to. */
module BuddyModel {
  import opened Bits
  import opened Dyadic
  import opened FreeLists

  const MAX_ORDER := 10

  /** What a page belongs to: nothing, or the free or live block of 2^o pages starting at `h`. */
  datatype Owner = None | Free(o: nat, h: nat) | Live(o: nat, h: nat)

  /** The bitmap is sized for the largest machine, so it reaches beyond the last page. */
  datatype Mem = Mem(next: seq<nat>, prev: seq<nat>, heads: seq<nat>, bmp: seq<bool>) {
    predicate Shape() {
      |next| == |prev| <= NIL && |heads| == MAX_ORDER + 1 && |bmp| >= |next| + Pow2(MAX_ORDER)
    }
  }

  datatype Book = Book(owner: seq<Owner>, lists: seq<seq<nat>>)

  // ---- The partition ----

  /** The block of page `p` is an aligned block of the range, and all its pages say so. */
  ghost predicate BlockOk(owner: seq<Owner>, p: nat)
    requires p < |owner|
  {
    var w := owner[p];
    w.None? || (
      && w.o <= MAX_ORDER && Aligned(w.h, w.o) && InBlock(p, w.h, w.o) && w.h + Pow2(w.o) <= |owner|
      && forall q :: InBlock(q, w.h, w.o) ==> owner[q] == w)
  }

  /** Every page is in at most one block: blocks are disjoint because a page has one owner. */
  ghost predicate Partition(owner: seq<Owner>) {
    forall p :: 0 <= p < |owner| ==> BlockOk(owner, p)
  }

  /** Gives the pages of a block a new owner. */
  ghost function SetBlock(owner: seq<Owner>, h: nat, o: nat, w: Owner): (r: seq<Owner>)
    ensures |r| == |owner|
    ensures forall p :: 0 <= p < |owner| ==> r[p] == if InBlock(p, h, o) then w else owner[p]
  {
    seq(|owner|, p requires 0 <= p < |owner| => if InBlock(p, h, o) then w else owner[p])
  }

  /** No block reaches across the border of the region. */
  ghost predicate Closed(owner: seq<Owner>, h: nat, o: nat)
  {
    && h + Pow2(o) <= |owner|
    && forall p, q :: InBlock(p, h, o) && 0 <= q < |owner| && owner[q] == owner[p] && !owner[p].None? ==>
      InBlock(q, h, o)
  }

  /** A block whose pages keep their owner stays a block. */
  lemma {:induction false} BlockKept(owner: seq<Owner>, r: seq<Owner>, p: nat)
    requires |r| == |owner| && p < |owner| && BlockOk(owner, p) && r[p] == owner[p]
    requires forall q :: 0 <= q < |owner| && owner[q] == owner[p] && !owner[p].None? ==> r[q] == owner[q]
    ensures BlockOk(r, p)
  {
    if !owner[p].None? {
      forall q | InBlock(q, owner[p].h, owner[p].o)
        ensures r[q] == r[p]
      {
        assert owner[q] == owner[p];
      }
    }
  }

  lemma {:induction false} SetBlockPartition(owner: seq<Owner>, h: nat, o: nat, w: Owner)
    requires Partition(owner) && o <= MAX_ORDER && Aligned(h, o) && Closed(owner, h, o)
    requires w == Free(o, h) || w == Live(o, h)
    ensures Partition(SetBlock(owner, h, o, w))
  {
    hide Aligned, Pow2;
    var r := SetBlock(owner, h, o, w);
    forall p | 0 <= p < |r|
      ensures BlockOk(r, p)
    {
      if InBlock(p, h, o) {
        assert r[p] == w;
      } else {
        assert BlockOk(owner, p);
        BlockKept(owner, r, p);
      }
    }
  }

  /** A block on its own is closed. */
  lemma {:induction false} BlockClosed(owner: seq<Owner>, h: nat, o: nat)
    requires Partition(owner) && h < |owner| && (owner[h] == Free(o, h) || owner[h] == Live(o, h))
    ensures Closed(owner, h, o) && o <= MAX_ORDER && Aligned(h, o)
    ensures forall p :: InBlock(p, h, o) ==> owner[p] == owner[h]
  {
    assert BlockOk(owner, h);
    forall p, q | InBlock(p, h, o) && 0 <= q < |owner| && owner[q] == owner[p]
      ensures InBlock(q, h, o)
    {
      assert BlockOk(owner, q);
    }
  }

  /** Two closed halves make a closed block. */
  lemma {:induction false} PairClosed(owner: seq<Owner>, m: nat, o: nat)
    requires Closed(owner, m, o) && Closed(owner, m + Pow2(o), o)
    ensures Closed(owner, m, o + 1)
  {
  }

  /** Cuts a block in two halves with owners `a` and `b`. */
  lemma {:induction false} SplitPartition(owner: seq<Owner>, h: nat, o: nat, a: Owner, b: Owner)
    requires Partition(owner) && o < MAX_ORDER && h < |owner| && owner[h] == Live(o + 1, h)
    requires (a == Free(o, h) || a == Live(o, h)) && (b == Free(o, h + Pow2(o)) || b == Live(o, h + Pow2(o)))
    ensures Partition(SetBlock(SetBlock(owner, h, o, a), h + Pow2(o), o, b))
  {
    BlockClosed(owner, h, o + 1);
    Halves(h, o);
    assert Pow2(o + 1) == 2 * Pow2(o);
    hide Aligned, Pow2;
    var r := SetBlock(SetBlock(owner, h, o, a), h + Pow2(o), o, b);
    forall p | 0 <= p < |r|
      ensures BlockOk(r, p)
    {
      if InBlock(p, h, o) {
        assert r[p] == a;
      } else if InBlock(p, h + Pow2(o), o) {
        assert r[p] == b;
      } else {
        assert BlockOk(owner, p);
        BlockKept(owner, r, p);
      }
    }
  }

  // ---- Lists and links ----

  /** The list of order `o` holds exactly the heads of the free blocks of that order. */
  ghost predicate ListsMatch(owner: seq<Owner>, lists: seq<seq<nat>>) {
    && |lists| == MAX_ORDER + 1
    && forall o: nat, i: nat {:trigger i in lists[o]} :: o <= MAX_ORDER ==>
      (i in lists[o] <==> i < |owner| && owner[i] == Free(o, i))
  }

  ghost predicate Links(m: Mem, lists: seq<seq<nat>>) {
    && m.Shape() && |lists| == MAX_ORDER + 1
    && forall o: nat :: o <= MAX_ORDER ==> Linked(m.next, m.prev, m.heads[o], lists[o])
  }

  ghost predicate Core(m: Mem, b: Book) {
    m.Shape() && |b.owner| == |m.next| && Partition(b.owner) && ListsMatch(b.owner, b.lists) && Links(m, b.lists)
  }

  ghost predicate BitsMatch(bmp: seq<bool>, owner: seq<Owner>) {
    |bmp| >= |owner| && forall p :: 0 <= p < |bmp| ==> (bmp[p] <==> p < |owner| && owner[p].Free?)
  }

  /** The allocator's invariant: blocks partition the pages they cover, the free
      lists are well linked and list exactly the free blocks, and a page's bit
      is set exactly when it lies in a free block. */
  ghost predicate Inv(m: Mem, b: Book) {
    Core(m, b) && BitsMatch(m.bmp, b.owner)
  }

  /** list_push. */
  function PushMem(m: Mem, o: nat, x: nat): (r: Mem)
    requires m.Shape() && o <= MAX_ORDER && x < |m.next|
    ensures r.Shape() && r.bmp == m.bmp
  {
    var h := m.heads[o];
    var prev := m.prev[x := NIL];
    Mem(m.next[x := h], if h < |prev| then prev[h := x] else prev, m.heads[o := x], m.bmp)
  }

  /** list_remove. */
  function RemoveMem(m: Mem, o: nat, x: nat): (r: Mem)
    requires m.Shape() && o <= MAX_ORDER && x < |m.next|
    ensures r.Shape() && r.bmp == m.bmp
  {
    var before, after := m.prev[x], m.next[x];
    Mem(UnlinkNext(m.next, before, after), UnlinkPrev(m.prev, before, after),
        if before == NIL then m.heads[o := after] else m.heads, m.bmp)
  }

  ghost predicate Disjoint(lists: seq<seq<nat>>) {
    forall o1: nat, o2: nat, i: nat :: o1 < |lists| && o2 < |lists| && i in lists[o1] && i in lists[o2] ==> o1 == o2
  }

  lemma {:induction false} MatchDisjoint(owner: seq<Owner>, lists: seq<seq<nat>>)
    requires ListsMatch(owner, lists)
    ensures Disjoint(lists)
  {
    forall o1: nat, o2: nat, i: nat | o1 < |lists| && o2 < |lists| && i in lists[o1] && i in lists[o2]
      ensures o1 == o2
    {
      assert owner[i] == Free(o1, i);
      assert owner[i] == Free(o2, i);
    }
  }

  lemma {:induction false} PushLinks(m: Mem, lists: seq<seq<nat>>, o: nat, x: nat)
    requires Links(m, lists) && Disjoint(lists) && o <= MAX_ORDER && x < |m.next|
    requires forall j: nat :: j <= MAX_ORDER ==> x !in lists[j]
    ensures Links(PushMem(m, o, x), lists[o := [x] + lists[o]])
  {
    var r, h := PushMem(m, o, x), m.heads[o];
    PushLinked(m.next, m.prev, h, lists[o], x);
    assert Linked(m.next, m.prev, h, lists[o]);
    forall j: nat | j <= MAX_ORDER && j != o
      ensures Linked(r.next, r.prev, r.heads[j], lists[j])
    {
      PushElsewhere(m, lists, o, x, j);
    }
  }

  lemma {:induction false} PushElsewhere(m: Mem, lists: seq<seq<nat>>, o: nat, x: nat, j: nat)
    requires Links(m, lists) && Disjoint(lists) && o <= MAX_ORDER && x < |m.next| && j <= MAX_ORDER && j != o
    requires x !in lists[j]
    ensures var r := PushMem(m, o, x); Linked(r.next, r.prev, r.heads[j], lists[j])
  {
    var r, h := PushMem(m, o, x), m.heads[o];
    assert Linked(m.next, m.prev, h, lists[o]) && Linked(m.next, m.prev, m.heads[j], lists[j]);
    if h < |m.next| {
      assert h == lists[o][0];
      assert h !in lists[j];
    }
    LinkedFrame(m.next, m.prev, r.next, r.prev, m.heads[j], lists[j]);
  }

  lemma {:induction false} RemoveLinks(m: Mem, lists: seq<seq<nat>>, o: nat, k: nat)
    requires Links(m, lists) && Disjoint(lists) && o <= MAX_ORDER && k < |lists[o]|
    ensures lists[o][k] < |m.next|
    ensures Links(RemoveMem(m, o, lists[o][k]), lists[o := Without(lists[o], k)])
  {
    assert Linked(m.next, m.prev, m.heads[o], lists[o]);
    RemoveLinked(m.next, m.prev, m.heads[o], lists[o], k);
    var r := RemoveMem(m, o, lists[o][k]);
    forall j: nat | j <= MAX_ORDER && j != o
      ensures Linked(r.next, r.prev, r.heads[j], lists[j])
    {
      RemoveElsewhere(m, lists, o, k, j);
    }
  }

  lemma {:induction false} RemoveElsewhere(m: Mem, lists: seq<seq<nat>>, o: nat, k: nat, j: nat)
    requires Links(m, lists) && Disjoint(lists) && o <= MAX_ORDER && k < |lists[o]| && j <= MAX_ORDER && j != o
    requires lists[o][k] < |m.next|
    ensures var r := RemoveMem(m, o, lists[o][k]); Linked(r.next, r.prev, r.heads[j], lists[j])
  {
    var s := lists[o];
    var r := RemoveMem(m, o, s[k]);
    assert Linked(m.next, m.prev, m.heads[o], s) && Linked(m.next, m.prev, m.heads[j], lists[j]);
    var before, after := m.prev[s[k]], m.next[s[k]];
    if before < |m.next| { assert before == s[k - 1] && before !in lists[j]; }
    if after < |m.next| { assert after == s[k + 1] && after !in lists[j]; }
    LinkedFrame(m.next, m.prev, r.next, r.prev, m.heads[j], lists[j]);
  }

  // ---- The steps of the allocator ----

  /** The region holds no free block, so none is listed from it. */
  ghost predicate NoFree(owner: seq<Owner>, h: nat, o: nat) {
    h + Pow2(o) <= |owner| && forall p :: InBlock(p, h, o) ==> !owner[p].Free?
  }

  /** Listing a region as one free block. */
  lemma {:induction false} AddFree(m: Mem, b: Book, h: nat, o: nat)
    requires Core(m, b) && o <= MAX_ORDER && Aligned(h, o) && Closed(b.owner, h, o) && NoFree(b.owner, h, o)
    ensures h < |m.next|
    ensures Core(PushMem(m, o, h), Book(SetBlock(b.owner, h, o, Free(o, h)), b.lists[o := [h] + b.lists[o]]))
  {
    hide Aligned, Pow2, Linked, Closed;
    assert InBlock(h, h, o);
    var owner := SetBlock(b.owner, h, o, Free(o, h));
    var lists := b.lists[o := [h] + b.lists[o]];
    SetBlockPartition(b.owner, h, o, Free(o, h));
    MatchDisjoint(b.owner, b.lists);
    forall j: nat | j <= MAX_ORDER
      ensures h !in b.lists[j]
    {
    }
    PushLinks(m, b.lists, o, h);
    forall j: nat, i: nat | j <= MAX_ORDER
      ensures i in lists[j] <==> i < |owner| && owner[i] == Free(j, i)
    {
      assert i in b.lists[j] <==> i < |b.owner| && b.owner[i] == Free(j, i);
      if j == o {
        assert i in lists[j] <==> i == h || i in b.lists[o];
      }
    }
  }

  lemma {:induction false} InWithout(s: seq<nat>, k: nat, i: nat)
    requires k < |s| && Distinct(s)
    ensures i in Without(s, k) <==> i in s && i != s[k]
  {
    var t := Without(s, k);
    if i in s && i != s[k] {
      var j :| 0 <= j < |s| && s[j] == i;
      assert t[if j < k then j else j - 1] == i;
    }
    if i in t {
      var j :| 0 <= j < |t| && t[j] == i;
      assert s[if j < k then j else j + 1] == i;
    }
  }

  /** The only free block headed in the region is the one at `x`. */
  ghost predicate OnlyFree(owner: seq<Owner>, h: nat, o: nat, x: nat) {
    h + Pow2(o) <= |owner| && forall p, j :: InBlock(p, h, o) && owner[p] == Free(j, p) ==> p == x
  }

  /** Unlisting the free block at `x` and giving the region around it to a live block. */
  lemma {:induction false} RemoveFree(m: Mem, b: Book, x: nat, j: nat, h: nat, o: nat) returns (k: nat)
    requires Core(m, b) && j <= MAX_ORDER && o <= MAX_ORDER && Aligned(h, o) && Closed(b.owner, h, o)
    requires x < |b.owner| && b.owner[x] == Free(j, x) && InBlock(x, h, o) && OnlyFree(b.owner, h, o, x)
    ensures k < |b.lists[j]| && b.lists[j][k] == x
    ensures Core(RemoveMem(m, j, x), Book(SetBlock(b.owner, h, o, Live(o, h)), b.lists[j := Without(b.lists[j], k)]))
  {
    hide Aligned, Pow2, Closed;
    assert x in b.lists[j];
    k :| 0 <= k < |b.lists[j]| && b.lists[j][k] == x;
    var owner := SetBlock(b.owner, h, o, Live(o, h));
    var lists := b.lists[j := Without(b.lists[j], k)];
    SetBlockPartition(b.owner, h, o, Live(o, h));
    MatchDisjoint(b.owner, b.lists);
    RemoveLinks(m, b.lists, j, k);
    assert Linked(m.next, m.prev, m.heads[j], b.lists[j]);
    forall l: nat, i: nat | l <= MAX_ORDER
      ensures i in lists[l] <==> i < |owner| && owner[i] == Free(l, i)
    {
      assert i in b.lists[l] <==> i < |b.owner| && b.owner[i] == Free(l, i);
      if l == j { InWithout(b.lists[j], k, i); }
    }
  }

  // ---- Splitting and merging ----

  /** No two free blocks are buddies: whatever can be merged has been. */
  ghost predicate Merged(owner: seq<Owner>) {
    forall o: nat, i: nat {:trigger Free(o, i)} ::
      o < MAX_ORDER && i < |owner| && owner[i] == Free(o, i) && Buddy(i, o) < |owner|
      ==> owner[Buddy(i, o)] != Free(o, Buddy(i, o))
  }

  function Lower(x: nat, y: nat): nat {
    if x < y then x else y
  }

  /** One merge: the live block at `x` swallows its free buddy of the same order. */
  lemma {:induction false} MergeStep(m: Mem, b: Book, x: nat, o: nat) returns (k: nat)
    requires Core(m, b) && o < MAX_ORDER && x < |b.owner| && b.owner[x] == Live(o, x)
    requires Buddy(x, o) < |b.owner| && b.owner[Buddy(x, o)] == Free(o, Buddy(x, o))
    ensures var y, h := Buddy(x, o), Lower(x, Buddy(x, o));
      && k < |b.lists[o]| && b.lists[o][k] == y
      && Core(RemoveMem(m, o, y), Book(SetBlock(b.owner, h, o + 1, Live(o + 1, h)),
        b.lists[o := Without(b.lists[o], k)]))
  {
    var y, h := Buddy(x, o), Lower(x, Buddy(x, o));
    BlockClosed(b.owner, x, o);
    BlockClosed(b.owner, y, o);
    BuddyHalves(x, o);
    PairClosed(b.owner, h, o);
    PairOnlyFree(b.owner, x, y, o);
    hide Core, Aligned, Closed, OnlyFree, Partition;
    k := RemoveFree(m, b, y, o, h, o + 1);
  }

  lemma {:induction false} PairOnlyFree(owner: seq<Owner>, x: nat, y: nat, o: nat)
    requires x < |owner| && y < |owner| && owner[x] == Live(o, x) && owner[y] == Free(o, y)
    requires x + Pow2(o) <= |owner| && y + Pow2(o) <= |owner| && (y == x + Pow2(o) || x == y + Pow2(o))
    requires forall p :: InBlock(p, x, o) ==> owner[p] == owner[x]
    requires forall p :: InBlock(p, y, o) ==> owner[p] == owner[y]
    ensures OnlyFree(owner, Lower(x, y), o + 1, y) && InBlock(y, Lower(x, y), o + 1)
  {
    assert Pow2(o + 1) == 2 * Pow2(o);
    hide Pow2;
    forall p, j | InBlock(p, Lower(x, y), o + 1) && owner[p] == Free(j, p)
      ensures p == y
    {
      assert InBlock(p, x, o) || InBlock(p, y, o);
    }
  }

  /** Where freeing block (x, o) ends up, by the code's own test: it goes on as long as
      the bit of the buddy's first page is set. */
  function MergeEnd(bmp: seq<bool>, total: nat, x: nat, o: nat): (nat, nat)
    requires total <= |bmp|
    decreases MAX_ORDER - o
  {
    if o >= MAX_ORDER || Buddy(x, o) >= total || !bmp[Buddy(x, o)] then (x, o)
    else MergeEnd(bmp, total, Lower(x, Buddy(x, o)), o + 1)
  }

  /** Along the merge path of (x, o), every buddy whose first page is free heads
      a free block of exactly the order being merged. */
  ghost predicate Exact(owner: seq<Owner>, x: nat, o: nat)
    decreases MAX_ORDER - o
  {
    o >= MAX_ORDER || Buddy(x, o) >= |owner| || !owner[Buddy(x, o)].Free?
    || (owner[Buddy(x, o)] == Free(o, Buddy(x, o)) && Exact(owner, Lower(x, Buddy(x, o)), o + 1))
  }

  /** A block that reaches beyond one half of a region holds the other half too. */
  lemma {:induction false} LargerHolds(owner: seq<Owner>, y: nat, h: nat, o: nat, q: nat)
    requires Partition(owner) && y < |owner| && !owner[y].None? && owner[y].o > o
    requires Aligned(h, o + 1) && InBlock(y, h, o + 1) && InBlock(q, h, o + 1)
    ensures q < |owner| && owner[q] == owner[y]
  {
    assert BlockOk(owner, y);
    Nested(y, h, o + 1, owner[y].h, owner[y].o);
  }

  /** A free block over the first page of a region whose buddy holds a page that
      is not free is no larger than the region, and starts there. */
  lemma {:induction false} SmallHead(owner: seq<Owner>, x: nat, o: nat, q: nat)
    requires Partition(owner) && Aligned(x, o) && InBlock(q, x, o) && q < |owner| && !owner[q].Free?
    requires Buddy(x, o) < |owner| && owner[Buddy(x, o)].Free?
    ensures var y := Buddy(x, o); owner[y].h == y && owner[y].o <= o
  {
    var y := Buddy(x, o);
    BuddyHalves(x, o);
    PowerPositive(o);
    hide Aligned, Pow2, Buddy;
    if owner[y].o > o {
      LargerHolds(owner, y, Lower(x, y), o, q);
    }
    assert BlockOk(owner, y);
    AlignedLess(y, o, owner[y].o);
    StartsAt(y, owner[y].h, owner[y].o);
  }

  lemma {:induction false} PowerPositive(o: nat)
    ensures Pow2(o + 1) == 2 * Pow2(o) && Pow2(o) > 0
  {
  }
}
