/** When freeing a block is right. The merge loop of kernel/pmm.c tests only the
    bit of the buddy's first page; here that test is compared with what merging
    needs, that the buddy is one whole free block of the same order. */
module BuddyMerge {
  import opened Bits
  import opened Dyadic
  import opened FreeLists
  import opened BuddyModel
  import opened BuddyBroken

  lemma {:induction false} BitIs(bmp: seq<bool>, owner: seq<Owner>, p: nat)
    requires BitsMatch(bmp, owner) && p < |owner|
    ensures p < |bmp| && bmp[p] == owner[p].Free?
  {
  }

  /** The block that merging ends with has no free buddy, so nothing mergeable is left. */
  lemma {:induction false} MergedAfter(owner: seq<Owner>, h: nat, e: nat)
    requires Partition(owner) && Merged(owner) && e <= MAX_ORDER && Aligned(h, e) && h < |owner|
    requires e < MAX_ORDER && Buddy(h, e) < |owner| ==> !owner[Buddy(h, e)].Free?
    ensures Merged(SetBlock(owner, h, e, Free(e, h)))
  {
    var r := SetBlock(owner, h, e, Free(e, h));
    forall o: nat, i: nat | o < MAX_ORDER && i < |r| && r[i] == Free(o, i) && Buddy(i, o) < |r|
      ensures r[Buddy(i, o)] != Free(o, Buddy(i, o))
    {
      MergedAfterAt(owner, h, e, o, i);
    }
  }

  lemma {:induction false} MergedAfterAt(owner: seq<Owner>, h: nat, e: nat, o: nat, i: nat)
    requires Partition(owner) && Merged(owner) && e <= MAX_ORDER && Aligned(h, e) && h < |owner|
    requires e < MAX_ORDER && Buddy(h, e) < |owner| ==> !owner[Buddy(h, e)].Free?
    requires o < MAX_ORDER && i < |owner| && Buddy(i, o) < |owner|
    requires SetBlock(owner, h, e, Free(e, h))[i] == Free(o, i)
    ensures SetBlock(owner, h, e, Free(e, h))[Buddy(i, o)] != Free(o, Buddy(i, o))
  {
    if InBlock(i, h, e) {
      BuddyHalves(h, e);
    } else {
      assert BlockOk(owner, i);
      assert owner[i] == Free(o, i);
      BuddyHalves(i, o);
    }
    hide Aligned, Pow2, Partition;
  }

  /** Splitting a live block off its upper half leaves nothing mergeable: the
      buddy of every new free block is live. */
  lemma {:induction false} MergedSplit(owner: seq<Owner>, x: nat, f: nat)
    requires Partition(owner) && Merged(owner) && f < MAX_ORDER && x < |owner| && owner[x] == Live(f + 1, x)
    ensures Merged(Cut(owner, x, f, Free(f, x + Pow2(f))))
  {
    var r := Cut(owner, x, f, Free(f, x + Pow2(f)));
    forall o: nat, i: nat | o < MAX_ORDER && i < |r| && r[i] == Free(o, i) && Buddy(i, o) < |r|
      ensures r[Buddy(i, o)] != Free(o, Buddy(i, o))
    {
      MergedSplitAt(owner, x, f, o, i);
    }
  }

  lemma {:induction false} MergedSplitAt(owner: seq<Owner>, x: nat, f: nat, o: nat, i: nat)
    requires Partition(owner) && Merged(owner) && f < MAX_ORDER && x < |owner| && owner[x] == Live(f + 1, x)
    requires o < MAX_ORDER && i < |owner| && Buddy(i, o) < |owner|
    requires Cut(owner, x, f, Free(f, x + Pow2(f)))[i] == Free(o, i)
    ensures Cut(owner, x, f, Free(f, x + Pow2(f)))[Buddy(i, o)] != Free(o, Buddy(i, o))
  {
    hide Aligned, Pow2, Cut, Buddy, Merged, Partition;
    BlockClosed(owner, x, f + 1);
    Halves(x, f);
    PowerPositive(f);
    CutAt(owner, x, f, Free(f, x + Pow2(f)));
    if owner[i] == Free(o, i) {
      FreeBuddy(owner, i, o);
    }
  }

  /** In a merged state the buddy of a free block is not one, and is its only buddy. */
  lemma {:induction false} FreeBuddy(owner: seq<Owner>, i: nat, o: nat)
    requires Partition(owner) && Merged(owner) && o < MAX_ORDER && i < |owner| && owner[i] == Free(o, i)
    ensures Buddy(Buddy(i, o), o) == i
    ensures Buddy(i, o) < |owner| ==> owner[Buddy(i, o)] != Free(o, Buddy(i, o))
  {
    BlockClosed(owner, i, o);
    BuddyHalves(i, o);
  }

  lemma {:induction false} CutAt(owner: seq<Owner>, x: nat, f: nat, upper: Owner)
    ensures var r := Cut(owner, x, f, upper);
      forall p :: 0 <= p < |owner| ==> r[p] == if InBlock(p, x + Pow2(f), f) then upper
        else if InBlock(p, x, f) then Live(f, x) else owner[p]
  {
  }

  /** Taking a free block out leaves nothing mergeable either. */
  lemma {:induction false} MergedTake(owner: seq<Owner>, x: nat, f: nat)
    requires Merged(owner)
    ensures Merged(SetBlock(owner, x, f, Live(f, x)))
  {
    var r := SetBlock(owner, x, f, Live(f, x));
    forall o: nat, i: nat | o < MAX_ORDER && i < |r| && r[i] == Free(o, i) && Buddy(i, o) < |r|
      ensures r[Buddy(i, o)] != Free(o, Buddy(i, o))
    {
      assert owner[i] == Free(o, i);
    }
  }

  ghost function Cut(owner: seq<Owner>, x: nat, f: nat, upper: Owner): (r: seq<Owner>)
    ensures |r| == |owner|
  {
    SetBlock(SetBlock(owner, x, f, Live(f, x)), x + Pow2(f), f, upper)
  }

  /** A live block split in two: the lower half stays live, the upper half is listed. */
  lemma {:induction false} SplitStep(m: Mem, b: Book, x: nat, f: nat)
    requires Core(m, b) && f < MAX_ORDER && x < |b.owner| && b.owner[x] == Live(f + 1, x)
    ensures x + Pow2(f + 1) <= |m.next|
    ensures var y := x + Pow2(f);
      Core(PushMem(m, f, y), Book(Cut(b.owner, x, f, Free(f, y)), b.lists[f := [y] + b.lists[f]]))
  {
    hide Aligned, Pow2, Partition, Links, ListsMatch, Closed, SetBlock;
    var y := x + Pow2(f);
    BlockClosed(b.owner, x, f + 1);
    PowerPositive(f);
    var both := Cut(b.owner, x, f, Live(f, y));
    SplitPartition(b.owner, x, f, Live(f, x), Live(f, y));
    CutKeeps(b.owner, x, f);
    SameLists(b.owner, both, b.lists);
    BlockClosed(both, y, f);
    SetTwice(SetBlock(b.owner, x, f, Live(f, x)), y, f, Live(f, y), y, f, Free(f, y));
    AddFree(m, Book(both, b.lists), y, f);
  }

  lemma {:induction false} CutKeeps(owner: seq<Owner>, x: nat, f: nat)
    requires Partition(owner) && f < MAX_ORDER && x < |owner| && owner[x] == Live(f + 1, x)
    ensures var r := Cut(owner, x, f, Live(f, x + Pow2(f)));
      && x + Pow2(f) < |owner| && r[x + Pow2(f)] == Live(f, x + Pow2(f)) && NoFree(r, x + Pow2(f), f)
      && forall p :: 0 <= p < |owner| ==> r[p] == owner[p] || (!r[p].Free? && !owner[p].Free?)
  {
    BlockClosed(owner, x, f + 1);
    PowerPositive(f);
    hide Aligned, Pow2, Partition, Closed;
  }

  /** Lists only speak of free blocks. */
  lemma {:induction false} SameLists(owner: seq<Owner>, owner': seq<Owner>, lists: seq<seq<nat>>)
    requires ListsMatch(owner, lists) && |owner'| == |owner|
    requires forall p :: 0 <= p < |owner| ==> owner'[p] == owner[p] || (!owner'[p].Free? && !owner[p].Free?)
    ensures ListsMatch(owner', lists)
  {
    forall o: nat, i: nat | o <= MAX_ORDER
      ensures i in lists[o] <==> i < |owner'| && owner'[i] == Free(o, i)
    {
      assert i in lists[o] <==> i < |owner| && owner[i] == Free(o, i);
    }
  }

  /** Links in pages that head no listed block may hold anything. */
  lemma {:induction false} WipeLinks(m: Mem, m': Mem, b: Book)
    requires Core(m, b) && m'.Shape() && m'.heads == m.heads && |m'.next| == |m.next|
    requires forall p :: 0 <= p < |m.next| && b.owner[p].Free? ==> m'.next[p] == m.next[p] && m'.prev[p] == m.prev[p]
    ensures Core(m', b)
  {
    hide Partition, Aligned, Pow2;
    forall o: nat | o <= MAX_ORDER
      ensures Linked(m'.next, m'.prev, m'.heads[o], b.lists[o])
    {
      var s := b.lists[o];
      assert Linked(m.next, m.prev, m.heads[o], s);
      forall i | 0 <= i < |s|
        ensures m'.next[s[i]] == m.next[s[i]] && m'.prev[s[i]] == m.prev[s[i]]
      {
        assert s[i] in s;
      }
      LinkedFrame(m.next, m.prev, m'.next, m'.prev, m.heads[o], s);
    }
  }

  // ---- The loop of pmm_free_order ----

  /** The loop that sets or clears the bits of a block. */
  function SetBits(m: Mem, h: nat, o: nat, v: bool): (r: Mem)
    requires m.Shape()
    ensures r.Shape() && r == m.(bmp := r.bmp) && |r.bmp| == |m.bmp|
    ensures forall p :: 0 <= p < |m.bmp| ==> r.bmp[p] == if InBlock(p, h, o) then v else m.bmp[p]
  {
    m.(bmp := seq(|m.bmp|, p requires 0 <= p < |m.bmp| => if InBlock(p, h, o) then v else m.bmp[p]))
  }

  predicate InRange(v: nat, total: nat) {
    v == NIL || v < total
  }

  /** Every link the code may follow from the head of a free block of `owner` stays inside memory. */
  ghost predicate SafeLinks(m: Mem, owner: seq<Owner>) {
    && m.Shape() && |owner| == |m.next|
    && (forall o :: 0 <= o <= MAX_ORDER ==> InRange(m.heads[o], |m.next|))
    && forall p :: 0 <= p < |owner| && owner[p].Free? && owner[p].h == p ==>
         InRange(m.next[p], |m.next|) && InRange(m.prev[p], |m.next|)
  }

  lemma {:induction false} CoreSafe(m: Mem, b: Book)
    requires Core(m, b)
    ensures SafeLinks(m, b.owner)
  {
    hide Aligned, Pow2;
    forall o: nat | o <= MAX_ORDER
      ensures InRange(m.heads[o], |m.next|)
    {
      assert Linked(m.next, m.prev, m.heads[o], b.lists[o]);
    }
    forall p | 0 <= p < |b.owner| && b.owner[p].Free? && b.owner[p].h == p
      ensures InRange(m.next[p], |m.next|) && InRange(m.prev[p], |m.next|)
    {
      assert BlockOk(b.owner, p);
      var s := b.lists[b.owner[p].o];
      assert p in s;
      var i :| 0 <= i < |s| && s[i] == p;
      assert Linked(m.next, m.prev, m.heads[b.owner[p].o], s);
      LinkValues(m.next, m.prev, m.heads[b.owner[p].o], s, i);
    }
  }

  lemma {:induction false} LinkValues(next: seq<nat>, prev: seq<nat>, h: nat, s: seq<nat>, i: nat)
    requires Linked(next, prev, h, s) && i < |s|
    ensures InRange(next[s[i]], |next|) && InRange(prev[s[i]], |next|)
  {
  }

  /** A removal writes only links it has read, so it keeps links inside memory
      even when it is made on the wrong list. */
  lemma {:induction false} RemoveSafe(m: Mem, owner: seq<Owner>, o: nat, x: nat)
    requires SafeLinks(m, owner) && o <= MAX_ORDER && x < |owner| && owner[x].Free? && owner[x].h == x
    ensures SafeLinks(RemoveMem(m, o, x), owner)
  {
  }

  /** Where the loop stands after merging up to the block (idx, ord): what holds
      always; and either every step so far was exact and memory fits the bookkeeping,
      or some step was not and memory is broken. */
  ghost predicate Merging(m0: Mem, b0: Book, x: nat, o: nat, m: Mem, b: Book, idx: nat, ord: nat) {
    && m0.Shape() && m.Shape() && |m.next| == |m0.next| == |b0.owner| && |m.bmp| == |m0.bmp|
    && o <= ord <= MAX_ORDER && Aligned(idx, ord) && idx <= x < |b0.owner| && x + Pow2(o) <= idx + Pow2(ord)
    && MergeEnd(m0.bmp, |b0.owner|, x, o) == MergeEnd(m0.bmp, |b0.owner|, idx, ord)
    && (forall p :: 0 <= p < |m.bmp| ==> (m.bmp[p] <==> m0.bmp[p] && !InBlock(p, idx, ord)))
    && SafeLinks(m, b0.owner)
    && Standing(m0, b0, x, o, m, b, idx, ord)
  }

  ghost predicate Intact(m0: Mem, b0: Book, x: nat, o: nat, m: Mem, b: Book, idx: nat, ord: nat) {
    ExactSoFar(m0, b0, x, o, m, b, idx, ord) && (Exact(b0.owner, x, o) <==> Exact(b0.owner, idx, ord))
  }

  ghost predicate Standing(m0: Mem, b0: Book, x: nat, o: nat, m: Mem, b: Book, idx: nat, ord: nat) {
    || Intact(m0, b0, x, o, m, b, idx, ord)
    || (Broken(m, b0.owner, b.lists, x, o, idx, ord) && !Exact(b0.owner, x, o))
  }

  ghost predicate ExactSoFar(m0: Mem, b0: Book, x: nat, o: nat, m: Mem, b: Book, idx: nat, ord: nat) {
    && Core(m, b) && b.owner == SetBlock(b0.owner, idx, ord, Live(ord, idx))
    && forall p :: InBlock(p, idx, ord) && !InBlock(p, x, o) ==> 0 <= p < |m0.bmp| && m0.bmp[p]
  }

  lemma {:induction false} MergingStart(m: Mem, b: Book, x: nat, o: nat)
    requires Inv(m, b) && x < |b.owner| && b.owner[x] == Live(o, x)
    ensures Merging(m, b, x, o, m, b, x, o)
  {
    BlockClosed(b.owner, x, o);
    CoreSafe(m, b);
    hide Aligned, Pow2, Partition, Links, ListsMatch, Exact, MergeEnd;
    assert SetBlock(b.owner, x, o, Live(o, x)) == b.owner;
  }

  /** The always-true half of one merge step. */
  lemma {:induction false} StepAlways(m0: Mem, b0: Book, x: nat, o: nat, m: Mem, b: Book, idx: nat, ord: nat)
    requires Inv(m0, b0) && x < |b0.owner| && b0.owner[x] == Live(o, x) && Merging(m0, b0, x, o, m, b, idx, ord)
    requires ord < MAX_ORDER && Buddy(idx, ord) < |b0.owner| && m.bmp[Buddy(idx, ord)]
    ensures var y, l := Buddy(idx, ord), Lower(idx, Buddy(idx, ord));
      && b0.owner[y].Free? && InRange(m.next[y], |m.next|) && InRange(m.prev[y], |m.next|)
      && var m' := SetBits(RemoveMem(m, ord, y), y, ord, false);
         Aligned(l, ord + 1) && l <= x && x + Pow2(o) <= l + Pow2(ord + 1)
         && MergeEnd(m0.bmp, |b0.owner|, x, o) == MergeEnd(m0.bmp, |b0.owner|, l, ord + 1)
         && (forall p :: 0 <= p < |m'.bmp| ==> (m'.bmp[p] <==> m0.bmp[p] && !InBlock(p, l, ord + 1)))
         && SafeLinks(m', b0.owner)
  {
    var y := Buddy(idx, ord);
    BuddyHalves(idx, ord);
    PowerPositive(ord);
    hide Aligned, Pow2, Partition, Links, ListsMatch, Exact, Buddy;
    assert InBlock(x, idx, ord);
    SmallHead(b0.owner, idx, ord, x);
    RemoveSafe(m, b0.owner, ord, y);
    SetBitsSafe(RemoveMem(m, ord, y), b0.owner, y, ord, false);
  }

  lemma {:induction false} SetBitsSafe(m: Mem, owner: seq<Owner>, h: nat, o: nat, v: bool)
    requires SafeLinks(m, owner)
    ensures SafeLinks(SetBits(m, h, o, v), owner)
  {
  }

  lemma {:induction false} SetBitsCore(m: Mem, b: Book, h: nat, o: nat, v: bool)
    requires Core(m, b)
    ensures Core(SetBits(m, h, o, v), b)
  {
    hide Partition, Linked, ListsMatch;
  }

  /** The half that holds on an exact path. */
  lemma {:induction false} StepExact(m0: Mem, b0: Book, x: nat, o: nat, m: Mem, b: Book, idx: nat, ord: nat)
      returns (b': Book)
    requires Inv(m0, b0) && Aligned(idx, ord) && ExactSoFar(m0, b0, x, o, m, b, idx, ord)
    requires |m.next| == |b0.owner| && idx < |b0.owner|
    requires ord < MAX_ORDER && Buddy(idx, ord) < |b0.owner| && b0.owner[Buddy(idx, ord)] == Free(ord, Buddy(idx, ord))
    ensures var y, l := Buddy(idx, ord), Lower(idx, Buddy(idx, ord));
      ExactSoFar(m0, b0, x, o, SetBits(RemoveMem(m, ord, y), y, ord, false), b', l, ord + 1)
  {
    var y := Buddy(idx, ord);
    var l := Lower(idx, y);
    StepBits(m0, b0, x, o, idx, ord);
    BuddyHalves(idx, ord);
    assert Pow2(ord + 1) == 2 * Pow2(ord);
    SetTwice(b0.owner, idx, ord, Live(ord, idx), l, ord + 1, Live(ord + 1, l));
    hide Aligned, Pow2, Core, Inv, Buddy;
    assert b.owner[idx] == Live(ord, idx) && b.owner[y] == b0.owner[y];
    hide SetBlock, InBlock;
    var k := MergeStep(m, b, idx, ord);
    b' := Book(SetBlock(b.owner, l, ord + 1, Live(ord + 1, l)), b.lists[ord := Without(b.lists[ord], k)]);
    SetBitsCore(RemoveMem(m, ord, y), b', y, ord, false);
  }

  lemma {:induction false} StepBits(m0: Mem, b0: Book, x: nat, o: nat, idx: nat, ord: nat)
    requires Inv(m0, b0) && Aligned(idx, ord) && ord < MAX_ORDER
    requires forall p :: InBlock(p, idx, ord) && !InBlock(p, x, o) ==> 0 <= p < |m0.bmp| && m0.bmp[p]
    requires Buddy(idx, ord) < |b0.owner| && b0.owner[Buddy(idx, ord)] == Free(ord, Buddy(idx, ord))
    ensures forall p :: InBlock(p, Lower(idx, Buddy(idx, ord)), ord + 1) && !InBlock(p, x, o) ==>
      0 <= p < |m0.bmp| && m0.bmp[p]
  {
    BuddyHalves(idx, ord);
    PowerPositive(ord);
    var y := Buddy(idx, ord);
    FreeBits(m0, b0, y, ord);
    hide Aligned, Pow2, Inv, Buddy, InBlock;
    forall p | InBlock(p, Lower(idx, y), ord + 1) && !InBlock(p, x, o)
      ensures 0 <= p < |m0.bmp| && m0.bmp[p]
    {
      InPair(p, idx, y, ord);
    }
  }

  lemma {:induction false} InPair(p: int, x: nat, y: nat, o: nat)
    requires InBlock(p, Lower(x, y), o + 1) && (y == x + Pow2(o) || x == y + Pow2(o))
    ensures InBlock(p, x, o) || InBlock(p, y, o)
  {
    PowerPositive(o);
  }

  lemma {:induction false} FreeBits(m: Mem, b: Book, y: nat, o: nat)
    requires Inv(m, b) && y < |b.owner| && b.owner[y] == Free(o, y)
    ensures forall p :: InBlock(p, y, o) ==> 0 <= p < |m.bmp| && m.bmp[p]
  {
    BlockClosed(b.owner, y, o);
    hide Aligned, Pow2, Partition, Core;
  }

  lemma {:induction false} SetTwice(owner: seq<Owner>, h: nat, o: nat, w: Owner, h': nat, o': nat, w': Owner)
    requires h' <= h && h + Pow2(o) <= h' + Pow2(o')
    ensures SetBlock(SetBlock(owner, h, o, w), h', o', w') == SetBlock(owner, h', o', w')
  {
  }

  lemma {:induction false} MergingStep(m0: Mem, b0: Book, x: nat, o: nat, m: Mem, b: Book, idx: nat, ord: nat)
      returns (b': Book)
    requires Inv(m0, b0) && x < |b0.owner| && b0.owner[x] == Live(o, x) && Merging(m0, b0, x, o, m, b, idx, ord)
    requires ord < MAX_ORDER && Buddy(idx, ord) < |b0.owner| && m.bmp[Buddy(idx, ord)]
    ensures var y, l := Buddy(idx, ord), Lower(idx, Buddy(idx, ord));
      && InRange(m.next[y], |m.next|) && InRange(m.prev[y], |m.next|)
      && Merging(m0, b0, x, o, SetBits(RemoveMem(m, ord, y), y, ord, false), b', l, ord + 1)
  {
    StepAlways(m0, b0, x, o, m, b, idx, ord);
    hide Aligned, Pow2, Inv, ExactSoFar, Buddy, SafeLinks, MergeEnd, InBlock, Standing, RemoveMem, SetBits;
    b' := StepStanding(m0, b0, x, o, m, b, idx, ord);
  }

  /** The buddy heads a free block, of this order or of a smaller one. */
  lemma {:induction false} BuddyHeads(m0: Mem, b0: Book, x: nat, o: nat, idx: nat, ord: nat)
    requires Inv(m0, b0) && x < |b0.owner| && b0.owner[x] == Live(o, x) && Aligned(idx, ord)
    requires idx <= x && x + Pow2(o) <= idx + Pow2(ord) && Buddy(idx, ord) < |b0.owner|
    requires b0.owner[Buddy(idx, ord)].Free?
    ensures b0.owner[Buddy(idx, ord)].o <= ord
    ensures b0.owner[Buddy(idx, ord)] == Free(b0.owner[Buddy(idx, ord)].o, Buddy(idx, ord))
  {
    PowerPositive(o);
    hide Aligned, Buddy, Pow2, Partition, Links, ListsMatch;
    SmallHead(b0.owner, idx, ord, x);
  }

  lemma {:induction false} StepStanding(m0: Mem, b0: Book, x: nat, o: nat, m: Mem, b: Book, idx: nat,
      ord: nat) returns (b': Book)
    requires Inv(m0, b0) && x < |b0.owner| && b0.owner[x] == Live(o, x) && Merging(m0, b0, x, o, m, b, idx, ord)
    requires ord < MAX_ORDER && Buddy(idx, ord) < |b0.owner| && m.bmp[Buddy(idx, ord)]
    ensures var y, l := Buddy(idx, ord), Lower(idx, Buddy(idx, ord));
      Standing(m0, b0, x, o, SetBits(RemoveMem(m, ord, y), y, ord, false), b', l, ord + 1)
  {
    var y, l := Buddy(idx, ord), Lower(idx, Buddy(idx, ord));
    BitIs(m0.bmp, b0.owner, y);
    BuddyHeads(m0, b0, x, o, idx, ord);
    var j := b0.owner[y].o;
    if Intact(m0, b0, x, o, m, b, idx, ord) && j == ord {
      b' := StepExact(m0, b0, x, o, m, b, idx, ord);
    } else {
      var p := ListPlace(m0, b0, x, o, m, b, idx, ord, y, j);
      b' := Book(b.owner, b.lists[j := Without(b.lists[j], p)]);
      StepBroken(m0, b0, x, o, m, b, idx, ord, y, j, p);
    }
  }

  /** The buddy is still on the list of its own order. */
  lemma {:induction false} ListPlace(m0: Mem, b0: Book, x: nat, o: nat, m: Mem, b: Book, idx: nat, ord: nat, y: nat,
      j: nat) returns (p: nat)
    requires Inv(m0, b0) && Merging(m0, b0, x, o, m, b, idx, ord) && ord < MAX_ORDER
    requires y == Buddy(idx, ord) < |b0.owner|
    requires j <= ord && b0.owner[y] == Free(j, y)
    ensures Loose(m, b0.owner, b.lists, idx, ord)
    ensures j < |b.lists| && p < |b.lists[j]| && b.lists[j][p] == y
  {
    BuddyHalves(idx, ord);
    PowerPositive(ord);
    hide Aligned, Pow2, Buddy, Exact, MergeEnd, SafeLinks, Wedged, Partition, Links;
    if Intact(m0, b0, x, o, m, b, idx, ord) {
      IntactLoose(m, b, b0.owner, idx, ord);
    }
    assert y in b.lists[j];
    p :| 0 <= p < |b.lists[j]| && b.lists[j][p] == y;
  }

  lemma {:induction false} StepBroken(m0: Mem, b0: Book, x: nat, o: nat, m: Mem, b: Book, idx: nat, ord: nat, y: nat,
      j: nat, p: nat)
    requires Inv(m0, b0) && Merging(m0, b0, x, o, m, b, idx, ord) && ord < MAX_ORDER
    requires y == Buddy(idx, ord) < |b0.owner|
    requires j <= ord && b0.owner[y] == Free(j, y) && Loose(m, b0.owner, b.lists, idx, ord)
    requires p < |b.lists[j]| && b.lists[j][p] == y && (Intact(m0, b0, x, o, m, b, idx, ord) ==> j < ord)
    ensures Broken(SetBits(RemoveMem(m, ord, y), y, ord, false), b0.owner, b.lists[j := Without(b.lists[j], p)], x, o,
      Lower(idx, y), ord + 1)
    ensures !Exact(b0.owner, x, o)
  {
    hide Merging, Intact, Exact, Aligned, Buddy, Loose, Broken, Partition, RemoveMem, Without, Inv, SetBits, Pow2, At;
    MergingParts(m0, b0, x, o, m, b, idx, ord);
    LooseParts(m, b0.owner, b.lists, idx, ord);
    if Intact(m0, b0, x, o, m, b, idx, ord) {
      IntactParts(m0, b0, x, o, m, b, idx, ord);
    }
    var m', lists', l := StepTaken(m, b0.owner, b.lists, x, o, idx, ord, y, j, p);
    SetBitsBroken(m', b0.owner, lists', x, o, l, ord + 1, y, ord, false);
  }

  lemma {:induction false} SetBitsBroken(m: Mem, owner: seq<Owner>, lists: seq<seq<nat>>, x: nat, o: nat, idx: nat,
      ord: nat, h: nat, e: nat, v: bool)
    requires Broken(m, owner, lists, x, o, idx, ord)
    ensures Broken(SetBits(m, h, e, v), owner, lists, x, o, idx, ord)
  {
    assert m.Shape() && SetBits(m, h, e, v) == m.(bmp := SetBits(m, h, e, v).bmp);
    hide Broken, SetBits;
    BrokenBits(m, SetBits(m, h, e, v), owner, lists, x, o, idx, ord);
  }

  /** One wrong step, or one more after it. */
  lemma {:induction false} StepTaken(m: Mem, owner: seq<Owner>, lists: seq<seq<nat>>, x: nat, o: nat, idx: nat,
      ord: nat, y: nat, j: nat, p: nat)
      returns (m': Mem, lists': seq<seq<nat>>, l: nat)
    requires Loose(m, owner, lists, idx, ord) && ord < MAX_ORDER && j <= ord && Aligned(idx, ord)
    requires y == Buddy(idx, ord)
    requires p < |lists[j]| && lists[j][p] == y && Partition(owner) && idx <= x && x + Pow2(o) <= idx + Pow2(ord)
    requires Broken(m, owner, lists, x, o, idx, ord) || (j < ord && forall k: nat :: k <= MAX_ORDER ==>
      m.heads[k] == At(lists[k], 0))
    ensures y < |m.next| && m' == RemoveMem(m, ord, y) && lists' == lists[j := Without(lists[j], p)]
    ensures l == Lower(idx, y)
    ensures Broken(m', owner, lists', x, o, l, ord + 1)
  {
    if Broken(m, owner, lists, x, o, idx, ord) {
      BrokenStep(m, owner, lists, x, o, idx, ord, y, j, p);
    } else {
      FirstBroken(m, owner, lists, x, o, idx, ord, y, j, p);
    }
    hide *;
    m', lists', l := RemoveMem(m, ord, y), lists[j := Without(lists[j], p)], Lower(idx, y);
  }

  lemma {:induction false} MergingParts(m0: Mem, b0: Book, x: nat, o: nat, m: Mem, b: Book, idx: nat, ord: nat)
    requires Inv(m0, b0) && Merging(m0, b0, x, o, m, b, idx, ord)
    ensures Partition(b0.owner) && m.Shape() && |b0.owner| == |m.next| && Aligned(idx, ord) && idx <= x < |b0.owner|
    ensures x + Pow2(o) <= idx + Pow2(ord)
    ensures !Intact(m0, b0, x, o, m, b, idx, ord) ==>
      Broken(m, b0.owner, b.lists, x, o, idx, ord) && !Exact(b0.owner, x, o)
  {
    hide Partition, Aligned, Pow2, Intact, Exact, Broken;
  }

  /** What an intact loop says about heads, and that a smaller buddy ends exactness. */
  lemma {:induction false} IntactParts(m0: Mem, b0: Book, x: nat, o: nat, m: Mem, b: Book, idx: nat, ord: nat)
    requires Intact(m0, b0, x, o, m, b, idx, ord) && ord < MAX_ORDER && idx < |b0.owner|
    ensures |b.lists| == MAX_ORDER + 1 && forall k: nat :: k <= MAX_ORDER ==> m.heads[k] == At(b.lists[k], 0)
    ensures Buddy(idx, ord) < |b0.owner| && b0.owner[Buddy(idx, ord)].Free? && b0.owner[Buddy(idx, ord)].o < ord ==>
      !Exact(b0.owner, x, o)
  {
    IntactLoose(m, b, b0.owner, idx, ord);
    hide Loose, Core;
  }

  /** The end of the loop: the merged block gets its bits. */
  lemma {:induction false} MergingEnd(m0: Mem, b0: Book, x: nat, o: nat, m: Mem, b: Book, idx: nat, ord: nat)
    requires Merging(m0, b0, x, o, m, b, idx, ord)
    requires ord < MAX_ORDER ==> Buddy(idx, ord) >= |b0.owner| || !m.bmp[Buddy(idx, ord)]
    ensures MergeEnd(m0.bmp, |b0.owner|, x, o) == (idx, ord) && idx + Pow2(ord) <= |m.bmp|
    ensures forall p :: 0 <= p < |m0.bmp| ==> (SetBits(m, idx, ord, true).bmp[p] <==> m0.bmp[p] || InBlock(p, idx, ord))
  {
    BuddyHalves(idx, ord);
    Pow2Monotone(ord, MAX_ORDER);
    hide Aligned, Pow2, Exact, Buddy, SafeLinks;
  }

  /** On an exact path the result is the allocator with just the block freed:
      the merged block is listed, and the bits set are those of the block. */
  lemma {:induction false} MergingEndExact(m0: Mem, b0: Book, x: nat, o: nat, m: Mem, b: Book, idx: nat, ord: nat)
    requires Merging(m0, b0, x, o, m, b, idx, ord) && Exact(b0.owner, x, o) && |b.lists| > ord
    ensures Core(PushMem(SetBits(m, idx, ord, true), ord, idx), FreedBook(b, idx, ord))
    ensures FreedBook(b, idx, ord).owner == SetBlock(b0.owner, idx, ord, Free(ord, idx))
    ensures forall p :: 0 <= p < |m0.bmp| ==> (m0.bmp[p] || InBlock(p, idx, ord) <==> m0.bmp[p] || InBlock(p, x, o))
  {
    SetTwice(b0.owner, idx, ord, Live(ord, idx), idx, ord, Free(ord, idx));
    hide Aligned, Pow2, Exact, Buddy, SafeLinks, Core, SetBlock, MergeEnd;
    assert b.owner[idx] == Live(ord, idx) && |b.owner| == |b0.owner|;
    EndExact(m, b, idx, ord);
  }

  ghost function FreedBook(b: Book, h: nat, o: nat): Book
    requires o < |b.lists|
  {
    Book(SetBlock(b.owner, h, o, Free(o, h)), b.lists[o := [h] + b.lists[o]])
  }

  lemma {:induction false} EndExact(m: Mem, b: Book, h: nat, o: nat)
    requires Core(m, b) && h < |b.owner| && b.owner[h] == Live(o, h)
    ensures o <= MAX_ORDER && Core(PushMem(SetBits(m, h, o, true), o, h), FreedBook(b, h, o))
  {
    BlockClosed(b.owner, h, o);
    hide Aligned, Pow2, Partition, Links, ListsMatch;
    SetBitsCore(m, b, h, o, true);
    AddFree(SetBits(m, h, o, true), b, h, o);
  }

  // ---- The loop of buddy_add_range ----

  /** Pages `first` up to `idx` have become free blocks inside that stretch, each
      as large as its alignment and the end of the range allow. */
  ghost predicate Added(owner0: seq<Owner>, owner: seq<Owner>, first: nat, idx: nat, last: nat) {
    && |owner| == |owner0| && first <= idx <= last <= |owner0|
    && (forall p :: 0 <= p < |owner| && !(first <= p < idx) ==> owner[p] == owner0[p])
    && forall p :: first <= p < idx ==> Greedy(owner[p], first, idx, last)
  }

  ghost predicate Greedy(w: Owner, first: nat, idx: nat, last: nat) {
    && w.Free? && first <= w.h && w.h + Pow2(w.o) <= idx
    && (w.o < MAX_ORDER && Aligned(w.h, w.o + 1) ==> w.h + Pow2(w.o + 1) > last)
  }

  lemma {:induction false} EmptyClosed(owner: seq<Owner>, h: nat, o: nat)
    requires h + Pow2(o) <= |owner| && forall p :: InBlock(p, h, o) ==> owner[p] == None
    ensures Closed(owner, h, o) && NoFree(owner, h, o)
  {
  }

  lemma {:induction false} AddedStep(owner0: seq<Owner>, owner: seq<Owner>, first: nat, idx: nat, last: nat, o: nat)
    requires Added(owner0, owner, first, idx, last) && idx + Pow2(o) <= last
    requires o < MAX_ORDER && Aligned(idx, o + 1) ==> idx + Pow2(o + 1) > last
    ensures Added(owner0, SetBlock(owner, idx, o, Free(o, idx)), first, idx + Pow2(o), last)
  {
    hide Pow2, Aligned;
    var r := SetBlock(owner, idx, o, Free(o, idx));
    forall p | first <= p < idx + Pow2(o)
      ensures Greedy(r[p], first, idx + Pow2(o), last)
    {
      if p < idx { assert Greedy(owner[p], first, idx, last); }
    }
  }

  /** A range that no free page borders leaves nothing mergeable. */
  lemma {:induction false} RangeMerged(owner0: seq<Owner>, owner: seq<Owner>, first: nat, last: nat)
    requires Partition(owner0) && Partition(owner) && Merged(owner0) && Added(owner0, owner, first, last, last)
    requires first > 0 ==> !owner0[first - 1].Free?
    requires last < |owner0| ==> !owner0[last].Free?
    ensures Merged(owner)
  {
    forall o: nat, i: nat | o < MAX_ORDER && i < |owner| && owner[i] == Free(o, i) && Buddy(i, o) < |owner|
      ensures owner[Buddy(i, o)] != Free(o, Buddy(i, o))
    {
      assert BlockOk(owner, i);
      BuddyHalves(i, o);
      if i < Buddy(i, o) {
        PairApart(owner0, owner, first, last, i, o);
      } else if owner[Buddy(i, o)] == Free(o, Buddy(i, o)) {
        PairApart(owner0, owner, first, last, Buddy(i, o), o);
      }
    }
  }

  /** Two free buddies cannot both stand in the new bookkeeping. */
  lemma {:induction false} PairApart(owner0: seq<Owner>, owner: seq<Owner>, first: nat, last: nat, l: nat, o: nat)
    requires Partition(owner0) && Partition(owner) && Merged(owner0) && Added(owner0, owner, first, last, last)
    requires first > 0 ==> !owner0[first - 1].Free?
    requires last < |owner0| ==> !owner0[last].Free?
    requires o < MAX_ORDER && Aligned(l, o + 1) && l + Pow2(o) < |owner| && owner[l] == Free(o, l)
    ensures owner[l + Pow2(o)] != Free(o, l + Pow2(o))
  {
    hide Aligned, Pow2, Partition;
    var y := l + Pow2(o);
    Halves(l, o);
    PowerPositive(o);
    LastPage(owner, l, o);
    if first <= l < last { assert Greedy(owner[l], first, last, last); }
    if first <= y < last { assert Greedy(owner[y], first, last, last); }
    if first <= y - 1 < last { assert Greedy(owner[y - 1], first, last, last); }
  }

  lemma {:induction false} LastPage(owner: seq<Owner>, l: nat, o: nat)
    requires Partition(owner) && l < |owner| && owner[l] == Free(o, l)
    ensures l + Pow2(o) <= |owner| && owner[l + Pow2(o) - 1] == Free(o, l)
  {
    assert BlockOk(owner, l);
    assert InBlock(l + Pow2(o) - 1, l, o);
  }

  // ---- The loop of pmm_alloc_order ----

  /** The block at `x` has been cut down to order `ord`; its pages still have
      their bits set, and everything cut off is listed. */
  ghost predicate Cutting(m0: Mem, b0: Book, f: nat, m: Mem, b: Book, x: nat, ord: nat) {
    && Inv(m0, b0) && Core(m, b) && |m.next| == |m0.next| && m.bmp == m0.bmp
    && x < |b.owner| && b.owner[x] == Live(ord, x) && ord <= f <= MAX_ORDER && b0.owner[x] == Free(f, x)
    && CutRest(b0.owner, b.owner, x, ord) && (Merged(b0.owner) ==> Merged(b.owner))
  }

  /** Outside the block, free stays free and everything else stays what it was. */
  ghost predicate CutRest(owner0: seq<Owner>, owner: seq<Owner>, x: nat, ord: nat) {
    |owner| == |owner0| && forall p :: 0 <= p < |owner| && !InBlock(p, x, ord) ==>
      (owner[p].Free? <==> owner0[p].Free?) && (!owner0[p].Free? ==> owner[p] == owner0[p])
  }

  lemma {:induction false} OnlyFreeAlone(owner: seq<Owner>, x: nat, f: nat)
    requires Partition(owner) && x < |owner| && owner[x] == Free(f, x)
    ensures OnlyFree(owner, x, f, x) && InBlock(x, x, f)
  {
    BlockClosed(owner, x, f);
    hide Aligned, Pow2, Partition;
  }

  lemma {:induction false} CuttingStart(m: Mem, b: Book, f: nat) returns (b': Book)
    requires Inv(m, b) && f <= MAX_ORDER && m.heads[f] != NIL
    ensures var x := m.heads[f];
      && x < |m.next| && InRange(m.next[x], |m.next|) && InRange(m.prev[x], |m.next|)
      && Cutting(m, b, f, RemoveMem(m, f, x), b', x, f)
  {
    var x := m.heads[f];
    ListHead(m, b, f);
    CoreSafe(m, b);
    SafeAt(m, b.owner, x);
    BlockClosed(b.owner, x, f);
    OnlyFreeAlone(b.owner, x, f);
    hide Aligned, Pow2, Partition, Links, ListsMatch, Merged, SafeLinks, OnlyFree, Closed, InBlock;
    var k := RemoveFree(m, b, x, f, x, f);
    b' := Book(SetBlock(b.owner, x, f, Live(f, x)), b.lists[f := Without(b.lists[f], k)]);
    if Merged(b.owner) { MergedTake(b.owner, x, f); }
  }

  lemma {:induction false} SafeAt(m: Mem, owner: seq<Owner>, x: nat)
    requires SafeLinks(m, owner) && x < |owner| && owner[x].Free? && owner[x].h == x
    ensures InRange(m.next[x], |m.next|) && InRange(m.prev[x], |m.next|)
  {
  }

  lemma {:induction false} ListHead(m: Mem, b: Book, f: nat)
    requires Core(m, b) && f <= MAX_ORDER && m.heads[f] != NIL
    ensures m.heads[f] < |b.owner| && b.owner[m.heads[f]] == Free(f, m.heads[f])
  {
    assert Linked(m.next, m.prev, m.heads[f], b.lists[f]);
    assert m.heads[f] == b.lists[f][0];
    assert m.heads[f] in b.lists[f];
  }

  lemma {:induction false} ListEmpty(m: Mem, b: Book, f: nat)
    requires Core(m, b) && f <= MAX_ORDER && m.heads[f] == NIL
    ensures forall i: nat :: i < |b.owner| ==> b.owner[i] != Free(f, i)
  {
    var s := b.lists[f];
    assert Linked(m.next, m.prev, m.heads[f], s);
    assert s == [];
    forall i: nat | i < |b.owner|
      ensures b.owner[i] != Free(f, i)
    {
      assert i !in s;
    }
  }

  lemma {:induction false} CuttingStep(m0: Mem, b0: Book, f: nat, m: Mem, b: Book, x: nat, ord: nat) returns (b': Book)
    requires Cutting(m0, b0, f, m, b, x, ord) && ord > 0
    ensures var y := x + Pow2(ord - 1);
      && y < |m.next| && y < |m.bmp| && m.bmp[y] && InRange(m.heads[ord - 1], |m.next|)
      && Cutting(m0, b0, f, PushMem(m, ord - 1, y), b', x, ord - 1)
  {
    hide Aligned, Pow2, Core, Merged, Inv, CutRest, Cut, InBlock;
    var y := x + Pow2(ord - 1);
    SplitStep(m, b, x, ord - 1);
    CutPlace(m0, b0, f, m, b, x, ord);
    b' := Book(Cut(b.owner, x, ord - 1, Free(ord - 1, y)), b.lists[ord - 1 := [y] + b.lists[ord - 1]]);
    MergedCut(m0, b0, f, m, b, x, ord);
    CutFree(m0, b0, f, m, b, x, ord);
    RestStep(b0.owner, b.owner, x, ord);
  }

  lemma {:induction false} CutPlace(m0: Mem, b0: Book, f: nat, m: Mem, b: Book, x: nat, ord: nat)
    requires Cutting(m0, b0, f, m, b, x, ord) && ord > 0
    ensures var y := x + Pow2(ord - 1); y < |m.next| && y < |m.bmp| && m.bmp[y] && InRange(m.heads[ord - 1], |m.next|)
    ensures |b.lists| == MAX_ORDER + 1
  {
    CutFree(m0, b0, f, m, b, x, ord);
    CoreSafe(m, b);
    BlockClosed(b.owner, x, ord);
    PowerPositive(ord - 1);
    hide Aligned, Pow2, Partition, Links, ListsMatch, Merged, Inv, CutRest;
    assert InBlock(x + Pow2(ord - 1), x, ord);
  }

  lemma {:induction false} RestStep(owner0: seq<Owner>, owner: seq<Owner>, x: nat, ord: nat)
    requires ord > 0 && CutRest(owner0, owner, x, ord) && x < |owner|
    requires forall p :: InBlock(p, x, ord) ==> p < |owner0| && owner0[p].Free?
    ensures var r := Cut(owner, x, ord - 1, Free(ord - 1, x + Pow2(ord - 1)));
      CutRest(owner0, r, x, ord - 1) && r[x] == Live(ord - 1, x)
  {
    PowerPositive(ord - 1);
    hide Pow2;
  }

  lemma {:induction false} MergedCut(m0: Mem, b0: Book, f: nat, m: Mem, b: Book, x: nat, ord: nat)
    requires Cutting(m0, b0, f, m, b, x, ord) && ord > 0
    ensures Merged(b0.owner) ==> Merged(Cut(b.owner, x, ord - 1, Free(ord - 1, x + Pow2(ord - 1))))
  {
    hide Aligned, Pow2, Links, ListsMatch, Partition, Merged, Inv;
    if Merged(b0.owner) { MergedSplit(b.owner, x, ord - 1); }
  }

  /** The whole block taken was free. */
  lemma {:induction false} CutFree(m0: Mem, b0: Book, f: nat, m: Mem, b: Book, x: nat, ord: nat)
    requires Cutting(m0, b0, f, m, b, x, ord)
    ensures forall p :: InBlock(p, x, ord) ==> p < |b0.owner| && b0.owner[p].Free? && m.bmp[p]
  {
    BlockClosed(b0.owner, x, f);
    Pow2Monotone(ord, f);
    hide Aligned, Pow2, Core, Merged, Partition;
  }

  /** What allocating a block of order `o` at `x` does: it was free, it is now
      one live block, and nothing else changed hands. */
  ghost predicate AllocResult(m0: Mem, b0: Book, x: nat, o: nat, m: Mem, b: Book) {
    && Inv(m, b) && |m.bmp| == |m0.bmp| && |b.owner| == |b0.owner| && x + Pow2(o) <= |b.owner| && Aligned(x, o)
    && (forall p :: InBlock(p, x, o) ==> b0.owner[p].Free? && b.owner[p] == Live(o, x))
    && CutRest(b0.owner, b.owner, x, o)
    && (Merged(b0.owner) ==> Merged(b.owner))
  }

  lemma {:induction false} AllocDone(m0: Mem, b0: Book, f: nat, m: Mem, b: Book, x: nat, o: nat, m': Mem)
    requires Cutting(m0, b0, f, m, b, x, o) && m'.Shape() && |m'.next| == |m.next| && m'.heads == m.heads
    requires m'.bmp == SetBits(m, x, o, false).bmp
    requires forall p :: 0 <= p < |m.next| && !InBlock(p, x, o) ==> m'.next[p] == m.next[p] && m'.prev[p] == m.prev[p]
    ensures AllocResult(m0, b0, x, o, m', b)
  {
    BlockClosed(b.owner, x, o);
    CutFree(m0, b0, f, m, b, x, o);
    hide Aligned, Pow2, Partition, ListsMatch, Links, Merged;
    forall p | 0 <= p < |m.next| && b.owner[p].Free?
      ensures !InBlock(p, x, o)
    {
    }
    WipeLinks(m, m', b);
  }
}
