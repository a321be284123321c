/** The physical page allocator of kernel/pmm.c: free lists threaded through the
    free pages, a bitmap with one bit per page, splitting and merging. */
module Buddy {
  import opened Basics
  import opened Bits
  import opened Dyadic
  import opened FreeLists
  import opened BuddyModel
  import opened BuddyBroken
  import opened BuddyMerge

  /** How many pages `pmm_free_pages` counts. */
  function CountTrue(bits: seq<bool>): nat {
    if bits == [] then 0 else CountTrue(bits[..|bits| - 1]) + Bit(bits[|bits| - 1])
  }

  class PageAllocator {
    const total: nat             // total_pages
    const next: array<nat>       // the links in the pages
    const prev: array<nat>
    const heads: array<nat>      // BUDDY_HEADS[o].next
    const bmp: array<bool>       // BUDDY_BMP
    const refcnt: array<nat>     // PMM_REFCNT
    ghost var book: Book

    ghost predicate Shape() {
      && next.Length == prev.Length == refcnt.Length == total <= NIL && heads.Length == MAX_ORDER + 1
      && bmp.Length >= total + Pow2(MAX_ORDER)
      && next != prev && next != heads && next != refcnt && prev != heads && prev != refcnt && heads != refcnt
    }

    /** The memory as a value. */
    ghost function Snap(): (m: Mem)
      requires Shape()
      reads next, prev, heads, bmp
      ensures m.Shape()
    {
      Mem(next[..], prev[..], heads[..], bmp[..])
    }

    /** Blocks partition the managed pages; lists and bitmap say exactly which are free. */
    ghost predicate Valid()
      reads this, next, prev, heads, bmp
    {
      Shape() && Inv(Snap(), book)
    }

    /** The pages of a block are all zero, as far as the links show. */
    ghost predicate Wiped(x: nat, o: nat)
      requires Shape()
      reads next, prev
    {
      forall p :: InBlock(p, x, o) ==> 0 <= p < total && next[p] == 0 && prev[p] == 0
    }

    constructor (total: nat, bits: nat)
      requires total <= NIL && bits >= total + Pow2(MAX_ORDER)
      ensures Valid() && this.total == total && Merged(book.owner)
      ensures fresh(next) && fresh(prev) && fresh(heads) && fresh(bmp) && fresh(refcnt)
      ensures forall p :: 0 <= p < total ==> book.owner[p] == None
    {
      this.total := total;
      next := new nat[total](_ => 0);
      prev := new nat[total](_ => 0);
      refcnt := new nat[total](_ => 0);
      heads := new nat[MAX_ORDER + 1](_ => NIL);
      bmp := new bool[bits](_ => false);
      book := Book(seq(total, _ => None), seq(MAX_ORDER + 1, _ => []));
    }

    method ListPush(o: nat, x: nat)
      requires Shape() && o <= MAX_ORDER && x < total && InRange(heads[o], total)
      modifies next, prev, heads
      ensures Snap() == PushMem(old(Snap()), o, x)
    {
      prev[x] := NIL;
      next[x] := heads[o];
      if heads[o] != NIL { prev[heads[o]] := x; }
      heads[o] := x;
    }

    method ListRemove(o: nat, x: nat)
      requires Shape() && o <= MAX_ORDER && x < total && InRange(next[x], total) && InRange(prev[x], total)
      modifies next, prev, heads
      ensures Snap() == RemoveMem(old(Snap()), o, x)
    {
      ghost var m := Snap();
      if prev[x] != NIL { next[prev[x]] := next[x]; } else { heads[o] := next[x]; }
      assert next[..] == UnlinkNext(m.next, m.prev[x], m.next[x]);
      assert next[x] == m.next[x];
      if next[x] != NIL { prev[next[x]] := prev[x]; }
      assert prev[..] == UnlinkPrev(m.prev, m.prev[x], m.next[x]);
    }

    method SetBmp(h: nat, o: nat, v: bool)
      requires Shape() && h + Pow2(o) <= bmp.Length
      modifies bmp
      ensures Snap() == SetBits(old(Snap()), h, o, v)
    {
      for k := 0 to Pow2(o)
        invariant forall p :: 0 <= p < bmp.Length ==> bmp[p] == if h <= p < h + k then v else old(bmp[p])
      {
        bmp[h + k] := v;
      }
      assert bmp[..] == SetBits(old(Snap()), h, o, v).bmp;
    }

    /** Cuts the pages `first` up to `last` into blocks and lists them. */
    method AddRange(first: nat, last: nat)
      requires Valid() && first <= last <= total
      requires forall p :: first <= p < last ==> book.owner[p] == None
      modifies this`book, next, prev, heads, bmp
      ensures Valid() && Added(old(book.owner), book.owner, first, last, last)
      ensures Merged(old(book.owner)) && NoNeighbours(old(book.owner), first, last) ==> Merged(book.owner)
    {
      ghost var owner0 := book.owner;
      InvSize(Snap(), book);
      hide Aligned, Pow2, Core, BitsMatch, Partition, Merged, Greedy;
      var idx := first;
      while idx < last
        invariant Valid() && Added(owner0, book.owner, first, idx, last)
      {
        var order := MAX_ORDER;
        while order > 0 && (Low(idx, order) != 0 || idx + Pow2(order) > last)
          invariant 0 <= order <= MAX_ORDER
          invariant order < MAX_ORDER ==> Low(idx, order + 1) != 0 || idx + Pow2(order + 1) > last
        {
          order := order - 1;
        }
        OrderFits(idx, order, last);
        ListBlock(idx, order, owner0, first, last);
        idx := idx + Pow2(order);
      }
      if Merged(owner0) && NoNeighbours(owner0, first, last) {
        PartitionOf(old(Snap()), old(book));
        PartitionOf(Snap(), book);
        RangeMerged(owner0, book.owner, first, last);
      }
    }

    method ListBlock(idx: nat, order: nat, ghost owner0: seq<Owner>, ghost first: nat, ghost last: nat)
      requires Valid() && Added(owner0, book.owner, first, idx, last) && order <= MAX_ORDER
      requires Aligned(idx, order) && idx + Pow2(order) <= last <= total
      requires order < MAX_ORDER && Aligned(idx, order + 1) ==> idx + Pow2(order + 1) > last
      requires forall p :: idx <= p < last ==> owner0[p] == None
      modifies this`book, next, prev, heads, bmp
      ensures Valid() && Added(owner0, book.owner, first, idx + Pow2(order), last)
    {
      ghost var m, b := Snap(), book;
      InvSize(m, b);
      AddBlock(m, b, idx, order);
      AddedStep(owner0, b.owner, first, idx, last, order);
      hide Aligned, Pow2, Inv, Greedy;
      SetBmp(idx, order, true);
      ListPush(order, idx);
      book := FreedBook(b, idx, order);
    }

    /** Takes a block of 2^order pages, splitting the smallest block that is
        large enough, and clears its pages. Fails only when no free block of
        this order or a larger one exists. */
    method AllocOrder(order: nat) returns (r: Option<nat>)
      requires Valid()
      modifies this`book, next, prev, heads, bmp, refcnt
      ensures Valid()
      ensures r == Nothing ==> unchanged(this, next, prev, heads, bmp, refcnt)
      ensures r == Nothing ==> order > MAX_ORDER || NoneFrom(old(book.owner), order, MAX_ORDER + 1)
      ensures r.Some? ==> order <= MAX_ORDER && AllocResult(old(Snap()), old(book), r.value, order, Snap(), book)
      ensures r.Some? ==> r.value < total && refcnt[..] == old(refcnt[..])[r.value := 1] && Wiped(r.value, order)
    {
      hide Aligned, Pow2, Inv, Core, Cutting, AllocResult, Merged, Wiped;
      if order > MAX_ORDER { return Nothing; }
      InvSize(Snap(), book);
      var found := FindOrder(order);
      if found > MAX_ORDER { return Nothing; }
      var idx := CutDown(found, order);
      return Some(idx);
    }

    /** The smallest order, from `order` up, whose list is not empty. */
    method FindOrder(order: nat) returns (found: nat)
      requires Valid() && order <= MAX_ORDER
      ensures order <= found <= MAX_ORDER + 1 && (found <= MAX_ORDER ==> heads[found] != NIL)
      ensures NoneFrom(book.owner, order, found)
    {
      InvSize(Snap(), book);
      hide Inv;
      found := order;
      while found <= MAX_ORDER && heads[found] == NIL
        invariant order <= found <= MAX_ORDER + 1
        invariant NoneFrom(book.owner, order, found)
      {
        NoneListed(Snap(), book, found);
        found := found + 1;
      }
    }

    method CutDown(found: nat, order: nat) returns (idx: nat)
      requires Valid() && order <= found <= MAX_ORDER && heads[found] != NIL
      modifies this`book, next, prev, heads, bmp, refcnt
      ensures Valid() && AllocResult(old(Snap()), old(book), idx, order, Snap(), book)
      ensures idx < total && refcnt[..] == old(refcnt[..])[idx := 1] && Wiped(idx, order)
    {
      hide Aligned, Pow2, Inv, Cutting, AllocResult, Wiped;
      ghost var m0, b0 := Snap(), book;
      ghost var b := CuttingStart(m0, b0, found);
      idx := heads[found];
      ListRemove(found, idx);
      book := b;
      var ord := found;
      while ord > order
        invariant order <= ord <= found && Cutting(m0, b0, found, Snap(), book, idx, ord)
        invariant refcnt[..] == old(refcnt[..])
      {
        ord := ord - 1;
        ghost var b' := CuttingStep(m0, b0, found, Snap(), book, idx, ord + 1);
        var bud := idx + Pow2(ord);
        ghost var bits := bmp[..];
        bmp[bud] := true;
        assert bmp[..] == bits;
        ListPush(ord, bud);
        book := b';
      }
      TakePages(m0, b0, found, idx, order);
    }

    /** Clears the bits of the block, sets its reference count and wipes its
        pages, links included. */
    method TakePages(ghost m0: Mem, ghost b0: Book, ghost f: nat, idx: nat, order: nat)
      requires Shape() && Cutting(m0, b0, f, Snap(), book, idx, order)
      modifies next, prev, bmp, refcnt
      ensures Valid() && AllocResult(m0, b0, idx, order, Snap(), book)
      ensures idx < total && refcnt[..] == old(refcnt[..])[idx := 1] && Wiped(idx, order)
    {
      ghost var m := Snap();
      CutSize(m0, b0, f, m, book, idx, order);
      hide Aligned, Pow2, Inv, Cutting, AllocResult;
      SetBmp(idx, order, false);
      refcnt[idx] := 1;
      Wipe(idx, order);
      AllocDone(m0, b0, f, m, book, idx, order, Snap());
      AllocValid(m0, b0, idx, order, Snap(), book);
    }

    /** `memset` over the block. */
    method Wipe(idx: nat, order: nat)
      requires Shape() && idx + Pow2(order) <= total
      modifies next, prev
      ensures Wiped(idx, order)
      ensures forall p :: 0 <= p < total && !InBlock(p, idx, order) ==>
        next[p] == old(next[p]) && prev[p] == old(prev[p])
    {
      hide Pow2;
      for k := 0 to Pow2(order)
        invariant forall p :: 0 <= p < total && !InBlock(p, idx, order) ==>
          next[p] == old(next[p]) && prev[p] == old(prev[p])
        invariant forall p :: idx <= p < idx + k ==> next[p] == 0 && prev[p] == 0
      {
        next[idx + k], prev[idx + k] := 0, 0;
      }
    }

    /** pmm_alloc_n: a block of at least `n` pages, as long as the largest block has that many. */
    method AllocN(n: nat) returns (r: Option<nat>, ghost order: nat)
      requires Valid()
      modifies this`book, next, prev, heads, bmp, refcnt
      ensures Valid() && order <= MAX_ORDER && (n <= Pow2(order) <==> n <= 1024)
      ensures order > 0 ==> Pow2(order - 1) < n
      ensures r == Nothing ==> NoneFrom(old(book.owner), order, MAX_ORDER + 1)
      ensures r.Some? ==> AllocResult(old(Snap()), old(book), r.value, order, Snap(), book)
      ensures r.Some? ==> r.value < total && refcnt[..] == old(refcnt[..])[r.value := 1] && Wiped(r.value, order)
    {
      hide Inv, AllocResult, Pow2, Wiped;
      var o := 0;
      while Pow2(o) < n && o < MAX_ORDER
        invariant 0 <= o <= MAX_ORDER && (o > 0 ==> Pow2(o - 1) < n)
        decreases MAX_ORDER - o
      {
        o := o + 1;
      }
      Pow2Monotone(o, MAX_ORDER);
      LargestBlock();
      order := o;
      r := AllocOrder(o);
    }

    method FreePages() returns (free: nat)
      requires Shape()
      ensures free == CountTrue(bmp[..total])
    {
      free := 0;
      for i := 0 to total
        invariant free == CountTrue(bmp[..i])
      {
        assert bmp[..i + 1][..i] == bmp[..i];
        if bmp[i] { free := free + 1; }
      }
    }

    /** Takes the buddy off the list of the order being merged and clears its bits. */
    method TakeBuddy(bud: nat, ord: nat)
      requires Shape() && ord <= MAX_ORDER && bud < total && bud + Pow2(ord) <= bmp.Length
      requires InRange(next[bud], total) && InRange(prev[bud], total)
      modifies next, prev, heads, bmp
      ensures Snap() == SetBits(RemoveMem(old(Snap()), ord, bud), bud, ord, false)
    {
      ListRemove(ord, bud);
      SetBmp(bud, ord, false);
    }

    /** One round of the merge loop; `more` is false when it stops. */
    method MergeOnce(ghost m0: Mem, ghost b0: Book, ghost x: nat, ghost order: nat, idx: nat, ord: nat)
        returns (more: bool, idx': nat)
      requires Shape() && Inv(m0, b0) && x < |b0.owner| && b0.owner[x] == Live(order, x) && ord < MAX_ORDER
      requires Merging(m0, b0, x, order, Snap(), book, idx, ord)
      modifies this`book, next, prev, heads, bmp
      ensures more ==> Merging(m0, b0, x, order, Snap(), book, idx', ord + 1)
      ensures !more ==> idx' == idx && Merging(m0, b0, x, order, Snap(), book, idx, ord)
      ensures !more ==> Dyadic.Buddy(idx, ord) >= total || !bmp[Dyadic.Buddy(idx, ord)]
    {
      ghost var m := Snap();
      MergingFacts(m0, b0, x, order, m, book, idx, ord);
      hide Aligned, Pow2, Inv, Exact, Merging, Dyadic.Buddy, SetBits, RemoveMem;
      var bud := Dyadic.Buddy(idx, ord);
      if bud >= total || !bmp[bud] { return false, idx; }
      ghost var b := MergingStep(m0, b0, x, order, m, book, idx, ord);
      BudInside(m0, b0, x, order, m, book, idx, ord);
      TakeBuddy(bud, ord);
      book := b;
      return true, Lower(idx, bud);
    }

    /** The merge loop: takes free buddies off their lists as long as the bit of
        the buddy's first page is set. */
    method MergeUp(x: nat, order: nat) returns (idx: nat, ord: nat)
      requires Valid() && x < total && book.owner[x] == Live(order, x)
      modifies this`book, next, prev, heads, bmp
      ensures Merging(old(Snap()), old(book), x, order, Snap(), book, idx, ord)
      ensures ord < MAX_ORDER ==> Dyadic.Buddy(idx, ord) >= total || !bmp[Dyadic.Buddy(idx, ord)]
    {
      hide Aligned, Inv, Exact, Merging, Dyadic.Buddy, Pow2;
      ghost var m0, b0 := Snap(), book;
      idx, ord := x, order;
      InvSize(m0, b0);
      MergingStart(m0, b0, x, order);
      while ord < MAX_ORDER
        invariant Merging(m0, b0, x, order, Snap(), book, idx, ord)
        decreases MAX_ORDER - ord
      {
        var more;
        more, idx := MergeOnce(m0, b0, x, order, idx, ord);
        if !more { break; }
        ord := ord + 1;
      }
    }

    /** Frees a live block. See `FreeResult`: the allocator survives exactly when
        the merge path is exact. */
    method FreeOrder(x: nat, order: nat)
      requires Valid() && x < total && book.owner[x] == Live(order, x)
      modifies this`book, next, prev, heads, bmp
      ensures FreeResult(old(Snap()), old(book), x, order, Snap(), book)
    {
      hide Aligned, Inv, Exact, Merging, Dyadic.Buddy, Pow2, FreeResult, InBlock, MergeEnd, Merged;
      ghost var m0, b0 := Snap(), book;
      InvSize(m0, b0);
      var idx, ord := MergeUp(x, order);
      ghost var m, b := Snap(), book;
      MergingFacts(m0, b0, x, order, m, b, idx, ord);
      MergingEnd(m0, b0, x, order, m, b, idx, ord);
      SetBmp(idx, ord, true);
      ListPush(ord, idx);
      if |book.lists| > ord { book := FreedBook(book, idx, ord); }
      FreeDone(m0, b0, x, order, m, b, idx, ord);
    }
  }

  lemma {:induction false} LargestBlock()
    ensures Pow2(MAX_ORDER) == 1024
  {
    assert Pow2(5) == 32;
  }

  /** Bookkeeping `b` fits the memory and leaves all but the freed block as they were. */
  ghost predicate Fits(m: Mem, b: Book, b0: Book, x: nat, o: nat) {
    Inv(m, b) && OthersKept(b0.owner, b.owner, x, o)
  }

  /** What freeing block (x, o) does. The bits set afterwards are always those
      set before and those of the merged block. On an exact path the allocator
      is valid again, exactly the freed pages have become free, the other blocks
      are as before, and with nothing mergeable before nothing mergeable is left.
      Conversely, an exact path is the only way the memory can still fit any
      bookkeeping that keeps the other live blocks. */
  ghost predicate FreeResult(m0: Mem, b0: Book, x: nat, o: nat, m: Mem, b: Book)
    requires Inv(m0, b0)
  {
    var (h, e) := MergeEnd(m0.bmp, |b0.owner|, x, o);
    && |m.bmp| == |m0.bmp|
    && (forall p :: 0 <= p < |m0.bmp| ==> (m.bmp[p] <==> m0.bmp[p] || InBlock(p, h, e)))
    && (Exact(b0.owner, x, o) ==>
         && Fits(m, b, b0, x, o) && b.owner == SetBlock(b0.owner, h, e, Free(e, h))
         && (forall p :: 0 <= p < |m0.bmp| ==> (m.bmp[p] <==> m0.bmp[p] || InBlock(p, x, o)))
         && (Merged(b0.owner) ==> Merged(b.owner)))
    && (Exact(b0.owner, x, o) <==> exists b' :: Fits(m, b', b0, x, o))
  }

  lemma {:induction false} FreeDone(m0: Mem, b0: Book, x: nat, o: nat, m: Mem, b: Book, idx: nat, ord: nat)
    requires Inv(m0, b0) && x < |b0.owner| && b0.owner[x] == Live(o, x) && Merging(m0, b0, x, o, m, b, idx, ord)
    requires ord < MAX_ORDER ==> Dyadic.Buddy(idx, ord) >= |b0.owner| || !m.bmp[Dyadic.Buddy(idx, ord)]
    ensures idx < |m.next| && ord <= MAX_ORDER
    ensures FreeResult(m0, b0, x, o, PushMem(SetBits(m, idx, ord, true), ord, idx),
                       if |b.lists| > ord then FreedBook(b, idx, ord) else b)
  {
    hide Exact, MergeEnd, Merged, Merging, Inv, OthersKept, SetBlock, InBlock, Pow2, Fits, Dyadic.Buddy;
    MergingFacts(m0, b0, x, o, m, b, idx, ord);
    MergingEnd(m0, b0, x, o, m, b, idx, ord);
    if Exact(b0.owner, x, o) {
      FreeDoneExact(m0, b0, x, o, m, b, idx, ord);
    } else {
      forall b'
        ensures !Fits(PushMem(SetBits(m, idx, ord, true), ord, idx), b', b0, x, o)
      {
        InexactBreaks(m0, b0, x, o, m, b, idx, ord, b');
      }
    }
  }

  ghost predicate NoNeighbours(owner: seq<Owner>, first: nat, last: nat)
    requires first <= last <= |owner|
  {
    (first > 0 ==> !owner[first - 1].Free?) && (last < |owner| ==> !owner[last].Free?)
  }

  /** No free block has an order from `lo` up to `hi`. */
  ghost predicate NoneFrom(owner: seq<Owner>, lo: nat, hi: nat) {
    forall o: nat, i: nat :: lo <= o < hi && i < |owner| ==> owner[i] != Free(o, i)
  }

  lemma {:induction false} OrderFits(idx: nat, order: nat, last: nat)
    requires order <= MAX_ORDER && idx < last
    requires order > 0 ==> Low(idx, order) == 0 && idx + Pow2(order) <= last
    requires order < MAX_ORDER ==> Low(idx, order + 1) != 0 || idx + Pow2(order + 1) > last
    ensures Aligned(idx, order) && idx + Pow2(order) <= last
    ensures order < MAX_ORDER && Aligned(idx, order + 1) ==> idx + Pow2(order + 1) > last
  {
    AlignedLow(idx, order);
    AlignedLow(idx, order + 1);
  }

  lemma {:induction false} AddBlock(m: Mem, b: Book, h: nat, o: nat)
    requires Inv(m, b) && o <= MAX_ORDER && Aligned(h, o) && h + Pow2(o) <= |b.owner|
    requires forall p :: InBlock(p, h, o) ==> b.owner[p] == None
    ensures h < |m.next| && InRange(m.heads[o], |m.next|) && |b.lists| > o
    ensures Inv(PushMem(SetBits(m, h, o, true), o, h), FreedBook(b, h, o))
  {
    CoreSafe(m, b);
    EmptyClosed(b.owner, h, o);
    SetBitsCore(m, b, h, o, true);
    AddFree(SetBits(m, h, o, true), b, h, o);
    hide Aligned, Pow2, Partition, ListsMatch, Links;
  }

  lemma {:induction false} PartitionOf(m: Mem, b: Book)
    requires Inv(m, b)
    ensures Partition(b.owner)
  {
  }

  lemma {:induction false} NoneListed(m: Mem, b: Book, o: nat)
    requires Inv(m, b) && o <= MAX_ORDER && m.heads[o] == NIL
    ensures forall i: nat :: i < |b.owner| ==> b.owner[i] != Free(o, i)
  {
    ListEmpty(m, b, o);
  }

  lemma {:induction false} CutSize(m0: Mem, b0: Book, f: nat, m: Mem, b: Book, x: nat, o: nat)
    requires Cutting(m0, b0, f, m, b, x, o)
    ensures x + Pow2(o) <= |m.next|
  {
    BlockClosed(b.owner, x, o);
  }

  lemma {:induction false} AllocValid(m0: Mem, b0: Book, x: nat, o: nat, m: Mem, b: Book)
    requires AllocResult(m0, b0, x, o, m, b)
    ensures Inv(m, b)
  {
  }

  lemma {:induction false} InvSize(m: Mem, b: Book)
    requires Inv(m, b)
    ensures |b.owner| == |m.next|
  {
  }

  lemma {:induction false} MergingFacts(m0: Mem, b0: Book, x: nat, o: nat, m: Mem, b: Book, idx: nat, ord: nat)
    requires Merging(m0, b0, x, o, m, b, idx, ord)
    ensures m.Shape() && ord <= MAX_ORDER && idx < |m.next| && |b0.owner| == |m.next| && |m.bmp| == |m0.bmp|
    ensures forall l :: 0 <= l <= MAX_ORDER ==> InRange(m.heads[l], |m.next|)
    ensures Exact(b0.owner, x, o) ==> Core(m, b)
  {
  }

  lemma {:induction false} BudInside(m0: Mem, b0: Book, x: nat, o: nat, m: Mem, b: Book, idx: nat, ord: nat)
    requires Merging(m0, b0, x, o, m, b, idx, ord) && ord < MAX_ORDER && Dyadic.Buddy(idx, ord) < |m.next|
    ensures Dyadic.Buddy(idx, ord) + Pow2(ord) <= |m.bmp|
  {
    Pow2Monotone(ord, MAX_ORDER);
  }

  /** What the whole call of pmm_free_order amounts to, on an exact path. */
  lemma {:induction false} FreeDoneExact(m0: Mem, b0: Book, x: nat, o: nat, m: Mem, b: Book, idx: nat, ord: nat)
    requires Inv(m0, b0) && x < |b0.owner| && b0.owner[x] == Live(o, x) && Merging(m0, b0, x, o, m, b, idx, ord)
    requires ord < MAX_ORDER ==> Dyadic.Buddy(idx, ord) >= |b0.owner| || !m.bmp[Dyadic.Buddy(idx, ord)]
    requires Exact(b0.owner, x, o)
    ensures idx < |m.next| && ord <= MAX_ORDER && |b.lists| > ord
    ensures var m', b' := PushMem(SetBits(m, idx, ord, true), ord, idx), FreedBook(b, idx, ord);
      && Fits(m', b', b0, x, o) && b'.owner == SetBlock(b0.owner, idx, ord, Free(ord, idx))
      && (forall p :: 0 <= p < |m0.bmp| ==> (m'.bmp[p] <==> m0.bmp[p] || InBlock(p, x, o)))
      && (Merged(b0.owner) ==> Merged(b'.owner))
  {
    hide Aligned, MergeEnd, Merged, Inv, Core, Pow2, Fits, Dyadic.Buddy, SafeLinks, InBlock;
    MergingFacts(m0, b0, x, o, m, b, idx, ord);
    MergingEnd(m0, b0, x, o, m, b, idx, ord);
    FreedFits(m, b, b0, idx, ord);
    MergingEndExact(m0, b0, x, o, m, b, idx, ord);
    FreedInv(m0, b0, x, o, PushMem(SetBits(m, idx, ord, true), ord, idx), FreedBook(b, idx, ord), idx, ord);
    if Merged(b0.owner) {
      MergedWhenDone(m0, b0, x, o, m, b, idx, ord);
    }
  }

  lemma {:induction false} FreedFits(m: Mem, b: Book, b0: Book, idx: nat, ord: nat)
    requires Core(m, b) && idx < |b.owner| && b.owner == SetBlock(b0.owner, idx, ord, Live(ord, idx))
    ensures idx + Pow2(ord) <= |b.owner| && |b.lists| > ord
  {
    assert InBlock(idx, idx, ord);
    BlockClosed(b.owner, idx, ord);
  }

  lemma {:induction false} FreedInv(m0: Mem, b0: Book, x: nat, o: nat, m: Mem, b: Book, idx: nat, ord: nat)
    requires Inv(m0, b0) && Core(m, b) && b.owner == SetBlock(b0.owner, idx, ord, Free(ord, idx))
    requires idx + Pow2(ord) <= |b0.owner| && |m.bmp| == |m0.bmp|
    requires forall p :: 0 <= p < |m0.bmp| ==> (m.bmp[p] <==> m0.bmp[p] || InBlock(p, idx, ord))
    requires forall p :: 0 <= p < |m0.bmp| ==> (m0.bmp[p] || InBlock(p, idx, ord) <==> m0.bmp[p] || InBlock(p, x, o))
    ensures Fits(m, b, b0, x, o)
  {
    hide Partition, ListsMatch, Links, Pow2;
  }

  lemma {:induction false} MergedWhenDone(m0: Mem, b0: Book, x: nat, o: nat, m: Mem, b: Book, idx: nat, ord: nat)
    requires Inv(m0, b0) && x < |b0.owner| && Merging(m0, b0, x, o, m, b, idx, ord) && Merged(b0.owner)
    requires ord < MAX_ORDER ==> Dyadic.Buddy(idx, ord) >= |b0.owner| || !m.bmp[Dyadic.Buddy(idx, ord)]
    ensures Merged(SetBlock(b0.owner, idx, ord, Free(ord, idx)))
  {
    BuddyHalves(idx, ord);
    hide Exact, MergeEnd, Merged, Partition, SafeLinks;
    MergedAfter(b0.owner, idx, ord);
  }

  /** Freeing along an inexact path breaks the allocator for good: no bookkeeping
      that keeps the other blocks fits the memory that is left. */
  lemma {:induction false} InexactBreaks(m0: Mem, b0: Book, x: nat, o: nat, m: Mem, b: Book, idx: nat, ord: nat,
      b': Book)
    requires Inv(m0, b0) && x < |b0.owner| && b0.owner[x] == Live(o, x) && Merging(m0, b0, x, o, m, b, idx, ord)
    requires ord < MAX_ORDER ==> Dyadic.Buddy(idx, ord) >= |b0.owner| || !m.bmp[Dyadic.Buddy(idx, ord)]
    requires !Exact(b0.owner, x, o)
    ensures idx < |m.next| && ord <= MAX_ORDER
    ensures !Fits(PushMem(SetBits(m, idx, ord, true), ord, idx), b', b0, x, o)
  {
    MergingFacts(m0, b0, x, o, m, b, idx, ord);
    StoppedExact(m0, b0, x, o, m, b, idx, ord);
    hide Aligned, Pow2, Exact, MergeEnd, Dyadic.Buddy, Partition, Links, ListsMatch, Broken, SetBits, Merging;
    SetBitsBroken(m, b0.owner, b.lists, x, o, idx, ord, idx, ord, true);
    var m1 := SetBits(m, idx, ord, true);
    BrokenForGood(m1, b0.owner, b.lists, x, o, idx, ord, PushMem(m1, ord, idx), b');
  }

  /** Where the loop stops on an inexact path, memory is broken. */
  lemma {:induction false} StoppedExact(m0: Mem, b0: Book, x: nat, o: nat, m: Mem, b: Book, idx: nat, ord: nat)
    requires Inv(m0, b0) && x < |b0.owner| && Merging(m0, b0, x, o, m, b, idx, ord) && !Exact(b0.owner, x, o)
    requires ord < MAX_ORDER ==> Dyadic.Buddy(idx, ord) >= |b0.owner| || !m.bmp[Dyadic.Buddy(idx, ord)]
    ensures Broken(m, b0.owner, b.lists, x, o, idx, ord)
  {
    BuddyHalves(idx, ord);
    PowerPositive(ord);
    hide Aligned, Pow2, MergeEnd, Dyadic.Buddy, SafeLinks, Broken, Core;
    if ord < MAX_ORDER && Dyadic.Buddy(idx, ord) < |b0.owner| {
      BitIs(m0.bmp, b0.owner, Dyadic.Buddy(idx, ord));
    }
    assert Exact(b0.owner, idx, ord);
  }

  // ---- Conservation ----

  lemma {:induction false} CountBlock(a: seq<bool>, b: seq<bool>, h: nat, n: nat)
    requires |a| == |b| && h + n <= |a|
    requires forall p :: 0 <= p < |a| ==> b[p] == (a[p] || h <= p < h + n) && (h <= p < h + n ==> !a[p])
    ensures CountTrue(b) == CountTrue(a) + n
  {
    if a != [] {
      var k := |a| - 1;
      if h + n <= k {
        CountBlock(a[..k], b[..k], h, n);
      } else if n > 0 {
        CountBlock(a[..k], b[..k], h, n - 1);
      } else {
        CountBlock(a[..k], b[..k], 0, 0);
      }
    }
  }

  /** Freeing along an exact path adds exactly the pages of the block. */
  lemma {:induction false} FreeCounts(m0: Mem, b0: Book, x: nat, o: nat, m: Mem, b: Book)
    requires Inv(m0, b0) && x < |b0.owner| && b0.owner[x] == Live(o, x) && Exact(b0.owner, x, o)
    requires FreeResult(m0, b0, x, o, m, b)
    ensures CountTrue(m.bmp[..|b0.owner|]) == CountTrue(m0.bmp[..|b0.owner|]) + Pow2(o)
  {
    BlockClosed(b0.owner, x, o);
    hide Aligned, Pow2, Partition, Links, ListsMatch, Exact, MergeEnd, Merged, CountTrue;
    CountBlock(m0.bmp[..|b0.owner|], m.bmp[..|b0.owner|], x, Pow2(o));
  }

  /** Allocating removes exactly the pages of the block. */
  lemma {:induction false} AllocCounts(m0: Mem, b0: Book, x: nat, o: nat, m: Mem, b: Book)
    requires Inv(m0, b0) && AllocResult(m0, b0, x, o, m, b)
    ensures CountTrue(m.bmp[..|b0.owner|]) + Pow2(o) == CountTrue(m0.bmp[..|b0.owner|])
  {
    hide Aligned, Pow2, Partition, Links, ListsMatch, Merged, CountTrue;
    CountBlock(m.bmp[..|b0.owner|], m0.bmp[..|b0.owner|], x, Pow2(o));
  }

  // ---- The gap in the merge test ----

  /** Four pages, 0 and 2 free, 1 and 3 live: a valid allocator in which freeing
      page 1 goes wrong. Pages 0 and 1 merge; then the bit of page 2 is set, so
      pages 2 and 3 are taken for a free pair although page 3 is live. */
  lemma {:induction false} GapExample() returns (m: Mem, b: Book)
    ensures Inv(m, b) && Merged(b.owner) && |b.owner| == 4
    ensures b.owner[1] == Live(0, 1) && b.owner[3] == Live(0, 3) && !Exact(b.owner, 1, 0)
    ensures MergeEnd(m.bmp, 4, 1, 0) == (0, 2)
  {
    b := Book([Free(0, 0), Live(0, 1), Free(0, 2), Live(0, 3)],
              seq(MAX_ORDER + 1, o => if o == 0 then [2, 0] else []));
    m := Mem([NIL, 0, 0, 0], [2, 0, NIL, 0],
             seq(MAX_ORDER + 1, o => if o == 0 then 2 else NIL), seq(4 + Pow2(MAX_ORDER), p => p == 0 || p == 2));
    hide Linked, ListsMatch, Links;
    assert Buddy(1, 0) == 0 && Buddy(0, 1) == 2 && Buddy(0, 2) == 4;
    assert Pow2(0) == 1;
    GapLists(m, b);
    assert Partition(b.owner);
  }

  lemma {:induction false} GapLists(m: Mem, b: Book)
    requires b.owner == [Free(0, 0), Live(0, 1), Free(0, 2), Live(0, 3)] && |b.lists| == MAX_ORDER + 1
    requires forall o :: 0 <= o <= MAX_ORDER ==> b.lists[o] == if o == 0 then [2, 0] else []
    requires m.next == [NIL, 0, 0, 0] && m.prev == [2, 0, NIL, 0] && m.Shape()
    requires forall o :: 0 <= o <= MAX_ORDER ==> m.heads[o] == if o == 0 then 2 else NIL
    ensures ListsMatch(b.owner, b.lists) && Links(m, b.lists)
  {
    hide Pow2;
    assert forall i :: i in b.lists[0] <==> i == 2 || i == 0;
    forall o: nat | o <= MAX_ORDER
      ensures Linked(m.next, m.prev, m.heads[o], b.lists[o])
    {
      if o == 0 {
        var s: seq<nat> := [2, 0];
        assert At(s, 1) == 0 && At(s, 2) == NIL && At(s, -1) == NIL && At(s, 0) == 2;
      }
    }
  }

  /** The pages below `n` that lie in free blocks. */
  ghost function FreeBelow(owner: seq<Owner>, n: nat): set<nat> {
    set p: nat | p < n && p < |owner| && owner[p].Free?
  }

  lemma {:induction false} SomeListed(m: Mem, b: Book, p: nat)
    requires Inv(m, b) && p < |b.owner| && b.owner[p].Free?
    ensures !NoneFrom(b.owner, 0, MAX_ORDER + 1)
  {
    hide Aligned, Pow2, Links, ListsMatch;
    assert BlockOk(b.owner, p);
    var w := b.owner[p];
    assert InBlock(w.h, w.h, w.o) by { PowerPositive(w.o); }
    assert b.owner[w.h] == Free(w.o, w.h);
  }

  /** What taking one page does to four of them. */
  lemma {:induction false} OneTaken(m0: Mem, b0: Book, x: nat, m: Mem, b: Book)
    requires AllocResult(m0, b0, x, 0, m, b) && |b0.owner| == 4
    requires forall p: nat :: p < 4 ==> b0.owner[p].Free? || b0.owner[p] == Live(0, p)
    ensures |b.owner| == 4 && FreeBelow(b.owner, 4) == FreeBelow(b0.owner, 4) - {x} && x in FreeBelow(b0.owner, 4)
    ensures forall p: nat :: p < 4 ==> b.owner[p].Free? || b.owner[p] == Live(0, p)
  {
    hide Inv, Aligned, Merged;
    OnePage(x);
    hide Pow2, InBlock;
  }

  lemma {:induction false} OnePage(x: nat)
    ensures forall p: int :: InBlock(p, x, 0) <==> p == x
  {
    assert Pow2(0) == 1;
  }

  lemma {:induction false} NoneLeft(owner: seq<Owner>)
    requires |owner| == 4 && |FreeBelow(owner, 4)| == 0
    requires forall p: nat :: p < 4 ==> owner[p].Free? || owner[p] == Live(0, p)
    ensures owner == [Live(0, 0), Live(0, 1), Live(0, 2), Live(0, 3)]
  {
    forall p: nat | p < 4 ensures owner[p] == Live(0, p) {
      assert p !in FreeBelow(owner, 4);
    }
  }

  lemma {:induction false} AllFree(owner: seq<Owner>)
    requires |owner| == 4 && forall p :: 0 <= p < 4 ==> owner[p].Free?
    ensures |FreeBelow(owner, 4)| == 4
  {
    assert FreeBelow(owner, 4) == {0, 1, 2, 3};
  }

  /** Taking pages one at a time until all are live blocks of one page. */
  method TakeAll(a: PageAllocator)
    requires a.Valid() && a.total == 4 && forall p :: 0 <= p < 4 ==> a.book.owner[p].Free?
    modifies a, a.next, a.prev, a.heads, a.bmp, a.refcnt
    ensures a.Valid() && a.book.owner == [Live(0, 0), Live(0, 1), Live(0, 2), Live(0, 3)]
  {
    InvSize(a.Snap(), a.book);
    hide Inv, Aligned, NoneFrom, FreeBelow, AllocResult, Pow2;
    AllFree(a.book.owner);
    for i := 0 to 4
      invariant a.Valid() && |a.book.owner| == 4 && |FreeBelow(a.book.owner, 4)| == 4 - i
      invariant forall p: nat :: p < 4 ==> a.book.owner[p].Free? || a.book.owner[p] == Live(0, p)
    {
      ghost var m, b := a.Snap(), a.book;
      StillSome(m, b);
      var r := a.AllocOrder(0);
      OneTaken(m, b, r.value, a.Snap(), a.book);
    }
    NoneLeft(a.book.owner);
  }

  lemma {:induction false} StillSome(m: Mem, b: Book)
    requires Inv(m, b) && |b.owner| == 4 && |FreeBelow(b.owner, 4)| > 0
    ensures !NoneFrom(b.owner, 0, MAX_ORDER + 1)
  {
    var p: nat :| p in FreeBelow(b.owner, 4);
    SomeListed(m, b, p);
  }

  /** Freeing a page whose neighbour is live leaves it alone. */
  lemma {:induction false} FreedAlone(m0: Mem, b0: Book, x: nat, m: Mem, b: Book)
    requires Inv(m0, b0) && |b0.owner| == 4 && x < 4 && FreeResult(m0, b0, x, 0, m, b)
    requires Dyadic.Buddy(x, 0) < 4 && b0.owner[Dyadic.Buddy(x, 0)].Live?
    ensures Inv(m, b) && b.owner == b0.owner[x := Free(0, x)]
  {
    assert Pow2(0) == 1;
    BitIs(m0.bmp, b0.owner, Dyadic.Buddy(x, 0));
    assert Exact(b0.owner, x, 0) && MergeEnd(m0.bmp, 4, x, 0) == (x, 0);
    hide Core, Merged, Exact, MergeEnd, Pow2;
    assert b.owner == SetBlock(b0.owner, x, 0, Free(0, x));
  }

  lemma {:induction false} GapInexact(owner: seq<Owner>)
    requires owner == [Free(0, 0), Live(0, 1), Free(0, 2), Live(0, 3)]
    ensures !Exact(owner, 1, 0)
  {
    assert Dyadic.Buddy(1, 0) == 0 && Dyadic.Buddy(0, 1) == 2;
    assert !Exact(owner, 0, 1);
  }

  /** Four pages, added and taken one by one. */
  method FourLive() returns (a: PageAllocator)
    ensures fresh(a) && fresh(a.next) && fresh(a.prev) && fresh(a.heads) && fresh(a.bmp) && fresh(a.refcnt)
    ensures a.Valid() && a.total == 4 && a.book.owner == [Live(0, 0), Live(0, 1), Live(0, 2), Live(0, 3)]
  {
    hide Inv, Aligned, Pow2, Merged;
    a := new PageAllocator(4, 4 + Pow2(MAX_ORDER));
    InvSize(a.Snap(), a.book);
    a.AddRange(0, 4);
    TakeAll(a);
  }

  /** Freeing a page whose neighbour is live. */
  method FreeAlone(a: PageAllocator, x: nat)
    requires a.Valid() && a.total == 4 && x < 4 && |a.book.owner| == 4 && a.book.owner[x] == Live(0, x)
    requires Dyadic.Buddy(x, 0) < 4 && a.book.owner[Dyadic.Buddy(x, 0)].Live?
    modifies a`book, a.next, a.prev, a.heads, a.bmp
    ensures a.Valid() && a.book.owner == old(a.book.owner)[x := Free(0, x)]
  {
    hide Inv, Aligned, Pow2, FreeResult, Merged, Exact, Dyadic.Buddy;
    ghost var m, b := a.Snap(), a.book;
    a.FreeOrder(x, 0);
    FreedAlone(m, b, x, a.Snap(), a.book);
  }

  /** The failure is reached from the start: with pages 0 and 2 freed again, freeing
      page 1 leaves memory that no bookkeeping fits. */
  method GapReached() returns (a: PageAllocator, ghost m: Mem, ghost b: Book)
    ensures Inv(m, b) && b.owner == [Free(0, 0), Live(0, 1), Free(0, 2), Live(0, 3)]
    ensures forall b' :: a.Shape() && !Fits(a.Snap(), b', b, 1, 0)
  {
    assert Dyadic.Buddy(0, 0) == 1 && Dyadic.Buddy(2, 0) == 3;
    hide Inv, Aligned, Pow2, FreeResult, Fits, Merged, Exact, Dyadic.Buddy;
    a := FourLive();
    FreeAlone(a, 0);
    FreeAlone(a, 2);
    m, b := a.Snap(), a.book;
    GapInexact(b.owner);
    a.FreeOrder(1, 0);
    NothingFits(m, b, 1, 0, a.Snap(), a.book);
  }

  lemma {:induction false} NothingFits(m0: Mem, b0: Book, x: nat, o: nat, m: Mem, b: Book)
    requires Inv(m0, b0) && FreeResult(m0, b0, x, o, m, b) && !Exact(b0.owner, x, o)
    ensures forall b' :: !Fits(m, b', b0, x, o)
  {
    hide Inv, Exact, MergeEnd, Fits, Merged;
  }
}
