/** The block allocator of kernel/heap.c: headers in memory, first fit, split,
    and coalescing in both directions. Memory is an array of 16-byte granules;
    block sizes and addresses are multiples of 16, so a header is one granule. */
module Heap {
  import opened Basics
  import opened HeapBlocks

  /** Sixteen bytes: in a header, the size in bytes and the flags. */
  datatype Granule = Granule(lo: nat, hi: nat)

  const U64 := 0x1_0000_0000_0000_0000

  function Header(b: Block): Granule {
    Granule(16 * b.size, if b.free then 1 else 0)
  }

  /** The headers of the blocks stand where the blocks before them end. */
  ghost predicate Headers(mem: seq<Granule>, bs: seq<Block>, base: nat)
    requires base + Extent(bs) <= |mem|
  {
    bs == [] || (mem[base] == Header(bs[0]) && Headers(mem, bs[1..], base + 1 + bs[0].size))
  }

  lemma {:induction false} HeadersConcat(mem: seq<Granule>, a: seq<Block>, b: seq<Block>, base: nat)
    requires base + Extent(a) + Extent(b) <= |mem|
    ensures Extent(a + b) == Extent(a) + Extent(b)
    ensures Headers(mem, a + b, base) <==> Headers(mem, a, base) && Headers(mem, b, base + Extent(a))
  {
    ExtentConcat(a, b);
    if a == [] {
      assert a + b == b;
    } else {
      HeadersConcat(mem, a[1..], b, base + 1 + a[0].size);
      assert (a + b)[1..] == a[1..] + b;
    }
  }

  lemma {:induction false} HeadersFrame(mem: seq<Granule>, mem': seq<Granule>, bs: seq<Block>, base: nat)
    requires base + Extent(bs) <= |mem| == |mem'| && Headers(mem, bs, base)
    requires forall i :: base <= i < base + Extent(bs) ==> mem'[i] == mem[i]
    ensures Headers(mem', bs, base)
  {
    if bs != [] {
      HeadersFrame(mem, mem', bs[1..], base + 1 + bs[0].size);
    }
  }

  lemma {:induction false} HeaderAt(mem: seq<Granule>, bs: seq<Block>, k: nat)
    requires Extent(bs) <= |mem| && Headers(mem, bs, 0) && k < |bs|
    ensures Pos(bs, k) < |mem| && mem[Pos(bs, k)] == Header(bs[k])
    ensures Pos(bs, k + 1) == Pos(bs, k) + 1 + bs[k].size <= Extent(bs)
  {
    assert bs == bs[..k] + bs[k..];
    ExtentConcat(bs[..k], bs[k..]);
    HeadersConcat(mem, bs[..k], bs[k..], 0);
    PosStep(bs, k);
    assert bs == bs[..k + 1] + bs[k + 1..];
    ExtentConcat(bs[..k + 1], bs[k + 1..]);
  }

  /** Replacing the middle of the list by blocks of the same extent whose headers have been written. */
  lemma {:induction false} HeadersSwap(mem: seq<Granule>, mem': seq<Granule>, a: seq<Block>, t: seq<Block>,
      t': seq<Block>, c: seq<Block>)
    requires |mem'| == |mem| == Extent(a + t + c) && Headers(mem, a + t + c, 0)
    requires Extent(t') == Extent(t)
    requires forall i :: 0 <= i < |mem| && !(Extent(a) <= i < Extent(a) + Extent(t)) ==> mem'[i] == mem[i]
    requires Extent(a) + Extent(t') <= |mem'| && Headers(mem', t', Extent(a))
    ensures Extent(a + t' + c) == |mem'| && Headers(mem', a + t' + c, 0)
  {
    hide Extent, Headers;
    ExtentConcat(a + t, c);
    ExtentConcat(a, t);
    ExtentConcat(a + t', c);
    ExtentConcat(a, t');
    HeadersConcat(mem, a + t, c, 0);
    HeadersConcat(mem, a, t, 0);
    HeadersFrame(mem, mem', a, 0);
    HeadersFrame(mem, mem', c, Extent(a) + Extent(t));
    HeadersConcat(mem', a, t', 0);
    HeadersConcat(mem', a + t', c, 0);
  }

  lemma {:induction false} HeadersOne(mem: seq<Granule>, b: Block, base: nat)
    requires base + 1 + b.size <= |mem|
    ensures Extent([b]) == 1 + b.size
    ensures Headers(mem, [b], base) <==> mem[base] == Header(b)
  {
    assert [b][1..] == [];
    ExtentOne(b);
  }

  /** A block is where the list says, and walking on from it leads to the next. */
  lemma {:induction false} FindLive(bs: seq<Block>, base: nat, x: Allocation) returns (k: nat)
    requires x in Live(bs, base)
    ensures k < |bs| && bs[k] == Block(x.size, false) && base + Pos(bs, k) == x.header
  {
    if !bs[0].free && x == Allocation(base, bs[0].size) {
      k := 0;
    } else {
      var j := FindLive(bs[1..], base + 1 + bs[0].size, x);
      k := j + 1;
      assert bs[..k] == [bs[0]] + bs[1..][..j];
      ExtentConcat([bs[0]], bs[1..][..j]);
      ExtentOne(bs[0]);
    }
  }

  lemma {:induction false} PosGrows(bs: seq<Block>, j: nat, k: nat)
    requires j < k <= |bs|
    ensures Pos(bs, j) < Pos(bs, k)
  {
    assert bs[..k] == bs[..j] + bs[j..k];
    ExtentConcat(bs[..j], bs[j..k]);
    ExtentPositive(bs[j..k]);
  }

  lemma {:induction false} ExtentPositive(bs: seq<Block>)
    requires bs != []
    ensures Extent(bs) > 0
  {
  }

  lemma {:induction false} PosEnds(bs: seq<Block>)
    ensures Pos(bs, 0) == 0 && Pos(bs, |bs|) == Extent(bs)
  {
    assert bs[..|bs|] == bs;
  }

  lemma {:induction false} BlockApart(bs: seq<Block>, j: nat, k: nat)
    requires j < k <= |bs|
    ensures Pos(bs, j) + 1 + bs[j].size <= Pos(bs, k)
  {
    PosStep(bs, j);
    if j + 1 < k { PosGrows(bs, j + 1, k); }
  }

  /** A live allocation lies outside any other block, and inside the region. */
  lemma {:induction false} LiveApart(bs: seq<Block>, k: nat, y: Allocation)
    requires k < |bs| && y in Live(bs, 0) && (bs[k].free || y.header != Pos(bs, k))
    ensures y.header + 1 + y.size <= Pos(bs, k) || Pos(bs, k) + 1 + bs[k].size <= y.header
    ensures y.header + 1 + y.size <= Extent(bs) && y.header != Pos(bs, k)
  {
    hide Extent, Live, Pos;
    var j := FindLive(bs, 0, y);
    LiveWithin(bs, 0, y);
    if j < k { BlockApart(bs, j, k); }
    if k < j { BlockApart(bs, k, j); }
  }

  lemma {:induction false} HeadersTwo(mem: seq<Granule>, t: seq<Block>, base: nat)
    requires 1 <= |t| <= 2 && base + Extent(t) <= |mem| && mem[base] == Header(t[0])
    requires |t| == 2 ==> base + 1 + t[0].size < |mem| && mem[base + 1 + t[0].size] == Header(t[1])
    ensures Headers(mem, t, base)
  {
    if |t| == 2 {
      assert t[1..] == [t[1]] && t[1..][1..] == [];
    } else {
      assert t[1..] == [];
    }
  }

  lemma {:induction false} TakenHeaders(mem: seq<Granule>, mem': seq<Granule>, bs: seq<Block>, k: nat, need: nat)
    requires k < |bs| && bs[k].size >= need && Extent(bs) == |mem| == |mem'| && Headers(mem, bs, 0)
    requires forall i :: 0 <= i < |mem| && !(Pos(bs, k) <= i < Pos(bs, k) + 1 + bs[k].size) ==> mem'[i] == mem[i]
    requires var t, b := TakenBlock(bs[k].size, need), Pos(bs, k);
      && b < |mem'| && mem'[b] == Header(t[0])
      && (|t| == 2 ==> b + 1 + t[0].size < |mem'| && mem'[b + 1 + t[0].size] == Header(t[1]))
    ensures Extent(Taken(bs, k, need)) == |mem'| && Headers(mem', Taken(bs, k, need), 0)
  {
    hide Extent, Headers, TakenBlock;
    var t := TakenBlock(bs[k].size, need);
    HeaderAt(mem, bs, k);
    TakenExtent(bs[k].size, need);
    ExtentOne(bs[k]);
    Three(bs, k);
    TakenShape(bs[k].size, need);
    HeadersTwo(mem', t, Pos(bs, k));
    HeadersSwap(mem, mem', bs[..k], [bs[k]], t, bs[k + 1..]);
  }

  lemma {:induction false} TakenShape(size: nat, need: nat)
    requires size >= need
    ensures 1 <= |TakenBlock(size, need)| <= 2 && TakenBlock(size, need)[0].size <= need + 1
  {
  }

  lemma {:induction false} SmallTaken(bs: seq<Block>, k: nat, need: nat)
    requires k < |bs| && bs[k].size >= need
    ensures k < |Taken(bs, k, need)| && need <= Taken(bs, k, need)[k].size <= need + 1
  {
  }

  /** Rounding up gives the next multiple of 16 unless the addition wraps, and then it
      gives nothing. */
  lemma {:induction false} RoundWraps(n: nat)
    requires n < U64
    ensures Round16(n) >= n <==> n + 15 < U64
    ensures Round16(n) < n + 16 && Round16(n) % 16 == 0
    ensures n + 15 >= U64 ==> Round16(n) == 0
  {
  }

  /** The size of the freed block joined with its left neighbour only. */
  ghost function LeftSize(bs: seq<Block>, k: nat): nat
    requires k < |bs|
  {
    (if Lo(bs, k) < k then bs[Lo(bs, k)].size + 1 else 0) + bs[k].size
  }

  lemma {:induction false} JoinFacts(mem: seq<Granule>, bs: seq<Block>, k: nat)
    requires k < |bs| && Extent(bs) == |mem| && Headers(mem, bs, 0)
    ensures var lo, hi := Lo(bs, k), Hi(bs, k);
      && Pos(bs, lo) + 1 + LeftSize(bs, k) == Pos(bs, k + 1) <= |mem| && Pos(bs, lo) <= Pos(bs, k) < Pos(bs, k + 1)
      && mem[Pos(bs, k)] == Header(bs[k]) && mem[Pos(bs, lo)] == Header(bs[lo])
      && Pos(bs, lo) + 1 + Joined(bs, k).size == Pos(bs, hi) <= |mem|
      && (k + 1 < |bs| ==> Pos(bs, k + 1) < |mem| && mem[Pos(bs, k + 1)] == Header(bs[k + 1]))
      && (hi < |bs| ==> Pos(bs, hi) < |mem| && mem[Pos(bs, hi)] == Header(bs[hi]))
      && (hi == |bs| ==> Pos(bs, hi) == |mem|)
  {
    hide Headers, Extent, Pos;
    PosEnds(bs);
    HeaderAt(mem, bs, k);
    HeaderAt(mem, bs, Lo(bs, k));
    if k + 1 < |bs| { HeaderAt(mem, bs, k + 1); }
    if Hi(bs, k) < |bs| { HeaderAt(mem, bs, Hi(bs, k)); }
  }

  lemma {:induction false} NextNotFree(bs: seq<Block>, k: nat)
    requires k < |bs| && Coalesced(bs)
    ensures Hi(bs, k) < |bs| ==> !bs[Hi(bs, k)].free
    ensures Hi(bs, k) == k + 1 ==> LeftSize(bs, k) == Joined(bs, k).size
    ensures Hi(bs, k) == k + 2 ==> bs[k + 1].free && Joined(bs, k).size == LeftSize(bs, k) + 1 + bs[k + 1].size
  {
    if k + 1 < Hi(bs, k) < |bs| { assert bs[k + 1].free && !bs[k + 1 + 1].free; }
  }

  lemma {:induction false} FreedHeaders(mem: seq<Granule>, mem': seq<Granule>, bs: seq<Block>, k: nat)
    requires k < |bs| && !bs[k].free && Extent(bs) == |mem| == |mem'| && Headers(mem, bs, 0)
    requires Pos(bs, k) < |mem| && Pos(bs, Lo(bs, k)) < |mem|
    requires forall i :: 0 <= i < |mem| && i != Pos(bs, k) && i != Pos(bs, Lo(bs, k)) ==> mem'[i] == mem[i]
    requires mem'[Pos(bs, Lo(bs, k))] == Header(Joined(bs, k))
    ensures Extent(Freed(bs, k)) == |mem'| && Headers(mem', Freed(bs, k), 0)
  {
    var lo, hi := Lo(bs, k), Hi(bs, k);
    JoinFacts(mem, bs, k);
    MiddleIs(bs, k, 0);
    Parts(bs, lo, hi);
    hide Headers, Extent;
    HeadersOne(mem', Joined(bs, k), Pos(bs, lo));
    HeadersSwap(mem, mem', bs[..lo], bs[lo..hi], [Joined(bs, k)], bs[hi..]);
  }

  lemma {:induction false} FreedNonempty(bs: seq<Block>, k: nat)
    requires k < |bs|
    ensures Freed(bs, k) != []
  {
  }

  /** The header written when freeing is inside no other live allocation's payload. */
  lemma {:induction false} HeaderElsewhere(bs: seq<Block>, k: nat, y: Allocation)
    requires k < |bs| && y in Live(bs, 0) && y.header != Pos(bs, k) && !bs[k].free
    ensures !(y.header < Pos(bs, Lo(bs, k)) < y.header + 1 + y.size)
  {
    hide Extent, Live, Pos;
    LiveApart(bs, Lo(bs, k), y);
  }

  lemma {:induction false} StoreHeaders(mem: seq<Granule>, bs: seq<Block>, x: Allocation, p: nat, v: Granule)
    requires Extent(bs) == |mem| && Headers(mem, bs, 0) && x in Live(bs, 0)
    requires x.header < p < x.header + 1 + x.size && p < |mem|
    ensures Headers(mem[p := v], bs, 0)
  {
    hide Extent, Headers, Live;
    var k := FindLive(bs, 0, x);
    HeaderAt(mem, bs, k);
    Three(bs, k);
    ExtentOne(bs[k]);
    HeadersOne(mem[p := v], bs[k], Pos(bs, k));
    HeadersSwap(mem, mem[p := v], bs[..k], [bs[k]], [bs[k]], bs[k + 1..]);
  }

  class BlockHeap {
    const mem: array<Granule>
    ghost var blocks: seq<Block>

    /** Headers and payloads tile the memory exactly, and no two neighbours are free. */
    ghost predicate Valid()
      reads this, mem
    {
      blocks != [] && Extent(blocks) == mem.Length && Headers(mem[..], blocks, 0) && Coalesced(blocks)
    }

    /** The payload of an allocation. */
    ghost function Payload(x: Allocation): seq<Granule>
      requires x.header + 1 + x.size <= mem.Length
      reads mem
    {
      mem[x.header + 1..x.header + 1 + x.size]
    }

    /** heap_init, block tier: one free block over everything. */
    constructor (units: nat)
      requires 0 < units
      ensures Valid() && mem.Length == units && blocks == [Block(units - 1, true)]
    {
      mem := new Granule[units](_ => Granule(0, 0));
      new;
      mem[0] := Granule(16 * (units - 1), 1);
      blocks := [Block(units - 1, true)];
      HeadersOne(mem[..], Block(units - 1, true), 0);
    }

    /** The first block, walking from the start, that is free and has `size` bytes. */
    method FindFit(size: nat) returns (b: nat, ghost k: nat)
      requires Valid()
      ensures k <= |blocks| && b == Pos(blocks, k)
      ensures forall i :: 0 <= i < k ==> !(blocks[i].free && 16 * blocks[i].size >= size)
      ensures k < |blocks| ==> blocks[k].free && 16 * blocks[k].size >= size
      ensures k == |blocks| <==> b >= mem.Length
      ensures b < mem.Length ==> mem[b].hi == 1 && mem[b].lo >= size
    {
      hide Headers, Extent, Coalesced;
      b, k := 0, 0;
      PosEnds(blocks);
      while b < mem.Length
        invariant k <= |blocks| && b == Pos(blocks, k)
        invariant forall i :: 0 <= i < k ==> !(blocks[i].free && 16 * blocks[i].size >= size)
        decreases |blocks| - k
      {
        if k < |blocks| { HeaderAt(mem[..], blocks, k); }
        if mem[b].hi % 2 == 1 && mem[b].lo >= size {
          return;
        }
        b := b + 1 + mem[b].lo / 16;
        k := k + 1;
      }
      if k < |blocks| { HeaderAt(mem[..], blocks, k); }
    }

    /** Splits block `k` if the rest is large enough, marks it taken and zeroes its payload. */
    method TakeBlock(b: nat, ghost k: nat, size: nat)
      requires Valid() && k < |blocks| && b == Pos(blocks, k) && blocks[k].free && 16 * blocks[k].size >= size
      requires size % 16 == 0
      modifies this`blocks, mem
      ensures Valid() && blocks == Taken(old(blocks), k, size / 16)
      ensures forall i :: 0 <= i < mem.Length && !(b <= i < b + 1 + old(blocks)[k].size) ==> mem[i] == old(mem[i])
      ensures b + 1 + blocks[k].size <= b + 1 + old(blocks)[k].size <= mem.Length
      ensures forall i :: b < i < b + 1 + blocks[k].size ==> mem[i] == Granule(0, 0)
    {
      hide Headers, Extent, Coalesced, Pos;
      ghost var bs, m0, old_size := blocks, mem[..], blocks[k].size;
      HeaderAt(m0, bs, k);
      ghost var t := TakenBlock(old_size, size / 16);
      if mem[b].lo >= size + 16 + 16 {
        mem[b + 1 + size / 16] := Granule(mem[b].lo - size - 16, 1);
        mem[b] := Granule(size, mem[b].hi);
      }
      mem[b] := Granule(mem[b].lo, 0);
      assert mem[b] == Header(t[0]);
      for i := 0 to mem[b].lo / 16
        invariant mem[b] == Header(t[0])
        invariant |t| == 2 ==> mem[b + 1 + t[0].size] == Header(t[1])
        invariant forall j :: 0 <= j < mem.Length && !(b <= j < b + 1 + old_size) ==> mem[j] == m0[j]
        invariant forall j :: b < j < b + 1 + i ==> mem[j] == Granule(0, 0)
      {
        mem[b + 1 + i] := Granule(0, 0);
      }
      TakenHeaders(m0, mem[..], bs, k, size / 16);
      TakenKeeps(bs, k, size / 16);
      blocks := Taken(bs, k, size / 16);
    }

    /** Allocates `n` bytes rounded up to 16 in 64-bit arithmetic: the first free
        block that fits, split when the rest can hold a block, with its payload
        zeroed. Exactly one allocation is added, the others keep their contents,
        and it has room for `n` bytes exactly when the rounding does not wrap around,
        and for less than 32 more. */
    method Malloc(n: nat) returns (r: Option<nat>, ghost x: Allocation)
      requires Valid() && n < U64
      modifies this`blocks, mem
      ensures Valid()
      ensures r == Nothing ==> unchanged(this, mem) && forall b :: b in blocks && b.free ==> 16 * b.size < Round16(n)
      ensures r.Some? ==>
        && r.value == x.header + 1 && x !in Live(old(blocks), 0) && Live(blocks, 0) == Live(old(blocks), 0) + {x}
        && (16 * x.size >= n <==> n + 15 < U64) && 16 * x.size < n + 32 && x.header + 1 + x.size <= mem.Length
        && (forall g :: g in Payload(x) ==> g == Granule(0, 0))
      ensures forall y :: y in Live(old(blocks), 0) ==>
        Within(y) && Payload(y) == old(mem[..])[y.header + 1..y.header + 1 + y.size]
    {
      hide Headers, Extent, Live, Coalesced, Taken, TakenBlock, Pos;
      ghost var bs, m0 := blocks, mem[..];
      var size := Round16(n);
      var b; ghost var k;
      b, k := FindFit(size);
      x := Allocation(0, 0);
      if b >= mem.Length {
        forall y | y in Live(bs, 0) ensures Within(y) { LiveWithin(bs, 0, y); }
        return Nothing, x;
      }
      TakenKeeps(bs, k, size / 16);
      RoundWraps(n);
      SmallTaken(bs, k, size / 16);
      TakeBlock(b, k, size);
      x := Allocation(b, blocks[k].size);
      if x in Live(bs, 0) { LiveApart(bs, k, x); }
      forall y | y in Live(bs, 0)
        ensures Within(y) && Payload(y) == m0[y.header + 1..y.header + 1 + y.size]
      {
        LiveApart(bs, k, y);
      }
      return Some(b + 1), x;
    }

    /** Walks the headers up to the block at `b`; returns the header before it, if there is one. */
    method Predecessor(b: nat, ghost k: nat) returns (prev: Option<nat>)
      requires k < |blocks| && b == Pos(blocks, k) && b < mem.Length == Extent(blocks)
      requires forall i :: 0 <= i < k ==> Pos(blocks, i) < mem.Length && mem[Pos(blocks, i)] == Header(blocks[i])
      ensures prev == if k == 0 then Nothing else Some(Pos(blocks, k - 1))
    {
      hide Extent, Pos;
      PosEnds(blocks);
      prev := Nothing;
      var cur := 0;
      ghost var j := 0;
      while cur < b
        invariant j <= k && cur == Pos(blocks, j) && prev == if j == 0 then Nothing else Some(Pos(blocks, j - 1))
        decreases k - j
      {
        prev := Some(cur);
        PosStep(blocks, j);
        cur := cur + 1 + mem[cur].lo / 16;
        j := j + 1;
      }
      if j < k { PosGrows(blocks, j, k); }
    }

    /** Frees a live allocation and merges it with its free neighbours on both
        sides. Exactly that allocation goes; the others keep their contents. */
    method Free(p: nat, ghost x: Allocation)
      requires Valid() && x in Live(blocks, 0) && p == x.header + 1
      modifies this`blocks, mem
      ensures Valid() && Live(blocks, 0) == Live(old(blocks), 0) - {x}
      ensures forall y :: y in Live(blocks, 0) ==>
        Within(y) && Payload(y) == old(mem[..])[y.header + 1..y.header + 1 + y.size]
    {
      hide Headers, Extent, Live, Coalesced, Freed, Pos;
      ghost var bs, m0 := blocks, mem[..];
      ghost var k := FindLive(bs, 0, x);
      var b := p - 1;
      HeaderAt(m0, bs, k);
      FreedKeeps(bs, k);
      Release(b, k);
      forall y | y in Live(blocks, 0)
        ensures Within(y) && Payload(y) == m0[y.header + 1..y.header + 1 + y.size]
      {
        LiveDisjoint(bs, 0, x, y);
        LiveApart(bs, k, y);
        HeaderElsewhere(bs, k, y);
      }
    }

    /** The header updates of block_free. Only two headers are written: the
        block's own and that of the free block that now covers it. */
    method Release(start: nat, ghost k: nat)
      requires Valid() && k < |blocks| && !blocks[k].free && start == Pos(blocks, k) < mem.Length
      modifies this`blocks, mem
      ensures Valid() && blocks == Freed(old(blocks), k)
      ensures forall i :: 0 <= i < mem.Length && i != start && i != Pos(old(blocks), Lo(old(blocks), k)) ==>
        mem[i] == old(mem[i])
    {
      hide Headers, Extent, Coalesced, Pos, Freed;
      ghost var bs, m0 := blocks, mem[..];
      JoinFacts(m0, bs, k);
      var b := start;
      mem[b] := Granule(mem[b].lo, 1);
      forall i | 0 <= i < k
        ensures Pos(bs, i) < mem.Length && mem[Pos(bs, i)] == Header(bs[i])
      {
        HeaderAt(m0, bs, i);
        PosGrows(bs, i, k);
      }
      var prev := Predecessor(b, k);
      if prev.Some? && mem[prev.value].hi % 2 == 1 {
        mem[prev.value] := Granule(mem[prev.value].lo + 16 + mem[b].lo, mem[prev.value].hi);
        b := prev.value;
      }
      AbsorbNext(b, m0, k);
      FreedHeaders(m0, mem[..], bs, k);
      FreedKeeps(bs, k);
      blocks := Freed(bs, k);
      FreedNonempty(bs, k);
    }

    /** The forward loop: swallows free blocks to the right. */
    method AbsorbNext(b: nat, ghost m0: seq<Granule>, ghost k: nat)
      requires k < |blocks| && !blocks[k].free && Coalesced(blocks) && |m0| == mem.Length == Extent(blocks)
      requires Headers(m0, blocks, 0)
      requires b == Pos(blocks, Lo(blocks, k)) < mem.Length && mem[b] == Granule(16 * LeftSize(blocks, k), 1)
      requires forall i :: Pos(blocks, k) < i < mem.Length ==> mem[i] == m0[i]
      modifies mem
      ensures mem[b] == Header(Joined(blocks, k))
      ensures forall i :: 0 <= i < mem.Length && i != b ==> mem[i] == old(mem[i])
    {
      hide Headers, Extent, Coalesced, Pos;
      ghost var bs := blocks;
      JoinFacts(m0, bs, k);
      NextNotFree(bs, k);
      while true
        invariant mem[b] == Granule(16 * LeftSize(bs, k), 1) || mem[b] == Header(Joined(bs, k))
        invariant forall i :: 0 <= i < mem.Length && i != b ==> mem[i] == old(mem[i])
        decreases if mem[b] == Header(Joined(bs, k)) then 0 else 1
      {
        var next := b + 1 + mem[b].lo / 16;
        if next >= mem.Length { break; }
        if mem[next].hi % 2 != 1 { break; }
        mem[b] := Granule(mem[b].lo + 16 + mem[next].lo, mem[b].hi);
      }
    }

    ghost predicate Within(x: Allocation) {
      x.header + 1 + x.size <= mem.Length
    }

    /** A client writes to its own payload; the heap does not notice. */
    method Store(ghost x: Allocation, p: nat, v: Granule)
      requires Valid() && x in Live(blocks, 0) && x.header < p < x.header + 1 + x.size <= mem.Length
      modifies mem
      ensures Valid()
      ensures mem[..] == old(mem[..])[p := v]
    {
      ghost var m0 := mem[..];
      mem[p] := v;
      hide Extent, Live;
      StoreHeaders(m0, blocks, x, p, v);
    }
  }

  /** `(n + 15) & ~15UL`. */
  function Round16(n: nat): (r: nat)
    ensures r % 16 == 0
  {
    (n + 15) % U64 / 16 * 16
  }
}
