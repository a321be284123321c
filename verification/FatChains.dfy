/** The file allocation table of a FAT32 volume: its entries on the disk, the
    chains of clusters the entries spell, and the free clusters. */
module FatChains {
  import opened Bits
  import opened DivFacts

  const EOC := 0x0FFF_FFFF
  const EOC_MIN := 0x0FFF_FFF8
  /** Entries have 28 bits; the upper four are ignored on reading. */
  const ENTRIES := 0x1000_0000
  /** `(u32)-1`: no cluster, and no cached sector. */
  const NONE := 0xFFFF_FFFF

  const ZEROS: seq<byte> := seq(512, _ => 0)
  type Sector = s: seq<byte> | |s| == 512 witness ZEROS
  /** An 8.3 name: eleven characters. */
  datatype Name = Name(text: string)

  datatype Geometry = Geometry(spc: nat, fatStart: nat, dataStart: nat, total: nat)

  /** Clusters are numbered from 2 up to here. */
  function Limit(g: Geometry): nat {
    if g.total > 0 then g.total + 2 else 65536
  }

  /** The table lies before the data region, and the data region on the disk. */
  ghost predicate GeometryOk(g: Geometry, sectors: nat) {
    && 0 < g.spc < 256 && 2 <= Limit(g) <= EOC_MIN
    && g.fatStart + (Limit(g) - 1) / 128 < g.dataStart
    && g.dataStart + Times(Limit(g) - 2, g.spc) <= sectors <= NONE
  }

  /** The little-endian word at `i`. */
  function Le32(s: seq<byte>, i: nat): nat
    requires i + 4 <= |s|
  {
    s[i] as int + 256 * (s[i + 1] as int + 256 * (s[i + 2] as int + 256 * s[i + 3] as int))
  }

  function Bytes32(v: nat): (b: seq<byte>)
    requires v <= NONE
    ensures |b| == 4 && Le32(b, 0) == v
  {
    [v % 256, v / 256 % 256, v / 256 / 256 % 256, v / 256 / 256 / 256]
  }

  /** The lowest byte comes first. */
  lemma {:induction false} LittleEndian(v: nat)
    requires v <= NONE
    ensures ByteBits(Bytes32(v)) == NatBits(v, 32)
  {
    var v1 := v / 256;
    var v2 := v1 / 256;
    var v3 := v2 / 256;
    var b := Bytes32(v);
    hide NatBits, ByteBits, Bytes32, Le32;
    assert b[4..] == [];
    NoBits(v3 / 256);
    LowByteFirst(v3, 0, b, 3);
    LowByteFirst(v2, 8, b, 2);
    LowByteFirst(v1, 16, b, 1);
    LowByteFirst(v, 24, b, 0);
    assert b[0..] == b;
  }

  lemma {:induction false} NoBits(v: nat)
    ensures NatBits(v, 0) == [] == ByteBits([])
  {
  }

  /** One byte in front: the next eight bits below. */
  lemma {:induction false} LowByteFirst(v: nat, m: nat, b: seq<byte>, p: nat)
    requires p < |b| && b[p] == v % 256 && ByteBits(b[p + 1..]) == NatBits(v / 256, m)
    ensures ByteBits(b[p..]) == NatBits(v, 8 + m)
  {
    Eight(v / 256);
    hide NatBits, ByteBits;
    ByteBitsStep(b, p);
    NatBitsConcat(v % 256, 8, v / 256, m);
  }

  lemma {:induction false} Eight(w: nat)
    ensures Pow2(8) == 256 && Shl(w, 8) == 256 * w
  {
    assert Pow2(4) == 16 && Shl(w, 1) == 2 * w;
    assert Shl(w, 3) == 8 * w;
    assert Shl(w, 5) == 32 * w;
    assert Shl(w, 7) == 128 * w;
  }

  function Put32(s: Sector, i: nat, v: nat): (r: Sector)
    requires i + 4 <= 512 && v <= NONE
  {
    s[..i] + Bytes32(v) + s[i + 4..]
  }

  lemma {:induction false} Put32Get(s: Sector, i: nat, j: nat, v: nat)
    requires i + 4 <= 512 && j + 4 <= 512 && v <= NONE
    requires i == j || i + 4 <= j || j + 4 <= i
    ensures Le32(Put32(s, i, v), j) == if i == j then v else Le32(s, j)
  {
    hide Bytes32;
    var r, b := Put32(s, i, v), Bytes32(v);
    assert forall k :: 0 <= k < 512 ==> r[k] == if i <= k < i + 4 then b[k - i] else s[k];
    if i == j {
      assert r[j] == b[0] && r[j + 1] == b[1] && r[j + 2] == b[2] && r[j + 3] == b[3];
    } else {
      assert r[j] == s[j] && r[j + 1] == s[j + 1] && r[j + 2] == s[j + 2] && r[j + 3] == s[j + 3];
    }
  }

  /** The entry of cluster `c`, four bytes at `4 * c` from the start of the table. */
  function Entry(g: Geometry, disk: seq<Sector>, c: nat): nat
    requires g.fatStart + c / 128 < |disk|
  {
    Le32(disk[g.fatStart + c / 128], 4 * (c % 128)) % ENTRIES
  }

  ghost function Links(g: Geometry, disk: seq<Sector>): (links: seq<nat>)
    requires GeometryOk(g, |disk|)
    ensures |links| == Limit(g)
    ensures forall c :: 0 <= c < |links| ==> c / 128 <= (Limit(g) - 1) / 128 && links[c] == Entry(g, disk, c)
  {
    seq(Limit(g), c requires 0 <= c < Limit(g) => Entry(g, disk, c))
  }

  /** Writing one word of the table changes one link. */
  lemma {:induction false} LinksSet(g: Geometry, disk: seq<Sector>, c: nat, v: nat, disk': seq<Sector>)
    requires GeometryOk(g, |disk|) && c < Limit(g) && v <= NONE
    requires disk' == disk[g.fatStart + c / 128 := Put32(disk[g.fatStart + c / 128], 4 * (c % 128), v)]
    ensures Links(g, disk') == Links(g, disk)[c := v % ENTRIES]
  {
    hide Put32, Le32;
    forall k: nat | k < Limit(g)
      ensures Links(g, disk')[k] == Links(g, disk)[c := v % ENTRIES][k]
    {
      if k / 128 == c / 128 {
        Put32Get(disk[g.fatStart + c / 128], 4 * (c % 128), 4 * (k % 128), v);
      }
    }
  }

  /** Sectors past the table do not matter to it. */
  lemma {:induction false} LinksFrame(g: Geometry, disk: seq<Sector>, disk': seq<Sector>)
    requires GeometryOk(g, |disk|) && |disk'| == |disk|
    requires forall l :: 0 <= l < g.dataStart ==> disk'[l] == disk[l]
    ensures Links(g, disk') == Links(g, disk)
  {
    hide Le32;
  }

  ghost predicate LinkAt(links: seq<nat>, chain: seq<nat>, i: nat)
    requires i < |chain| && chain[i] < |links|
  {
    if i + 1 < |chain| then links[chain[i]] == chain[i + 1] else EOC_MIN <= links[chain[i]] < ENTRIES
  }

  /** The links follow the chain and end it; nothing occurs in it twice. */
  ghost predicate ChainOk(links: seq<nat>, chain: seq<nat>) {
    && (forall i, j :: 0 <= i < j < |chain| ==> chain[i] != chain[j])
    && (forall i :: 0 <= i < |chain| ==> 2 <= chain[i] < |links| && LinkAt(links, chain, i))
  }

  predicate Apart(s: seq<nat>, t: seq<nat>) {
    forall c :: c in s ==> c !in t
  }

  ghost predicate ChainsOk(links: seq<nat>, chains: map<Name, seq<nat>>) {
    && (forall x :: x in chains ==> ChainOk(links, chains[x]))
    && (forall x, y :: x in chains && y in chains && x != y ==> Apart(chains[x], chains[y]))
  }

  ghost function Free(links: seq<nat>): set<nat> {
    set c | 2 <= c < |links| && links[c] == 0
  }

  /** A link outside a chain does not matter to it. */
  lemma {:induction false} ChainFrame(links: seq<nat>, links': seq<nat>, chain: seq<nat>)
    requires ChainOk(links, chain) && |links'| == |links|
    requires forall c :: c in chain && c < |links| ==> links'[c] == links[c]
    ensures ChainOk(links', chain)
  {
    forall i | 0 <= i < |chain| ensures LinkAt(links', chain, i) {
      assert chain[i] in chain && LinkAt(links, chain, i);
    }
  }

  lemma {:induction false} LinkNonzero(links: seq<nat>, chain: seq<nat>, i: nat)
    requires ChainOk(links, chain) && i < |chain|
    ensures links[chain[i]] != 0
  {
    assert LinkAt(links, chain, i);
    if i + 1 < |chain| { assert 2 <= chain[i + 1]; }
  }

  /** What is free is in no chain. */
  lemma {:induction false} FreeApart(links: seq<nat>, chain: seq<nat>, c: nat)
    requires ChainOk(links, chain) && c in Free(links)
    ensures c !in chain
  {
    forall i | 0 <= i < |chain| ensures chain[i] != c {
      LinkNonzero(links, chain, i);
    }
  }

  /** The last link of a chain, if there is one, pointed at `c`. */
  function LinkLast(links: seq<nat>, chain: seq<nat>, c: nat): (r: seq<nat>)
    ensures |r| == |links|
  {
    if chain == [] || chain[|chain| - 1] >= |links| then links else links[chain[|chain| - 1] := c]
  }

  lemma {:induction false} ExtendLink(links: seq<nat>, chain: seq<nat>, c: nat, i: nat)
    requires ChainOk(links, chain) && 2 <= c < |links| <= EOC_MIN && c !in chain && i <= |chain|
    ensures (chain + [c])[i] < |links| && LinkAt(LinkLast(links[c := EOC], chain, c), chain + [c], i)
  {
    if i < |chain| {
      assert LinkAt(links, chain, i) && chain[i] in chain;
      if i + 1 < |chain| {
        assert chain[i] != chain[|chain| - 1];
      }
    } else if chain != [] {
      assert chain[|chain| - 1] in chain;
    }
  }

  lemma {:induction false} ExtendOne(links: seq<nat>, chain: seq<nat>, c: nat)
    requires ChainOk(links, chain) && |links| <= EOC_MIN && c in Free(links)
    ensures ChainOk(LinkLast(links[c := EOC], chain, c), chain + [c])
  {
    hide LinkAt, LinkLast;
    FreeApart(links, chain, c);
    var chain' := chain + [c];
    forall i | 0 <= i < |chain'|
      ensures 2 <= chain'[i] < |links| && LinkAt(LinkLast(links[c := EOC], chain, c), chain', i)
    {
      ExtendLink(links, chain, c, i);
    }
    forall i, j | 0 <= i < j < |chain'| ensures chain'[i] != chain'[j] {
      assert i < |chain| ==> chain'[i] == chain[i] && chain[i] in chain;
    }
  }

  lemma {:induction false} ExtendFree(links: seq<nat>, chain: seq<nat>, c: nat)
    requires ChainOk(links, chain) && |links| <= EOC_MIN && c in Free(links)
    ensures Free(LinkLast(links[c := EOC], chain, c)) == Free(links) - {c}
    ensures |Free(LinkLast(links[c := EOC], chain, c))| + 1 == |Free(links)|
  {
    FreeApart(links, chain, c);
    if chain != [] {
      assert chain[|chain| - 1] in chain && LinkAt(links, chain, |chain| - 1);
    }
    assert Free(LinkLast(links[c := EOC], chain, c)) == Free(links) - {c};
  }

  /** Appending a free cluster to one chain keeps all chains. */
  lemma {:induction false} Extend(links: seq<nat>, chains: map<Name, seq<nat>>, x: Name, c: nat)
    requires ChainsOk(links, chains) && |links| <= EOC_MIN && c in Free(links) && x in chains
    ensures ChainsOk(LinkLast(links[c := EOC], chains[x], c), chains[x := chains[x] + [c]])
  {
    hide ChainOk;
    var links' := LinkLast(links[c := EOC], chains[x], c);
    var chains' := chains[x := chains[x] + [c]];
    ExtendOne(links, chains[x], c);
    forall y | y in chains' && y != x
      ensures ChainOk(links', chains'[y]) && Apart(chains'[x], chains'[y]) && Apart(chains'[y], chains'[x])
    {
      FreeApart(links, chains[y], c);
      assert Apart(chains[x], chains[y]) && Apart(chains[y], chains[x]);
      assert forall k :: k in chains[y] && k < |links| ==> links'[k] == links[k] by {
        if chains[x] != [] { assert chains[x][|chains[x]| - 1] in chains[x]; }
      }
      ChainFrame(links, links', chains[y]);
    }
  }

  /** A cluster taken but linked to nothing yet is in no chain. */
  lemma {:induction false} Take(links: seq<nat>, chains: map<Name, seq<nat>>, c: nat)
    requires ChainsOk(links, chains) && |links| <= EOC_MIN && c in Free(links)
    ensures ChainsOk(links[c := EOC], chains)
    ensures |Free(links[c := EOC])| + 1 == |Free(links)|
  {
    forall y | y in chains ensures ChainOk(links[c := EOC], chains[y]) {
      FreeApart(links, chains[y], c);
      ChainFrame(links, links[c := EOC], chains[y]);
    }
    assert Free(links[c := EOC]) == Free(links) - {c};
  }

  /** The links with those of `cs` set to zero. */
  ghost function Cleared(links: seq<nat>, cs: seq<nat>): (r: seq<nat>)
    ensures |r| == |links|
    ensures forall c :: 0 <= c < |r| ==> r[c] == if c in cs then 0 else links[c]
  {
    seq(|links|, c requires 0 <= c < |links| => if c in cs then 0 else links[c])
  }

  lemma {:induction false} ClearedStep(links: seq<nat>, cs: seq<nat>, j: nat)
    requires j < |cs| && cs[j] < |links|
    ensures Cleared(links, cs[..j])[cs[j] := 0] == Cleared(links, cs[..j + 1])
  {
    assert cs[..j + 1] == cs[..j] + [cs[j]];
  }

  function SetOf(s: seq<nat>): set<nat> {
    set c | c in s
  }

  lemma {:induction false} SetOfSize(s: seq<nat>)
    requires forall i, j :: 0 <= i < j < |s| ==> s[i] != s[j]
    ensures |SetOf(s)| == |s|
  {
    if s != [] {
      var n := |s| - 1;
      SetOfSize(s[..n]);
      assert SetOf(s) == SetOf(s[..n]) + {s[n]};
    }
  }

  /** Clearing a whole chain keeps the others and frees exactly its clusters. */
  lemma {:induction false} Clear(links: seq<nat>, chains: map<Name, seq<nat>>, x: Name)
    requires ChainsOk(links, chains) && |links| <= EOC_MIN && x in chains
    ensures ChainsOk(Cleared(links, chains[x]), chains - {x})
    ensures Free(Cleared(links, chains[x])) == Free(links) + SetOf(chains[x])
    ensures |Free(Cleared(links, chains[x]))| == |Free(links)| + |chains[x]|
  {
    var links' := Cleared(links, chains[x]);
    forall y | y in chains && y != x ensures ChainOk(links', chains[y]) {
      assert Apart(chains[x], chains[y]);
      ChainFrame(links, links', chains[y]);
    }
    assert ChainOk(links, chains[x]);
    assert Free(links') == Free(links) + SetOf(chains[x]);
    forall c | c in Free(links) ensures c !in SetOf(chains[x]) {
      FreeApart(links, chains[x], c);
    }
    SetOfSize(chains[x]);
  }
}
