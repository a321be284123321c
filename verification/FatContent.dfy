/** A file as bytes: which sector of the disk holds which bytes of a file, and
    what writing one sector does to the contents of every file. */
module FatContent {
  import opened Bits
  import opened DivFacts
  import opened FatChains

  function ClusterLba(g: Geometry, c: nat): nat
    requires c >= 2
  {
    g.dataStart + Times(c - 2, g.spc)
  }

  ghost predicate InRange(g: Geometry, chain: seq<nat>) {
    forall i :: 0 <= i < |chain| ==> 2 <= chain[i] < Limit(g)
  }

  /** How many bytes a chain holds. */
  function Capacity(g: Geometry, chain: seq<nat>): nat {
    512 * Times(|chain|, g.spc)
  }

  /** Where on the disk the `q`-th sector of a file is. */
  function SectorLba(g: Geometry, chain: seq<nat>, q: nat): nat
    requires g.spc > 0 && Quot(q, g.spc) < |chain| && chain[Quot(q, g.spc)] >= 2
  {
    ClusterLba(g, chain[Quot(q, g.spc)]) + Rem(q, g.spc)
  }

  lemma {:induction false} ClusterBounds(g: Geometry, sectors: nat, c: nat, s: nat)
    requires GeometryOk(g, sectors) && 2 <= c < Limit(g) && s < g.spc
    ensures g.dataStart <= ClusterLba(g, c) + s < sectors
  {
    TimesMonotone(c - 2, Limit(g) - 2, g.spc);
  }

  /** The data region starts with cluster 2 and has the clusters one behind the other. */
  lemma {:induction false} ClustersAdjoin(g: Geometry, c: nat)
    requires c >= 2
    ensures ClusterLba(g, 2) == g.dataStart && ClusterLba(g, c + 1) == ClusterLba(g, c) + g.spc
  {
    TimesMul(0, g.spc);
    TimesMul(c - 2, g.spc);
    TimesMul(c - 1, g.spc);
    Distribute(c - 2, g.spc);
  }

  lemma {:induction false} Distribute(k: nat, d: nat)
    ensures (k + 1) * d == k * d + d
  {
  }

  /** Different sectors of clusters are different sectors of the disk. */
  lemma {:induction false} LbaInjective(g: Geometry, c: nat, s: nat, c': nat, s': nat)
    requires c >= 2 && c' >= 2 && s < g.spc && s' < g.spc
    requires ClusterLba(g, c) + s == ClusterLba(g, c') + s'
    ensures c == c' && s == s'
  {
    QuotRemOf(c - 2, g.spc, s);
    QuotRemOf(c' - 2, g.spc, s');
  }

  lemma {:induction false} InChain(g: Geometry, chain: seq<nat>, p: nat)
    requires g.spc > 0
    ensures p < Capacity(g, chain) <==> Quot(p / 512, g.spc) < |chain|
  {
    QuotBound(p / 512, |chain|, g.spc);
  }

  ghost function ByteAt(g: Geometry, disk: seq<Sector>, chain: seq<nat>, p: nat): byte
    requires GeometryOk(g, |disk|) && InRange(g, chain) && p < Capacity(g, chain)
  {
    InChain(g, chain, p);
    ClusterBounds(g, |disk|, chain[Quot(p / 512, g.spc)], Rem(p / 512, g.spc));
    disk[SectorLba(g, chain, p / 512)][p % 512]
  }

  /** The first `size` bytes a chain holds. */
  ghost function Content(g: Geometry, disk: seq<Sector>, chain: seq<nat>, size: nat): (s: seq<byte>)
    requires GeometryOk(g, |disk|) && InRange(g, chain) && size <= Capacity(g, chain)
    ensures |s| == size
  {
    seq(size, p requires 0 <= p < size => ByteAt(g, disk, chain, p))
  }

  lemma {:induction false} SectorOnDisk(g: Geometry, disk: seq<Sector>, chain: seq<nat>, pos: nat)
    requires GeometryOk(g, |disk|) && InRange(g, chain) && Quot(pos / 512, g.spc) < |chain|
    ensures g.dataStart <= SectorLba(g, chain, pos / 512) < |disk|
  {
    ClusterBounds(g, |disk|, chain[Quot(pos / 512, g.spc)], Rem(pos / 512, g.spc));
  }

  lemma {:induction false} SectorByte(g: Geometry, disk: seq<Sector>, chain: seq<nat>, p: nat)
    requires GeometryOk(g, |disk|) && InRange(g, chain) && p < Capacity(g, chain)
    ensures Quot(p / 512, g.spc) < |chain| && SectorLba(g, chain, p / 512) < |disk|
    ensures ByteAt(g, disk, chain, p) == disk[SectorLba(g, chain, p / 512)][p % 512]
  {
    InChain(g, chain, p);
    SectorOnDisk(g, disk, chain, p);
  }

  /** Writing the `q`-th sector of a chain changes the bytes of that sector only. */
  lemma {:induction false} ByteAfter(g: Geometry, disk: seq<Sector>, chain: seq<nat>, q: nat, sec: Sector, t: seq<nat>,
      p: nat)
    requires GeometryOk(g, |disk|) && InRange(g, chain) && InRange(g, t) && p < Capacity(g, t)
    requires Quot(q, g.spc) < |chain| && SectorLba(g, chain, q) < |disk|
    requires t == chain || Apart(t, chain)
    requires forall i, j :: 0 <= i < j < |chain| ==> chain[i] != chain[j]
    ensures ByteAt(g, disk[SectorLba(g, chain, q) := sec], t, p) ==
            if t == chain && p / 512 == q then sec[p % 512] else ByteAt(g, disk, t, p)
  {
    hide Quot, Rem, ClusterLba, Capacity, GeometryOk;
    SectorByte(g, disk, t, p);
    SectorByte(g, disk[SectorLba(g, chain, q) := sec], t, p);
    var r := p / 512;
    var i, j := Quot(q, g.spc), Quot(r, g.spc);
    if SectorLba(g, chain, q) == SectorLba(g, t, r) {
      LbaInjective(g, chain[i], Rem(q, g.spc), t[j], Rem(r, g.spc));
      assert t[j] in t && chain[i] in chain;
      assert t == chain && i == j;
      QuotRem(q, g.spc);
      QuotRem(r, g.spc);
    }
  }

  /** A write at `pos` into a byte sequence, extending it when it runs past the end. */
  function Overwrite(was: seq<byte>, pos: nat, data: seq<byte>): (s: seq<byte>)
    requires pos <= |was|
    ensures |s| == if pos + |data| > |was| then pos + |data| else |was|
    ensures forall i :: 0 <= i < |s| ==> s[i] == if pos <= i < pos + |data| then data[i - pos] else was[i]
  {
    was[..pos] + data + if pos + |data| <= |was| then was[pos + |data|..] else []
  }

  function Patch(sec: Sector, off: nat, data: seq<byte>): (r: Sector)
    requires off + |data| <= 512
    ensures forall i :: 0 <= i < 512 ==> r[i] == if off <= i < off + |data| then data[i - off] else sec[i]
  {
    sec[..off] + data + sec[off + |data|..]
  }

  lemma {:induction false} SameSector(pos: nat, p: nat, n: nat)
    requires pos % 512 + n <= 512
    ensures pos <= p < pos + n <==> p / 512 == pos / 512 && pos % 512 <= p % 512 < pos % 512 + n
    ensures pos <= p < pos + n ==> p % 512 - pos % 512 == p - pos
  {
  }

  /** What fits before the end of a sector stays within the chain. */
  lemma {:induction false} FitsCapacity(g: Geometry, chain: seq<nat>, pos: nat, n: nat)
    requires g.spc > 0 && Quot(pos / 512, g.spc) < |chain| && pos % 512 + n <= 512
    ensures pos + n <= Capacity(g, chain)
  {
    hide Quot, Rem;
    QuotBound(pos / 512, |chain|, g.spc);
  }

  /** Reading part of one sector reads that part of the file. */
  lemma {:induction false} ReadPart(g: Geometry, disk: seq<Sector>, chain: seq<nat>, size: nat, pos: nat, n: nat)
    requires GeometryOk(g, |disk|) && InRange(g, chain) && size <= Capacity(g, chain)
    requires pos + n <= size && pos % 512 + n <= 512 && Quot(pos / 512, g.spc) < |chain|
    requires SectorLba(g, chain, pos / 512) < |disk|
    ensures disk[SectorLba(g, chain, pos / 512)][pos % 512..pos % 512 + n] ==
      Content(g, disk, chain, size)[pos..pos + n]
  {
    hide Capacity, GeometryOk;
    var sec := disk[SectorLba(g, chain, pos / 512)];
    var off := pos % 512;
    var part, whole := sec[off..off + n], Content(g, disk, chain, size)[pos..pos + n];
    forall i | 0 <= i < n ensures part[i] == whole[i] {
      SameSector(pos, pos + i, n);
      SectorByte(g, disk, chain, pos + i);
    }
  }

  /** Patching one sector overwrites that part of the file. */
  lemma {:induction false} WritePart(g: Geometry, disk: seq<Sector>, chain: seq<nat>, size: nat, pos: nat,
      data: seq<byte>, lba: nat)
    requires GeometryOk(g, |disk|) && InRange(g, chain) && pos <= size <= Capacity(g, chain)
    requires pos % 512 + |data| <= 512 && Quot(pos / 512, g.spc) < |chain|
    requires forall i, j :: 0 <= i < j < |chain| ==> chain[i] != chain[j]
    requires lba == SectorLba(g, chain, pos / 512) < |disk|
    requires pos + |data| <= Capacity(g, chain)
    ensures Content(g, disk[lba := Patch(disk[lba], pos % 512, data)], chain,
      if pos + |data| > size then pos + |data| else size)
         == Overwrite(Content(g, disk, chain, size), pos, data)
  {
    hide Capacity, GeometryOk, InRange, Patch, Overwrite, SectorLba, ByteAt;
    var sec := Patch(disk[lba], pos % 512, data);
    var size' := if pos + |data| > size then pos + |data| else size;
    var was, now := Content(g, disk, chain, size), Content(g, disk[lba := sec], chain, size');
    forall p: nat | p < size'
      ensures now[p] == if pos <= p < pos + |data| then data[p - pos] else was[p]
    {
      ByteAfter(g, disk, chain, pos / 512, sec, chain, p);
      SameSector(pos, p, |data|);
      if p / 512 == pos / 512 && !(pos <= p < pos + |data|) {
        SectorByte(g, disk, chain, p);
      }
    }
  }

  /** Writing a sector of one chain leaves a file on another chain alone. */
  lemma {:induction false} WriteElsewhere(g: Geometry, disk: seq<Sector>, chain: seq<nat>, q: nat, lba: nat,
      sec: Sector, t: seq<nat>, size: nat)
    requires GeometryOk(g, |disk|) && InRange(g, chain) && InRange(g, t) && size <= Capacity(g, t)
    requires Quot(q, g.spc) < |chain| && lba == SectorLba(g, chain, q) < |disk|
    requires forall i, j :: 0 <= i < j < |chain| ==> chain[i] != chain[j]
    requires Apart(t, chain)
    ensures Content(g, disk[lba := sec], t, size) == Content(g, disk, t, size)
  {
    InChainHead(g, chain, q);
    hide Capacity, GeometryOk, InRange, SectorLba, ByteAt, Apart;
    forall p: nat | p < size
      ensures Content(g, disk[lba := sec], t, size)[p] == Content(g, disk, t, size)[p]
    {
      ByteAfter(g, disk, chain, q, sec, t, p);
    }
  }

  /** No chain that holds anything is apart from itself. */
  lemma {:induction false} InChainHead(g: Geometry, chain: seq<nat>, q: nat)
    requires g.spc > 0 && Quot(q, g.spc) < |chain|
    ensures !Apart(chain, chain)
  {
    assert chain[0] in chain;
  }

  /** Only the data region matters to what files contain. */
  lemma {:induction false} ContentFrame(g: Geometry, disk: seq<Sector>, disk': seq<Sector>, chain: seq<nat>, size: nat)
    requires GeometryOk(g, |disk|) && |disk'| == |disk| && InRange(g, chain) && size <= Capacity(g, chain)
    requires forall l :: g.dataStart <= l < |disk| ==> disk'[l] == disk[l]
    ensures Content(g, disk', chain, size) == Content(g, disk, chain, size)
  {
    hide Capacity, GeometryOk, InRange, SectorLba, ByteAt;
    forall p: nat | p < size ensures Content(g, disk', chain, size)[p] == Content(g, disk, chain, size)[p] {
      SectorByte(g, disk, chain, p);
      SectorByte(g, disk', chain, p);
      SectorInData(g, disk, chain, p);
    }
  }

  lemma {:induction false} SectorInData(g: Geometry, disk: seq<Sector>, chain: seq<nat>, p: nat)
    requires GeometryOk(g, |disk|) && InRange(g, chain) && p < Capacity(g, chain)
    ensures Quot(p / 512, g.spc) < |chain| && g.dataStart <= SectorLba(g, chain, p / 512) < |disk|
  {
    InChain(g, chain, p);
    SectorOnDisk(g, disk, chain, p);
  }

  /** A longer chain holds more, and the same bytes at the front. */
  lemma {:induction false} ContentExtend(g: Geometry, disk: seq<Sector>, chain: seq<nat>, c: nat, size: nat)
    requires GeometryOk(g, |disk|) && InRange(g, chain) && size <= Capacity(g, chain) && 2 <= c < Limit(g)
    ensures InRange(g, chain + [c]) && size <= Capacity(g, chain + [c])
    ensures Content(g, disk, chain + [c], size) == Content(g, disk, chain, size)
  {
    assert InRange(g, chain + [c]) && size <= Capacity(g, chain + [c]) by {
      TimesMonotone(|chain|, |chain| + 1, g.spc);
    }
    hide Capacity, GeometryOk, InRange, ByteAt;
    forall p: nat | p < size ensures Content(g, disk, chain + [c], size)[p] == Content(g, disk, chain, size)[p] {
      SectorByte(g, disk, chain, p);
      SectorByte(g, disk, chain + [c], p);
    }
  }
}
