/** A whole volume on values: what makes it consistent, the files it holds as
    byte strings, and what each change to the disk does to all of them. */
module FatFiles {
  import opened Bits
  import opened DivFacts
  import opened FatChains
  import opened FatContent

  datatype DirEntry = DirEntry(start: nat, size: nat)
  type Directory = map<Name, DirEntry>
  type Chains = map<Name, seq<nat>>
  type Files = map<Name, seq<byte>>

  ghost predicate FileOk(g: Geometry, e: DirEntry, chain: seq<nat>) {
    && InRange(g, chain) && e.size <= Capacity(g, chain) && e.size <= NONE
    && e.start == if chain == [] then 0 else chain[0]
  }

  ghost function FileBytes(g: Geometry, disk: seq<Sector>, e: DirEntry, chain: seq<nat>): (s: seq<byte>)
    requires GeometryOk(g, |disk|) && FileOk(g, e, chain)
    ensures |s| == e.size
  {
    Content(g, disk, chain, e.size)
  }

  /** Every name has a chain that can hold the file. */
  ghost predicate FilesOk(g: Geometry, dir: Directory, chains: Chains) {
    && dir.Keys == chains.Keys
    && forall x :: x in dir ==> FileOk(g, dir[x], chains[x])
  }

  ghost predicate VolumeOk(g: Geometry, disk: seq<Sector>, dir: Directory, chains: Chains) {
    GeometryOk(g, |disk|) && ChainsOk(Links(g, disk), chains) && FilesOk(g, dir, chains)
  }

  /** The files of a volume, by name. */
  ghost function FilesOf(g: Geometry, disk: seq<Sector>, dir: Directory, chains: Chains): (f: Files)
    requires GeometryOk(g, |disk|) && FilesOk(g, dir, chains)
  {
    map x | x in dir :: FileBytes(g, disk, dir[x], chains[x])
  }

  /** How many clusters are free. */
  ghost function Spare(g: Geometry, disk: seq<Sector>): nat
    requires GeometryOk(g, |disk|)
  {
    |Free(Links(g, disk))|
  }

  ghost predicate SameData(g: Geometry, disk: seq<Sector>, disk': seq<Sector>) {
    |disk'| == |disk| && forall l :: g.dataStart <= l < |disk| ==> disk'[l] == disk[l]
  }

  lemma {:induction false} SpareNone(g: Geometry, disk: seq<Sector>)
    requires GeometryOk(g, |disk|)
    ensures Spare(g, disk) == 0 <==> Free(Links(g, disk)) == {}
  {
  }

  lemma {:induction false} FileOf(g: Geometry, disk: seq<Sector>, dir: Directory, chains: Chains, x: Name)
    requires GeometryOk(g, |disk|) && FilesOk(g, dir, chains)
    ensures FilesOf(g, disk, dir, chains).Keys == dir.Keys
    ensures x in dir ==> x in chains && FileOk(g, dir[x], chains[x])
    ensures x in dir ==> FilesOf(g, disk, dir, chains)[x] == FileBytes(g, disk, dir[x], chains[x])
  {
    hide GeometryOk, FileBytes, FileOk;
  }

  /** A change to one file: the others must keep their bytes. */
  lemma {:induction false} FilesSet(g: Geometry, disk: seq<Sector>, disk': seq<Sector>, dir: Directory, chains: Chains,
      x: Name, e: DirEntry, chain: seq<nat>)
    requires GeometryOk(g, |disk|) && |disk'| == |disk| && FilesOk(g, dir, chains) && FileOk(g, e, chain)
    requires forall y :: y in dir && y != x ==> FileOk(g, dir[y], chains[y])
    requires forall y :: y in dir && y != x ==>
      FileBytes(g, disk', dir[y], chains[y]) == FileBytes(g, disk, dir[y], chains[y])
    ensures FilesOk(g, dir[x := e], chains[x := chain])
    ensures FilesOf(g, disk', dir[x := e], chains[x := chain]) ==
            FilesOf(g, disk, dir, chains)[x := FileBytes(g, disk', e, chain)]
  {
    hide GeometryOk, FileBytes, FilesOf, FileOk;
    var dir', chains' := dir[x := e], chains[x := chain];
    assert FilesOk(g, dir', chains');
    hide FilesOk;
    var f, f' := FilesOf(g, disk, dir, chains), FilesOf(g, disk', dir', chains');
    FileOf(g, disk, dir, chains, x);
    forall y | y in dir' ensures y in f' && f'[y] == f[x := FileBytes(g, disk', e, chain)][y] {
      FileOf(g, disk, dir, chains, y);
      FileOf(g, disk', dir', chains', y);
    }
    FileOf(g, disk', dir', chains', x);
  }

  lemma {:induction false} FileUnmoved(g: Geometry, disk: seq<Sector>, disk': seq<Sector>, e: DirEntry, chain: seq<nat>)
    requires GeometryOk(g, |disk|) && SameData(g, disk, disk') && FileOk(g, e, chain)
    ensures FileBytes(g, disk', e, chain) == FileBytes(g, disk, e, chain)
  {
    ContentFrame(g, disk, disk', chain, e.size);
  }

  lemma {:induction false} ChainIsOk(g: Geometry, disk: seq<Sector>, dir: Directory, chains: Chains, x: Name)
    requires VolumeOk(g, disk, dir, chains) && x in dir
    ensures x in chains && ChainOk(Links(g, disk), chains[x]) && FileOk(g, dir[x], chains[x])
  {
    hide Links, GeometryOk, ChainOk, FileOk;
    assert x in chains;
  }

  /** What follows the `k`-th cluster: the next one of the chain, or an end mark. */
  lemma {:induction false} NextOf(g: Geometry, disk: seq<Sector>, dir: Directory, chains: Chains, x: Name, k: nat)
    requires VolumeOk(g, disk, dir, chains) && x in dir && k < |chains[x]|
    ensures 2 <= chains[x][k] < Limit(g) <= EOC_MIN
    ensures var n := Links(g, disk)[chains[x][k]];
            n != chains[x][k] && if k + 1 < |chains[x]| then n == chains[x][k + 1] < EOC_MIN else n >= EOC_MIN
  {
    ChainIsOk(g, disk, dir, chains, x);
    hide VolumeOk;
    assert LinkAt(Links(g, disk), chains[x], k);
    if k + 1 < |chains[x]| {
      assert chains[x][k + 1] < Limit(g) && chains[x][k] != chains[x][k + 1];
    }
  }

  /** The first cluster of a file goes into its directory entry. */
  function GrownEntry(e: DirEntry, chain: seq<nat>, c: nat): DirEntry {
    if chain == [] then DirEntry(c, e.size) else e
  }

  lemma {:induction false} FileGrown(g: Geometry, disk: seq<Sector>, e: DirEntry, chain: seq<nat>, c: nat)
    requires GeometryOk(g, |disk|) && FileOk(g, e, chain) && 2 <= c < Limit(g)
    ensures FileOk(g, GrownEntry(e, chain, c), chain + [c])
    ensures FileBytes(g, disk, GrownEntry(e, chain, c), chain + [c]) == FileBytes(g, disk, e, chain)
  {
    hide Content, Capacity;
    ContentExtend(g, disk, chain, c, e.size);
  }

  /** Growing a chain by a free cluster leaves every file as it was. */
  lemma {:induction false} Grown(g: Geometry, disk: seq<Sector>, disk': seq<Sector>, dir: Directory, chains: Chains,
      x: Name, c: nat, e: DirEntry)
    requires VolumeOk(g, disk, dir, chains) && x in dir && c in Free(Links(g, disk))
    requires SameData(g, disk, disk')
    requires Links(g, disk') == LinkLast(Links(g, disk)[c := EOC], chains[x], c)
    requires e == GrownEntry(dir[x], chains[x], c)
    ensures VolumeOk(g, disk', dir[x := e], chains[x := chains[x] + [c]])
    ensures FilesOf(g, disk', dir[x := e], chains[x := chains[x] + [c]]) == FilesOf(g, disk, dir, chains)
    ensures Spare(g, disk') + 1 == Spare(g, disk)
  {
    assert |Links(g, disk)| <= EOC_MIN && 2 <= c < Limit(g);
    ChainIsOk(g, disk, dir, chains, x);
    hide Links, LinkLast, Free, GeometryOk, FileBytes, ChainsOk, ChainOk, FileOk, FilesOk, FilesOf, GrownEntry;
    var chain' := chains[x] + [c];
    ExtendFree(Links(g, disk), chains[x], c);
    Extend(Links(g, disk), chains, x, c);
    FileGrown(g, disk, dir[x], chains[x], c);
    FileUnmoved(g, disk, disk', e, chain');
    FilesKept(g, disk, disk', dir, chains, x, e, chain');
  }

  lemma {:induction false} FilesKept(g: Geometry, disk: seq<Sector>, disk': seq<Sector>, dir: Directory,
      chains: Chains, x: Name, e: DirEntry, chain: seq<nat>)
    requires GeometryOk(g, |disk|) && SameData(g, disk, disk') && FilesOk(g, dir, chains) && x in dir && x in chains
    requires FileOk(g, e, chain) && FileOk(g, dir[x], chains[x])
    requires FileBytes(g, disk', e, chain) == FileBytes(g, disk, dir[x], chains[x])
    ensures FilesOk(g, dir[x := e], chains[x := chain])
    ensures FilesOf(g, disk', dir[x := e], chains[x := chain]) == FilesOf(g, disk, dir, chains)
  {
    hide GeometryOk, FileBytes, FilesOf, FileOk;
    forall y | y in dir && y != x
      ensures FileOk(g, dir[y], chains[y])
      ensures FileBytes(g, disk', dir[y], chains[y]) == FileBytes(g, disk, dir[y], chains[y])
    {
      FileUnmoved(g, disk, disk', dir[y], chains[y]);
    }
    FilesSet(g, disk, disk', dir, chains, x, e, chain);
    hide FilesOk;
    FileOf(g, disk, dir, chains, x);
  }

  function PatchedEntry(e: DirEntry, end: nat): DirEntry {
    DirEntry(e.start, if end > e.size then end else e.size)
  }

  /** A write of `data` at `pos`, inside one sector, whose disk address is `lba`. */
  ghost predicate PatchAt(g: Geometry, disk: seq<Sector>, e: DirEntry, chain: seq<nat>, pos: nat, data: seq<byte>,
      lba: nat, disk': seq<Sector>) {
    && GeometryOk(g, |disk|) && FileOk(g, e, chain) && pos <= e.size
    && pos % 512 + |data| <= 512 && pos + |data| <= NONE && Quot(pos / 512, g.spc) < |chain|
    && lba == SectorLba(g, chain, pos / 512) < |disk|
    && disk' == disk[lba := Patch(disk[lba], pos % 512, data)]
  }

  /** Patching a sector of a file overwrites that file and no other. */
  lemma {:induction false} Patched(g: Geometry, disk: seq<Sector>, dir: Directory, chains: Chains, x: Name, pos: nat,
      data: seq<byte>, lba: nat, disk': seq<Sector>)
    requires VolumeOk(g, disk, dir, chains) && x in dir
    requires PatchAt(g, disk, dir[x], chains[x], pos, data, lba, disk')
    ensures |disk'| == |disk| && VolumeOk(g, disk', dir[x := PatchedEntry(dir[x], pos + |data|)], chains)
    ensures Links(g, disk') == Links(g, disk)
    ensures x in FilesOf(g, disk, dir, chains) && pos <= |FilesOf(g, disk, dir, chains)[x]|
    ensures FilesOf(g, disk', dir[x := PatchedEntry(dir[x], pos + |data|)], chains) ==
            FilesOf(g, disk, dir, chains)[x := Overwrite(FilesOf(g, disk, dir, chains)[x], pos, data)]
  {
    PatchLinks(g, disk, dir[x], chains[x], pos, data, lba, disk');
    ChainIsOk(g, disk, dir, chains, x);
    hide Links, GeometryOk, ChainsOk, PatchAt, Overwrite, FilesOf, FilesOk, FileOk, FileBytes, ChainOk, PatchedEntry;
    FilePatched(g, disk, dir[x], chains[x], pos, data, lba, disk', Links(g, disk));
    forall y | y in dir && y != x
      ensures FileOk(g, dir[y], chains[y])
      ensures FileBytes(g, disk', dir[y], chains[y]) == FileBytes(g, disk, dir[y], chains[y])
    {
      OthersPatched(g, disk, dir, chains, x, pos, data, lba, disk', y);
    }
    FilesSet(g, disk, disk', dir, chains, x, PatchedEntry(dir[x], pos + |data|), chains[x]);
    FileOf(g, disk, dir, chains, x);
    ChainsSame(chains, x);
  }

  lemma {:induction false} ChainsSame(chains: Chains, x: Name)
    requires x in chains
    ensures chains[x := chains[x]] == chains
  {
  }

  lemma {:induction false} PatchLinks(g: Geometry, disk: seq<Sector>, e: DirEntry, chain: seq<nat>, pos: nat,
      data: seq<byte>, lba: nat, disk': seq<Sector>)
    requires PatchAt(g, disk, e, chain, pos, data, lba, disk')
    ensures |disk'| == |disk| && pos <= e.size && Links(g, disk') == Links(g, disk)
  {
    SectorOnDisk(g, disk, chain, pos);
    LinksFrame(g, disk, disk');
  }

  lemma {:induction false} FilePatched(g: Geometry, disk: seq<Sector>, e: DirEntry, chain: seq<nat>, pos: nat,
      data: seq<byte>, lba: nat, disk': seq<Sector>, links: seq<nat>)
    requires PatchAt(g, disk, e, chain, pos, data, lba, disk') && ChainOk(links, chain)
    ensures |disk'| == |disk| && FileOk(g, PatchedEntry(e, pos + |data|), chain)
    ensures FileBytes(g, disk', PatchedEntry(e, pos + |data|), chain) ==
      Overwrite(FileBytes(g, disk, e, chain), pos, data)
  {
    FitsCapacity(g, chain, pos, |data|);
    hide GeometryOk, Capacity, Quot, Patch, InRange, SectorLba, Content, Overwrite, LinkAt;
    WritePart(g, disk, chain, e.size, pos, data, lba);
  }

  lemma {:induction false} OthersPatched(g: Geometry, disk: seq<Sector>, dir: Directory, chains: Chains, x: Name,
      pos: nat, data: seq<byte>, lba: nat, disk': seq<Sector>, y: Name)
    requires VolumeOk(g, disk, dir, chains) && x in dir && y in dir && x != y
    requires PatchAt(g, disk, dir[x], chains[x], pos, data, lba, disk')
    ensures |disk'| == |disk| && FileOk(g, dir[y], chains[y])
    ensures FileBytes(g, disk', dir[y], chains[y]) == FileBytes(g, disk, dir[y], chains[y])
  {
    ChainIsOk(g, disk, dir, chains, x);
    ChainIsOk(g, disk, dir, chains, y);
    assert x in chains && y in chains && Apart(chains[y], chains[x]);
    hide VolumeOk, Links, GeometryOk, Capacity, Quot, InRange, SectorLba, Content, LinkAt, Patch;
    WriteElsewhere(g, disk, chains[x], pos / 512, lba, Patch(disk[lba], pos % 512, data), chains[y], dir[y].size);
  }

  lemma {:induction false} FilesMinus(g: Geometry, dir: Directory, chains: Chains, x: Name)
    requires FilesOk(g, dir, chains)
    ensures FilesOk(g, dir - {x}, chains - {x})
  {
    hide FileOk;
    assert (dir - {x}).Keys == dir.Keys - {x} && (chains - {x}).Keys == chains.Keys - {x};
  }

  lemma {:induction false} FilesLess(g: Geometry, disk: seq<Sector>, disk': seq<Sector>, dir: Directory,
      chains: Chains, x: Name)
    requires GeometryOk(g, |disk|) && SameData(g, disk, disk') && FilesOk(g, dir, chains)
    ensures FilesOk(g, dir - {x}, chains - {x})
    ensures FilesOf(g, disk', dir - {x}, chains - {x}) == FilesOf(g, disk, dir, chains) - {x}
  {
    hide GeometryOk, FilesOf, FileOk, FilesOk, FileBytes, SameData;
    FilesMinus(g, dir, chains, x);
    assert |disk'| == |disk| by { SameLength(g, disk, disk'); }
    var dir', chains' := dir - {x}, chains - {x};
    var f, f' := FilesOf(g, disk, dir, chains), FilesOf(g, disk', dir', chains');
    FileOf(g, disk, dir, chains, x);
    FileOf(g, disk', dir', chains', x);
    forall y | y in f' ensures y in f && f'[y] == f[y] {
      FileOf(g, disk, dir, chains, y);
      FileOf(g, disk', dir', chains', y);
      FileUnmoved(g, disk, disk', dir[y], chains[y]);
    }
    MapMinus(f, f', x);
  }

  lemma {:induction false} SameSelf(g: Geometry, disk: seq<Sector>)
    ensures SameData(g, disk, disk)
  {
  }

  lemma {:induction false} SameLength(g: Geometry, disk: seq<Sector>, disk': seq<Sector>)
    requires SameData(g, disk, disk')
    ensures |disk'| == |disk|
  {
  }

  lemma {:induction false} MapMinus(f: Files, f': Files, x: Name)
    requires f'.Keys == f.Keys - {x}
    requires forall y :: y in f' ==> f'[y] == f[y]
    ensures f' == f - {x}
  {
  }

  /** Clearing a file's chain removes that file, and frees as many clusters as it had. */
  lemma {:induction false} Removed(g: Geometry, disk: seq<Sector>, disk': seq<Sector>, dir: Directory, chains: Chains,
      x: Name)
    requires VolumeOk(g, disk, dir, chains) && x in dir
    requires SameData(g, disk, disk')
    requires Links(g, disk') == Cleared(Links(g, disk), chains[x])
    ensures VolumeOk(g, disk', dir - {x}, chains - {x})
    ensures FilesOf(g, disk', dir - {x}, chains - {x}) == FilesOf(g, disk, dir, chains) - {x}
    ensures Spare(g, disk') == Spare(g, disk) + |chains[x]|
  {
    assert |Links(g, disk)| <= EOC_MIN;
    ChainIsOk(g, disk, dir, chains, x);
    hide Links, Cleared, Free, GeometryOk, ChainsOk, FilesOf, FileOk, FilesOk, ChainOk;
    Clear(Links(g, disk), chains, x);
    FilesLess(g, disk, disk', dir, chains, x);
  }

  /** A new name with no clusters is an empty file. */
  lemma {:induction false} Added(g: Geometry, disk: seq<Sector>, dir: Directory, chains: Chains, x: Name)
    requires VolumeOk(g, disk, dir, chains) && x !in dir
    ensures VolumeOk(g, disk, dir[x := DirEntry(0, 0)], chains[x := []])
    ensures FilesOf(g, disk, dir[x := DirEntry(0, 0)], chains[x := []]) == FilesOf(g, disk, dir, chains)[x := []]
  {
    AddedChains(Links(g, disk), chains, x);
    EmptyFileOk(g);
    hide Links, GeometryOk, FileBytes, ChainsOk, FilesOf, FileOk;
    FilesSet(g, disk, disk, dir, chains, x, DirEntry(0, 0), []);
    hide FilesOk;
    assert FileBytes(g, disk, DirEntry(0, 0), []) == [];
  }

  lemma {:induction false} EmptyFileOk(g: Geometry)
    ensures FileOk(g, DirEntry(0, 0), [])
  {
  }

  lemma {:induction false} AddedChains(links: seq<nat>, chains: Chains, x: Name)
    requires ChainsOk(links, chains) && x !in chains
    ensures ChainsOk(links, chains[x := []])
  {
    assert forall y :: y in chains ==> ChainOk(links, chains[y]);
    assert forall y, z :: y in chains && z in chains && y != z ==> Apart(chains[y], chains[z]);
  }

  // The cursor.

  /** The index of the cluster that holds position `pos`. */
  function ClusterOf(g: Geometry, pos: nat): nat
    requires g.spc > 0
  {
    Quot(pos, 512 * g.spc)
  }

  predicate AtBoundary(g: Geometry, pos: nat)
    requires g.spc > 0
  {
    Rem(pos, 512 * g.spc) == 0
  }

  /** Every position of the file, its end included, lies in some cluster of the chain. */
  ghost predicate Roomy(g: Geometry, chain: seq<nat>, size: nat) {
    chain != [] ==> size < Capacity(g, chain)
  }

  /** The cursor is where its position says. */
  ghost predicate CursorAt(g: Geometry, chain: seq<nat>, cur: nat, pos: nat, size: nat) {
    && g.spc > 0 && pos <= size && Roomy(g, chain, size)
    && if chain == [] then cur == 0 else ClusterOf(g, pos) < |chain| && cur == chain[ClusterOf(g, pos)]
  }

  lemma {:induction false} ClusterBySector(g: Geometry, pos: nat)
    requires g.spc > 0
    ensures ClusterOf(g, pos) == Quot(pos / 512, g.spc)
    ensures AtBoundary(g, pos) <==> Rem(pos / 512, g.spc) == 0 && pos % 512 == 0
  {
    QuotScaled(pos, g.spc);
  }

  lemma {:induction false} ClusterInChain(g: Geometry, chain: seq<nat>, pos: nat)
    requires g.spc > 0
    ensures pos < Capacity(g, chain) <==> ClusterOf(g, pos) < |chain|
  {
    ClusterBySector(g, pos);
    InChain(g, chain, pos);
  }

  /** A step within one sector leaves the cluster exactly when it ends on a cluster boundary. */
  lemma {:induction false} Advance(g: Geometry, pos: nat, n: nat)
    requires g.spc > 0 && 0 < n && pos % 512 + n <= 512
    ensures ClusterOf(g, pos + n) == ClusterOf(g, pos) + if AtBoundary(g, pos + n) then 1 else 0
  {
    hide Quot, Rem;
    ClusterBySector(g, pos);
    ClusterBySector(g, pos + n);
    QuotNext(pos / 512, g.spc);
  }

  /** At most this many bytes are moved by one call: none cross a sector boundary. */
  function Chunk(pos: nat, n: nat): (k: nat)
    ensures k <= n && pos % 512 + k <= 512 && (k == 0 <==> n == 0)
    ensures k == n || (pos + k) % 512 == 0
  {
    if n > 512 - pos % 512 then 512 - pos % 512 else n
  }

  /** Clusters that a write of `n` bytes at `pos` takes from the volume. */
  function Needed(g: Geometry, clusters: nat, pos: nat, n: nat): nat
    requires g.spc > 0
  {
    (if clusters == 0 then 1 else 0) +
    if AtBoundary(g, pos + n) && ClusterOf(g, pos) + 1 >= clusters then 1 else 0
  }

  /** After a write: the cursor is right exactly when the bytes moved and the next
      cluster, where one was called for, could be had. */
  lemma {:induction false} CursorWritten(g: Geometry, chain: seq<nat>, chain': seq<nat>, k: nat, cur: nat, pos: nat,
      n: nat, size: nat, ok: bool)
    requires g.spc > 0 && pos % 512 + n <= 512 && pos <= size && Roomy(g, chain, size)
    requires forall i, j :: 0 <= i < j < |chain'| ==> chain'[i] != chain'[j]
    requires k == ClusterOf(g, pos) < |chain| <= |chain'|
    requires if !AtBoundary(g, pos + n) then ok && cur == chain'[k]
             else if ok then k + 1 < |chain'| && cur == chain'[k + 1]
             else k + 1 == |chain'| && cur == chain'[k]
    ensures CursorAt(g, chain', cur, pos + n, if pos + n > size then pos + n else size) <==>
            if n == 0 then !ok || !AtBoundary(g, pos) else ok
  {
    hide ClusterOf, AtBoundary, Capacity;
    CapacityGrows(g, chain, chain');
    if n > 0 {
      Advance(g, pos, n);
      ClusterInChain(g, chain', pos + n);
    }
  }

  lemma {:induction false} CapacityGrows(g: Geometry, chain: seq<nat>, chain': seq<nat>)
    requires |chain| <= |chain'|
    ensures Capacity(g, chain) <= Capacity(g, chain')
  {
    TimesMonotone(|chain|, |chain'|, g.spc);
  }

  /** After a read of `n` bytes inside the file: only a read of nothing, made on a
      cluster boundary, spoils the cursor. */
  lemma {:induction false} CursorRead(g: Geometry, chain: seq<nat>, k: nat, cur: nat, pos: nat, n: nat, size: nat)
    requires g.spc > 0 && pos % 512 + n <= 512 && pos + n <= size && Roomy(g, chain, size)
    requires k == ClusterOf(g, pos) < |chain|
    requires if !AtBoundary(g, pos + n) then cur == chain[k]
             else cur != chain[k] && (k + 1 < |chain| ==> cur == chain[k + 1])
    ensures CursorAt(g, chain, cur, pos + n, size) <==> n > 0 || !AtBoundary(g, pos)
  {
    hide ClusterOf, AtBoundary, Capacity;
    if n > 0 {
      Advance(g, pos, n);
      ClusterInChain(g, chain, pos + n);
    }
  }

  const POSITIONS := 0x1_0000_0000

  /** The position a seek asks for. */
  function SeekTarget(pos: nat, size: nat, offset: int, whence: nat): int {
    if whence == 0 then offset else if whence == 1 then pos + offset else size + offset
  }

  /** Where a seek goes: positions are 32-bit, and the end of the file is the limit. */
  function SeekPos(pos: nat, size: nat, offset: int, whence: nat): nat {
    var target := SeekTarget(pos, size, offset, whence) % POSITIONS;
    if target > size then size else target
  }

  /** The position of the file nearest to the target. */
  function Clamp(target: int, size: nat): nat {
    if target < 0 then 0 else if target > size then size else target
  }

  /** When a seek goes to the nearest position of the file: always for targets that are
      positions; past them only if the wrapped target is past the end too; and before the
      start only if it wraps to the start or the file is empty. */
  lemma {:induction false} SeekLands(pos: nat, size: nat, offset: int, whence: nat)
    requires pos <= size <= NONE
    ensures var t := SeekTarget(pos, size, offset, whence);
      SeekPos(pos, size, offset, whence) == Clamp(t, size) <==>
      || 0 <= t < POSITIONS
      || (t >= POSITIONS && t % POSITIONS >= size)
      || (t < 0 && (size == 0 || t % POSITIONS == 0))
  {
  }

  /** Both ways of missing: a seek forward that wraps into the file, and one to before
      the start that does. */
  lemma {:induction false} SeekMisses()
    ensures SeekPos(3_000_000_000, 4_000_000_000, 2_000_000_000, 1) == 705_032_704
    ensures SeekPos(0, 4_000_000_000, -0x7000_0000, 0) == 0x9000_0000 < 4_000_000_000
  {
  }

  /** Which files have no clusters: those whose entry says so, and they are empty. */
  lemma {:induction false} EmptyChain(g: Geometry, disk: seq<Sector>, dir: Directory, chains: Chains, x: Name)
    requires VolumeOk(g, disk, dir, chains) && x in dir
    ensures x in chains && (chains[x] == [] <==> dir[x].start == 0)
    ensures chains[x] == [] ==> dir[x].size == 0
  {
    ChainIsOk(g, disk, dir, chains, x);
  }

  lemma {:induction false} FreshCluster(g: Geometry, disk: seq<Sector>, c: nat, disk': seq<Sector>, chain: seq<nat>)
    requires GeometryOk(g, |disk|) && c in Free(Links(g, disk)) && |disk'| == |disk|
    requires Links(g, disk') == Links(g, disk)[c := EOC]
    ensures chain == [] ==> Links(g, disk') == LinkLast(Links(g, disk)[c := EOC], chain, c)
    ensures 2 <= c < Limit(g)
    ensures Spare(g, disk) > 0
  {
    SpareNone(g, disk);
  }

  lemma {:induction false} FirstCursor(g: Geometry, c: nat)
    requires g.spc > 0
    ensures CursorAt(g, [c], c, 0, 0)
  {
    ClusterBySector(g, 0);
    QuotRemOf(0, g.spc, 0);
    ClusterInChain(g, [c], 0);
  }

  /** The cursor's cluster leads to the sector that holds its position. */
  lemma {:induction false} CursorSector(g: Geometry, disk: seq<Sector>, e: DirEntry, chain: seq<nat>, cur: nat,
      pos: nat)
    requires GeometryOk(g, |disk|) && FileOk(g, e, chain)
    requires ClusterOf(g, pos) < |chain| && cur == chain[ClusterOf(g, pos)]
    ensures Quot(pos / 512, g.spc) < |chain| && 2 <= cur < Limit(g)
    ensures ClusterLba(g, cur) + Rem(pos / 512, g.spc) == SectorLba(g, chain, pos / 512)
    ensures g.dataStart <= SectorLba(g, chain, pos / 512) < |disk|
  {
    ClusterBySector(g, pos);
    SectorOnDisk(g, disk, chain, pos);
  }

  lemma {:induction false} PatchBelow(g: Geometry, disk: seq<Sector>, e: DirEntry, chain: seq<nat>, pos: nat,
      data: seq<byte>, lba: nat, disk': seq<Sector>)
    requires PatchAt(g, disk, e, chain, pos, data, lba, disk')
    ensures |disk'| == |disk| && g.dataStart <= lba
    ensures forall l :: 0 <= l < g.dataStart && l < |disk| ==> disk'[l] == disk[l]
  {
    SectorOnDisk(g, disk, chain, pos);
  }

  lemma {:induction false} FileLength(g: Geometry, disk: seq<Sector>, dir: Directory, chains: Chains, x: Name)
    requires VolumeOk(g, disk, dir, chains) && x in dir
    ensures x in FilesOf(g, disk, dir, chains) && |FilesOf(g, disk, dir, chains)[x]| == dir[x].size
  {
    FileOf(g, disk, dir, chains, x);
  }

  lemma {:induction false} SameThrough(g: Geometry, disk: seq<Sector>, mid: seq<Sector>, disk': seq<Sector>)
    requires SameData(g, disk, mid) && SameData(g, mid, disk')
    ensures SameData(g, disk, disk')
  {
  }

  /** Taking a cluster and then linking it is growing the chain by it. */
  lemma {:induction false} Linked(links: seq<nat>, chain: seq<nat>, c: nat)
    requires chain != [] && c in Free(links) && |links| <= EOC_MIN && chain[|chain| - 1] < |links|
    ensures links[c := EOC][chain[|chain| - 1] := c % ENTRIES] == LinkLast(links[c := EOC], chain, c)
  {
  }

  lemma {:induction false} ChainDistinct(g: Geometry, disk: seq<Sector>, dir: Directory, chains: Chains, x: Name)
    requires VolumeOk(g, disk, dir, chains) && x in dir
    ensures x in chains && forall i, j :: 0 <= i < j < |chains[x]| ==> chains[x][i] != chains[x][j]
  {
    ChainIsOk(g, disk, dir, chains, x);
  }

  /** The bytes under the cursor are those of the file. */
  lemma {:induction false} FileRead(g: Geometry, disk: seq<Sector>, dir: Directory, chains: Chains, x: Name, pos: nat,
      n: nat)
    requires VolumeOk(g, disk, dir, chains) && x in dir && pos + n <= dir[x].size && pos % 512 + n <= 512
    requires x in chains && Quot(pos / 512, g.spc) < |chains[x]| && FileOk(g, dir[x], chains[x])
    requires SectorLba(g, chains[x], pos / 512) < |disk|
    ensures x in FilesOf(g, disk, dir, chains) && |FilesOf(g, disk, dir, chains)[x]| == dir[x].size
    ensures disk[SectorLba(g, chains[x], pos / 512)][pos % 512..pos % 512 + n] ==
      FilesOf(g, disk, dir, chains)[x][pos..pos + n]
  {
    hide Content, SectorLba, Capacity, Quot, GeometryOk, ChainsOk, FilesOf, FilesOk;
    FileOf(g, disk, dir, chains, x);
    ReadPart(g, disk, chains[x], dir[x].size, pos, n);
  }

  lemma {:induction false} ClusterAtMost(g: Geometry, chain: seq<nat>, pos: nat)
    requires g.spc > 0 && pos <= Capacity(g, chain)
    ensures ClusterOf(g, pos) <= |chain|
  {
    hide Quot, Rem;
    ClusterBySector(g, pos);
    QuotMonotone(pos / 512, Times(|chain|, g.spc), g.spc);
    QuotRemOf(|chain|, g.spc, 0);
  }

  /** A position in the file lies in its chain, or just past the end of it. */
  lemma {:induction false} SeekBounds(g: Geometry, disk: seq<Sector>, dir: Directory, chains: Chains, x: Name, pos: nat)
    requires VolumeOk(g, disk, dir, chains) && x in dir && pos <= dir[x].size
    ensures g.spc > 0 && x in chains && ClusterOf(g, pos) <= |chains[x]|
    ensures chains[x] == [] <==> dir[x].start == 0
    ensures chains[x] != [] ==> dir[x].start == chains[x][0]
    ensures pos < Capacity(g, chains[x]) <==> ClusterOf(g, pos) < |chains[x]|
  {
    ChainIsOk(g, disk, dir, chains, x);
    hide ClusterOf, Links, Capacity, FilesOk;
    ClusterInChain(g, chains[x], pos);
    ClusterAtMost(g, chains[x], pos);
  }

  lemma {:induction false} NoFile(g: Geometry, disk: seq<Sector>, dir: Directory, chains: Chains, x: Name)
    requires VolumeOk(g, disk, dir, chains) && x !in dir
    ensures dir - {x} == dir && chains - {x} == chains
    ensures FilesOf(g, disk, dir, chains) - {x} == FilesOf(g, disk, dir, chains)
  {
    FileOf(g, disk, dir, chains, x);
  }

  lemma {:induction false} ClearedNone(links: seq<nat>)
    ensures forall chain: seq<nat> :: Cleared(links, chain[..0]) == links
  {
  }

  /** While a chain is being cleared, the link of its next cluster is still there. */
  lemma {:induction false} ClearedNext(links: seq<nat>, chain: seq<nat>, j: nat)
    requires ChainOk(links, chain) && j < |chain|
    ensures Cleared(links, chain[..j])[chain[j]] == links[chain[j]]
  {
  }

  /** After a write that found no next cluster the cursor still names the last one, so
      the sector a further write would touch is the one a cluster earlier in the file. */
  lemma {:induction false} StaleCursor(g: Geometry, chain: seq<nat>, pos: nat)
    requires g.spc > 0 && AtBoundary(g, pos) && ClusterOf(g, pos) == |chain| > 0 && chain[|chain| - 1] >= 2
    ensures pos >= 512 * g.spc && Quot(pos / 512 - g.spc, g.spc) == |chain| - 1
    ensures ClusterLba(g, chain[|chain| - 1]) + Rem(pos / 512, g.spc) == SectorLba(g, chain, pos / 512 - g.spc)
  {
    hide Quot, Rem, ClusterLba;
    ClusterBySector(g, pos);
    QuotRem(pos / 512, g.spc);
    QuotRemOf(|chain| - 1, g.spc, 0);
  }

  /** What that further write does: it overwrites the file one cluster earlier, and the
      directory then promises more bytes than the chain can hold. */
  lemma {:induction false} StaleWrite(g: Geometry, disk: seq<Sector>, dir: Directory, chains: Chains, x: Name,
      data: seq<byte>, lba: nat, disk': seq<Sector>)
      returns (at: nat)
    requires VolumeOk(g, disk, dir, chains) && x in dir && 0 < |data| <= 512
    requires chains[x] != [] && dir[x].size == Capacity(g, chains[x]) && chains[x][|chains[x]| - 1] >= 2
    requires lba == ClusterLba(g, chains[x][|chains[x]| - 1]) + Rem(dir[x].size / 512, g.spc) < |disk|
    requires disk' == disk[lba := Patch(disk[lba], 0, data)]
    ensures at + 512 * g.spc == dir[x].size && |disk'| == |disk| && VolumeOk(g, disk', dir, chains)
    ensures x in FilesOf(g, disk, dir, chains) && at <= |FilesOf(g, disk, dir, chains)[x]|
    ensures FilesOf(g, disk', dir, chains) ==
      FilesOf(g, disk, dir, chains)[x := Overwrite(FilesOf(g, disk, dir, chains)[x], at, data)]
    ensures !FileOk(g, PatchedEntry(dir[x], dir[x].size + |data|), chains[x])
  {
    ChainIsOk(g, disk, dir, chains, x);
    at := StalePatch(g, disk, dir[x], chains[x], data, lba, disk');
    hide PatchAt, FilesOf, Links, ChainOk, ChainsOk, FileOk, FilesOk, PatchedEntry, GeometryOk, Overwrite, Patch,
      Capacity;
    SameEntry(dir, x);
    FileLength(g, disk, dir, chains, x);
    Patched(g, disk, dir, chains, x, at, data, lba, disk');
  }

  lemma {:induction false} SameEntry(dir: Directory, x: Name)
    requires x in dir
    ensures dir[x := dir[x]] == dir
  {
  }

  lemma {:induction false} StalePatch(g: Geometry, disk: seq<Sector>, e: DirEntry, chain: seq<nat>, data: seq<byte>,
      lba: nat, disk': seq<Sector>)
      returns (at: nat)
    requires GeometryOk(g, |disk|) && FileOk(g, e, chain) && 0 < |data| <= 512
    requires chain != [] && e.size == Capacity(g, chain) && chain[|chain| - 1] >= 2
    requires lba == ClusterLba(g, chain[|chain| - 1]) + Rem(e.size / 512, g.spc) < |disk|
    requires disk' == disk[lba := Patch(disk[lba], 0, data)]
    ensures at + 512 * g.spc == e.size && PatchAt(g, disk, e, chain, at, data, lba, disk')
    ensures PatchedEntry(e, at + |data|) == e && !FileOk(g, PatchedEntry(e, e.size + |data|), chain)
  {
    assert g.spc > 0;
    at := FullPosition(g, chain, e.size);
    hide GeometryOk, Quot, Rem, ClusterLba, SectorLba, Patch, InRange, Capacity;
  }

  /** A file that fills its chain: the stale cursor stands for the place one cluster back. */
  lemma {:induction false} FullPosition(g: Geometry, chain: seq<nat>, size: nat) returns (at: nat)
    requires 0 < g.spc && chain != [] && chain[|chain| - 1] >= 2 && size == Capacity(g, chain)
    ensures at + 512 * g.spc == size && at % 512 == 0 && Quot(at / 512, g.spc) == |chain| - 1
    ensures ClusterLba(g, chain[|chain| - 1]) + Rem(size / 512, g.spc) == SectorLba(g, chain, at / 512)
  {
    ClusterBySector(g, size);
    QuotRemOf(|chain|, g.spc, 0);
    StaleCursor(g, chain, size);
    at := size - 512 * g.spc;
    assert at / 512 == size / 512 - g.spc;
  }

  /** The numbers of `n` clusters. */
  function Clusters(n: nat): (cs: set<nat>)
    ensures forall c: nat :: c in cs <==> 2 <= c < n + 2
  {
    if n == 0 then {} else Clusters(n - 1) + {n + 1}
  }

  lemma {:induction false} ClustersSize(n: nat)
    ensures |Clusters(n)| == n
  {
    if n > 0 { ClustersSize(n - 1); }
  }

  /** On a volume whose table is blank every cluster is free: as many as the volume was
      found to have, or, when that is not known, those with numbers below 65536. */
  lemma {:induction false} BlankTable(g: Geometry, disk: seq<Sector>)
    requires GeometryOk(g, |disk|)
    requires forall l :: g.fatStart <= l < g.dataStart ==> forall i :: 0 <= i < 512 ==> disk[l][i] == 0
    ensures Free(Links(g, disk)) == Clusters(if g.total > 0 then g.total else 65534)
    ensures Spare(g, disk) == if g.total > 0 then g.total else 65534
  {
    ClustersSize(if g.total > 0 then g.total else 65534);
    hide GeometryOk, Times;
    forall c: nat | c < |Links(g, disk)| ensures Links(g, disk)[c] == 0 {
      BlankEntry(g, disk, c);
    }
    assert Free(Links(g, disk)) == Clusters(if g.total > 0 then g.total else 65534);
  }

  lemma {:induction false} BlankEntry(g: Geometry, disk: seq<Sector>, c: nat)
    requires GeometryOk(g, |disk|) && c < Limit(g)
    requires forall l :: g.fatStart <= l < g.dataStart ==> forall i :: 0 <= i < 512 ==> disk[l][i] == 0
    ensures Links(g, disk)[c] == 0
  {
    var s := disk[g.fatStart + c / 128];
    assert forall i :: 0 <= i < 512 ==> s[i] == 0;
  }

  /** Links are 28 bits wide, and a chain ends at a link whose upper 25 bits are all one. */
  lemma {:induction false} EndMarks(v: nat)
    requires v < ENTRIES
    ensures ENTRIES == Pow2(28) && EOC == Pow2(28) - 1
    ensures v >= EOC_MIN <==> v / 8 == Pow2(25) - 1
  {
    PowersHigh();
  }

  lemma {:induction false} PowersHigh()
    ensures Pow2(25) == 0x200_0000 && Pow2(28) == 0x1000_0000
  {
    assert Pow2(5) == 32;
    assert Pow2(10) == 1024;
    assert Pow2(15) == 0x8000;
    assert Pow2(20) == 0x10_0000;
    assert Pow2(25) == 0x200_0000;
  }
}
