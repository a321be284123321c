/** The FAT32 driver of kernel/kernel.c: the one-sector write-through cache of
    the table, cluster allocation and linking, and the file cursor. */
module Fat {
  import opened Bits
  import opened DivFacts
  import opened FatChains
  import opened FatContent
  import opened FatFiles

  /** An open file. */
  class FileDesc {
    var name: Name
    var size: nat
    var start: nat
    var cur: nat
    var pos: nat

    constructor (x: Name)
      ensures name == x
    {
      name, size, start, cur, pos := x, 0, 0, 0, 0;
    }
  }

  class Volume {
    const geo: Geometry
    var disk: seq<Sector>
    const fatBuf: array<byte>
    const fileBuf: array<byte>
    /** The sector in `fatBuf`, or NONE. */
    var fatLba: nat
    var dir: Directory
    ghost var chains: Chains

    /** The cached sector of the table is the one on the disk. */
    ghost predicate Coherent()
      reads this, fatBuf, fileBuf
    {
      && GeometryOk(geo, |disk|)
      && fatBuf.Length == 512 && fileBuf.Length == 512 && fatBuf != fileBuf
      && (fatLba == NONE || (geo.fatStart <= fatLba < geo.dataStart && fatBuf[..] == disk[fatLba]))
    }

    ghost predicate Valid()
      reads this, fatBuf, fileBuf
    {
      Coherent() && VolumeOk(geo, disk, dir, chains)
    }

    /** What the volume holds: a byte string for each name. */
    ghost function Contents(): Files
      requires Valid()
      reads this, fatBuf, fileBuf
    {
      FilesOf(geo, disk, dir, chains)
    }

    ghost function Unused(): nat
      requires Coherent()
      reads this, fatBuf, fileBuf
    {
      Spare(geo, disk)
    }

    /** The descriptor agrees with the directory. */
    ghost predicate Opened(fd: FileDesc)
      reads this, fd
    {
      fd.name in dir && fd.name in chains && dir[fd.name] == DirEntry(fd.start, fd.size)
    }

    ghost predicate CursorOk(fd: FileDesc)
      reads this, fd
    {
      fd.name in chains && CursorAt(geo, chains[fd.name], fd.cur, fd.pos, fd.size)
    }

    /** A volume as found on a disk: nothing is cached yet. */
    constructor (g: Geometry, sectors: seq<Sector>, names: Directory, ghost found: Chains)
      requires VolumeOk(g, sectors, names, found)
      ensures Valid() && fresh(fatBuf) && fresh(fileBuf)
      ensures Contents() == FilesOf(g, sectors, names, found)
    {
      geo, disk, dir, chains := g, sectors, names, found;
      fatBuf, fileBuf := new byte[512](_ => 0), new byte[512](_ => 0);
      fatLba := NONE;
    }

    method Load(buf: array<byte>, lba: nat)
      requires buf.Length == 512 && lba < |disk|
      modifies buf
      ensures buf[..] == disk[lba]
    {
      forall i | 0 <= i < 512 {
        buf[i] := disk[lba][i];
      }
    }

    method FatReadCached(lba: nat)
      requires Coherent() && geo.fatStart <= lba < geo.dataStart
      modifies this`fatLba, fatBuf
      ensures Coherent() && fatLba == lba && fatBuf[..] == disk[lba]
    {
      if lba == fatLba {
        return;
      }
      Load(fatBuf, lba);
      fatLba := lba;
    }

    method FatWriteCached(lba: nat)
      requires GeometryOk(geo, |disk|) && geo.fatStart <= lba < geo.dataStart
      requires fatBuf.Length == 512 && fileBuf.Length == 512 && fatBuf != fileBuf
      modifies this`disk, this`fatLba
      ensures Coherent() && fatLba == lba
      ensures disk == old(disk)[lba := fatBuf[..]]
    {
      disk := disk[lba := fatBuf[..]];
      fatLba := lba;
    }

    /** `cluster_to_lba`. */
    method ClusterToLba(c: nat) returns (lba: nat)
      requires c >= 2
      ensures lba == ClusterLba(geo, c)
    {
      TimesMul(c - 2, geo.spc);
      lba := geo.dataStart + (c - 2) * geo.spc;
    }

    method NextCluster(c: nat) returns (n: nat)
      requires Coherent() && c < Limit(geo)
      modifies this`fatLba, fatBuf
      ensures Coherent() && n == Links(geo, disk)[c]
    {
      hide Times;
      var off := c * 4;
      var sector, idx := off / 512 + geo.fatStart, off % 512;
      assert off / 512 == c / 128 && idx == 4 * (c % 128);
      FatReadCached(sector);
      n := Le32(fatBuf[..], idx) % ENTRIES;
    }

    /** Sets the entry of `c`, whose sector is in the cache. */
    method StoreEntry(c: nat, v: nat)
      requires Coherent() && c < Limit(geo) && v <= NONE
      requires fatLba == geo.fatStart + c / 128
      modifies this`disk, this`fatLba, fatBuf
      ensures Coherent() && fatLba == old(fatLba) && SameData(geo, old(disk), disk)
      ensures Links(geo, disk) == old(Links(geo, disk))[c := v % ENTRIES]
    {
      hide Links, Put32, Times;
      var sector, idx := c * 4 / 512 + geo.fatStart, c * 4 % 512;
      assert c * 4 / 512 == c / 128 && idx == 4 * (c % 128);
      ghost var was := disk[sector];
      Put(idx, v);
      FatWriteCached(sector);
      LinksSet(geo, old(disk), c, v, disk);
    }

    /** A little-endian store into the cached sector. */
    method Put(i: nat, v: nat)
      requires fatBuf.Length == 512 && i + 4 <= 512 && v <= NONE
      modifies fatBuf
      ensures fatBuf[..] == Put32(old(fatBuf[..]), i, v)
    {
      var b := Bytes32(v);
      fatBuf[i], fatBuf[i + 1], fatBuf[i + 2], fatBuf[i + 3] := b[0], b[1], b[2], b[3];
    }

    method FatLink(c: nat, next: nat)
      requires Coherent() && c < Limit(geo) && next <= NONE
      modifies this`disk, this`fatLba, fatBuf
      ensures Coherent() && SameData(geo, old(disk), disk)
      ensures Links(geo, disk) == old(Links(geo, disk))[c := next % ENTRIES]
    {
      FatReadCached(c * 4 / 512 + geo.fatStart);
      StoreEntry(c, next);
    }

    /** The first free cluster, marked as the end of a chain; NONE if there is none. */
    method AllocCluster() returns (c: nat)
      requires Coherent()
      modifies this`disk, this`fatLba, fatBuf
      ensures Coherent() && SameData(geo, old(disk), disk)
      ensures c == NONE ==> disk == old(disk) && Free(Links(geo, disk)) == {}
      ensures c != NONE ==> c in Free(old(Links(geo, disk))) && Links(geo, disk) == old(Links(geo, disk))[c := EOC]
      ensures forall k :: k in Free(old(Links(geo, disk))) ==> c <= k
    {
      hide Times, Entry;
      var limit := Limit(geo);
      c := 2;
      while c < limit
        invariant 2 <= c <= limit && Coherent() && disk == old(disk)
        invariant forall k :: 2 <= k < c ==> Links(geo, disk)[k] != 0
      {
        var n := NextCluster(c);
        if n == 0 {
          FatReadCached(c * 4 / 512 + geo.fatStart);
          StoreEntry(c, EOC);
          return;
        }
        c := c + 1;
      }
      c := NONE;
    }

    /** The first cluster of a file that has none. */
    method FirstCluster(fd: FileDesc) returns (ok: bool)
      requires Valid() && Opened(fd) && fd.start == 0 && CursorOk(fd)
      modifies this`disk, this`fatLba, this`dir, this`chains, fatBuf, fd`start, fd`cur, fd`pos
      ensures Valid() && Opened(fd) && SameData(geo, old(disk), disk)
      ensures Contents() == old(Contents()) && fd.pos == old(fd.pos) == 0
      ensures CursorOk(fd) && old(chains[fd.name]) == []
      ensures ok <==> old(Unused()) > 0
      ensures Unused() + |chains[fd.name]| == old(Unused())
      ensures chains == old(chains)[fd.name := chains[fd.name]] && |chains[fd.name]| == if ok then 1 else 0
    {
      hide VolumeOk, FilesOf, SameData, Links, LinkLast, Free, Content, Capacity;
      EmptyChain(geo, disk, dir, chains, fd.name);
      var c := AllocCluster();
      if c == NONE {
        SpareNone(geo, disk);
        ChainsSame(chains, fd.name);
        return false;
      }
      SameLength(geo, old(disk), disk);
      FreshCluster(geo, old(disk), c, disk, chains[fd.name]);
      fd.start, fd.cur := c, c;
      fd.pos := 0;
      ghost var was := dir[fd.name];
      dir := dir[fd.name := DirEntry(c, dir[fd.name].size)];
      Grown(geo, old(disk), disk, old(dir), chains, fd.name, c, DirEntry(c, was.size));
      chains := chains[fd.name := chains[fd.name] + [c]];
      assert chains[fd.name] == [c];
      FirstCursor(geo, c);
      return true;
    }

    /** `memcpy` into the file buffer. */
    method CopyIn(off: nat, data: seq<byte>)
      requires fileBuf.Length == 512 && off + |data| <= 512
      modifies fileBuf
      ensures fileBuf[..] == Patch(old(fileBuf[..]), off, data)
    {
      forall i | 0 <= i < |data| {
        fileBuf[off + i] := data[i];
      }
    }

    /** Reads the sector under the cursor, changes part of it and writes it back. */
    method PutBytes(fd: FileDesc, data: seq<byte>)
      requires Valid() && Opened(fd) && fd.pos <= fd.size
      requires fd.pos % 512 + |data| <= 512 && fd.pos + |data| <= NONE
      requires ClusterOf(geo, fd.pos) < |chains[fd.name]| && fd.cur == chains[fd.name][ClusterOf(geo, fd.pos)]
      modifies this`disk, this`dir, fileBuf, fd`pos, fd`size
      ensures Valid() && Opened(fd) && |disk| == |old(disk)|
      ensures Unused() == old(Unused())
      ensures fd.pos == old(fd.pos) + |data|
      ensures fd.size == if fd.pos > old(fd.size) then fd.pos else old(fd.size)
      ensures fd.name in old(Contents()) && old(fd.pos) <= |old(Contents())[fd.name]|
      ensures Contents() == old(Contents())[fd.name := Overwrite(old(Contents())[fd.name], old(fd.pos), data)]
    {
      hide VolumeOk, FilesOf, Links, GeometryOk, FileOk, Overwrite, Patch, ClusterOf, ClusterLba, SectorLba, ChainOk,
        Quot, Rem;
      ghost var chain, e := chains[fd.name], dir[fd.name];
      ChainIsOk(geo, disk, dir, chains, fd.name);
      FileLength(geo, disk, dir, chains, fd.name);
      CursorSector(geo, disk, e, chain, fd.cur, fd.pos);
      var lba := ClusterToLba(fd.cur);
      lba := lba + Rem(fd.pos / 512, geo.spc);
      Load(fileBuf, lba);
      CopyIn(fd.pos % 512, data);
      disk := disk[lba := fileBuf[..]];
      PatchBelow(geo, old(disk), e, chain, fd.pos, data, lba, disk);
      Patched(geo, old(disk), dir, chains, fd.name, fd.pos, data, lba, disk);
      fd.pos := fd.pos + |data|;
      if fd.pos > fd.size {
        fd.size := fd.pos;
        dir := dir[fd.name := DirEntry(fd.start, fd.size)];
      }
      assert dir == old(dir)[fd.name := PatchedEntry(e, fd.pos)];
    }

    /** Moves the cursor to the cluster after its own, taking one if there is none. */
    method NextOrNew(fd: FileDesc, ghost k: nat) returns (ok: bool)
      requires Valid() && Opened(fd) && k < |chains[fd.name]| && fd.cur == chains[fd.name][k]
      modifies this`disk, this`fatLba, this`chains, fatBuf, fd`cur
      ensures Valid() && Opened(fd) && SameData(geo, old(disk), disk)
      ensures Contents() == old(Contents())
      ensures ok <==> k + 1 < |old(chains[fd.name])| || old(Unused()) > 0
      ensures Unused() + |chains[fd.name]| == old(Unused() + |chains[fd.name]|)
      ensures chains == old(chains)[fd.name := chains[fd.name]]
      ensures |chains[fd.name]| == if ok && k + 1 == |old(chains[fd.name])| then k + 2 else |old(chains[fd.name])|
      ensures if ok then fd.cur == chains[fd.name][k + 1] else fd.cur == chains[fd.name][k]
    {
      hide VolumeOk, FilesOf, SameData, Links, LinkLast, Free, Content, Capacity;
      ghost var x, chain := fd.name, chains[fd.name];
      NextOf(geo, disk, dir, chains, x, k);
      SameSelf(geo, disk);
      ChainsSame(chains, x);
      var next := NextCluster(fd.cur);
      ok := true;
      if next >= EOC_MIN {
        var c := AllocCluster();
        if c == NONE {
          SpareNone(geo, disk);
          return false;
        }
        SameLength(geo, old(disk), disk);
        FreshCluster(geo, old(disk), c, disk, chain);
        ghost var mid := disk;
        FatLink(fd.cur, c);
        SameLength(geo, mid, disk);
        next := c;
        SameThrough(geo, old(disk), mid, disk);
        Linked(old(Links(geo, disk)), chain, c);
        assert dir[x := dir[x]] == dir;
        Grown(geo, old(disk), disk, dir, chains, x, c, dir[x]);
        chains := chains[x := chain + [c]];
      }
      fd.cur := next;
    }

    /** `fat32_write_raw`: at most one sector, growing the file as needed. A result
        of -1 says that a cluster was missing, before or after the bytes moved. */
    method Write(fd: FileDesc, data: seq<byte>) returns (r: int)
      requires Valid() && Opened(fd) && CursorOk(fd) && fd.pos + Chunk(fd.pos, |data|) <= NONE
      modifies this`disk, this`fatLba, this`dir, this`chains, fatBuf, fileBuf
      modifies fd`start, fd`size, fd`cur, fd`pos
      ensures Valid() && Opened(fd)
      ensures r == -1 <==> old(Unused()) < Needed(geo, |old(chains[fd.name])|, old(fd.pos), Chunk(old(fd.pos), |data|))
      ensures r == -1 ==> Unused() == 0
      ensures r == -1 || r == Chunk(old(fd.pos), |data|)
      ensures fd.name in old(Contents()) && old(fd.pos) <= |old(Contents())[fd.name]|
      ensures if r == -1 && old(chains[fd.name]) == [] && old(Unused()) == 0
              then (Contents() == old(Contents()) && fd.pos == old(fd.pos) && CursorOk(fd))
              else (Contents() == old(Contents())[fd.name := Overwrite(old(Contents())[fd.name], old(fd.pos),
                data[..Chunk(old(fd.pos), |data|)])]
                    && fd.pos == old(fd.pos) + Chunk(old(fd.pos), |data|)
                    && (CursorOk(fd) <==> if data == [] then r == -1 || !AtBoundary(geo, old(fd.pos)) else r != -1))
      ensures Unused() + |chains[fd.name]| == old(Unused() + |chains[fd.name]|)
      ensures chains == old(chains)[fd.name := chains[fd.name]]
    {
      hide VolumeOk, FilesOf, SameData, Links, LinkLast, GeometryOk, FileOk, Overwrite, ClusterOf, AtBoundary, Free,
        Spare, Content, Capacity;
      var n := Chunk(fd.pos, |data|);
      FileLength(geo, disk, dir, chains, fd.name);
      EmptyChain(geo, disk, dir, chains, fd.name);
      if fd.start == 0 {
        var ok := FirstCluster(fd);
        if !ok {
          return -1;
        }
      }
      ghost var chain, k, size, free := chains[fd.name], ClusterOf(geo, fd.pos), fd.size, Unused();
      PutBytes(fd, data[..n]);
      if AtBoundary(geo, fd.pos) {
        var ok := NextOrNew(fd, k);
        r := if ok then n else -1;
      } else {
        r := n;
      }
      ChainDistinct(geo, disk, dir, chains, fd.name);
      CursorWritten(geo, chain, chains[fd.name], k, fd.cur, old(fd.pos), n, size, r != -1);
    }

    /** The next bytes of the sector under the cursor. */
    method GetBytes(fd: FileDesc, n: nat) returns (out: seq<byte>)
      requires Valid() && Opened(fd) && fd.pos + n <= fd.size && fd.pos % 512 + n <= 512
      requires ClusterOf(geo, fd.pos) < |chains[fd.name]| && fd.cur == chains[fd.name][ClusterOf(geo, fd.pos)]
      modifies fileBuf
      ensures Valid() && Opened(fd) && Contents() == old(Contents())
      ensures fd.name in Contents() && |Contents()[fd.name]| == fd.size
      ensures out == Contents()[fd.name][fd.pos..fd.pos + n]
    {
      hide VolumeOk, FilesOf, GeometryOk, FileOk, ClusterOf, ClusterLba, SectorLba, ChainOk, Quot, Rem;
      ChainIsOk(geo, disk, dir, chains, fd.name);
      CursorSector(geo, disk, dir[fd.name], chains[fd.name], fd.cur, fd.pos);
      var lba := ClusterToLba(fd.cur);
      lba := lba + Rem(fd.pos / 512, geo.spc);
      Load(fileBuf, lba);
      out := fileBuf[fd.pos % 512..fd.pos % 512 + n];
      FileRead(geo, disk, dir, chains, fd.name, fd.pos, n);
    }

    /** `fat32_read_raw`: at most to the end of the sector or of the file. At the end of
        the file it does not matter where the cursor is. */
    method Read(fd: FileDesc, n: nat) returns (out: seq<byte>)
      requires Valid() && Opened(fd) && (fd.pos < fd.size ==> CursorOk(fd))
      modifies this`fatLba, fatBuf, fileBuf, fd`cur, fd`pos
      ensures Valid() && Opened(fd) && Contents() == old(Contents())
      ensures fd.name in Contents() && |Contents()[fd.name]| == fd.size
      ensures old(fd.pos) >= fd.size ==> out == [] && fd.pos == old(fd.pos) && fd.cur == old(fd.cur)
      ensures old(fd.pos) < fd.size ==>
        && |out| == Chunk(old(fd.pos), if n < fd.size - old(fd.pos) then n else fd.size - old(fd.pos))
        && fd.pos == old(fd.pos) + |out| <= fd.size
        && out == Contents()[fd.name][old(fd.pos)..old(fd.pos) + |out|]
        && (CursorOk(fd) <==> n > 0 || !AtBoundary(geo, old(fd.pos)))
    {
      hide VolumeOk, FilesOf, CursorAt, AtBoundary, GeometryOk;
      FileLength(geo, disk, dir, chains, fd.name);
      if fd.pos >= fd.size {
        return [];
      }
      out := ReadInside(fd, n);
    }

    method ReadInside(fd: FileDesc, n: nat) returns (out: seq<byte>)
      requires Valid() && Opened(fd) && CursorOk(fd) && fd.pos < fd.size
      modifies this`fatLba, fatBuf, fileBuf, fd`cur, fd`pos
      ensures Valid() && Opened(fd) && Contents() == old(Contents())
      ensures fd.name in Contents() && |Contents()[fd.name]| == fd.size
      ensures |out| == Chunk(old(fd.pos), if n < fd.size - old(fd.pos) then n else fd.size - old(fd.pos))
      ensures fd.pos == old(fd.pos) + |out| <= fd.size
      ensures out == Contents()[fd.name][old(fd.pos)..old(fd.pos) + |out|]
      ensures CursorOk(fd) <==> n > 0 || !AtBoundary(geo, old(fd.pos))
    {
      hide VolumeOk, FilesOf, Links, GeometryOk, FileOk, ClusterOf, AtBoundary, Content, Capacity, ClusterLba,
        SectorLba, ChainOk, Quot, Rem;
      EmptyChain(geo, disk, dir, chains, fd.name);
      var avail := fd.size - fd.pos;
      var m := Chunk(fd.pos, if n < avail then n else avail);
      ghost var x, k := fd.name, ClusterOf(geo, fd.pos);
      out := GetBytes(fd, m);
      fd.pos := fd.pos + m;
      NextOf(geo, disk, dir, chains, x, k);
      if AtBoundary(geo, fd.pos) {
        fd.cur := NextCluster(fd.cur);
      }
      CursorRead(geo, chains[x], k, fd.cur, old(fd.pos), m, fd.size);
    }

    /** `fat32_vfs_seek`, on a descriptor whose cursor may have gone wrong. */
    method Seek(fd: FileDesc, offset: int, whence: nat) returns (ok: bool)
      requires Valid() && Opened(fd)
      modifies this`fatLba, fatBuf, fd`cur, fd`pos
      ensures Valid() && Opened(fd) && Contents() == old(Contents())
      ensures ok <==> whence <= 2
      ensures !ok ==> fd.cur == old(fd.cur) && fd.pos == old(fd.pos)
      ensures ok ==> fd.pos == SeekPos(old(fd.pos), fd.size, offset, whence)
      ensures ok ==> (CursorOk(fd) <==> Roomy(geo, chains[fd.name], fd.size))
    {
      hide VolumeOk, FilesOf, Links, GeometryOk, FileOk, ClusterOf, Content, Capacity;
      if whence > 2 {
        return false;
      }
      var target := SeekPos(fd.pos, fd.size, offset, whence);
      ghost var x, chain := fd.name, chains[fd.name];
      SeekBounds(geo, disk, dir, chains, x, target);
      var steps := ClusterOf(geo, target);
      var clus := fd.start;
      var i := 0;
      while i < steps && clus < EOC_MIN
        invariant Valid() && Opened(fd) && fd.name == x && i <= steps
        invariant if i < |chain| then clus == chain[i] else if chain == [] then i == clus == 0 else clus >= EOC_MIN
      {
        NextOf(geo, disk, dir, chains, x, i);
        clus := NextCluster(clus);
        i := i + 1;
      }
      if i < |chain| {
        NextOf(geo, disk, dir, chains, x, i);
      }
      fd.cur := clus;
      fd.pos := target;
      return true;
    }

    /** Opening a file puts the cursor on its first byte. */
    method Open(x: Name, fd: FileDesc) returns (ok: bool)
      requires Valid()
      modifies fd
      ensures ok <==> x in dir
      ensures ok ==> Opened(fd) && fd.name == x && fd.pos == 0
      ensures ok ==> (CursorOk(fd) <==> Roomy(geo, chains[x], fd.size))
    {
      hide VolumeOk, FilesOf, GeometryOk, ClusterOf, Capacity, FileOk;
      if x !in dir {
        return false;
      }
      SeekBounds(geo, disk, dir, chains, x, 0);
      FirstCursor(geo, 0);
      fd.name, fd.size, fd.start := x, dir[x].size, dir[x].start;
      fd.cur, fd.pos := fd.start, 0;
      return true;
    }

    /** `fat32_create_file_in`: an entry with no clusters. */
    method Create(x: Name)
      requires Valid() && x !in dir
      modifies this`dir, this`chains
      ensures Valid() && Contents() == old(Contents())[x := []]
      ensures dir == old(dir)[x := DirEntry(0, 0)] && chains == old(chains)[x := []]
    {
      hide VolumeOk, FilesOf, GeometryOk;
      Added(geo, disk, dir, chains, x);
      dir, chains := dir[x := DirEntry(0, 0)], chains[x := []];
    }

    /** One step of the walk: the link of `c` is read and then cleared. */
    method ClearOne(c: nat) returns (next: nat)
      requires Coherent() && c < Limit(geo)
      modifies this`disk, this`fatLba, fatBuf
      ensures Coherent() && SameData(geo, old(disk), disk)
      ensures next == old(Links(geo, disk))[c]
      ensures Links(geo, disk) == old(Links(geo, disk))[c := 0]
    {
      next := NextCluster(c);
      FatReadCached(c * 4 / 512 + geo.fatStart);
      StoreEntry(c, 0);
    }

    /** Walks the chain from its first cluster, clearing every link. */
    method ClearChain(first: nat, ghost x: Name, ghost names: Directory)
      requires Coherent() && VolumeOk(geo, disk, names, chains) && x in names
      requires first == names[x].start
      modifies this`disk, this`fatLba, fatBuf
      ensures Coherent() && SameData(geo, old(disk), disk)
      ensures x in chains && Links(geo, disk) == Cleared(old(Links(geo, disk)), chains[x])
    {
      hide VolumeOk, Links, GeometryOk, SameData, Cleared, ChainOk, FileOk, Capacity, ClusterOf;
      SeekBounds(geo, disk, names, chains, x, 0);
      ChainIsOk(geo, disk, names, chains, x);
      ghost var links, chain, j := Links(geo, disk), chains[x], 0;
      ClearedNone(links);
      SameSelf(geo, disk);
      var fc := first;
      while 2 <= fc < EOC_MIN
        invariant Coherent() && j <= |chain|
        invariant Links(geo, disk) == Cleared(links, chain[..j]) && SameData(geo, old(disk), disk)
        invariant if j < |chain| then fc == chain[j] else fc == 0 || fc >= EOC_MIN
        decreases |chain| - j
      {
        NextOf(geo, old(disk), names, chains, x, j);
        ClearedNext(links, chain, j);
        ClearedStep(links, chain, j);
        ghost var mid := disk;
        fc := ClearOne(fc);
        SameThrough(geo, old(disk), mid, disk);
        j := j + 1;
      }
      if j < |chain| {
        NextOf(geo, old(disk), names, chains, x, j);
      }
      assert chain[..j] == chain;
    }

    /** `fat32_delete_file_in`: drops the entry and clears the chain. */
    method Delete(x: Name) returns (ok: bool)
      requires Valid()
      modifies this`disk, this`fatLba, this`dir, this`chains, fatBuf
      ensures Valid() && (ok <==> x in old(dir)) && (ok ==> x in old(chains))
      ensures dir == old(dir) - {x} && chains == old(chains) - {x}
      ensures Contents() == old(Contents()) - {x}
      ensures ok ==> Unused() == old(Unused()) + |old(chains)[x]|
      ensures !ok ==> Unused() == old(Unused())
    {
      hide VolumeOk, FilesOf, Links, GeometryOk, SameData, Cleared;
      if x !in dir {
        NoFile(geo, disk, dir, chains, x);
        return false;
      }
      var first := dir[x].start;
      dir := dir - {x};
      ClearChain(first, x, old(dir));
      Removed(geo, old(disk), disk, old(dir), chains, x);
      chains := chains - {x};
      return true;
    }
  }
}
