/** Whole runs of one open file against a plain byte sequence with a cursor. */
module FatRun {
  import opened Bits
  import opened FatChains
  import opened FatContent
  import opened FatFiles
  import opened Fat

  datatype Op = WriteOp(data: seq<byte>) | ReadOp(n: nat) | SeekOp(offset: int, whence: nat)

  /** The bytes of a file and a position in them. */
  datatype Plain = Plain(bytes: seq<byte>, pos: nat)

  /** What a call hands back: the bytes read. */
  function Reply(p: Plain, op: Op): (out: seq<byte>)
    requires p.pos <= |p.bytes|
    ensures p.pos + |out| <= |p.bytes|
  {
    var left := |p.bytes| - p.pos;
    match op
    case ReadOp(n) => p.bytes[p.pos..p.pos + Chunk(p.pos, if n < left then n else left)]
    case _ => []
  }

  function Step(p: Plain, op: Op): (q: Plain)
    requires p.pos <= |p.bytes|
    ensures q.pos <= |q.bytes|
  {
    match op
    case WriteOp(data) =>
      var part := data[..Chunk(p.pos, |data|)];
      Plain(Overwrite(p.bytes, p.pos, part), p.pos + |part|)
    case ReadOp(n) => Plain(p.bytes, p.pos + |Reply(p, op)|)
    case SeekOp(offset, whence) =>
      if whence <= 2 then Plain(p.bytes, SeekPos(p.pos, |p.bytes|, offset, whence)) else p
  }

  function After(p: Plain, ops: seq<Op>): (q: Plain)
    requires p.pos <= |p.bytes|
    ensures q.pos <= |q.bytes|
  {
    if ops == [] then p else Step(After(p, ops[..|ops| - 1]), ops[|ops| - 1])
  }

  function Replies(p: Plain, ops: seq<Op>): seq<seq<byte>>
    requires p.pos <= |p.bytes|
  {
    if ops == [] then []
    else Replies(p, ops[..|ops| - 1]) + [Reply(After(p, ops[..|ops| - 1]), ops[|ops| - 1])]
  }

  /** The calls that move a cursor wrongly on a cluster boundary are those of no bytes. */
  predicate Real(op: Op) {
    match op
    case WriteOp(data) => data != []
    case ReadOp(n) => n > 0
    case SeekOp(_, _) => true
  }

  lemma {:induction false} RunStep(p: Plain, ops: seq<Op>, i: nat)
    requires p.pos <= |p.bytes| && i < |ops|
    ensures After(p, ops[..i + 1]) == Step(After(p, ops[..i]), ops[i])
    ensures Replies(p, ops[..i + 1]) == Replies(p, ops[..i]) + [Reply(After(p, ops[..i]), ops[i])]
  {
    assert ops[..i + 1][..i] == ops[..i];
  }

  /** A write ends before byte 2^32, where a 32-bit size would wrap. */
  predicate Below4G(p: Plain, op: Op) {
    op.WriteOp? ==> p.pos + Chunk(p.pos, |op.data|) <= NONE
  }

  predicate RunBelow4G(p: Plain, ops: seq<Op>)
    requires p.pos <= |p.bytes|
  {
    forall i :: 0 <= i < |ops| ==> Below4G(After(p, ops[..i]), ops[i])
  }

  /** The volume holds the files `all`, but for the open file `x`, which is at `p`. */
  ghost predicate Holds(v: Volume, fd: FileDesc, all: Files, x: Name, p: Plain)
    reads v, v.fatBuf, v.fileBuf, fd
  {
    && v.Valid() && v.Opened(fd) && v.CursorOk(fd)
    && fd.name == x && fd.pos == p.pos <= |p.bytes| == fd.size
    && v.Contents() == all[x := p.bytes]
  }

  /** Where a write that found no cluster leaves the volume: the other files as they
      were, and this file as before the call, or with the bytes of the call written. */
  ghost predicate Stopped(v: Volume, fd: FileDesc, all: Files, x: Name, p: Plain, op: Op)
    requires p.pos <= |p.bytes|
    reads v, v.fatBuf, v.fileBuf, fd
  {
    && op.WriteOp? && v.Valid() && v.Opened(fd) && fd.name == x && v.Unused() == 0
    && ((fd.pos == p.pos && v.Contents() == all[x := p.bytes])
        || (fd.pos == Step(p, op).pos && v.Contents() == all[x := Step(p, op).bytes]))
  }

  method CallWrite(v: Volume, fd: FileDesc, data: seq<byte>, ghost all: Files, ghost x: Name, ghost p: Plain)
      returns (ok: bool)
    requires Holds(v, fd, all, x, p) && data != [] && p.pos + Chunk(p.pos, |data|) <= NONE
    modifies v, v.fatBuf, v.fileBuf, fd
    ensures ok ==> Holds(v, fd, all, x, Step(p, WriteOp(data)))
    ensures !ok ==> Stopped(v, fd, all, x, p, WriteOp(data))
  {
    hide CursorAt, VolumeOk, FilesOf, GeometryOk, AtBoundary, Overwrite, Chunk;
    var r := v.Write(fd, data);
    FileLength(v.geo, v.disk, v.dir, v.chains, x);
    ok := r != -1;
  }

  method CallRead(v: Volume, fd: FileDesc, n: nat, ghost all: Files, ghost x: Name, ghost p: Plain)
      returns (out: seq<byte>)
    requires Holds(v, fd, all, x, p) && n > 0
    modifies v, v.fatBuf, v.fileBuf, fd
    ensures Holds(v, fd, all, x, Step(p, ReadOp(n))) && out == Reply(p, ReadOp(n))
  {
    hide CursorAt, VolumeOk, FilesOf, GeometryOk, AtBoundary, Chunk;
    out := v.Read(fd, n);
  }

  method CallSeek(v: Volume, fd: FileDesc, offset: int, whence: nat, ghost all: Files, ghost x: Name, ghost p: Plain)
    requires Holds(v, fd, all, x, p)
    modifies v, v.fatBuf, v.fileBuf, fd
    ensures Holds(v, fd, all, x, Step(p, SeekOp(offset, whence)))
  {
    hide VolumeOk, FilesOf, GeometryOk, Roomy, SeekPos, ClusterOf;
    var ok := v.Seek(fd, offset, whence);
  }

  /** One call does to the file, the cursor and every other file what the plain step says. */
  method Call(v: Volume, fd: FileDesc, op: Op, ghost all: Files, ghost x: Name, ghost p: Plain)
      returns (ok: bool, out: seq<byte>)
    requires Holds(v, fd, all, x, p) && Real(op) && Below4G(p, op)
    modifies v, v.fatBuf, v.fileBuf, fd
    ensures ok ==> Holds(v, fd, all, x, Step(p, op)) && out == Reply(p, op)
    ensures !ok ==> Stopped(v, fd, all, x, p, op)
  {
    HoldsWithin(v, fd, all, x, p);
    hide Holds, Step, Stopped;
    ok, out := true, [];
    match op
    case WriteOp(data) => ok := CallWrite(v, fd, data, all, x, p);
    case ReadOp(n) => out := CallRead(v, fd, n, all, x, p);
    case SeekOp(offset, whence) => CallSeek(v, fd, offset, whence, all, x, p);
  }

  lemma {:induction false} HoldsWithin(v: Volume, fd: FileDesc, all: Files, x: Name, p: Plain)
    requires Holds(v, fd, all, x, p)
    ensures p.pos <= |p.bytes|
  {
  }

  lemma {:induction false} HoldsNow(v: Volume, fd: FileDesc)
    requires v.Valid() && v.Opened(fd) && v.CursorOk(fd)
    ensures fd.name in v.Contents() && fd.pos <= |v.Contents()[fd.name]| == fd.size
    ensures Holds(v, fd, v.Contents(), fd.name, Plain(v.Contents()[fd.name], fd.pos))
  {
    hide VolumeOk, FilesOf, GeometryOk;
    FileLength(v.geo, v.disk, v.dir, v.chains, fd.name);
    assert v.Contents()[fd.name := v.Contents()[fd.name]] == v.Contents();
  }

  /** Every run of writes, reads and seeks that move something returns what a byte
      sequence with a cursor returns and leaves the file as that leaves it, however the
      file grows; it stops early only when no cluster is left, and then says where. */
  method Run(v: Volume, fd: FileDesc, ops: seq<Op>) returns (done: nat, replies: seq<seq<byte>>)
    requires v.Valid() && v.Opened(fd) && v.CursorOk(fd)
    requires forall i :: 0 <= i < |ops| ==> Real(ops[i])
    requires fd.name in v.Contents() && fd.pos <= |v.Contents()[fd.name]|
    requires RunBelow4G(Plain(v.Contents()[fd.name], fd.pos), ops)
    modifies v, v.fatBuf, v.fileBuf, fd
    ensures fd.name == old(fd.name) && fd.name in old(v.Contents()) && old(fd.pos) <= |old(v.Contents())[fd.name]|
    ensures done <= |ops| && replies == Replies(Plain(old(v.Contents())[fd.name], old(fd.pos)), ops[..done])
    ensures done == |ops| ==>
              Holds(v, fd, old(v.Contents()), fd.name, After(Plain(old(v.Contents())[fd.name], old(fd.pos)), ops))
    ensures done < |ops| ==>
      Stopped(v, fd, old(v.Contents()), fd.name, After(Plain(old(v.Contents())[fd.name], old(fd.pos)), ops[..done]),
        ops[done])
  {
    HoldsNow(v, fd);
    ghost var all, x := v.Contents(), fd.name;
    ghost var was := Plain(all[x], fd.pos);
    done, replies := 0, [];
    hide Holds, Step, Reply, Stopped;
    while done < |ops|
      invariant done <= |ops| && fd.name == x
      invariant Holds(v, fd, all, x, After(was, ops[..done]))
      invariant replies == Replies(was, ops[..done])
    {
      RunStep(was, ops, done);
      var ok, out := Call(v, fd, ops[done], all, x, After(was, ops[..done]));
      if !ok {
        StoppedName(v, fd, all, x, After(was, ops[..done]), ops[done]);
        return;
      }
      HoldsName(v, fd, all, x, After(was, ops[..done + 1]));
      done, replies := done + 1, replies + [out];
    }
    assert ops[..done] == ops;
  }

  lemma {:induction false} StoppedName(v: Volume, fd: FileDesc, all: Files, x: Name, p: Plain, op: Op)
    requires p.pos <= |p.bytes| && Stopped(v, fd, all, x, p, op)
    ensures fd.name == x
  {
  }

  lemma {:induction false} HoldsName(v: Volume, fd: FileDesc, all: Files, x: Name, p: Plain)
    requires Holds(v, fd, all, x, p)
    ensures fd.name == x
  {
  }
}
