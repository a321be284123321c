/** The DEFLATE format of RFC 1951, written from the sender's side: what a
    stream is made of, how it is put into bits, and what data it stands for.
    Nothing in this file decodes. */
module DeflateFormat {
  import opened Bits
  import opened CanonicalHuffman

  // ---- Section 3.2.5: lengths and distances ----

  const LEN_BASE: seq<nat> := [3, 4, 5, 6, 7, 8, 9, 10, 11, 13, 15, 17, 19, 23, 27, 31, 35, 43, 51, 59, 67, 83, 99,
    115, 131, 163, 195, 227, 258]
  const LEN_EXTRA: seq<nat> := [0, 0, 0, 0, 0, 0, 0, 0, 1, 1, 1, 1, 2, 2, 2, 2, 3, 3, 3, 3, 4, 4, 4, 4, 5, 5, 5, 5, 0]
  const DIST_BASE: seq<nat> := [1, 2, 3, 4, 5, 7, 9, 13, 17, 25, 33, 49, 65, 97, 129, 193, 257, 385, 513, 769, 1025,
    1537, 2049, 3073, 4097, 6145, 8193, 12289, 16385, 24577]
  const DIST_EXTRA: seq<nat> := [0, 0, 0, 0, 1, 1, 2, 2, 3, 3, 4, 4, 5, 5, 6, 6, 7, 7, 8, 8, 9, 9, 10, 10, 11, 11, 12,
    12, 13, 13]
  const NUM_LEN := 29
  const NUM_DIST := 30
  const END_OF_BLOCK := 256

  function LenBase(ls: nat): nat
    requires ls < NUM_LEN
  {
    LEN_BASE[ls]
  }

  function LenExtra(ls: nat): (n: nat)
    requires ls < NUM_LEN
    ensures n <= 5
  {
    LEN_EXTRA[ls]
  }

  function DistBase(ds: nat): (d: nat)
    requires ds < NUM_DIST
    ensures d > 0
  {
    DIST_BASE[ds]
  }

  function DistExtra(ds: nat): (n: nat)
    requires ds < NUM_DIST
    ensures n <= 13
  {
    DIST_EXTRA[ds]
  }

  /** A token as it is sent. A match names its length and distance by symbol and
      extra bits, so that every way of sending a length is covered: 258 has two. */
  datatype Token =
    | Literal(b: byte)
    | Match(lenSym: nat, lenExtra: nat, distSym: nat, distExtra: nat)
  {
    /** The symbols exist in the two codes and the extra bits fit. */
    predicate Ok(lit: seq<nat>, dist: seq<nat>) {
      match this
      case Literal(b) => b < |lit| && lit[b] > 0
      case Match(ls, le, ds, de) =>
        && ls < NUM_LEN && 257 + ls < |lit| && lit[257 + ls] > 0 && le < Pow2(LenExtra(ls))
        && ds < NUM_DIST && ds < |dist| && dist[ds] > 0 && de < Pow2(DistExtra(ds))
    }

    function Encode(lit: seq<nat>, dist: seq<nat>): seq<bool>
      requires Ok(lit, dist)
    {
      match this
      case Literal(b) => Code(lit, b)
      case Match(ls, le, ds, de) =>
        Code(lit, 257 + ls) + (NatBits(le, LenExtra(ls)) + (Code(dist, ds) + NatBits(de, DistExtra(ds))))
    }

    function Length(): nat
      requires Match? && lenSym < NUM_LEN
    {
      LenBase(lenSym) + lenExtra
    }

    function Distance(): (d: nat)
      requires Match? && distSym < NUM_DIST
      ensures d > 0
    {
      DistBase(distSym) + distExtra
    }

    /** A match must not reach back beyond the start of the output. */
    predicate Reaches(out: seq<byte>) {
      Match? ==> lenSym < NUM_LEN && distSym < NUM_DIST && Distance() <= |out|
    }

    /** The output with what the token stands for added. */
    function Expand(out: seq<byte>): seq<byte>
      requires Reaches(out)
    {
      match this
      case Literal(b) => out + [b]
      case Match(_, _, _, _) => CopyBack(out, Distance(), Length())
    }
  }

  /** Copies `len` bytes from `dist` back, one at a time, so that the copy may overlap itself. */
  function CopyBack(out: seq<byte>, dist: nat, len: nat): (r: seq<byte>)
    requires 0 < dist <= |out|
    ensures |r| == |out| + len && out <= r
  {
    if len == 0 then out
    else
      var r := CopyBack(out, dist, len - 1);
      r + [r[|r| - dist]]
  }

  /** The remainder of `i` by `d`, by repeated subtraction. */
  function Mod(i: nat, d: nat): (r: nat)
    requires d > 0
    ensures r < d
  {
    if i < d then i else Mod(i - d, d)
  }

  /** An overlapping copy repeats the last `dist` bytes periodically. */
  lemma {:induction false} CopyBackPeriodic(out: seq<byte>, dist: nat, len: nat, i: nat)
    requires 0 < dist <= |out| && i < len
    ensures CopyBack(out, dist, len)[|out| + i] == out[|out| - dist + Mod(i, dist)]
    decreases len, i
  {
    if i < len - 1 {
      CopyBackPeriodic(out, dist, len - 1, i);
    } else if i >= dist {
      CopyBackPeriodic(out, dist, i, i - dist);
    }
  }

  /** Each base lies as far behind the one before as its extra bits reach, so every
      length from 3 to 258 and every distance from 1 to 32768 can be sent; the last
      length is the exception. Every four length codes, from the eighth on, have one
      extra bit more, and every two distance codes, from the fourth on. */
  lemma {:induction false} LengthSteps(ls: nat)
    requires ls < NUM_LEN - 1
    ensures LenBase(ls + 1) <= LenBase(ls) + Pow2(LenExtra(ls))
    ensures ls < NUM_LEN - 2 ==> LenBase(ls + 1) == LenBase(ls) + Pow2(LenExtra(ls))
    ensures LenExtra(ls) == if ls < 8 then 0 else ls / 4 - 1
  {
    Powers();
  }

  lemma {:induction false} DistanceSteps(ds: nat)
    requires ds < NUM_DIST - 1
    ensures DistBase(ds + 1) == DistBase(ds) + Pow2(DistExtra(ds))
    ensures DistExtra(ds) == if ds < 4 then 0 else ds / 2 - 1
  {
    Powers();
  }

  lemma {:induction false} Powers()
    ensures Pow2(0) == 1 && Pow2(1) == 2 && Pow2(2) == 4 && Pow2(3) == 8 && Pow2(4) == 16 && Pow2(5) == 32
    ensures Pow2(6) == 64
    ensures Pow2(7) == 128 && Pow2(8) == 256 && Pow2(9) == 512 && Pow2(10) == 1024 && Pow2(11) == 2048
    ensures Pow2(12) == 4096 && Pow2(13) == 8192
  {
    assert Pow2(2) == 4;
    assert Pow2(4) == 16;
    assert Pow2(6) == 64;
    assert Pow2(8) == 256;
    assert Pow2(10) == 1024;
    assert Pow2(12) == 4096;
  }

  lemma {:induction false} LengthCoding(len: nat) returns (ls: nat, le: nat)
    requires 3 <= len <= 258
    ensures ls < NUM_LEN && le < Pow2(LenExtra(ls)) && LenBase(ls) + le == len
  {
    hide LenBase, LenExtra, Pow2;
    LengthEnds();
    ls := 0;
    while ls < NUM_LEN - 1 && LenBase(ls + 1) <= len
      invariant ls < NUM_LEN && LenBase(ls) <= len
    {
      ls := ls + 1;
    }
    le := len - LenBase(ls);
    if ls < NUM_LEN - 1 { LengthSteps(ls); }
  }

  lemma {:induction false} LengthEnds()
    ensures LenBase(0) == 3 && LenBase(28) == 258 && LenExtra(28) == 0
    ensures DistBase(0) == 1 && DistBase(29) == 24577 && DistExtra(29) == 13 && Pow2(13) == 8192
  {
    Powers();
  }

  lemma {:induction false} DistanceCoding(dist: nat) returns (ds: nat, de: nat)
    requires 1 <= dist <= 32768
    ensures ds < NUM_DIST && de < Pow2(DistExtra(ds)) && DistBase(ds) + de == dist
  {
    hide DistBase, DistExtra, Pow2;
    LengthEnds();
    ds := 0;
    while ds < NUM_DIST - 1 && DistBase(ds + 1) <= dist
      invariant ds < NUM_DIST && DistBase(ds) <= dist
    {
      ds := ds + 1;
    }
    de := dist - DistBase(ds);
    if ds < NUM_DIST - 1 { DistanceSteps(ds); }
  }

  predicate TokensOk(ts: seq<Token>, lit: seq<nat>, dist: seq<nat>) {
    forall i :: 0 <= i < |ts| ==> ts[i].Ok(lit, dist)
  }

  /** The tokens of a block followed by the end-of-block code. */
  function EncodeTokens(ts: seq<Token>, lit: seq<nat>, dist: seq<nat>): seq<bool>
    requires TokensOk(ts, lit, dist) && END_OF_BLOCK < |lit|
  {
    if ts == [] then Code(lit, END_OF_BLOCK)
    else ts[0].Encode(lit, dist) + EncodeTokens(ts[1..], lit, dist)
  }

  predicate TokensReach(ts: seq<Token>, out: seq<byte>) {
    ts == [] || (ts[0].Reaches(out) && TokensReach(ts[1..], ts[0].Expand(out)))
  }

  function ExpandTokens(ts: seq<Token>, out: seq<byte>): (r: seq<byte>)
    requires TokensReach(ts, out)
    ensures out <= r
  {
    if ts == [] then out else ExpandTokens(ts[1..], ts[0].Expand(out))
  }

  // ---- Section 3.2.6: the fixed codes ----

  /** Code lengths 8, 9, 7, 8 for literals 0-143, 144-255, 256-279, 280-287. */
  function FixedLit(): (ls: seq<nat>)
    ensures |ls| == 288
  {
    seq(288, i => if i < 144 then 8 else if i < 256 then 9 else if i < 280 then 7 else 8)
  }

  function FixedDist(): (ls: seq<nat>)
    ensures |ls| == 30
  {
    seq(30, _ => 5)
  }

  // ---- Section 3.2.7: the header of a dynamic block ----

  const CLEN_ORDER: seq<nat> := [16, 17, 18, 0, 8, 7, 9, 6, 10, 5, 11, 4, 12, 3, 13, 2, 14, 1, 15]
  const NUM_CLEN := 19

  /** One symbol of the code length alphabet with its repeat count. */
  datatype ClOp =
    | Len(l: nat)
    | Repeat(n: nat)      // copy the previous length 3 to 6 times
    | ZerosShort(n: nat)  // 3 to 10 zero lengths
    | ZerosLong(n: nat)   // 11 to 138 zero lengths
  {
    function Sym(): nat {
      match this
      case Len(l) => l
      case Repeat(_) => 16
      case ZerosShort(_) => 17
      case ZerosLong(_) => 18
    }

    predicate Ok(cl: seq<nat>) {
      && Sym() < |cl| && cl[Sym()] > 0
      && match this
         case Len(l) => l < 16
         case Repeat(n) => 3 <= n <= 6
         case ZerosShort(n) => 3 <= n <= 10
         case ZerosLong(n) => 11 <= n <= 138
    }

    function Extra(): seq<bool> {
      match this
      case Len(_) => []
      case Repeat(n) => if n < 3 then [] else NatBits(n - 3, 2)
      case ZerosShort(n) => if n < 3 then [] else NatBits(n - 3, 3)
      case ZerosLong(n) => if n < 11 then [] else NatBits(n - 11, 7)
    }

    function Encode(cl: seq<nat>): seq<bool>
      requires Ok(cl)
    {
      Code(cl, Sym()) + Extra()
    }

    /** A repeat needs a length to repeat. */
    predicate Applies(acc: seq<nat>) {
      Repeat? ==> acc != []
    }

    function Apply(acc: seq<nat>): (r: seq<nat>)
      requires Applies(acc)
      ensures acc <= r
    {
      match this
      case Len(l) => acc + [l]
      case Repeat(n) => acc + Times(acc[|acc| - 1], n)
      case ZerosShort(n) => acc + Times(0, n)
      case ZerosLong(n) => acc + Times(0, n)
    }
  }

  function Times(v: nat, n: nat): (r: seq<nat>)
    ensures |r| == n && forall i :: 0 <= i < n ==> r[i] == v
  {
    seq(n, _ => v)
  }

  predicate OpsOk(ops: seq<ClOp>, cl: seq<nat>) {
    forall i :: 0 <= i < |ops| ==> ops[i].Ok(cl)
  }

  function EncodeOps(ops: seq<ClOp>, cl: seq<nat>): seq<bool>
    requires OpsOk(ops, cl)
  {
    if ops == [] then [] else ops[0].Encode(cl) + EncodeOps(ops[1..], cl)
  }

  predicate OpsApply(ops: seq<ClOp>, acc: seq<nat>) {
    ops == [] || (ops[0].Applies(acc) && OpsApply(ops[1..], ops[0].Apply(acc)))
  }

  function ApplyOps(ops: seq<ClOp>, acc: seq<nat>): (r: seq<nat>)
    requires OpsApply(ops, acc)
    ensures acc <= r
  {
    if ops == [] then acc else ApplyOps(ops[1..], ops[0].Apply(acc))
  }

  /** The code length code, from its lengths in the order they are sent. */
  function ClenVector(sent: seq<nat>): (cl: seq<nat>)
    requires |sent| <= NUM_CLEN
    ensures |cl| == NUM_CLEN
  {
    if sent == [] then Times(0, NUM_CLEN)
    else
      var n := |sent| - 1;
      ClenVector(sent[..n])[CLEN_ORDER[n] := sent[n]]
  }

  function EncodeClens(sent: seq<nat>): seq<bool> {
    if sent == [] then [] else NatBits(sent[0], 3) + EncodeClens(sent[1..])
  }

  datatype Header = Header(nlen: nat, ndist: nat, sent: seq<nat>, ops: seq<ClOp>) {
    predicate Ok() {
      && 257 <= nlen <= 286 && 1 <= ndist <= 30 && 4 <= |sent| <= NUM_CLEN
      && (forall i :: 0 <= i < |sent| ==> sent[i] < 8)
      && Valid(Cl()) && OpsOk(ops, Cl()) && OpsApply(ops, [])
      && LengthsFit(Lengths(), nlen, ndist)
    }

    function Cl(): seq<nat>
      requires |sent| <= NUM_CLEN
    {
      ClenVector(sent)
    }

    function Lengths(): seq<nat>
      requires OpsApply(ops, [])
    {
      ApplyOps(ops, [])
    }

    function Lit(): seq<nat>
      requires Ok()
    {
      Lengths()[..nlen]
    }

    function Dist(): seq<nat>
      requires Ok()
    {
      Lengths()[nlen..]
    }

    function Encode(): seq<bool>
      requires Ok()
    {
      NatBits(nlen - 257, 5) + (NatBits(ndist - 1, 5) + (NatBits(|sent| - 4, 4) +
        (EncodeClens(sent) + EncodeOps(ops, Cl()))))
    }
  }

  /** The lengths make two codes, and the end-of-block symbol has a code word. */
  predicate LengthsFit(lens: seq<nat>, nlen: nat, ndist: nat) {
    && nlen > END_OF_BLOCK && |lens| == nlen + ndist && lens[END_OF_BLOCK] != 0
    && Valid(lens[..nlen]) && Valid(lens[nlen..])
  }

  // ---- Section 3.2.3: blocks and streams ----

  datatype Block =
    | Stored(pad: seq<bool>, data: seq<byte>)
    | Fixed(tokens: seq<Token>)
    | Dynamic(header: Header, tokens: seq<Token>)
  {
    /** Well formed when `pos` bits precede it; a stored block pads to a byte
        boundary, with any bits. */
    predicate Ok(pos: nat) {
      match this
      case Stored(pad, data) => |pad| < 8 && (pos + 3 + |pad|) % 8 == 0 && |data| < 0x10000
      case Fixed(ts) => TokensOk(ts, FixedLit(), FixedDist())
      case Dynamic(h, ts) => h.Ok() && TokensOk(ts, h.Lit(), h.Dist())
    }

    function Type(): nat {
      match this case Stored(_, _) => 0 case Fixed(_) => 1 case Dynamic(_, _) => 2
    }

    function Body(pos: nat): seq<bool>
      requires Ok(pos)
    {
      match this
      case Stored(pad, data) =>
        pad + (NatBits(|data|, 16) + (NatBits(0xFFFF - |data|, 16) + ByteBits(data)))
      case Fixed(ts) => EncodeTokens(ts, FixedLit(), FixedDist())
      case Dynamic(h, ts) => h.Encode() + EncodeTokens(ts, h.Lit(), h.Dist())
    }

    function Encode(last: bool, pos: nat): seq<bool>
      requires Ok(pos)
    {
      [last] + (NatBits(Type(), 2) + Body(pos))
    }

    /** The bit position after the block. */
    function Next(pos: nat): nat
      requires Ok(pos)
    {
      pos + 3 + |Body(pos)|
    }

    predicate Reaches(out: seq<byte>) {
      !Stored? ==> TokensReach(tokens, out)
    }

    function Expand(out: seq<byte>): (r: seq<byte>)
      requires Reaches(out)
      ensures out <= r
    {
      match this
      case Stored(_, data) => out + data
      case Fixed(ts) => ExpandTokens(ts, out)
      case Dynamic(_, ts) => ExpandTokens(ts, out)
    }
  }

  /** A stream is one or more blocks, the last one marked, starting at bit `pos`. */
  predicate StreamOk(blocks: seq<Block>, pos: nat)
    decreases |blocks|
  {
    && blocks != []
    && blocks[0].Ok(pos)
    && (|blocks| > 1 ==> StreamOk(blocks[1..], blocks[0].Next(pos)))
  }

  function EncodeStream(blocks: seq<Block>, pos: nat): seq<bool>
    requires StreamOk(blocks, pos)
    decreases |blocks|
  {
    if |blocks| == 1 then blocks[0].Encode(true, pos)
    else blocks[0].Encode(false, pos) + EncodeStream(blocks[1..], blocks[0].Next(pos))
  }

  predicate StreamReaches(blocks: seq<Block>, out: seq<byte>) {
    blocks == [] || (blocks[0].Reaches(out) && StreamReaches(blocks[1..], blocks[0].Expand(out)))
  }

  /** The data a stream stands for. */
  function ExpandStream(blocks: seq<Block>, out: seq<byte>): (r: seq<byte>)
    requires StreamReaches(blocks, out)
    ensures out <= r
  {
    if blocks == [] then out else ExpandStream(blocks[1..], blocks[0].Expand(out))
  }
}
