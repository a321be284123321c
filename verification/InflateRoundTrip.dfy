/** Decoding undoes encoding: for every well-formed DEFLATE stream the decoder
    of `InflateSpec` returns exactly the data the stream stands for. */
module InflateRoundTrip {
  import opened Bits
  import opened CanonicalHuffman
  import opened DeflateFormat
  import opened InflateSpec

  lemma {:induction false} TakeNat(v: nat, n: nat, rest: seq<bool>)
    requires v < Pow2(n)
    ensures Take(NatBits(v, n) + rest, n) == Ok(v, rest)
  {
    ValNatBits(v, n);
    var bits := NatBits(v, n) + rest;
    assert bits[..n] == NatBits(v, n) && bits[n..] == rest;
  }

  lemma {:induction false} ClensRoundTrip(done: seq<nat>, todo: seq<nat>, rest: seq<bool>)
    requires forall i :: 0 <= i < |todo| ==> todo[i] < 8
    ensures DecodeClens(|done| + |todo|, done, EncodeClens(todo) + rest) == Ok(done + todo, rest)
    decreases |todo|
  {
    var bits := EncodeClens(todo) + rest;
    if todo == [] {
      assert bits == rest && done + todo == done;
    } else {
      var tail := EncodeClens(todo[1..]) + rest;
      assert bits == NatBits(todo[0], 3) + tail;
      assert Pow2(3) == 8;
      TakeNat(todo[0], 3, tail);
      ClensRoundTrip(done + [todo[0]], todo[1..], rest);
      assert done + [todo[0]] + todo[1..] == done + todo;
    }
  }

  lemma {:induction false} SmallPowers()
    ensures Pow2(2) == 4 && Pow2(3) == 8 && Pow2(4) == 16 && Pow2(5) == 32 && Pow2(7) == 128
  {
    assert Pow2(2) == 4;
    assert Pow2(4) == 16;
    assert Pow2(6) == 64;
  }

  lemma {:induction false} OpRoundTrip(cl: seq<nat>, acc: seq<nat>, op: ClOp, rest: seq<bool>)
    requires Valid(cl) && op.Ok(cl) && op.Applies(acc)
    ensures DecodeOp(cl, acc, op.Encode(cl) + rest) == Ok(op, rest)
  {
    hide DecodeSymbol, Code, Take, NatBits, Pow2, Valid, Sound;
    var tail := op.Extra() + rest;
    assert op.Encode(cl) + rest == Code(cl, op.Sym()) + tail;
    ValidSound(cl);
    DecodeCode(cl, op.Sym(), tail);
    SmallPowers();
    match op
    case Len(l) => assert tail == rest;
    case Repeat(n) => TakeNat(n - 3, 2, rest);
    case ZerosShort(n) => TakeNat(n - 3, 3, rest);
    case ZerosLong(n) => TakeNat(n - 11, 7, rest);
  }

  lemma {:induction false} OpGrows(cl: seq<nat>, op: ClOp, acc: seq<nat>)
    requires op.Ok(cl) && op.Applies(acc)
    ensures |acc| < |op.Apply(acc)|
  {
  }

  lemma {:induction false} OpsRoundTrip(cl: seq<nat>, ops: seq<ClOp>, acc: seq<nat>, n: nat, rest: seq<bool>)
    requires Valid(cl) && OpsOk(ops, cl) && OpsApply(ops, acc) && |ApplyOps(ops, acc)| == n
    ensures DecodeOps(cl, n, acc, EncodeOps(ops, cl) + rest) == Ok(ApplyOps(ops, acc), rest)
    decreases |ops|
  {
    hide DecodeOp, Valid, ClOp.Encode, ClOp.Apply;
    var bits := EncodeOps(ops, cl) + rest;
    if ops == [] {
      assert bits == rest;
    } else {
      var op := ops[0];
      var tail := EncodeOps(ops[1..], cl) + rest;
      assert bits == op.Encode(cl) + tail;
      OpRoundTrip(cl, acc, op, tail);
      OpGrows(cl, op, acc);
      assert |op.Apply(acc)| <= |ApplyOps(ops[1..], op.Apply(acc))|;
      OpsRoundTrip(cl, ops[1..], op.Apply(acc), n, rest);
    }
  }

  lemma {:induction false} HeaderRoundTrip(h: Header, rest: seq<bool>)
    requires h.Ok()
    ensures DecodeHeader(h.Encode() + rest) == Ok(Codes(h.Lit(), h.Dist()), rest)
  {
    hide DecodeLengths, Take, NatBits, Pow2, EncodeOps, EncodeClens, Valid;
    SmallPowers();
    var ops := EncodeOps(h.ops, h.Cl()) + rest;
    var clens := EncodeClens(h.sent) + ops;
    var third := NatBits(|h.sent| - 4, 4) + clens;
    var second := NatBits(h.ndist - 1, 5) + third;
    assert h.Encode() + rest == NatBits(h.nlen - 257, 5) + second;
    TakeNat(h.nlen - 257, 5, second);
    TakeNat(h.ndist - 1, 5, third);
    TakeNat(|h.sent| - 4, 4, clens);
    LengthsRoundTrip(h, rest);
  }

  lemma {:induction false} LengthsRoundTrip(h: Header, rest: seq<bool>)
    requires h.Ok()
    ensures DecodeLengths(h.nlen, h.ndist, |h.sent|, EncodeClens(h.sent) + (EncodeOps(h.ops, h.Cl()) + rest))
         == Ok(Codes(h.Lit(), h.Dist()), rest)
  {
    hide DecodeOps, DecodeClens, EncodeOps, EncodeClens, Valid, ClenVector, ApplyOps;
    var ops := EncodeOps(h.ops, h.Cl()) + rest;
    ClensRoundTrip([], h.sent, ops);
    assert [] + h.sent == h.sent;
    OpsRoundTrip(h.Cl(), h.ops, [], h.nlen + h.ndist, rest);
  }

  lemma {:induction false} TokenRoundTrip(lit: seq<nat>, dist: seq<nat>, t: Token, rest: seq<bool>)
    requires Valid(lit) && Valid(dist) && t.Ok(lit, dist)
    ensures DecodeItem(lit, dist, t.Encode(lit, dist) + rest) == Ok(Tok(t), rest)
  {
    hide DecodeSymbol, Code, Take, NatBits, Pow2, Valid, Sound;
    ValidSound(lit);
    ValidSound(dist);
    match t
    case Literal(b) => DecodeCode(lit, b, rest);
    case Match(ls, le, ds, de) =>
      var d := NatBits(de, DistExtra(ds)) + rest;
      var c := Code(dist, ds) + d;
      var b := NatBits(le, LenExtra(ls)) + c;
      assert t.Encode(lit, dist) + rest == Code(lit, 257 + ls) + b;
      DecodeCode(lit, 257 + ls, b);
      TakeNat(le, LenExtra(ls), c);
      DecodeCode(dist, ds, d);
      TakeNat(de, DistExtra(ds), rest);
  }

  /** The outcome for data of which only `cap` bytes fit. */
  ghost function Fit(data: seq<byte>, cap: nat, rest: seq<bool>): Decoded<seq<byte>> {
    if |data| <= cap then Ok(data, rest) else Err(ERR_OUTPUT)
  }

  lemma {:induction false} TokensRoundTrip(lit: seq<nat>, dist: seq<nat>, ts: seq<Token>, out: seq<byte>, cap: nat,
      rest: seq<bool>)
    requires Valid(lit) && Valid(dist) && END_OF_BLOCK < |lit| && lit[END_OF_BLOCK] > 0
    requires TokensOk(ts, lit, dist) && TokensReach(ts, out) && |out| <= cap
    ensures DecodeTokens(lit, dist, EncodeTokens(ts, lit, dist) + rest, out, cap) ==
      Fit(ExpandTokens(ts, out), cap, rest)
    decreases |ts|
  {
    hide DecodeSymbol, Code, Valid, Sound, Token.Encode, Token.Expand, Token.Ok, EmitToken;
    var bits := EncodeTokens(ts, lit, dist) + rest;
    if ts == [] {
      ValidSound(lit);
      DecodeCode(lit, END_OF_BLOCK, rest);
    } else {
      var tail := EncodeTokens(ts[1..], lit, dist) + rest;
      assert bits == ts[0].Encode(lit, dist) + tail;
      TokenRoundTrip(lit, dist, ts[0], tail);
      EmitExpands(ts[0], out, cap);
      var out' := ts[0].Expand(out);
      if |out'| <= cap {
        TokensRoundTrip(lit, dist, ts[1..], out', cap, rest);
      }
    }
  }

  // ---- Blocks ----

  lemma {:induction false} KraftRun(ls: seq<nat>, a: nat, b: nat, l: nat)
    requires LengthsOk(ls) && a <= b <= |ls| && 0 < l <= MAX_BITS
    requires forall i :: a <= i < b ==> ls[i] == l
    ensures KraftSum(ls[..b]) == KraftSum(ls[..a]) + (b - a) * Pow2(MAX_BITS - l)
  {
    hide Pow2;
    if a < b {
      KraftRun(ls, a, b - 1, l);
      assert ls[..b][..b - 1] == ls[..b - 1];
      var p := Pow2(MAX_BITS - l);
      assert (b - a) * p == (b - 1 - a) * p + p;
    }
  }

  /** The fixed literal code is a complete code. */
  lemma {:induction false} FixedLitValid()
    ensures Valid(FixedLit()) && KraftSum(FixedLit()) == Pow2(MAX_BITS)
  {
    hide KraftSum, Pow2;
    var ls := FixedLit();
    assert KraftSum(ls[..0]) == 0 by { KraftEmpty(); }
    KraftRun(ls, 0, 144, 8);
    KraftRun(ls, 144, 256, 9);
    KraftRun(ls, 256, 280, 7);
    KraftRun(ls, 280, 288, 8);
    assert ls[..288] == ls;
    FixedPowers();
  }

  lemma {:induction false} KraftEmpty()
    ensures KraftSum([]) == 0
  {
  }

  lemma {:induction false} FixedPowers()
    ensures Pow2(6) == 64 && Pow2(7) == 128 && Pow2(8) == 256 && Pow2(10) == 1024 && Pow2(15) == 32768
  {
    assert Pow2(3) == 8;
    assert Pow2(6) == 64;
    assert Pow2(9) == 512;
    assert Pow2(12) == 4096;
  }

  lemma {:induction false} FixedDistValid()
    ensures Valid(FixedDist())
  {
    var ds := FixedDist();
    KraftRun(ds, 0, 30, 5);
    assert ds[..30] == ds;
    hide KraftSum;
    FixedPowers();
  }

  lemma {:induction false} ByteOfNat(b: byte)
    ensures ByteOf(NatBits(b, 8)) == b
  {
    assert Pow2(8) == 256;
    ValNatBits(b, 8);
  }

  /** `BitBytes` undoes `ByteBits`. */
  lemma {:induction false} BitBytesRoundTrip(data: seq<byte>, rest: seq<bool>)
    ensures BitBytes(ByteBits(data) + rest, |data|) == data
  {
    hide NatBits, ByteOf;
    if data != [] {
      var bits := ByteBits(data) + rest;
      ByteOfNat(data[0]);
      BitBytesRoundTrip(data[1..], rest);
      assert bits[..8] == NatBits(data[0], 8) && bits[8..] == ByteBits(data[1..]) + rest;
      assert data == [data[0]] + data[1..];
    }
  }

  lemma {:induction false} Pow2Of16()
    ensures Pow2(16) == 0x10000
  {
    assert Pow2(4) == 16;
    assert Pow2(8) == 256;
    assert Pow2(12) == 4096;
  }

  /** The body of a stored block, from its byte boundary on. */
  lemma {:induction false} AlignedRoundTrip(data: seq<byte>, out: seq<byte>, cap: nat, rest: seq<bool>)
    requires |data| < 0x10000
    ensures DecodeAligned(NatBits(|data|, 16) + (NatBits(0xFFFF - |data|, 16) + (ByteBits(data) + rest)), out, cap)
         == Fit(out + data, cap, rest)
  {
    hide NatBits, ByteBits, Val, Pow2, BitBytes;
    var l, nl := NatBits(|data|, 16), NatBits(0xFFFF - |data|, 16);
    var body := ByteBits(data) + rest;
    var bytes := l + (nl + body);
    Pow2Of16();
    ValNatBits(|data|, 16);
    ValNatBits(0xFFFF - |data|, 16);
    assert bytes[..16] == l && bytes[16..32] == nl && bytes[32..] == body;
    assert body[8 * |data|..] == rest;
    BitBytesRoundTrip(data, rest);
  }

  lemma {:induction false} SkipPad(pad: seq<bool>, bytes: seq<bool>)
    requires |pad| < 8 && |bytes| % 8 == 0
    ensures (pad + bytes)[|pad + bytes| % 8..] == bytes
  {
  }

  lemma {:induction false} Reassociate(a: seq<bool>, b: seq<bool>, c: seq<bool>, d: seq<bool>, e: seq<bool>)
    ensures a + (b + (c + d)) + e == a + (b + (c + (d + e)))
  {
  }

  lemma {:induction false} WholeBytes(bytes: nat, rest: nat)
    requires rest % 8 == 0
    ensures (16 + (16 + (8 * bytes + rest))) % 8 == 0
  {
  }

  lemma {:induction false} StoredRoundTrip(pad: seq<bool>, data: seq<byte>, out: seq<byte>, cap: nat, rest: seq<bool>)
    requires |pad| < 8 && |data| < 0x10000 && |rest| % 8 == 0
    ensures DecodeBody(0, pad + (NatBits(|data|, 16) + (NatBits(0xFFFF - |data|, 16) + ByteBits(data))) + rest, out,
      cap)
         == Fit(out + data, cap, rest)
  {
    hide NatBits, ByteBits, DecodeAligned, DecodeTokens, DecodeHeader;
    var bytes := NatBits(|data|, 16) + (NatBits(0xFFFF - |data|, 16) + (ByteBits(data) + rest));
    Reassociate(pad, NatBits(|data|, 16), NatBits(0xFFFF - |data|, 16), ByteBits(data), rest);
    WholeBytes(|data|, |rest|);
    SkipPad(pad, bytes);
    AlignedRoundTrip(data, out, cap, rest);
  }

  lemma {:induction false} BodyRoundTrip(b: Block, pos: nat, out: seq<byte>, cap: nat, rest: seq<bool>)
    requires b.Ok(pos) && b.Reaches(out) && |out| <= cap && (b.Next(pos) + |rest|) % 8 == 0
    ensures DecodeBody(b.Type(), b.Body(pos) + rest, out, cap) == Fit(b.Expand(out), cap, rest)
  {
    hide DecodeBody, EncodeTokens, Header.Encode, Header.Ok, FixedLit, FixedDist, ExpandTokens, TokensReach, NatBits,
      ByteBits;
    match b
    case Stored(pad, data) =>
      StoredEnd(pos + 3 + |pad|, |data|, |rest|);
      StoredRoundTrip(pad, data, out, cap, rest);
    case Fixed(ts) => FixedRoundTrip(ts, out, cap, rest);
    case Dynamic(h, ts) =>
      DynamicRoundTrip(h, ts, out, cap, rest);
  }

  lemma {:induction false} StoredEnd(start: nat, bytes: nat, rest: nat)
    requires start % 8 == 0 && (start + (32 + 8 * bytes) + rest) % 8 == 0
    ensures rest % 8 == 0
  {
  }

  lemma {:induction false} FixedRoundTrip(ts: seq<Token>, out: seq<byte>, cap: nat, rest: seq<bool>)
    requires TokensOk(ts, FixedLit(), FixedDist()) && TokensReach(ts, out) && |out| <= cap
    ensures DecodeBody(1, EncodeTokens(ts, FixedLit(), FixedDist()) + rest, out, cap)
         == Fit(ExpandTokens(ts, out), cap, rest)
  {
    hide DecodeTokens, EncodeTokens, Valid, ExpandTokens, TokensReach;
    FixedLitValid();
    FixedDistValid();
    TokensRoundTrip(FixedLit(), FixedDist(), ts, out, cap, rest);
  }

  lemma {:induction false} DynamicRoundTrip(h: Header, ts: seq<Token>, out: seq<byte>, cap: nat, rest: seq<bool>)
    requires h.Ok() && TokensOk(ts, h.Lit(), h.Dist()) && TokensReach(ts, out) && |out| <= cap
    ensures DecodeBody(2, h.Encode() + EncodeTokens(ts, h.Lit(), h.Dist()) + rest, out, cap)
         == Fit(ExpandTokens(ts, out), cap, rest)
  {
    hide DecodeTokens, EncodeTokens, DecodeHeader, Header.Encode, Valid, ExpandTokens, TokensReach;
    var tail := EncodeTokens(ts, h.Lit(), h.Dist()) + rest;
    assert h.Encode() + EncodeTokens(ts, h.Lit(), h.Dist()) + rest == h.Encode() + tail;
    HeaderRoundTrip(h, tail);
    TokensRoundTrip(h.Lit(), h.Dist(), ts, out, cap, rest);
  }

  lemma {:induction false} BlockRoundTrip(b: Block, last: bool, pos: nat, out: seq<byte>, cap: nat, rest: seq<bool>)
    requires b.Ok(pos) && b.Reaches(out) && |out| <= cap && (b.Next(pos) + |rest|) % 8 == 0
    ensures DecodeBlock(b.Encode(last, pos) + rest, out, cap)
         == if |b.Expand(out)| <= cap then Ok((last, b.Expand(out)), rest) else Err(ERR_OUTPUT)
  {
    hide DecodeBody, Block.Body, Block.Ok, Block.Expand, Block.Reaches, Take, NatBits;
    var body := b.Body(pos) + rest;
    var bits := b.Encode(last, pos) + rest;
    assert bits[0] == last && bits[1..] == NatBits(b.Type(), 2) + body;
    SmallPowers();
    TakeNat(b.Type(), 2, body);
    BodyRoundTrip(b, pos, out, cap, rest);
  }

  lemma {:induction false} EncodeSize(b: Block, last: bool, pos: nat)
    requires b.Ok(pos)
    ensures pos + |b.Encode(last, pos)| == b.Next(pos)
  {
  }

  /** The round trip: whatever follows the stream, the decoder returns the data
      of all blocks when it fits in `cap` bytes and reports the output as too
      small when it does not. The whole input is a whole number of bytes. */
  lemma {:induction false} StreamRoundTrip(blocks: seq<Block>, pos: nat, out: seq<byte>, cap: nat, rest: seq<bool>)
    requires StreamOk(blocks, pos) && StreamReaches(blocks, out) && |out| <= cap
    requires (pos + |EncodeStream(blocks, pos)| + |rest|) % 8 == 0
    ensures Inflate(EncodeStream(blocks, pos) + rest, out, cap) == Fit(ExpandStream(blocks, out), cap, rest)
    decreases |blocks|
  {
    hide DecodeBlock, Block.Encode, Block.Ok, Block.Expand, Block.Reaches, Block.Next;
    var b := blocks[0];
    if |blocks| == 1 {
      EncodeSize(b, true, pos);
      BlockRoundTrip(b, true, pos, out, cap, rest);
      assert ExpandStream(blocks, out) == b.Expand(out);
    } else {
      EncodeSize(b, false, pos);
      var tail := EncodeStream(blocks[1..], b.Next(pos)) + rest;
      assert EncodeStream(blocks, pos) + rest == b.Encode(false, pos) + tail;
      BlockRoundTrip(b, false, pos, out, cap, tail);
      if |b.Expand(out)| <= cap {
        StreamRoundTrip(blocks[1..], b.Next(pos), b.Expand(out), cap, rest);
      }
    }
  }
}
