/** The converse of the round trip: whatever the decoder accepts is a
    well-formed DEFLATE stream, and the data it returns is that stream's data. */
module InflateSoundness {
  import opened Bits
  import opened CanonicalHuffman
  import opened DeflateFormat
  import opened InflateSpec
  import opened InflateRoundTrip

  lemma {:induction false} TakeSound(bits: seq<bool>, n: nat)
    requires Take(bits, n).Ok?
    ensures var d := Take(bits, n); bits == NatBits(d.value, n) + d.rest && d.value < Pow2(n)
  {
    NatBitsVal(bits[..n]);
    assert bits == bits[..n] + bits[n..];
  }

  lemma {:induction false} ClensSound(n: nat, done: seq<nat>, bits: seq<bool>) returns (todo: seq<nat>)
    requires |done| <= n && DecodeClens(n, done, bits).Ok?
    ensures DecodeClens(n, done, bits).value == done + todo
    ensures forall i :: 0 <= i < |todo| ==> todo[i] < 8
    ensures bits == EncodeClens(todo) + DecodeClens(n, done, bits).rest
    decreases n - |done|
  {
    hide NatBits, Take, Pow2;
    if |done| == n {
      todo := [];
    } else {
      TakeSound(bits, 3);
      EightOf3();
      var t := Take(bits, 3);
      var more := ClensSound(n, done + [t.value], t.rest);
      todo := [t.value] + more;
      assert todo[1..] == more;
    }
  }

  lemma {:induction false} EightOf3()
    ensures Pow2(3) == 8
  {
  }

  lemma {:induction false} OpSound(cl: seq<nat>, acc: seq<nat>, bits: seq<bool>)
    requires |cl| == NUM_CLEN && DecodeOp(cl, acc, bits).Ok?
    ensures var d := DecodeOp(cl, acc, bits); d.value.Ok(cl) && bits == d.value.Encode(cl) + d.rest
  {
    hide Code, NatBits, Pow2, Take;
    SmallPowers();
    var s := DecodeSymbol(cl, bits);
    var sym, rest := s.value, s.rest;
    if sym == 16 {
      TakeSound(rest, 2);
    } else if sym == 17 {
      TakeSound(rest, 3);
    } else if sym > 17 {
      TakeSound(rest, 7);
    }
    var d := DecodeOp(cl, acc, bits);
    assert rest == d.value.Extra() + d.rest;
  }

  lemma {:induction false} OpsSound(cl: seq<nat>, n: nat, acc: seq<nat>, bits: seq<bool>) returns (ops: seq<ClOp>)
    requires |cl| == NUM_CLEN && DecodeOps(cl, n, acc, bits).Ok?
    ensures OpsOk(ops, cl) && OpsApply(ops, acc)
    ensures DecodeOps(cl, n, acc, bits).value == ApplyOps(ops, acc)
    ensures bits == EncodeOps(ops, cl) + DecodeOps(cl, n, acc, bits).rest
    decreases |bits|
  {
    hide DecodeOp, ClOp.Encode, ClOp.Apply, ClOp.Ok;
    if |acc| >= n {
      ops := [];
    } else {
      OpSound(cl, acc, bits);
      var d := DecodeOp(cl, acc, bits);
      var op := d.value;
      var more := OpsSound(cl, n, op.Apply(acc), d.rest);
      ops := [op] + more;
      assert ops[1..] == more;
    }
  }

  lemma {:induction false} LengthsSound(nlen: nat, ndist: nat, ncode: nat, bits: seq<bool>) returns (h: Header)
    requires 257 <= nlen && 1 <= ndist && 4 <= ncode <= NUM_CLEN
    requires DecodeLengths(nlen, ndist, ncode, bits).Ok?
    ensures h.Ok() && h.nlen == nlen && h.ndist == ndist && |h.sent| == ncode
    ensures DecodeLengths(nlen, ndist, ncode, bits).value == Codes(h.Lit(), h.Dist())
    ensures bits == EncodeClens(h.sent) + (EncodeOps(h.ops, h.Cl()) + DecodeLengths(nlen, ndist, ncode, bits).rest)
  {
    hide DecodeClens, DecodeOps, EncodeClens, EncodeOps, ClenVector, Valid;
    var sent := ClensSound(ncode, [], bits);
    var c := DecodeClens(ncode, [], bits);
    assert c.value == sent;
    var ops := OpsSound(ClenVector(c.value), nlen + ndist, [], c.rest);
    h := Header(nlen, ndist, c.value, ops);
  }

  lemma {:induction false} HeaderSound(bits: seq<bool>) returns (h: Header)
    requires DecodeHeader(bits).Ok?
    ensures h.Ok() && DecodeHeader(bits).value == Codes(h.Lit(), h.Dist())
    ensures bits == h.Encode() + DecodeHeader(bits).rest
  {
    hide DecodeLengths, Take, NatBits, Pow2, EncodeClens, EncodeOps, Header.Ok;
    SmallPowers();
    TakeSound(bits, 5);
    var a := Take(bits, 5);
    TakeSound(a.rest, 5);
    var b := Take(a.rest, 5);
    TakeSound(b.rest, 4);
    var c := Take(b.rest, 4);
    h := LengthsSound(a.value + 257, b.value + 1, c.value + 4, c.rest);
  }

  lemma {:induction false} ItemSound(lit: seq<nat>, dist: seq<nat>, bits: seq<bool>)
    requires DecodeItem(lit, dist, bits).Ok?
    ensures var d := DecodeItem(lit, dist, bits);
      match d.value
      case Tok(t) => t.Ok(lit, dist) && bits == t.Encode(lit, dist) + d.rest
      case End => END_OF_BLOCK < |lit| && lit[END_OF_BLOCK] > 0 && bits == Code(lit, END_OF_BLOCK) + d.rest
  {
    hide Code, NatBits, Pow2, DecodeMatch;
    var s := DecodeSymbol(lit, bits);
    if s.value > END_OF_BLOCK {
      MatchSound(s.value - 257, dist, s.rest);
    }
  }

  lemma {:induction false} MatchSound(ls: nat, dist: seq<nat>, bits: seq<bool>)
    requires ls < NUM_LEN && DecodeMatch(ls, dist, bits).Ok?
    ensures var d := DecodeMatch(ls, dist, bits);
      var le, ds, de := d.value.t.lenExtra, d.value.t.distSym, d.value.t.distExtra;
      && ds < |dist| && dist[ds] > 0 && le < Pow2(LenExtra(ls)) && de < Pow2(DistExtra(ds))
      && bits == NatBits(le, LenExtra(ls)) + (Code(dist, ds) + (NatBits(de, DistExtra(ds)) + d.rest))
  {
    hide Code, Take, NatBits, Pow2, DecodeDistance;
    TakeSound(bits, LenExtra(ls));
    var e := Take(bits, LenExtra(ls));
    DistanceSound(ls, e.value, dist, e.rest);
  }

  lemma {:induction false} DistanceSound(ls: nat, le: nat, dist: seq<nat>, bits: seq<bool>)
    requires DecodeDistance(ls, le, dist, bits).Ok?
    ensures var d := DecodeDistance(ls, le, dist, bits);
      && d.value.Tok? && d.value.t.Match? && d.value.t.lenExtra == le
      && var ds, de := d.value.t.distSym, d.value.t.distExtra;
         ds < |dist| && dist[ds] > 0 && de < Pow2(DistExtra(ds))
         && bits == Code(dist, ds) + (NatBits(de, DistExtra(ds)) + d.rest)
  {
    hide Code, Take, NatBits, Pow2;
    var s := DecodeSymbol(dist, bits);
    TakeSound(s.rest, DistExtra(s.value));
  }

  lemma {:induction false} TokensSound(lit: seq<nat>, dist: seq<nat>, bits: seq<bool>, out: seq<byte>,
      cap: nat) returns (ts: seq<Token>)
    requires DecodeTokens(lit, dist, bits, out, cap).Ok? && |out| <= cap
    ensures END_OF_BLOCK < |lit| && TokensOk(ts, lit, dist) && TokensReach(ts, out)
    ensures var d := DecodeTokens(lit, dist, bits, out, cap);
      d.value == ExpandTokens(ts, out) && |d.value| <= cap && bits == EncodeTokens(ts, lit, dist) + d.rest
    decreases |bits|
  {
    hide Code, Token.Encode, Token.Ok, Token.Expand, DecodeItem, EmitToken;
    ItemSound(lit, dist, bits);
    var i := DecodeItem(lit, dist, bits);
    match i.value
    case End =>
      ts := [];
    case Tok(t) =>
      EmitExpands(t, out, cap);
      var more := TokensSound(lit, dist, i.rest, t.Expand(out), cap);
      ts := [t] + more;
      assert ts[1..] == more;
  }

  // ---- Blocks ----

  /** `ByteBits` undoes `BitBytes`. */
  lemma {:induction false} BitBytesSound(bits: seq<bool>, n: nat)
    requires 8 * n <= |bits|
    ensures ByteBits(BitBytes(bits, n)) == bits[..8 * n]
  {
    hide NatBits, ByteOf;
    if n > 0 {
      BitBytesSound(bits[8..], n - 1);
      ByteOfBits(bits[..8]);
      assert NatBits(ByteOf(bits[..8]), 8) == bits[..8];
      var r := BitBytes(bits, n);
      assert r[1..] == BitBytes(bits[8..], n - 1);
      assert bits[..8 * n] == bits[..8] + bits[8..][..8 * (n - 1)];
    }
  }

  lemma {:induction false} AlignedSound(bytes: seq<bool>, out: seq<byte>, cap: nat) returns (data: seq<byte>)
    requires DecodeAligned(bytes, out, cap).Ok?
    ensures |data| < 0x10000
    ensures var d := DecodeAligned(bytes, out, cap);
      && d.value == out + data && |d.value| <= cap
      && bytes == NatBits(|data|, 16) + (NatBits(0xFFFF - |data|, 16) + (ByteBits(data) + d.rest))
  {
    hide NatBits, Val, ByteBits, BitBytes, Pow2;
    Pow2Of16();
    NatBitsVal(bytes[..16]);
    NatBitsVal(bytes[16..32]);
    var len := Val(bytes[..16]);
    var body := bytes[32..];
    data := BitBytes(body, len);
    BitBytesSound(body, len);
    assert body == body[..8 * len] + body[8 * len..];
    assert bytes == bytes[..16] + (bytes[16..32] + body);
  }

  lemma {:induction false} StoredSound(bits: seq<bool>, pos: nat, out: seq<byte>, cap: nat) returns (b: Block)
    requires DecodeStored(bits, out, cap).Ok? && (pos + 3 + |bits|) % 8 == 0
    ensures b.Stored? && b.Ok(pos) && b.Reaches(out)
    ensures var d := DecodeStored(bits, out, cap);
      d.value == b.Expand(out) && |d.value| <= cap && bits == b.Body(pos) + d.rest
  {
    hide NatBits, ByteBits, DecodeAligned;
    var k := |bits| % 8;
    var pad, bytes := bits[..k], bits[k..];
    var data := AlignedSound(bytes, out, cap);
    b := Stored(pad, data);
    PadBoundary(pos, |bits|);
    assert bits == pad + bytes;
    Reassociate(pad, NatBits(|data|, 16), NatBits(0xFFFF - |data|, 16), ByteBits(data),
      DecodeStored(bits, out, cap).rest);
  }

  lemma {:induction false} PadBoundary(pos: nat, n: nat)
    requires (pos + 3 + n) % 8 == 0
    ensures (pos + 3 + n % 8) % 8 == 0
  {
  }

  lemma {:induction false} BodySound(kind: nat, bits: seq<bool>, pos: nat, out: seq<byte>, cap: nat) returns (b: Block)
    requires DecodeBody(kind, bits, out, cap).Ok? && (pos + 3 + |bits|) % 8 == 0 && |out| <= cap
    ensures b.Ok(pos) && b.Reaches(out) && b.Type() == kind
    ensures var d := DecodeBody(kind, bits, out, cap);
      d.value == b.Expand(out) && |d.value| <= cap && bits == b.Body(pos) + d.rest
  {
    hide DecodeStored, DecodeTokens, DecodeHeader, EncodeTokens, ExpandTokens, TokensReach, TokensOk, Header.Encode,
      Header.Ok, FixedLit, FixedDist;
    if kind == 0 {
      b := StoredSound(bits, pos, out, cap);
    } else if kind == 1 {
      var ts := TokensSound(FixedLit(), FixedDist(), bits, out, cap);
      b := Fixed(ts);
    } else {
      var h := HeaderSound(bits);
      var d := DecodeHeader(bits);
      var ts := TokensSound(h.Lit(), h.Dist(), d.rest, out, cap);
      b := Dynamic(h, ts);
    }
  }

  lemma {:induction false} BlockSound(bits: seq<bool>, pos: nat, out: seq<byte>, cap: nat) returns (b: Block)
    requires DecodeBlock(bits, out, cap).Ok? && (pos + |bits|) % 8 == 0 && |out| <= cap
    ensures b.Ok(pos) && b.Reaches(out)
    ensures var d := DecodeBlock(bits, out, cap);
      d.value.1 == b.Expand(out) && |d.value.1| <= cap && bits == b.Encode(d.value.0, pos) + d.rest
  {
    hide DecodeBody, Take, NatBits, Block.Body, Block.Ok, Block.Expand, Block.Reaches, Block.Type;
    TakeSound(bits[1..], 2);
    var t := Take(bits[1..], 2);
    b := BodySound(t.value, t.rest, pos, out, cap);
    assert bits == [bits[0]] + bits[1..];
  }

  /** Every accepted input starts with a well-formed stream whose data, and
      nothing else, is returned. */
  lemma {:induction false} StreamSound(bits: seq<bool>, pos: nat, out: seq<byte>, cap: nat) returns (blocks: seq<Block>)
    requires Inflate(bits, out, cap).Ok? && (pos + |bits|) % 8 == 0 && |out| <= cap
    ensures StreamOk(blocks, pos) && StreamReaches(blocks, out)
    ensures var d := Inflate(bits, out, cap);
      d.value == ExpandStream(blocks, out) && |d.value| <= cap && bits == EncodeStream(blocks, pos) + d.rest
    decreases |bits|
  {
    hide DecodeBlock, Block.Encode, Block.Ok, Block.Expand, Block.Reaches, Block.Next;
    var b := BlockSound(bits, pos, out, cap);
    var d := DecodeBlock(bits, out, cap);
    if d.value.0 {
      blocks := [b];
      assert blocks[1..] == [];
    } else {
      EncodeSize(b, false, pos);
      var more := StreamSound(d.rest, b.Next(pos), d.value.1, cap);
      blocks := [b] + more;
      assert blocks[1..] == more;
    }
  }

  /** `bits` is the encoding of a stream for `data`, followed by `rest`. */
  ghost predicate IsStream(blocks: seq<Block>, bits: seq<bool>, data: seq<byte>, rest: seq<bool>) {
    && StreamOk(blocks, 0) && StreamReaches(blocks, [])
    && bits == EncodeStream(blocks, 0) + rest && data == ExpandStream(blocks, [])
  }

  /** The decoder accepts exactly the well-formed streams whose data fits. */
  lemma {:induction false} InflateExact(bits: seq<bool>, cap: nat, data: seq<byte>, rest: seq<bool>)
    requires |bits| % 8 == 0
    ensures Inflate(bits, [], cap) == Ok(data, rest)
        <==> |data| <= cap && exists blocks :: IsStream(blocks, bits, data, rest)
  {
    hide Inflate, StreamOk, EncodeStream, StreamReaches, ExpandStream;
    if Inflate(bits, [], cap) == Ok(data, rest) {
      var blocks := StreamSound(bits, 0, [], cap);
      assert IsStream(blocks, bits, data, rest);
    }
    forall blocks | |data| <= cap && IsStream(blocks, bits, data, rest)
      ensures Inflate(bits, [], cap) == Ok(data, rest)
    {
      StreamRoundTrip(blocks, 0, [], cap, rest);
    }
  }

  /** End to end: every well-formed stream, put into bytes and followed by any
      trailer, decodes to exactly its data when that fits. */
  lemma {:induction false} InflatePacked(blocks: seq<Block>, trailer: seq<byte>, cap: nat)
    requires StreamOk(blocks, 0) && StreamReaches(blocks, [])
    ensures var d := Inflate(ByteBits(Pack(EncodeStream(blocks, 0)) + trailer), [], cap);
      var data := ExpandStream(blocks, []);
      if |data| <= cap then d.Ok? && d.value == data else d == Err(ERR_OUTPUT)
  {
    hide Inflate, StreamOk, StreamReaches, ExpandStream, EncodeStream, Pack, ByteBits;
    var code := EncodeStream(blocks, 0);
    PackBits(code);
    ByteBitsAppend(Pack(code), trailer);
    var bits := ByteBits(Pack(code) + trailer);
    var rest := bits[|code|..];
    assert bits == code + rest;
    StreamRoundTrip(blocks, 0, [], cap, rest);
  }
}
