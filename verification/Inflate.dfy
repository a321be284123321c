/** The DEFLATE decoder of kernel/inflate.c: bit buffer, table-driven symbol
    decoding, header parsing and in-place copies, proved to compute exactly the
    functions of `InflateSpec`, error codes included. */
module Inflate {
  import opened Bits
  import opened CanonicalHuffman
  import opened HuffmanTable
  import opened DeflateFormat
  import opened InflateSpec
  import opened InflateRoundTrip
  import opened InflateSteps

  /** The decoder state: struct inflate_ctx without the window, which both
      public entry points leave null. */
  class InflateCtx {
    const input: seq<byte>
    var inPos: nat
    var bitBuf: nat
    var bitCnt: nat

    const out: array<byte>
    var outPos: nat

    const lencode: HuffTable
    const distcode: HuffTable

    constructor (input: seq<byte>, out: array<byte>)
      ensures this.input == input && this.out == out && Ready() && Tables() && Out() == []
      ensures Rest() == ByteBits(input)
      ensures fresh(lencode) && fresh(lencode.counts) && fresh(lencode.symbols)
      ensures fresh(distcode) && fresh(distcode.counts) && fresh(distcode.symbols)
    {
      this.input, this.out := input, out;
      inPos, bitBuf, bitCnt, outPos := 0, 0, 0, 0;
      lencode := new HuffTable();
      distcode := new HuffTable();
      new;
      assert input[0..] == input && NatBits(0, 0) == [];
    }

    /** Fewer than eight bits are buffered, and the buffer holds nothing else. */
    ghost predicate Ready()
      reads this`inPos, this`bitBuf, this`bitCnt, this`outPos
    {
      inPos <= |input| && bitCnt < 8 && bitBuf < Pow2(bitCnt) && outPos <= out.Length
    }

    ghost predicate Tables() {
      && lencode.Shape() && distcode.Shape() && lencode != distcode
      && lencode.counts != distcode.counts && lencode.counts != distcode.symbols
      && lencode.symbols != distcode.counts && lencode.symbols != distcode.symbols
    }

    /** The input not consumed yet. */
    ghost function Rest(): seq<bool>
      requires inPos <= |input|
      reads this`inPos, this`bitBuf, this`bitCnt
    {
      NatBits(bitBuf, bitCnt) + ByteBits(input[inPos..])
    }

    /** The output so far. */
    ghost function Out(): seq<byte>
      requires outPos <= out.Length
      reads this`outPos, out
    {
      out[..outPos]
    }

    /** Reads `need` bits, lowest first. After a successful read fewer than
        eight bits stay buffered, so the buffer never outgrows 32 bits. */
    method Bits(need: nat) returns (r: int)
      requires Ready() && need <= 24
      modifies this`inPos, this`bitBuf, this`bitCnt
      ensures match Take(old(Rest()), need)
        case Ok(v, rest) => r == v && Ready() && Rest() == rest
        case Err(e) => r < 0 && (need <= 8 ==> Ready() && Rest() == old(Rest()))
    {
      var val: nat := bitBuf;
      hide NatBits, ByteBits, Pow2, Shr, Low, Shl;
      ghost var rest := Rest();
      while bitCnt < need
        invariant inPos <= |input| && bitCnt < need + 8 && val < Pow2(bitCnt)
        invariant rest == NatBits(val, bitCnt) + ByteBits(input[inPos..])
        invariant bitBuf == old(bitBuf) && (bitCnt < 8 ==> inPos == old(inPos) && bitCnt == old(bitCnt))
        decreases need - bitCnt
      {
        if inPos >= |input| {
          assert input[inPos..] == [];
          return -1;
        }
        AddByte(val, bitCnt, input, inPos);
        val := val + Shl(input[inPos], bitCnt);
        inPos := inPos + 1;
        bitCnt := bitCnt + 8;
        assert bitCnt <= 32;
      }
      TakeBuffered(val, bitCnt, need, ByteBits(input[inPos..]));
      bitBuf := Shr(val, need);
      bitCnt := bitCnt - need;
      return Low(val, need);
    }

    /** Decodes one symbol. */
    method Decode(h: HuffTable) returns (r: int)
      requires Ready() && h.Valid()
      modifies this`inPos, this`bitBuf, this`bitCnt
      ensures match DecodeSymbol(h.lengths, old(Rest()))
        case Ok(sym, rest) => r == sym && Ready() && Rest() == rest
        case Err(e) => r == e
    {
      hide DecodeSymbol, CanonicalHuffman.Valid, Sound, Walked, Slot, ByteBits, NatBits, Pow2;
      ghost var bits, ls := Rest(), h.lengths;
      ValidSound(ls);
      WalkStart(ls, bits);
      var code, first, index := 0, 0, 0;
      for len := 1 to MAX_BITS + 1
        invariant Ready() && 0 <= first <= code && 0 <= index
        invariant len - 1 <= |bits| && Rest() == bits[len - 1..]
        invariant Walked(ls, bits, len - 1, code, first, index)
      {
        var b := Bits(1);
        if b < 0 {
          WalkEnd(ls, bits, len - 1, code, first, index);
          return ERR_INPUT;
        }
        ghost var b', s := WalkStep(ls, bits, len - 1, code, first, index);
        code := code + b;
        var count := h.counts[len];
        if code - first < count {
          return h.symbols[index + (code - first)];
        }
        index := index + count;
        first := first + count;
        first := 2 * first;
        code := 2 * code;
      }
      WalkEnd(ls, bits, MAX_BITS, code, first, index);
      return ERR_DATA;
    }

    // ---- Output ----

    /** Only bytes between the old and the new output position changed. */
    twostate predicate Appended()
      reads this`outPos, out
    {
      old(outPos) <= outPos <= out.Length
      && forall k :: 0 <= k < out.Length && !(old(outPos) <= k < outPos) ==> out[k] == old(out[k])
    }

    method Emit(b: byte) returns (e: int)
      requires outPos <= out.Length
      modifies this`outPos, out
      ensures Appended()
      ensures old(outPos) < out.Length ==> e == 0 && Out() == old(Out()) + [b]
      ensures old(outPos) >= out.Length ==> e == ERR_OUTPUT && Out() == old(Out())
    {
      if outPos >= out.Length { return ERR_OUTPUT; }
      out[outPos] := b;
      outPos := outPos + 1;
      return 0;
    }

    /** Copies from the output written so far, byte by byte, so that a copy
        longer than its distance reads bytes it has just written. */
    method EmitMatch(dist: nat, len: nat) returns (e: int)
      requires outPos <= out.Length && dist > 0
      modifies this`outPos, out
      ensures Appended()
      ensures match EmitCopy(dist, len, old(Out()), out.Length)
        case Refused(c) => e == c
        case Grown(o) => e == 0 && Out() == o
    {
      if dist > outPos { return ERR_DATA; }
      ghost var start := Out();
      var src := outPos - dist;
      for i := 0 to len
        invariant Appended() && outPos == old(outPos) + i
        invariant Out() == CopyBack(start, dist, i)
      {
        var b := out[src + i];
        assert b == Out()[|Out()| - dist];
        e := Emit(b);
        if e != 0 { return; }
      }
      return 0;
    }

    // ---- Block headers ----

    /** Builds the fixed tables; this cannot fail. */
    method BuildFixed() returns (e: int)
      requires Tables()
      modifies lencode, lencode.counts, lencode.symbols, distcode, distcode.counts, distcode.symbols
      ensures e == 0 && HasCodes(Codes(FixedLit(), FixedDist()))
    {
      hide KraftSum, Pow2, HuffTable.Filled, FixedLit, FixedDist, Count;
      var lengths := new nat[288];
      Fill(lengths, 0, 144, 8);
      Fill(lengths, 144, 256, 9);
      Fill(lengths, 256, 280, 7);
      Fill(lengths, 280, 288, 8);
      FixedRuns(lengths[..]);
      FixedLitValid();
      e := lencode.Build(lengths[..]);
      if e != 0 { return ERR_DATA; }
      Fill(lengths, 0, 30, 5);
      FixedDistRun(lengths[..]);
      FixedDistValid();
      e := distcode.Build(lengths[..30]);
      if e != 0 { return ERR_DATA; }
    }

    /** The two tables stand for the given codes. */
    ghost predicate HasCodes(c: Codes)
      reads lencode, lencode.counts, lencode.symbols, distcode, distcode.counts, distcode.symbols
    {
      Tables() && lencode.Valid() && lencode.lengths == c.lit && distcode.Valid() && distcode.lengths == c.dist
    }

    /** Reads the code length code lengths into their places. */
    method ReadClens(ncode: nat) returns (e: int, clens: array<nat>)
      requires Ready() && ncode <= NUM_CLEN
      modifies this`inPos, this`bitBuf, this`bitCnt
      ensures fresh(clens) && clens.Length == NUM_CLEN
      ensures match DecodeClens(ncode, [], old(Rest()))
        case Ok(sent, rest) => e == 0 && clens[..] == ClenVector(sent) && LengthsOk(clens[..]) && Ready() &&
          Rest() == rest
        case Err(c) => e == c
    {
      SmallPowers();
      hide Take, ByteBits, NatBits, Pow2;
      clens := new nat[NUM_CLEN];
      Fill(clens, 0, NUM_CLEN, 0);
      ghost var sent: seq<nat> := [];
      ghost var bits := Rest();
      assert clens[..] == ClenVector([]);
      for i := 0 to ncode
        invariant Ready() && |sent| == i && clens[..] == ClenVector(sent)
        invariant forall k :: 0 <= k < NUM_CLEN ==> clens[k] < 8
        invariant DecodeClens(ncode, sent, Rest()) == DecodeClens(ncode, [], bits)
      {
        var v := Bits(3);
        if v < 0 {
          e := ERR_INPUT;
          return;
        }
        clens[CLEN_ORDER[i]] := v;
        sent := sent + [v];
        assert sent[..i] == sent[..|sent| - 1];
      }
      e := 0;
    }

    /** Decodes one operation of the code length alphabet and applies it to the
        lengths read so far, `lengths[..i]`. */
    method ReadOp(cl: HuffTable, lengths: array<nat>, i: nat, n: nat) returns (e: int, i': nat)
      requires Ready() && cl.Valid() && |cl.lengths| == NUM_CLEN
      requires i < n <= lengths.Length && lengths != cl.counts && lengths != cl.symbols
      requires SmallLengths(lengths[..i])
      modifies this`inPos, this`bitBuf, this`bitCnt, lengths
      ensures match DecodeOp(cl.lengths, old(lengths[..i]), old(Rest()))
        case Err(c) => e == c
        case Ok(op, rest) =>
          if |op.Apply(old(lengths[..i]))| > n then e == ERR_DATA
          else
            && e == 0 && i < i' <= n && lengths[..i'] == op.Apply(old(lengths[..i]))
            && SmallLengths(lengths[..i']) && Ready() && Rest() == rest
    {
      hide CanonicalHuffman.Valid, ByteBits, NatBits, HuffTable.Filled, DecodeRepeat;
      i' := i;
      var sym := Decode(cl);
      if sym < 0 { e := sym; return; }
      if sym < 16 {
        lengths[i] := sym;
        i' := i + 1;
        e := 0;
        return;
      }
      ghost var acc := lengths[..i];
      var rep, val := ReadRepeat(sym, lengths, i);
      if rep < 0 { e := rep; return; }
      if i + rep > n { e := ERR_DATA; return; }
      Fill(lengths, i, i + rep, val);
      i' := i + rep;
      e := 0;
      assert lengths[..i'] == acc + Times(val, rep);
    }

    /** Reads a repeat count and the length to repeat; a negative count is an error code. */
    method ReadRepeat(sym: nat, lengths: array<nat>, i: nat) returns (rep: int, val: nat)
      requires Ready() && sym >= 16 && i <= lengths.Length && SmallLengths(lengths[..i])
      modifies this`inPos, this`bitBuf, this`bitCnt
      ensures val <= MAX_BITS
      ensures match DecodeRepeat(sym, lengths[..i], old(Rest()))
        case Err(c) => rep == c
        case Ok(op, rest) =>
          rep > 0 && op.Apply(lengths[..i]) == lengths[..i] + Times(val, rep) && Ready() && Rest() == rest
    {
      hide Take, ByteBits, NatBits;
      val := 0;
      if sym == 16 {
        if i == 0 { return ERR_DATA, val; }
        val := lengths[i - 1];
        rep := Bits(2);
        if rep < 0 { return ERR_INPUT, val; }
        rep := rep + 3;
      } else if sym == 17 {
        rep := Bits(3);
        if rep < 0 { return ERR_INPUT, val; }
        rep := rep + 3;
      } else {
        rep := Bits(7);
        if rep < 0 { return ERR_INPUT, val; }
        rep := rep + 11;
      }
    }

    /** Reads `n` code lengths. */
    method ReadLengths(cl: HuffTable, n: nat) returns (e: int, lengths: array<nat>)
      requires Ready() && cl.Valid() && |cl.lengths| == NUM_CLEN && n <= 316
      modifies this`inPos, this`bitBuf, this`bitCnt
      ensures fresh(lengths) && lengths.Length == 318
      ensures match DecodeOps(cl.lengths, n, [], old(Rest()))
        case Err(c) => e == c
        case Ok(lens, rest) => e == 0 && lengths[..n] == lens && SmallLengths(lens) && Ready() && Rest() == rest
    {
      hide CanonicalHuffman.Valid, ByteBits, NatBits, HuffTable.Filled, DecodeOp, ClOp.Apply, ClOp.Applies;
      lengths := new nat[318];
      ghost var bits := Rest();
      var i := 0;
      while i < n
        invariant Ready() && i <= n && SmallLengths(lengths[..i]) && cl.Valid()
        invariant DecodeOps(cl.lengths, n, lengths[..i], Rest()) == DecodeOps(cl.lengths, n, [], bits)
      {
        e, i := ReadOp(cl, lengths, i, n);
        if e != 0 { return; }
      }
      e := 0;
    }

    /** Reads the header of a dynamic block and builds both tables. */
    method BuildDynamic() returns (e: int)
      requires Ready() && Tables()
      modifies this`inPos, this`bitBuf, this`bitCnt
      modifies lencode, lencode.counts, lencode.symbols, distcode, distcode.counts, distcode.symbols
      ensures match DecodeHeader(old(Rest()))
        case Err(c) => e == c
        case Ok(codes, rest) => e == 0 && HasCodes(codes) && Ready() && Rest() == rest
    {
      SmallPowers();
      hide Take, ByteBits, NatBits, Pow2, DecodeLengths, HuffTable.Filled, CanonicalHuffman.Valid;
      var nlen := Bits(5);
      var ndist := Bits(5);
      var ncode := Bits(4);
      if nlen < 0 || ndist < 0 || ncode < 0 { return ERR_INPUT; }
      e := BuildTables(nlen + 257, ndist + 1, ncode + 4);
    }

    method BuildTables(nlen: nat, ndist: nat, ncode: nat) returns (e: int)
      requires Ready() && Tables() && 257 <= nlen && 0 < ndist && ncode <= NUM_CLEN
      modifies this`inPos, this`bitBuf, this`bitCnt
      modifies lencode, lencode.counts, lencode.symbols, distcode, distcode.counts, distcode.symbols
      ensures match DecodeLengths(nlen, ndist, ncode, old(Rest()))
        case Err(c) => e == c
        case Ok(codes, rest) => e == 0 && HasCodes(codes) && Ready() && Rest() == rest
    {
      hide ByteBits, NatBits, DecodeClens, DecodeOps, HuffTable.Filled, KraftSum, Pow2, ClenVector;
      if nlen > 286 || ndist > 30 { return ERR_DATA; }
      var clens;
      e, clens := ReadClens(ncode);
      if e != 0 { return; }
      var clcode := new HuffTable();
      e := clcode.Build(clens[..]);
      if e != 0 { return ERR_DATA; }
      var lengths;
      e, lengths := ReadLengths(clcode, nlen + ndist);
      if e != 0 { return; }
      if lengths[256] == 0 { return ERR_DATA; }
      assert lengths[..nlen] == lengths[..nlen + ndist][..nlen];
      e := lencode.Build(lengths[..nlen]);
      if e != 0 { return ERR_DATA; }
      assert lengths[nlen..nlen + ndist] == lengths[..nlen + ndist][nlen..];
      e := distcode.Build(lengths[nlen..nlen + ndist]);
      if e != 0 { return; }
      return 0;
    }

    // ---- Blocks ----

    /** What a step leaves behind: an error code, or the new output and the rest of the input. */
    ghost predicate Outcome(d: Decoded<seq<byte>>, e: int)
      reads this`inPos, this`bitBuf, this`bitCnt, this`outPos, out
    {
      match d
      case Err(c) => e == c
      case Ok(o, rest) => e == 0 && Ready() && Out() == o && Rest() == rest
    }

    ghost predicate Emits(t: Token, start: seq<byte>, rest: seq<bool>, e: int)
      requires t.Match? ==> t.lenSym < NUM_LEN && t.distSym < NUM_DIST
      reads this`inPos, this`bitBuf, this`bitCnt, this`outPos, out
    {
      match EmitToken(t, start, out.Length)
      case Refused(c) => e == c
      case Grown(o) => Outcome(Ok(o, rest), e)
    }

    /** The match whose length symbol has just been decoded. */
    method InflateMatch(ls: nat) returns (e: int)
      requires Ready() && distcode.Valid() && ls < NUM_LEN
      modifies this`inPos, this`bitBuf, this`bitCnt, this`outPos, out
      ensures Appended()
      ensures match DecodeMatch(ls, distcode.lengths, old(Rest()))
        case Err(c) => e == c
        case Ok(Tok(t), rest) => Emits(t, old(Out()), rest, e)
    {
      hide Take, ByteBits, NatBits, HuffTable.Filled, CanonicalHuffman.Valid, DecodeDistance;
      var extra := Bits(LenExtra(ls));
      if extra < 0 { return ERR_INPUT; }
      e := InflateDistance(ls, extra);
    }

    method InflateDistance(ls: nat, le: nat) returns (e: int)
      requires Ready() && distcode.Valid() && ls < NUM_LEN
      modifies this`inPos, this`bitBuf, this`bitCnt, this`outPos, out
      ensures Appended()
      ensures match DecodeDistance(ls, le, distcode.lengths, old(Rest()))
        case Err(c) => e == c
        case Ok(Tok(t), rest) => Emits(t, old(Out()), rest, e)
    {
      hide Take, ByteBits, NatBits, HuffTable.Filled, CanonicalHuffman.Valid, EmitCopy, LenBase, DistBase, DistExtra;
      var length := LenBase(ls) + le;
      var dsym := Decode(distcode);
      if dsym < 0 { return dsym; }
      if dsym >= 30 { return ERR_DATA; }
      var extra := Bits(DistExtra(dsym));
      if extra < 0 { return ERR_INPUT; }
      var dist := DistBase(dsym) + extra;
      e := EmitMatch(dist, length);
    }

    /** One symbol of a block and what it calls for. */
    method InflateSymbol() returns (e: int, end: bool)
      requires Ready() && lencode.Valid() && distcode.Valid()
      modifies this`inPos, this`bitBuf, this`bitCnt, this`outPos, out
      ensures Appended()
      ensures match DecodeItem(lencode.lengths, distcode.lengths, old(Rest()))
        case Err(c) => e == c
        case Ok(End, rest) => end && Outcome(Ok(old(Out()), rest), e)
        case Ok(Tok(t), rest) => !end && Emits(t, old(Out()), rest, e)
    {
      hide ByteBits, NatBits, HuffTable.Filled, CanonicalHuffman.Valid, EmitCopy, DecodeMatch;
      e, end := 0, false;
      var sym := Decode(lencode);
      if sym < 0 {
        e := sym;
      } else if sym < 256 {
        e := Emit(sym);
      } else if sym == 256 {
        end := true;
      } else {
        sym := sym - 257;
        if sym >= 29 {
          e := ERR_DATA;
        } else {
          e := InflateMatch(sym);
        }
      }
    }

    /** Decodes symbols until the end-of-block code. */
    method InflateCodes() returns (e: int)
      requires Ready() && lencode.Valid() && distcode.Valid()
      modifies this`inPos, this`bitBuf, this`bitCnt, this`outPos, out
      ensures Appended()
      ensures Outcome(DecodeTokens(lencode.lengths, distcode.lengths, old(Rest()), old(Out()), out.Length), e)
    {
      hide ByteBits, NatBits, HuffTable.Valid, EmitToken, DecodeItem;
      ghost var lit, dist := lencode.lengths, distcode.lengths;
      ghost var whole := DecodeTokens(lit, dist, Rest(), Out(), out.Length);
      while true
        invariant Ready() && Appended() && lencode.Valid() && distcode.Valid()
        invariant DecodeTokens(lit, dist, Rest(), Out(), out.Length) == whole
        decreases |Rest()|
      {
        var end;
        e, end := InflateSymbol();
        if e != 0 || end { return; }
      }
    }

    /** A stored block. Emptying the bit buffer skips exactly to the byte
        boundary because fewer than eight bits are ever buffered. */
    method InflateStored() returns (e: int)
      requires Ready()
      modifies this`inPos, this`bitBuf, this`bitCnt, this`outPos, out
      ensures Appended()
      ensures Outcome(DecodeStored(old(Rest()), old(Out()), out.Length), e)
    {
      hide ByteBits, NatBits, DecodeAligned;
      SkipPad(NatBits(bitBuf, bitCnt), ByteBits(input[inPos..]));
      bitBuf, bitCnt := 0, 0;
      e := InflateAligned();
    }

    method InflateAligned() returns (e: int)
      requires Ready() && bitBuf == bitCnt == 0
      modifies this`inPos, this`outPos, out
      ensures Appended()
      ensures Outcome(DecodeAligned(ByteBits(old(input[inPos..])), old(Out()), out.Length), e)
    {
      hide ByteBits, NatBits, Val, BitBytes;
      if inPos + 4 > |input| { return ERR_INPUT; }
      var len := Le16(input[inPos], input[inPos + 1]);
      var nlen := Le16(input[inPos + 2], input[inPos + 3]);
      FourBytes(input, inPos);
      inPos := inPos + 4;
      if 0xFFFF - len != nlen { return ERR_DATA; }   // len ^ 0xFFFF, both being 16 bits wide
      if inPos + len > |input| { return ERR_INPUT; }
      StoredBytes(input, inPos, len);
      e := EmitInput(len);
      if e != 0 { return; }
      inPos := inPos + len;
      EmptyBuffer(ByteBits(input[inPos..]));
    }

    /** Copies `len` bytes of input to the output. */
    method EmitInput(len: nat) returns (e: int)
      requires Ready() && inPos + len <= |input|
      modifies this`outPos, out
      ensures Appended()
      ensures |old(Out())| + len > out.Length ==> e == ERR_OUTPUT
      ensures |old(Out())| + len <= out.Length ==> e == 0 && Out() == old(Out()) + input[inPos..inPos + len]
    {
      e := 0;
      ghost var start := Out();
      for k := 0 to len
        invariant e == 0 && Appended() && outPos == old(outPos) + k
        invariant Out() == start + input[inPos..inPos + k]
      {
        e := Emit(input[inPos + k]);
        if e != 0 { return; }
      }
    }

    /** One block; `last` is its final-block flag. */
    method InflateBlock() returns (e: int, last: bool)
      requires Ready() && Tables()
      modifies this`inPos, this`bitBuf, this`bitCnt, this`outPos, out
      modifies lencode, lencode.counts, lencode.symbols, distcode, distcode.counts, distcode.symbols
      ensures Appended()
      ensures match DecodeBlock(old(Rest()), old(Out()), out.Length)
        case Err(c) => e == c
        case Ok((l, o), rest) => last == l && Outcome(Ok(o, rest), e)
    {
      hide Take, ByteBits, NatBits, Pow2, DecodeTokens, DecodeStored, DecodeHeader, HuffTable.Valid, FixedLit,
        FixedDist;
      FirstBit(Rest());
      last := false;
      var flag := Bits(1);
      if flag < 0 { return ERR_INPUT, last; }
      last := flag == 1;
      var kind := Bits(2);
      if kind < 0 { return ERR_INPUT, last; }
      if kind == 0 {
        e := InflateStored();
        return;
      }
      if kind == 1 {
        e := BuildFixed();
        if e != 0 { return; }
      } else if kind == 2 {
        e := BuildDynamic();
        if e != 0 { return; }
      } else {
        return ERR_DATA, last;
      }
      e := InflateCodes();
    }
  }

  /** A C `int` made from a 64-bit size: the low 32 bits, in two's complement. */
  function AsInt32(n: nat): int {
    var m := n % 0x1_0000_0000;
    if m < 0x8000_0000 then m else m - 0x1_0000_0000
  }

  /** A count below 2^31 comes back as it is; any other loses a multiple of 2^32. */
  lemma {:induction false} AsInt32Wraps(n: nat)
    ensures -0x8000_0000 <= AsInt32(n) < 0x8000_0000 && (n - AsInt32(n)) % 0x1_0000_0000 == 0
    ensures AsInt32(n) == n <==> n < 0x8000_0000
  {
  }

  /** `inflate_raw_stream`: returns the number of bytes produced or an error
      code; the output buffer beyond the data is left alone. */
  method InflateRaw(input: seq<byte>, out: array<byte>) returns (r: int)
    modifies out
    ensures match Inflate(ByteBits(input), [], out.Length)
      case Ok(data, _) => r == AsInt32(|data|) && |data| <= out.Length && out[..] == data + old(out[..])[|data|..]
      case Err(c) => r == c
  {
    hide ByteBits, NatBits, DecodeBlock;
    var s := new InflateCtx(input, out);
    ghost var whole := Inflate(ByteBits(input), [], out.Length);
    ghost var before := out[..];
    while true
      invariant s.Ready() && s.Tables() && s.out == out
      invariant fresh(s) && fresh(s.lencode) && fresh(s.lencode.counts) && fresh(s.lencode.symbols)
      invariant fresh(s.distcode) && fresh(s.distcode.counts) && fresh(s.distcode.symbols)
      invariant forall k :: s.outPos <= k < out.Length ==> out[k] == before[k]
      invariant Inflate(s.Rest(), s.Out(), out.Length) == whole
      decreases |s.Rest()|
    {
      var e, last := s.InflateBlock();
      if e != 0 { return e; }
      if last { return AsInt32(s.outPos); }
    }
  }

  // ---- RFC 1950 ----

  /** The fields of the two header bytes in section 2.2 of RFC 1950 that a
      sender chooses freely, with FCHECK completing the check sum. */
  datatype ZlibFields = ZlibFields(cinfo: nat, flevel: nat, fcheck: nat) {
    ghost predicate Sends(cmf: byte, flg: byte) {
      && cinfo < 8 && flevel < 4 && fcheck < 32
      && cmf == cinfo * 16 + 8 && flg == flevel * 64 + fcheck && ((cmf as int) * 256 + flg) % 31 == 0
    }
  }

  /** A header of RFC 1950 for the deflate method without a preset dictionary. */
  ghost predicate ZlibHeader(cmf: byte, flg: byte) {
    exists f: ZlibFields :: f.Sends(cmf, flg)
  }

  method ZlibInflate(input: seq<byte>, out: array<byte>) returns (r: int)
    modifies out
    ensures |input| < 2 ==> r == ERR_INPUT
    ensures |input| >= 2 && !ZlibHeader(input[0], input[1]) ==> r == ERR_DATA
    ensures |input| >= 2 && ZlibHeader(input[0], input[1]) ==>
      match Inflate(ByteBits(input[2..]), [], out.Length)
      case Ok(data, _) => r == AsInt32(|data|) && |data| <= out.Length && out[..] == data + old(out[..])[|data|..]
      case Err(c) => r == c
  {
    hide ByteBits, Inflate;
    if |input| < 2 { return ERR_INPUT; }
    var cmf, flg := input[0], input[1];
    ZlibHeaderFields(cmf, flg);
    if cmf % 16 != 8 { return ERR_DATA; }
    if cmf / 16 > 7 { return ERR_DATA; }
    if ((cmf as int) * 256 + flg) % 31 != 0 { return ERR_DATA; }
    if (flg / 32) % 2 != 0 { return ERR_DATA; }
    r := InflateRaw(input[2..], out);
  }

  /** The field tests of zlib_inflate. */
  predicate HeaderAccepted(cmf: byte, flg: byte) {
    cmf % 16 == 8 && cmf / 16 <= 7 && ((cmf as int) * 256 + flg) % 31 == 0 && (flg / 32) % 2 == 0
  }

  /** They accept exactly the headers of RFC 1950. */
  lemma {:induction false} ZlibHeaderFields(cmf: byte, flg: byte)
    ensures ZlibHeader(cmf, flg) <==> HeaderAccepted(cmf, flg)
  {
    hide ZlibFields.Sends, HeaderAccepted;
    forall f: ZlibFields | f.Sends(cmf, flg)
      ensures HeaderAccepted(cmf, flg)
    {
      SentIsAccepted(f, cmf, flg);
    }
    if HeaderAccepted(cmf, flg) {
      AcceptedIsSent(cmf, flg);
    }
  }

  lemma {:induction false} SentIsAccepted(f: ZlibFields, cmf: byte, flg: byte)
    requires f.Sends(cmf, flg)
    ensures HeaderAccepted(cmf, flg)
  {
    assert flg / 32 == f.flevel * 2;
  }

  lemma {:induction false} AcceptedIsSent(cmf: byte, flg: byte)
    requires HeaderAccepted(cmf, flg)
    ensures ZlibFields(cmf / 16, flg / 64, flg % 64).Sends(cmf, flg)
  {
    assert flg / 64 == (flg / 32) / 2;
  }
}
