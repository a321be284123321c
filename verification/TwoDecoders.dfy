/** The two canonical Huffman decoders of the kernel, side by side. */
module TwoDecoders {
  import opened Bits
  import opened CanonicalHuffman
  import opened HuffmanTable
  import opened Inflate
  import opened JpegHuffman

  /** On the same code and the same bits, the running-offset decoder of kernel/inflate.c
      and the table decoder of kernel/jpeg.c return the same symbol, with the same bits
      left, or both fail. */
  method DecodeBoth(s: InflateCtx, h: HuffTable, b: JBits, j: JHuff) returns (r: int, q: int)
    requires s.Ready() && h.Valid() && b.Valid() && j.Valid(h.lengths) && s.Rest() == b.Rest()
    requires forall t :: 0 <= t < |h.lengths| && h.lengths[t] > 0 && Slot(h.lengths, t) < JHUFF_MAX ==>
      j.vals[Slot(h.lengths, t)] == t
    modifies s`inPos, s`bitBuf, s`bitCnt, b
    ensures (r < 0 <==> q < 0) && (r >= 0 ==> q == r && s.Ready() && b.Valid() && s.Rest() == b.Rest())
  {
    hide DecodeSymbol, JpegCode, Sound, CanonicalHuffman.Valid, MsbBits, NatBits, ByteBits, Unstuff, Slot, Start,
      Count, FirstCode;
    ghost var bits := s.Rest();
    DecodedUsed(h.lengths, bits);
    q := j.Decode(b, h.lengths);
    r := s.Decode(h);
  }

  /** A decoded symbol is one that the code uses; errors are negative. */
  lemma {:induction false} DecodedUsed(ls: seq<nat>, bits: seq<bool>)
    ensures match DecodeSymbol(ls, bits)
      case Ok(s, _) => s < |ls| && ls[s] > 0
      case Err(e) => e < 0
  {
  }
}
