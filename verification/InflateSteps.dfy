/** Facts about bits and codes that the decoder's methods rest on. */
module InflateSteps {
  import opened Bits
  import opened CanonicalHuffman
  import opened HuffmanTable
  import opened DeflateFormat
  import opened InflateSpec
  import opened InflateRoundTrip

  // ---- One symbol, bit by bit ----

  /** No code word shorter than `len` starts the input. */
  ghost predicate NoneShorter(ls: seq<nat>, bits: seq<bool>, len: nat) {
    forall s: nat :: StartsWith(ls, s, bits) ==> ls[s] >= len
  }

  /** The first `len` bits are the `k`-th code of that length. */
  lemma {:induction false} Hit(ls: seq<nat>, bits: seq<bool>, len: nat, k: nat) returns (s: nat)
    requires Sound(ls) && 0 < len <= |bits|
    requires k < Count(ls, len) && MsbVal(bits[..len]) == FirstCode(ls, len) + k
    ensures s < |ls| && ls[s] == len && Slot(ls, s) == Start(ls, len) + k
    ensures DecodeSymbol(ls, bits) == Ok(s, bits[len..])
  {
    s := NthSymbol(ls, len, k);
    CodeIs(ls, s, bits[..len]);
    hide Sound, MsbVal, Code, FirstCode, Count, DecodeSymbol;
    assert bits == Code(ls, s) + bits[len..];
    DecodeCode(ls, s, bits[len..]);
  }

  lemma {:induction false} CodeIs(ls: seq<nat>, s: nat, word: seq<bool>)
    requires s < |ls| && ls[s] == |word| && CodeVal(ls, s) == MsbVal(word)
    ensures Code(ls, s) == word
  {
    MsbBitsVal(word);
  }

  lemma {:induction false} Miss(ls: seq<nat>, bits: seq<bool>, len: nat)
    requires Sound(ls) && 0 < len <= |bits| && NoneShorter(ls, bits, len)
    requires MsbVal(bits[..len]) >= FirstCode(ls, len) + Count(ls, len)
    ensures NoneShorter(ls, bits, len + 1)
  {
    forall s: nat | StartsWith(ls, s, bits)
      ensures ls[s] >= len + 1
    {
      StartValue(ls, s, bits);
    }
  }

  lemma {:induction false} StartValue(ls: seq<nat>, s: nat, bits: seq<bool>)
    requires Sound(ls) && StartsWith(ls, s, bits)
    ensures ls[s] <= |bits| && MsbVal(bits[..ls[s]]) < FirstCode(ls, ls[s]) + Count(ls, ls[s])
  {
    CodeFits(ls, s);
    UsedFirstCode(ls, ls[s]);
    assert Code(ls, s) == bits[..ls[s]];
  }

  lemma {:induction false} MsbStep(bits: seq<bool>, len: nat)
    requires len < |bits|
    ensures MsbVal(bits[..len + 1]) == 2 * MsbVal(bits[..len]) + Bit(bits[len])
    ensures Val(bits[len..][..1]) == Bit(bits[len])
    ensures bits[len..][1..] == bits[len + 1..]
  {
    assert bits[..len + 1][..len] == bits[..len];
    var one := bits[len..][..1];
    assert one[1..] == [] && one[0] == bits[len];
  }

  /** The decoder's counters after `n` bits that are no code word. */
  ghost predicate Walked(ls: seq<nat>, bits: seq<bool>, n: nat, code: nat, first: nat, index: nat) {
    && n <= |bits| && code == 2 * MsbVal(bits[..n]) && first == FirstCode(ls, n + 1) <= code
    && index == Start(ls, n + 1) && NoneShorter(ls, bits, n + 1)
  }

  lemma {:induction false} WalkStart(ls: seq<nat>, bits: seq<bool>)
    ensures Walked(ls, bits, 0, 0, 0, 0)
  {
  }

  /** One more bit: either it completes a code word, whose symbol sits where the
      counters say, or the counters move on to the next length. */
  lemma {:induction false} WalkStep(ls: seq<nat>, bits: seq<bool>, n: nat, code: nat, first: nat, index: nat)
      returns (b: nat, s: nat)
    requires Sound(ls) && n < |bits| && Walked(ls, bits, n, code, first, index)
    ensures Take(bits[n..], 1) == Ok(b, bits[n + 1..])
    ensures var count := Count(ls, n + 1);
      if code + b - first < count then
        && s < |ls| && ls[s] > 0 && Slot(ls, s) == index + (code + b - first)
        && DecodeSymbol(ls, bits) == Ok(s, bits[n + 1..])
      else
        Walked(ls, bits, n + 1, 2 * (code + b), 2 * (first + count), index + count)
  {
    hide Sound, DecodeSymbol, NoneShorter, MsbVal, Val, Slot, Count;
    b, s := Bit(bits[n]), 0;
    MsbStep(bits, n);
    if code + b - first < Count(ls, n + 1) {
      s := Hit(ls, bits, n + 1, code + b - first);
    } else {
      Miss(ls, bits, n + 1);
    }
  }

  /** With no code word found, the input is too short or not a code word. */
  lemma {:induction false} WalkEnd(ls: seq<nat>, bits: seq<bool>, n: nat, code: nat, first: nat, index: nat)
    requires CanonicalHuffman.Valid(ls) && Walked(ls, bits, n, code, first, index)
    ensures |bits| == n < MAX_BITS ==> DecodeSymbol(ls, bits) == Err(ERR_INPUT)
    ensures n == MAX_BITS ==> DecodeSymbol(ls, bits) == Err(ERR_DATA)
  {
  }

  // ---- The bit buffer ----

  /** Adding a byte above the buffered bits moves it from the input to the buffer. */
  lemma {:induction false} AddByte(val: nat, cnt: nat, input: seq<byte>, p: nat)
    requires val < Pow2(cnt) && p < |input|
    ensures val + Shl(input[p], cnt) < Pow2(cnt + 8)
    ensures NatBits(val, cnt) + ByteBits(input[p..])
         == NatBits(val + Shl(input[p], cnt), cnt + 8) + ByteBits(input[p + 1..])
  {
    EightBits();
    NatBitsConcat(val, cnt, input[p], 8);
    ByteBitsStep(input, p);
  }

  lemma {:induction false} EightBits()
    ensures Pow2(8) == 256
  {
    assert Pow2(4) == 16;
  }

  lemma {:induction false} TakeBuffered(val: nat, cnt: nat, need: nat, more: seq<bool>)
    requires need <= cnt && val < Pow2(cnt)
    ensures Shr(val, need) < Pow2(cnt - need)
    ensures Take(NatBits(val, cnt) + more, need) == Ok(Low(val, need), NatBits(Shr(val, need), cnt - need) + more)
  {
    NatBitsSplit(val, cnt, need);
    var bits := NatBits(val, cnt);
    assert (bits + more)[..need] == bits[..need] && (bits + more)[need..] == bits[need..] + more;
  }

  lemma {:induction false} EmptyBuffer(more: seq<bool>)
    ensures NatBits(0, 0) + more == more
  {
  }

  lemma {:induction false} FirstBit(bits: seq<bool>)
    ensures bits != [] ==> Take(bits, 1) == Ok(Bit(bits[0]), bits[1..])
    ensures bits == [] ==> Take(bits, 1) == Err(ERR_INPUT)
  {
    if bits != [] {
      assert bits[..1][1..] == [];
    }
  }

  // ---- Code lengths ----

  ghost predicate SmallLengths(ls: seq<nat>) {
    forall i :: 0 <= i < |ls| ==> ls[i] <= MAX_BITS
  }

  lemma {:induction false} FixedRuns(ls: seq<nat>)
    requires |ls| == 288
    requires forall k :: 0 <= k < 288 ==> ls[k] == if k < 144 then 8 else if k < 256 then 9 else if k < 280 then 7
      else 8
    ensures ls == FixedLit()
  {
  }

  lemma {:induction false} FixedDistRun(ls: seq<nat>)
    requires |ls| >= 30 && forall k :: 0 <= k < 30 ==> ls[k] == 5
    ensures ls[..30] == FixedDist()
  {
  }

  /** Sets the elements from `lo` up to `hi`. */
  method Fill(a: array<nat>, lo: nat, hi: nat, v: nat)
    requires lo <= hi <= a.Length
    modifies a
    ensures forall k :: 0 <= k < a.Length ==> a[k] == if lo <= k < hi then v else old(a[k])
  {
    for i := lo to hi
      invariant forall k :: 0 <= k < a.Length ==> a[k] == if lo <= k < i then v else old(a[k])
    {
      a[i] := v;
    }
  }

  // ---- Stored blocks ----

  /** A 16-bit number, low byte first. */
  function Le16(lo: nat, hi: nat): nat {
    lo + hi * 0x100
  }

  lemma {:induction false} ShlTimes(v: nat, k: nat)
    ensures Shl(v, k) == v * Pow2(k)
  {
    if k > 0 {
      ShlTimes(v, k - 1);
      assert v * (2 * Pow2(k - 1)) == 2 * (v * Pow2(k - 1));
    }
  }

  lemma {:induction false} TwoBytes(lo: byte, hi: byte)
    ensures Val(NatBits(lo, 8) + NatBits(hi, 8)) == Le16(lo, hi)
  {
    EightBits();
    Pow2Of16();
    NatBitsConcat(lo, 8, hi, 8);
    ValNatBits(lo + Shl(hi, 8), 16);
    ShlTimes(hi, 8);
  }

  /** The two 16-bit numbers that head a stored block. */
  lemma {:induction false} FourBytes(input: seq<byte>, p: nat)
    requires p + 4 <= |input|
    ensures var bits := ByteBits(input[p..]);
      && |bits| >= 32 && bits[32..] == ByteBits(input[p + 4..])
      && Val(bits[..16]) == Le16(input[p], input[p + 1])
      && Val(bits[16..32]) == Le16(input[p + 2], input[p + 3])
  {
    hide ByteBits, NatBits, Val;
    ByteBitsStep(input, p);
    ByteBitsStep(input, p + 1);
    ByteBitsStep(input, p + 2);
    ByteBitsStep(input, p + 3);
    var a, b := NatBits(input[p], 8), NatBits(input[p + 1], 8);
    var c, d := NatBits(input[p + 2], 8), NatBits(input[p + 3], 8);
    var more := ByteBits(input[p + 4..]);
    var bits := a + (b + (c + (d + more)));
    assert bits[..16] == a + b && bits[16..32] == c + d && bits[32..] == more;
    TwoBytes(input[p], input[p + 1]);
    TwoBytes(input[p + 2], input[p + 3]);
  }

  lemma {:induction false} StoredBytes(input: seq<byte>, p: nat, len: nat)
    requires p + len <= |input|
    ensures var bits := ByteBits(input[p..]);
      8 * len <= |bits| && BitBytes(bits, len) == input[p..p + len] && bits[8 * len..] == ByteBits(input[p + len..])
  {
    hide ByteBits, BitBytes;
    var data := input[p..p + len];
    assert input[p..] == data + input[p + len..];
    ByteBitsAppend(data, input[p + len..]);
    BitBytesRoundTrip(data, ByteBits(input[p + len..]));
  }
}
