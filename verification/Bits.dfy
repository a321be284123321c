/** Bit strings, bytes and powers of two.

    A bit string is a `seq<bool>`. DEFLATE packs bytes least significant bit
    first, so the value of a bit string is read with its first bit as the
    lowest one; Huffman codes are the exception and are read highest bit first. */
module Bits {
  type byte = x: int | 0 <= x < 256

  function Pow2(n: nat): (p: nat)
    ensures p >= 1
  {
    if n == 0 then 1 else 2 * Pow2(n - 1)
  }

  function Bit(b: bool): (v: nat)
    ensures v < 2
  {
    if b then 1 else 0
  }

  /** The number whose lowest bit is the first element. */
  function Val(bs: seq<bool>): nat {
    if bs == [] then 0 else Bit(bs[0]) + 2 * Val(bs[1..])
  }

  /** The `n` lowest bits of `v`, lowest first. */
  function NatBits(v: nat, n: nat): (bs: seq<bool>)
    ensures |bs| == n
  {
    if n == 0 then [] else [v % 2 == 1] + NatBits(v / 2, n - 1)
  }

  /** The number whose highest bit is the first element. */
  function MsbVal(bs: seq<bool>): nat {
    if bs == [] then 0 else 2 * MsbVal(bs[..|bs| - 1]) + Bit(bs[|bs| - 1])
  }

  /** The `n` lowest bits of `v`, highest first. */
  function MsbBits(v: nat, n: nat): (bs: seq<bool>)
    ensures |bs| == n
  {
    if n == 0 then [] else MsbBits(v / 2, n - 1) + [v % 2 == 1]
  }

  /** The bits of a byte string, each byte lowest bit first. */
  function ByteBits(bytes: seq<byte>): (bs: seq<bool>)
    ensures |bs| == 8 * |bytes|
  {
    if bytes == [] then [] else NatBits(bytes[0], 8) + ByteBits(bytes[1..])
  }

  /** `v << k`. */
  function Shl(v: nat, k: nat): nat {
    if k == 0 then v else 2 * Shl(v, k - 1)
  }

  lemma {:induction false} ShlPow2(a: nat, b: nat)
    ensures Shl(Pow2(a), b) == Pow2(a + b)
  {
    if b > 0 { ShlPow2(a, b - 1); }
  }

  lemma {:induction false} ShlMonotone(v: nat, w: nat, k: nat)
    ensures v <= w ==> Shl(v, k) <= Shl(w, k)
    ensures v < w ==> Shl(v, k) < Shl(w, k)
  {
    if k > 0 { ShlMonotone(v, w, k - 1); }
  }

  lemma {:induction false} ShlDouble(v: nat, k: nat)
    ensures Shl(2 * v, k) == 2 * Shl(v, k)
  {
    if k > 0 { ShlDouble(v, k - 1); }
  }

  lemma {:induction false} Pow2Monotone(a: nat, b: nat)
    requires a <= b
    ensures Pow2(a) <= Pow2(b)
  {
    if a < b {
      Pow2Monotone(a, b - 1);
    }
  }

  /** Splitting a number into low and high halves splits its bits. */
  lemma {:induction false} NatBitsConcat(v: nat, k: nat, w: nat, m: nat)
    requires v < Pow2(k)
    ensures NatBits(v + Shl(w, k), k + m) == NatBits(v, k) + NatBits(w, m)
    ensures w < Pow2(m) ==> v + Shl(w, k) < Pow2(k + m)
  {
    if k > 0 {
      NatBitsConcat(v / 2, k - 1, w, m);
    }
  }

  /** `Val` undoes `NatBits` on numbers that fit. */
  lemma {:induction false} ValNatBits(v: nat, n: nat)
    requires v < Pow2(n)
    ensures Val(NatBits(v, n)) == v
  {
    if n > 0 {
      ValNatBits(v / 2, n - 1);
      assert NatBits(v, n)[1..] == NatBits(v / 2, n - 1);
    }
  }

  /** `NatBits` undoes `Val`. */
  lemma {:induction false} NatBitsVal(bs: seq<bool>)
    ensures Val(bs) < Pow2(|bs|) && NatBits(Val(bs), |bs|) == bs
  {
    if bs != [] {
      NatBitsVal(bs[1..]);
      assert Val(bs) / 2 == Val(bs[1..]);
      assert bs == [bs[0]] + bs[1..];
    }
  }

  /** `v >> k`, one bit at a time. */
  function Shr(v: nat, k: nat): nat {
    if k == 0 then v else Shr(v / 2, k - 1)
  }

  /** `v & ((1 << k) - 1)`, one bit at a time. */
  function Low(v: nat, k: nat): nat {
    if k == 0 then 0 else v % 2 + 2 * Low(v / 2, k - 1)
  }

  /** Shift and mask split a number: they are its quotient and remainder by a power of two. */
  lemma {:induction false} ShrLow(v: nat, k: nat)
    ensures v == Low(v, k) + Shl(Shr(v, k), k) && Low(v, k) < Pow2(k)
  {
    if k > 0 {
      ShrLow(v / 2, k - 1);
    }
  }

  /** The low `need` bits of a buffered number come off first. */
  lemma {:induction false} NatBitsSplit(v: nat, n: nat, need: nat)
    requires need <= n && v < Pow2(n)
    ensures Shr(v, need) < Pow2(n - need)
    ensures NatBits(v, n)[need..] == NatBits(Shr(v, need), n - need)
    ensures Val(NatBits(v, n)[..need]) == Low(v, need)
  {
    if need > 0 {
      NatBitsSplit(v / 2, n - 1, need - 1);
      var t := NatBits(v / 2, n - 1);
      assert NatBits(v, n)[need..] == t[need - 1..];
      assert NatBits(v, n)[..need] == [v % 2 == 1] + t[..need - 1];
    }
  }

  /** `MsbVal` undoes `MsbBits` on numbers that fit. */
  lemma {:induction false} MsbValBits(v: nat, n: nat)
    requires v < Pow2(n)
    ensures MsbVal(MsbBits(v, n)) == v
  {
    if n > 0 {
      MsbValBits(v / 2, n - 1);
      assert MsbBits(v, n)[..n - 1] == MsbBits(v / 2, n - 1);
    }
  }

  /** `MsbBits` undoes `MsbVal`. */
  lemma {:induction false} MsbBitsVal(bs: seq<bool>)
    ensures MsbVal(bs) < Pow2(|bs|) && MsbBits(MsbVal(bs), |bs|) == bs
  {
    if bs != [] {
      var n := |bs|;
      MsbBitsVal(bs[..n - 1]);
      assert MsbVal(bs) / 2 == MsbVal(bs[..n - 1]);
      assert bs == bs[..n - 1] + [bs[n - 1]];
    }
  }

  /** A prefix of a bit string, read highest bit first, is the high part of it. */
  lemma {:induction false} MsbPrefix(bs: seq<bool>, k: nat)
    requires k <= |bs|
    ensures Shl(MsbVal(bs[..k]), |bs| - k) <= MsbVal(bs) < Shl(MsbVal(bs[..k]) + 1, |bs| - k)
  {
    var n := |bs|;
    if k == n {
      assert bs[..k] == bs;
    } else {
      MsbPrefix(bs[..n - 1], k);
      assert bs[..n - 1][..k] == bs[..k];
    }
  }

  lemma {:induction false} ByteBitsAppend(a: seq<byte>, b: seq<byte>)
    ensures ByteBits(a + b) == ByteBits(a) + ByteBits(b)
  {
    if a == [] {
      assert a + b == b;
    } else {
      ByteBitsAppend(a[1..], b);
      assert (a + b)[0] == a[0] && (a + b)[1..] == a[1..] + b;
    }
  }

  /** Unfolds the bits of what is left of an input by one byte. */
  lemma {:induction false} ByteBitsStep(input: seq<byte>, p: nat)
    requires p < |input|
    ensures ByteBits(input[p..]) == NatBits(input[p], 8) + ByteBits(input[p + 1..])
  {
    assert input[p..][0] == input[p] && input[p..][1..] == input[p + 1..];
  }

  /** The byte whose low bits are given, the rest being zero. */
  function ByteOf(bs: seq<bool>): byte
    requires |bs| <= 8
  {
    NatBitsVal(bs);
    Pow2Monotone(|bs|, 8);
    Val(bs)
  }

  lemma {:induction false} ByteOfBits(bs: seq<bool>)
    requires |bs| <= 8
    ensures bs <= NatBits(ByteOf(bs), 8)
  {
    NatBitsVal(bs);
    NatBitsConcat(Val(bs), |bs|, 0, 8 - |bs|);
    ShlZero(|bs|);
  }

  lemma {:induction false} ShlZero(k: nat)
    ensures Shl(0, k) == 0
  {
    if k > 0 { ShlZero(k - 1); }
  }

  /** Bytes that carry a given bit string, with zero bits after it. */
  function Pack(bs: seq<bool>): (bytes: seq<byte>)
    decreases |bs|
  {
    if |bs| <= 8 then [ByteOf(bs)]
    else [ByteOf(bs[..8])] + Pack(bs[8..])
  }

  /** Every bit string can be put in bytes: it is a prefix of the bits of `Pack`. */
  lemma {:induction false} PackBits(bs: seq<bool>)
    ensures bs <= ByteBits(Pack(bs))
    decreases |bs|
  {
    var p := Pack(bs);
    if |bs| <= 8 {
      ByteOfBits(bs);
      assert p[1..] == [];
    } else {
      PackBits(bs[8..]);
      ByteOfBits(bs[..8]);
      assert p[1..] == Pack(bs[8..]);
      assert bs == bs[..8] + bs[8..];
    }
  }
}
