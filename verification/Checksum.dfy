/** The Internet checksum of kernel/net.c, RFC 1071 section 1. */
module Checksum {
  import opened Bits

  const M := 0xFFFF
  const WORD := 0x1_0000_0000

  /** A 16-bit little-endian word. */
  function Word(lo: byte, hi: byte): (w: nat)
    ensures w <= M
  {
    lo as int + 256 * hi as int
  }

  /** The sum of the words; an odd last byte is a word of its own. */
  function WordSum(data: seq<byte>): (s: nat)
    ensures s <= M * ((|data| + 1) / 2)
  {
    if data == [] then 0
    else if |data| == 1 then data[0] as int
    else Word(data[0], data[1]) + WordSum(data[2..])
  }

  lemma {:induction false} WordSumConcat(a: seq<byte>, b: seq<byte>)
    requires |a| % 2 == 0
    ensures WordSum(a + b) == WordSum(a) + WordSum(b)
  {
    if a == [] {
      assert a + b == b;
    } else {
      WordSumConcat(a[2..], b);
      assert (a + b)[2..] == a[2..] + b;
    }
  }

  /** An odd last byte counts as if a zero byte followed. */
  lemma {:induction false} WordSumOdd(data: seq<byte>)
    requires |data| % 2 == 1
    ensures WordSum(data) == WordSum(data + [0])
  {
    if |data| == 1 {
      assert (data + [0])[2..] == [];
    } else {
      WordSumOdd(data[2..]);
      assert (data + [0])[2..] == data[2..] + [0];
    }
  }

  /** The ones' complement sum: a sum of words brought into 16 bits. */
  function Folded(s: nat): (f: nat)
    ensures f <= M && (f == 0 <==> s == 0)
  {
    if s == 0 then 0 else (s - 1) % M + 1
  }

  /** Adding the carries back in changes nothing. */
  lemma {:induction false} FoldOnce(s: nat)
    requires s > M
    ensures 0 < s % 0x1_0000 + s / 0x1_0000 < s
    ensures Folded(s % 0x1_0000 + s / 0x1_0000) == Folded(s)
  {
    var hi, lo := s / 0x1_0000, s % 0x1_0000;
    assert s - 1 == M * hi + (hi + lo - 1);
    FoldedAdd(hi + lo, hi);
  }

  lemma {:induction false} FoldedAdd(s: nat, k: nat)
    requires s > 0
    ensures Folded(s + M * k) == Folded(s)
  {
  }

  function Checksum(data: seq<byte>): (c: nat)
    ensures c <= M
  {
    M - Folded(WordSum(data))
  }

  /** The folding loop ends, with the ones' complement sum. */
  method Fold(start: nat) returns (sum: nat)
    requires start < 0x1_0000_0000
    ensures sum == Folded(start)
  {
    sum := start;
    while sum > M
      invariant Folded(sum) == Folded(start)
    {
      FoldOnce(sum);
      sum := sum % 0x1_0000 + sum / 0x1_0000;
    }
  }

  /** The summing loop, on a 32-bit sum. */
  method AddWords(data: seq<byte>, start: nat) returns (sum: nat)
    ensures sum == (start + WordSum(data)) % WORD
  {
    sum := start % WORD;
    var rest := data;
    while |rest| > 1
      invariant (sum + WordSum(rest)) % WORD == (start + WordSum(data)) % WORD && sum < WORD
    {
      WrapAdd(sum + Word(rest[0], rest[1]), WordSum(rest[2..]));
      sum := (sum + Word(rest[0], rest[1])) % WORD;
      rest := rest[2..];
    }
    if |rest| > 0 {
      sum := (sum + rest[0] as int) % WORD;
    }
  }

  lemma {:induction false} WrapAdd(a: nat, b: nat)
    ensures (a % WORD + b) % WORD == (a + b) % WORD
  {
    var q, r := a / WORD, a % WORD;
    assert a + b == WORD * q + (r + b);
  }

  /** What a 32-bit sum loses: the checksum is right exactly when the carries lost are a
      multiple of 2^16 - 1 and did not take everything with them. */
  lemma {:induction false} FoldedWrap(s: nat)
    ensures Folded(s % WORD) == Folded(s) <==> s / WORD % M == 0 && (s % WORD > 0 || s == 0)
    ensures s < WORD ==> s % WORD == s
  {
    var k, r := s / WORD, s % WORD;
    assert s == r + k + M * (0x1_0001 * k);
    FoldedCarry(r, k);
  }

  lemma {:induction false} FoldedCarry(r: nat, k: nat)
    ensures Folded(r) == Folded(r + k + M * (0x1_0001 * k)) <==> k % M == 0 && (r > 0 || k == 0)
  {
    if r + k > 0 { FoldedAdd(r + k, 0x1_0001 * k); }
    var q, t := k / M, k % M;
    assert k == M * q + t;
    if r > 0 { FoldedAdd(r + t, q); }
  }

  /** `ip_checksum`, for data of any length. */
  method IpChecksum(data: seq<byte>) returns (c: nat)
    ensures c == M - Folded(WordSum(data) % WORD)
    ensures c == Checksum(data) <==> WordSum(data) / WORD % M == 0 && (WordSum(data) % WORD > 0 || WordSum(data) == 0)
    ensures |data| <= 0x2_0000 ==> c == Checksum(data)
  {
    FoldedWrap(WordSum(data));
    hide WordSum, Folded;
    var sum := AddWords(data, 0);
    sum := Fold(sum);
    c := M - sum;
  }

  function Low16(v: nat): (bytes: seq<byte>)
    ensures |bytes| == 2
  {
    [v % 256, v / 256 % 256]
  }

  /** A 16-bit value in network order. */
  function Net16(v: nat): (bytes: seq<byte>)
    ensures |bytes| == 2
  {
    [v / 256 % 256, v % 256]
  }

  /** The pseudo-header: both addresses as they lie in memory, a zero byte, the protocol
      and the length in network order. */
  function Pseudo(src: nat, dst: nat, proto: byte, length: nat): (bytes: seq<byte>)
    ensures |bytes| == 12
  {
    Low16(src) + Low16(src / 0x1_0000) + Low16(dst) + Low16(dst / 0x1_0000) + Net16(proto) + Net16(length)
  }

  function Lo16(v: nat): (w: nat)
    ensures w <= M
  {
    v % 0x1_0000
  }

  function Hi16(v: nat): (w: nat)
    ensures w <= M
  {
    v / 0x1_0000 % 0x1_0000
  }

  /** `htons`. */
  function Swap16(v: nat): (w: nat)
    ensures w <= M
  {
    v % 256 * 256 + v / 256 % 256
  }

  lemma {:induction false} LowBytes(v: nat)
    ensures v % 256 + 256 * (v / 256 % 256) == v % 0x1_0000
  {
    var q := v / 0x1_0000;
    var r := v % 0x1_0000;
    assert v == 0x1_0000 * q + r;
    assert v / 256 == 256 * q + r / 256;
  }

  lemma {:induction false} PairSum(v: nat)
    ensures WordSum(Low16(v)) == Lo16(v)
    ensures WordSum(Net16(v)) == Swap16(v)
  {
    LowBytes(v);
    var a, b := Low16(v), Net16(v);
    assert a[2..] == [] && b[2..] == [];
    assert WordSum(a) == Word(a[0], a[1]) && WordSum(b) == Word(b[0], b[1]);
  }

  lemma {:induction false} FourSum(v: nat)
    ensures WordSum(Low16(v) + Low16(v / 0x1_0000)) == Lo16(v) + Hi16(v)
  {
    PairSum(v);
    PairSum(v / 0x1_0000);
    hide WordSum, Low16;
    WordSumConcat(Low16(v), Low16(v / 0x1_0000));
  }

  lemma {:induction false} PseudoSum(src: nat, dst: nat, proto: byte, length: nat)
    ensures WordSum(Pseudo(src, dst, proto, length)) ==
            Hi16(src) + Lo16(src) + Hi16(dst) + Lo16(dst) + Swap16(proto) + Swap16(length)
  {
    hide WordSum, Low16, Net16, Lo16, Hi16, Swap16;
    FourSum(src);
    FourSum(dst);
    PairSum(proto);
    PairSum(length);
    var a, b := Low16(src) + Low16(src / 0x1_0000), Low16(dst) + Low16(dst / 0x1_0000);
    WordSumConcat(a, b);
    WordSumConcat(a + b, Net16(proto));
    WordSumConcat(a + b + Net16(proto), Net16(length));
    assert Pseudo(src, dst, proto, length) == a + b + Net16(proto) + Net16(length);
  }

  /** `transport_checksum` is `ip_checksum` over the pseudo-header and the segment. */
  method TransportChecksum(src: nat, dst: nat, proto: byte, segment: seq<byte>) returns (c: nat)
    requires src < WORD && dst < WORD
    ensures c == M - Folded(WordSum(Pseudo(src, dst, proto, |segment|) + segment) % WORD)
    ensures |segment| <= 0x1_FFF0 ==> c == Checksum(Pseudo(src, dst, proto, |segment|) + segment)
  {
    hide WordSum, Folded, Lo16, Hi16, Swap16, Pseudo;
    var sum := Hi16(src);
    sum := sum + Lo16(src);
    sum := sum + Hi16(dst);
    sum := sum + Lo16(dst);
    sum := sum + Swap16(proto);
    sum := sum + Swap16(|segment| % 0x1_0000);
    SwapLow(|segment|);
    PseudoSum(src, dst, proto, |segment|);
    WordSumConcat(Pseudo(src, dst, proto, |segment|), segment);
    FoldedWrap(WordSum(Pseudo(src, dst, proto, |segment|) + segment));
    sum := AddWords(segment, sum);
    sum := Fold(sum);
    c := M - sum;
  }

  lemma {:induction false} SwapLow(v: nat)
    ensures Swap16(v % 0x1_0000) == Swap16(v)
  {
    LowBytes(v);
    LowBytes(v % 0x1_0000);
  }

  /** A checksum is zero exactly when the words add up to a positive multiple of 2^16 - 1. */
  lemma {:induction false} ChecksumZero(data: seq<byte>)
    ensures Checksum(data) == 0 <==> WordSum(data) > 0 && WordSum(data) % M == 0
  {
  }

  /** The data with `c` stored at `k`. */
  function Stored(data: seq<byte>, k: nat, c: nat): (s: seq<byte>)
    requires k + 2 <= |data|
  {
    data[..k] + Low16(c) + data[k + 2..]
  }

  lemma {:induction false} StoredSum(data: seq<byte>, k: nat, c: nat)
    requires k + 2 <= |data| && k % 2 == 0 && c <= M
    ensures WordSum(Stored(data, k, c)) == WordSum(data[..k]) + c + WordSum(data[k + 2..])
  {
    hide WordSum, Low16;
    PairSum(c);
    WordSumConcat(data[..k], Low16(c));
    WordSumConcat(data[..k] + Low16(c), data[k + 2..]);
  }

  /** Storing the checksum where the field was zero makes the checksum zero; and no other
      stored value does, except that all ones and all zeros stand for each other. */
  lemma {:induction false} StoredChecksum(data: seq<byte>, k: nat, c: nat)
    requires k + 2 <= |data| && k % 2 == 0 && c <= M
    requires data[k] == data[k + 1] == 0
    ensures Checksum(Stored(data, k, Checksum(data))) == 0
    ensures Checksum(Stored(data, k, c)) == 0 ==> c % M == Checksum(data) % M
  {
    hide WordSum, Folded, Low16, Stored;
    StoredZero(data, k);
    StoredSum(data, k, 0);
    StoredSum(data, k, Checksum(data));
    StoredSum(data, k, c);
    ChecksumZero(Stored(data, k, c));
    ChecksumZero(Stored(data, k, Checksum(data)));
    FoldedFill(WordSum(data), c);
  }

  lemma {:induction false} StoredZero(data: seq<byte>, k: nat)
    requires k + 2 <= |data| && data[k] == data[k + 1] == 0
    ensures Stored(data, k, 0) == data
  {
  }

  lemma {:induction false} FoldedFill(s: nat, c: nat)
    requires c <= M
    ensures s + (M - Folded(s)) > 0 && (s + (M - Folded(s))) % M == 0
    ensures (s + c) % M == 0 ==> c % M == (M - Folded(s)) % M
  {
    var q, r := s / M, s % M;
    assert s == M * q + r;
    if s > 0 { FoldedRem(s); }
  }

  lemma {:induction false} FoldedRem(s: nat)
    requires s > 0
    ensures Folded(s) == if s % M == 0 then M else s % M
  {
  }
}
