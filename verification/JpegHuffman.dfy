/** The Huffman decoder of kernel/jpeg.c: the bit reader that drops stuffed
    zero bytes, the min/max code tables, and bit-by-bit decoding. A table is
    described by the code lengths it stands for, as in `CanonicalHuffman`. */
module JpegHuffman {
  import opened Bits
  import opened CanonicalHuffman
  import opened HuffmanTable
  import opened InflateSteps

  const JPEG_MAX := 16
  const JHUFF_MAX := 256

  // ---- Entropy-coded bytes ----

  /** The bits of entropy-coded data up to the first marker: highest bit first,
      a zero byte after 0xFF being stuffing (section B.1.1.5 of ITU-T T.81). */
  function Unstuff(d: seq<byte>): seq<bool>
    decreases |d|
  {
    if d == [] then []
    else if d[0] != 0xFF then MsbBits(d[0], 8) + Unstuff(d[1..])
    else if |d| > 1 && d[1] == 0 then MsbBits(0xFF, 8) + Unstuff(d[2..])
    else []
  }

  /** What the sender does: a zero byte after every 0xFF. */
  function Stuff(data: seq<byte>): seq<byte> {
    if data == [] then []
    else (if data[0] == 0xFF then [0xFF, 0] else [data[0]]) + Stuff(data[1..])
  }

  function MsbByteBits(data: seq<byte>): seq<bool> {
    if data == [] then [] else MsbBits(data[0], 8) + MsbByteBits(data[1..])
  }

  /** Reading stuffed data gives back the data, whatever marker ends it. */
  lemma {:induction false} UnstuffStuff(data: seq<byte>, marker: seq<byte>)
    requires |marker| >= 2 && marker[0] == 0xFF && marker[1] != 0
    ensures Unstuff(Stuff(data) + marker) == MsbByteBits(data)
  {
    hide MsbBits;
    var d := Stuff(data) + marker;
    if data == [] {
      assert d == marker;
    } else {
      UnstuffStuff(data[1..], marker);
      var tail := Stuff(data[1..]) + marker;
      if data[0] == 0xFF {
        assert d[0] == 0xFF && d[1] == 0 && d[2..] == tail;
      } else {
        assert d[0] == data[0] && d[1..] == tail;
      }
    }
  }

  lemma {:induction false} MsbTop(v: nat, n: nat)
    ensures MsbBits(v, n + 1) == [Shr(v, n) % 2 == 1] + MsbBits(v, n)
  {
    if n > 0 {
      MsbTop(v / 2, n - 1);
    } else {
      assert MsbBits(v, 1) == MsbBits(v / 2, 0) + [v % 2 == 1];
    }
  }

  class JBits {
    const d: seq<byte>
    var p: nat
    var buf: nat
    var cnt: nat
    var markerHit: bool

    constructor (d: seq<byte>, off: nat)
      requires off <= |d|
      ensures this.d == d && Valid() && Rest() == Unstuff(d[off..])
    {
      this.d, p, buf, cnt, markerHit := d, off, 0, 0, false;
    }

    ghost predicate Valid()
      reads this
    {
      p <= |d|
    }

    /** The bits still to come before the next marker. */
    ghost function Rest(): seq<bool>
      requires Valid()
      reads this
    {
      MsbBits(buf, cnt) + Unstuff(d[p..])
    }

    /** The next bit, or -1 at a marker or at the end of the data. */
    method NextBit() returns (r: int)
      requires Valid()
      modifies this
      ensures Valid()
      ensures old(Rest()) == [] ==> r == -1 && markerHit
      ensures old(Rest()) != [] ==> r == Bit(old(Rest())[0]) && Rest() == old(Rest())[1..]
      ensures old(Rest()) != [] ==> markerHit == old(markerHit)
    {
      hide MsbBits, Shr;
      MsbNone(buf);
      if cnt == 0 {
        if p >= |d| { markerHit := true; return -1; }
        assert d[p..][0] == d[p] && d[p..][1..] == d[p + 1..];
        var c := d[p];
        p := p + 1;
        if c == 0xFF {
          var c2 := if p < |d| then d[p] else 0xD9;
          if c2 == 0 {
            assert d[p - 1..][1] == 0 && d[p - 1..][2..] == d[p + 1..];
            p := p + 1;
          } else {
            markerHit := true;
            return -1;
          }
        }
        buf, cnt := c, 8;
      }
      cnt := cnt - 1;
      MsbTop(buf, cnt);
      return Shr(buf, cnt) % 2;
    }
  }

  lemma {:induction false} MsbNone(v: nat)
    ensures MsbBits(v, 0) == []
  {
  }

  // ---- Tables ----

  /** Lengths a JPEG table can hold, nowhere over-subscribed. */
  ghost predicate JpegCode(ls: seq<nat>) {
    |ls| <= JHUFF_MAX && (forall i :: 0 <= i < |ls| ==> ls[i] <= JPEG_MAX) && Sound(ls)
  }

  class JHuff {
    const bits: array<nat>
    const vals: array<byte>
    const minCode: array<nat>
    const maxCode: array<int>
    const valPtr: array<nat>

    constructor ()
      ensures Shape() && fresh(this) && fresh(bits) && fresh(vals) && fresh(minCode) && fresh(maxCode) && fresh(valPtr)
    {
      bits := new nat[JPEG_MAX + 1];
      vals := new byte[JHUFF_MAX];
      minCode := new nat[JPEG_MAX + 1];
      maxCode := new int[JPEG_MAX + 2];
      valPtr := new nat[JPEG_MAX + 1];
    }

    predicate Shape() {
      && bits.Length == JPEG_MAX + 1 && vals.Length == JHUFF_MAX && minCode.Length == JPEG_MAX + 1
      && maxCode.Length == JPEG_MAX + 2 && valPtr.Length == JPEG_MAX + 1
      && bits != minCode && bits != valPtr && minCode != valPtr
    }

    /** The BITS list of the table counts the lengths of `ls`. */
    ghost predicate Counts(ls: seq<nat>)
      requires Shape()
      reads bits
    {
      forall l :: 1 <= l <= JPEG_MAX ==> bits[l] == Count(ls, l)
    }

    ghost predicate Built(ls: seq<nat>, n: nat)
      requires Shape() && n <= JPEG_MAX
      reads minCode, maxCode, valPtr
    {
      forall l :: 1 <= l <= n ==>
        && minCode[l] == FirstCode(ls, l) && valPtr[l] == Start(ls, l)
        && maxCode[l] == if Count(ls, l) == 0 then -1 else FirstCode(ls, l) + Count(ls, l) - 1
    }

    /** The tables are those of the lengths, whatever these are. */
    ghost predicate Ready(ls: seq<nat>)
      reads bits, minCode, maxCode, valPtr
    {
      Shape() && Counts(ls) && Built(ls, JPEG_MAX)
    }

    ghost predicate Valid(ls: seq<nat>)
      reads bits, minCode, maxCode, valPtr
    {
      Ready(ls) && JpegCode(ls)
    }

    /** Fills the code tables from the counts, as section C.2 of ITU-T T.81 generates codes. */
    method Build(ghost ls: seq<nat>)
      requires Shape() && Counts(ls)
      modifies minCode, maxCode, valPtr
      ensures Built(ls, JPEG_MAX)
    {
      hide FirstCode, Start, Count;
      StartOf(ls);
      var code: int, k: nat := 0, 0;
      for l := 1 to JPEG_MAX + 1
        invariant code == FirstCode(ls, l) && k == Start(ls, l) && Built(ls, l - 1)
      {
        valPtr[l] := k;
        minCode[l] := code;
        code := code + bits[l];
        k := k + bits[l];
        maxCode[l] := code - 1;
        if bits[l] == 0 { maxCode[l] := -1; }
        code := 2 * code;
        NextLength(ls, l);
      }
      maxCode[JPEG_MAX + 1] := 0x7FFF_FFFF;
    }

    /** Decodes one value, for any table: the one at the place that the walk of section
        F.2.2.3 finds, or -1 where it finds none or one outside the table. */
    method Decode(b: JBits, ghost ls: seq<nat>) returns (r: int)
      requires Ready(ls) && b.Valid()
      modifies b
      ensures b.Valid()
      ensures match Walk(ls, old(b.Rest()), 1)
        case Ok(i, rest) => b.Rest() == rest && r == if 0 <= i < JHUFF_MAX then vals[i] else -1
        case Err(_) => r == -1
      ensures JpegCode(ls) ==> match DecodeSymbol(ls, old(b.Rest()))
        case Ok(s, rest) => Slot(ls, s) < JHUFF_MAX && r == vals[Slot(ls, s)] && b.Rest() == rest
        case Err(_) => r == -1
    {
      hide DecodeSymbol, JpegCode, Unstuff, MsbBits, Slot, Walk, Counts, Built;
      if JpegCode(ls) { WalkDecodes(ls, b.Rest()); }
      var found, idx := Search(b, ls);
      if !found || idx < 0 || idx >= JHUFF_MAX { return -1; }
      return vals[idx];
    }

    /** The loop: where among the values the walk ends, if anywhere. */
    method Search(b: JBits, ghost ls: seq<nat>) returns (found: bool, idx: int)
      requires Ready(ls) && b.Valid()
      modifies b
      ensures b.Valid()
      ensures match Walk(ls, old(b.Rest()), 1)
        case Ok(i, rest) => found && idx == i && b.Rest() == rest
        case Err(_) => !found
    {
      hide MsbVal, FirstCode, Count, Start, MsbBits, Unstuff, Walk;
      ghost var input := b.Rest();
      NoCodeAtStart(ls, input);
      WalkNext(ls, input, 1);
      var code := b.NextBit();
      if code < 0 { return false, 0; }
      MsbStep(input, 0);
      assert input[0..] == input;
      var l := 1;
      while l <= JPEG_MAX
        invariant 1 <= l <= JPEG_MAX + 1 && b.Valid() && l <= |input| && b.Rest() == input[l..]
        invariant code == MsbVal(input[..l]) && Walk(ls, input, 1) == Walk(ls, input, l)
      {
        WalkNext(ls, input, l);
        if bits[l] != 0 && code <= maxCode[l] {
          return true, valPtr[l] + code - minCode[l];
        }
        WalkNext(ls, input, l + 1);
        var nx := b.NextBit();
        if nx < 0 { return false, 0; }
        MsbStep(input, l);
        code := 2 * code + nx;
        l := l + 1;
      }
      WalkNext(ls, input, l);
      return false, 0;
    }
  }

  /** The first `l` bits are no greater than the largest code of that length. */
  predicate Found(ls: seq<nat>, input: seq<bool>, l: nat)
    requires l <= |input|
  {
    Count(ls, l) > 0 && MsbVal(input[..l]) < FirstCode(ls, l) + Count(ls, l)
  }

  /** The walk of figure F.16 of ITU-T T.81: with each further bit, stop where the code is
      no greater than the largest of its length. What it finds is a place among the values. */
  ghost function Walk(ls: seq<nat>, input: seq<bool>, l: nat): Decoded<int>
    decreases JPEG_MAX + 1 - l
  {
    if l > JPEG_MAX || l > |input| then Err(ERR_DATA)
    else if Found(ls, input, l) then
      Ok(Start(ls, l) + MsbVal(input[..l]) - FirstCode(ls, l), input[l..])
    else Walk(ls, input, l + 1)
  }

  lemma {:induction false} WalkNext(ls: seq<nat>, input: seq<bool>, l: nat)
    ensures l > JPEG_MAX || l > |input| ==> Walk(ls, input, l) == Err(ERR_DATA)
    ensures l <= JPEG_MAX && l <= |input| && Found(ls, input, l) ==>
      Walk(ls, input, l) == Ok(Start(ls, l) + MsbVal(input[..l]) - FirstCode(ls, l), input[l..])
    ensures l <= JPEG_MAX && l <= |input| && !Found(ls, input, l) ==> Walk(ls, input, l) == Walk(ls, input, l + 1)
  {
  }

  /** With a table that is not over-subscribed the walk finds the symbol whose code the
      input starts with, and finds nothing when there is none. */
  lemma {:induction false} WalkDecodes(ls: seq<nat>, input: seq<bool>)
    requires JpegCode(ls)
    ensures match DecodeSymbol(ls, input)
      case Ok(s, rest) => Slot(ls, s) < |ls| <= JHUFF_MAX && Walk(ls, input, 1) == Ok(Slot(ls, s), rest)
      case Err(_) => Walk(ls, input, 1).Err?
  {
    NoCodeAtStart(ls, input);
    WalkFrom(ls, input, 1);
  }

  lemma {:induction false} WalkFrom(ls: seq<nat>, input: seq<bool>, l: nat)
    requires JpegCode(ls) && 1 <= l <= JPEG_MAX + 1 && NoneShorter(ls, input, l)
    requires l <= |input| ==> FirstCode(ls, l) <= MsbVal(input[..l])
    ensures match DecodeSymbol(ls, input)
      case Ok(s, rest) => Slot(ls, s) < |ls| <= JHUFF_MAX && Walk(ls, input, l) == Ok(Slot(ls, s), rest)
      case Err(_) => Walk(ls, input, l).Err?
    decreases JPEG_MAX + 1 - l
  {
    hide DecodeSymbol, Sound, MsbVal, FirstCode, Count, Start, NoneShorter, Slot;
    NoCode(ls, input, l - 1);
    if l <= JPEG_MAX && l <= |input| {
      if Found(ls, input, l) {
        var s := Hit(ls, input, l, MsbVal(input[..l]) - FirstCode(ls, l));
        SlotInTable(ls, s);
      } else {
        Miss(ls, input, l);
        NextLength(ls, l);
        if l < |input| { MsbStep(input, l); }
        WalkFrom(ls, input, l + 1);
      }
    }
  }

  lemma {:induction false} StartOf(ls: seq<nat>)
    ensures FirstCode(ls, 1) == 0 && Start(ls, 1) == 0
  {
  }

  lemma {:induction false} NextLength(ls: seq<nat>, l: nat)
    requires l >= 1
    ensures FirstCode(ls, l + 1) == 2 * (FirstCode(ls, l) + Count(ls, l))
    ensures Start(ls, l + 1) == Start(ls, l) + Count(ls, l)
  {
  }

  lemma {:induction false} NoCodeAtStart(ls: seq<nat>, input: seq<bool>)
    ensures NoneShorter(ls, input, 1) && FirstCode(ls, 1) == 0 && MsbVal(input[..0]) == 0
    ensures input == [] ==> DecodeSymbol(ls, input).Err?
  {
  }

  /** With `n` bits tried in vain, nothing is found if the input or the lengths end there. */
  lemma {:induction false} NoCode(ls: seq<nat>, input: seq<bool>, n: nat)
    requires NoneShorter(ls, input, n + 1)
    ensures |input| == n ==> DecodeSymbol(ls, input).Err?
    ensures n >= JPEG_MAX && JpegCode(ls) ==> DecodeSymbol(ls, input).Err?
    ensures |input| < n + 1 ==> DecodeSymbol(ls, input).Err?
  {
  }

  lemma {:induction false} SlotInTable(ls: seq<nat>, s: nat)
    requires JpegCode(ls) && s < |ls| && ls[s] > 0
    ensures Slot(ls, s) < |ls|
  {
    CountRank(ls, s);
    StartBound(ls, ls[s] + 1);
  }

  // ---- Every table has lengths ----

  /** HUFFSIZE: the code lengths of the values in order (figure C.1 of ITU-T T.81). */
  function Sizes(counts: seq<nat>): (ls: seq<nat>) {
    if counts == [] then [] else
      var n := |counts| - 1;
      Sizes(counts[..n]) + seq(counts[n], _ => n)
  }

  lemma {:induction false} CountAppend(ls: seq<nat>, v: nat, n: nat, l: nat)
    ensures Count(ls + seq(n, _ => v), l) == Count(ls, l) + if l == v then n else 0
  {
    var t := ls + seq(n, _ => v);
    if n == 0 {
      assert t == ls;
    } else {
      CountAppend(ls, v, n - 1, l);
      assert t[..|t| - 1] == ls + seq(n - 1, _ => v);
    }
  }

  lemma {:induction false} CountSizes(counts: seq<nat>, l: nat)
    ensures Count(Sizes(counts), l) == if l < |counts| then counts[l] else 0
    ensures forall i :: 0 <= i < |Sizes(counts)| ==> Sizes(counts)[i] < |counts|
  {
    if counts != [] {
      var n := |counts| - 1;
      CountSizes(counts[..n], l);
      CountAppend(Sizes(counts[..n]), n, counts[n], l);
    }
  }

  lemma {:induction false} SizesLength(counts: seq<nat>)
    ensures |Sizes(counts)| == Values(counts)
  {
    if counts != [] { SizesLength(counts[..|counts| - 1]); }
  }

  /** How many values a list of counts calls for. */
  function Values(counts: seq<nat>): nat {
    if counts == [] then 0 else Values(counts[..|counts| - 1]) + counts[|counts| - 1]
  }

  /** The codes that the counts up to length `l` use up, counted at that depth. */
  function UsedUp(counts: seq<nat>, l: nat): nat
    requires l < |counts|
  {
    if l == 0 then 0 else 2 * UsedUp(counts, l - 1) + counts[l]
  }

  lemma {:induction false} UsedCounts(counts: seq<nat>, ls: seq<nat>, l: nat)
    requires l < |counts| && forall i :: 1 <= i <= l ==> counts[i] == Count(ls, i)
    ensures UsedUp(counts, l) == Used(ls, l)
  {
    if l > 0 { UsedCounts(counts, ls, l - 1); }
  }

  /** Any BITS list is the count of some code lengths, so `Decode` covers every table.
      They are a code exactly when there are at most 256 values and the counts do not use
      up more codes than there are. */
  lemma {:induction false} EveryTable(h: JHuff) returns (ls: seq<nat>, counts: seq<nat>)
    requires h.Shape()
    ensures h.Counts(ls) && forall i :: 0 <= i < |ls| ==> 0 < ls[i] <= JPEG_MAX
    ensures counts == [0] + h.bits[1..]
    ensures JpegCode(ls) <==> Values(counts) <= 256 && UsedUp(counts, 16) <= Pow2(16)
  {
    hide Used, UsedUp, Values, Pow2, JpegCode;
    counts := [0] + h.bits[1..];
    ls := Sizes(counts);
    CountSizes(counts, 0);
    forall l | 1 <= l <= JPEG_MAX
      ensures h.bits[l] == Count(ls, l)
    {
      CountSizes(counts, l);
    }
    forall i | 0 <= i < |ls|
      ensures ls[i] > 0
    {
      CountRank(ls, i);
    }
    SizesLength(counts);
    UsedCounts(counts, ls, JPEG_MAX);
    CodeWhen(ls);
  }

  lemma {:induction false} CodeWhen(ls: seq<nat>)
    requires forall i :: 0 <= i < |ls| ==> ls[i] <= JPEG_MAX
    ensures JpegCode(ls) <==> |ls| <= JHUFF_MAX && Used(ls, JPEG_MAX) <= Pow2(JPEG_MAX)
  {
    hide Used, Pow2;
    if Used(ls, JPEG_MAX) <= Pow2(JPEG_MAX) { SoundFrom(ls, JPEG_MAX); }
  }

  /** The smallest over-subscribed table: three codes of one bit. */
  lemma {:induction false} ThreeOfOne()
    ensures !JpegCode([1, 1, 1])
  {
    assert Used([1, 1, 1], 1) == 3 by {
      assert [1, 1, 1][..2] == [1, 1] && [1, 1][..1] == [1] && [1][..0] == [];
    }
  }
}
