/** The receiver's side of DEFLATE as functions on bit strings, with the error
    codes and the order of checks of kernel/inflate.c. Bits, bytes and tables
    do not appear; a symbol is decoded by `DecodeSymbol`, that is, by the code. */
module InflateSpec {
  import opened Bits
  import opened CanonicalHuffman
  import opened DeflateFormat

  /** The next `n` bits as a number, lowest first. */
  ghost function Take(bits: seq<bool>, n: nat): (d: Decoded<nat>)
    ensures d.Err? ==> d.code == ERR_INPUT
    ensures d.Ok? ==> |d.rest| == |bits| - n && d.value < Pow2(n)
  {
    if |bits| < n then Err(ERR_INPUT)
    else
      NatBitsVal(bits[..n]);
      Ok(Val(bits[..n]), bits[n..])
  }

  // ---- Dynamic headers ----

  /** The first `n` code length code lengths. */
  ghost function DecodeClens(n: nat, sent: seq<nat>, bits: seq<bool>): (d: Decoded<seq<nat>>)
    requires |sent| <= n
    ensures d.Err? ==> d.code < 0
    ensures d.Ok? ==> |d.value| == n && |d.rest| <= |bits|
    decreases n - |sent|
  {
    if |sent| == n then Ok(sent, bits)
    else
      match Take(bits, 3)
      case Err(e) => Err(e)
      case Ok(v, rest) => DecodeClens(n, sent + [v], rest)
  }

  /** One operation of the code length alphabet; `acc` holds the lengths so far. */
  ghost function DecodeOp(cl: seq<nat>, acc: seq<nat>, bits: seq<bool>): (d: Decoded<ClOp>)
    ensures d.Err? ==> d.code < 0
    ensures d.Ok? ==> d.value.Applies(acc) && |d.rest| < |bits|
  {
    match DecodeSymbol(cl, bits)
    case Err(e) => Err(e)
    case Ok(sym, rest) =>
      if sym < 16 then Ok(Len(sym), rest) else DecodeRepeat(sym, acc, rest)
  }

  /** The repeat count of the symbols 16, 17 and 18. */
  ghost function DecodeRepeat(sym: nat, acc: seq<nat>, bits: seq<bool>): (d: Decoded<ClOp>)
    ensures d.Err? ==> d.code < 0
    ensures d.Ok? ==> d.value.Applies(acc) && |d.rest| <= |bits|
  {
    if sym == 16 then
      if acc == [] then Err(ERR_DATA)
      else
        match Take(bits, 2)
        case Err(e) => Err(e)
        case Ok(v, rest) => Ok(Repeat(v + 3), rest)
    else if sym == 17 then
      match Take(bits, 3)
      case Err(e) => Err(e)
      case Ok(v, rest) => Ok(ZerosShort(v + 3), rest)
    else
      match Take(bits, 7)
      case Err(e) => Err(e)
      case Ok(v, rest) => Ok(ZerosLong(v + 11), rest)
  }

  /** Operations until `n` lengths are there; running past `n` is an error. */
  ghost function DecodeOps(cl: seq<nat>, n: nat, acc: seq<nat>, bits: seq<bool>): (d: Decoded<seq<nat>>)
    ensures d.Err? ==> d.code < 0
    ensures d.Ok? ==> |d.rest| <= |bits| && (|acc| <= n ==> |d.value| == n)
    decreases |bits|
  {
    if |acc| >= n then Ok(acc, bits)
    else
      match DecodeOp(cl, acc, bits)
      case Err(e) => Err(e)
      case Ok(op, rest) =>
        if |op.Apply(acc)| > n then Err(ERR_DATA)
        else DecodeOps(cl, n, op.Apply(acc), rest)
  }

  datatype Codes = Codes(lit: seq<nat>, dist: seq<nat>)

  ghost function DecodeHeader(bits: seq<bool>): (d: Decoded<Codes>)
    ensures d.Err? ==> d.code < 0
    ensures d.Ok? ==> |d.rest| <= |bits|
  {
    match Take(bits, 5)
    case Err(e) => Err(e)
    case Ok(hlit, rest) =>
      match Take(rest, 5)
      case Err(e) => Err(e)
      case Ok(hdist, rest) =>
        match Take(rest, 4)
        case Err(e) => Err(e)
        case Ok(hclen, rest) => DecodeLengths(hlit + 257, hdist + 1, hclen + 4, rest)
  }

  ghost function DecodeLengths(nlen: nat, ndist: nat, ncode: nat, bits: seq<bool>): (d: Decoded<Codes>)
    ensures d.Err? ==> d.code < 0
    ensures d.Ok? ==> |d.rest| <= |bits|
  {
    if nlen > 286 || ndist > 30 then Err(ERR_DATA)
    else
      match DecodeClens(ncode, [], bits)
      case Err(e) => Err(e)
      case Ok(sent, rest) =>
        if |sent| > NUM_CLEN || !Valid(ClenVector(sent)) then Err(ERR_DATA)
        else
          match DecodeOps(ClenVector(sent), nlen + ndist, [], rest)
          case Err(e) => Err(e)
          case Ok(lens, rest) =>
            if LengthsFit(lens, nlen, ndist) then Ok(Codes(lens[..nlen], lens[nlen..]), rest)
            else Err(ERR_DATA)
  }

  // ---- Tokens ----

  datatype Item = Tok(t: Token) | End

  ghost function DecodeItem(lit: seq<nat>, dist: seq<nat>, bits: seq<bool>): (d: Decoded<Item>)
    ensures d.Err? ==> d.code < 0
    ensures d.Ok? ==> |d.rest| < |bits|
    ensures d.Ok? && d.value.Tok? && d.value.t.Match? ==> d.value.t.lenSym < NUM_LEN && d.value.t.distSym < NUM_DIST
  {
    match DecodeSymbol(lit, bits)
    case Err(e) => Err(e)
    case Ok(sym, rest) =>
      if sym < 256 then Ok(Tok(Literal(sym)), rest)
      else if sym == END_OF_BLOCK then Ok(End, rest)
      else if sym - 257 >= NUM_LEN then Err(ERR_DATA)
      else DecodeMatch(sym - 257, dist, rest)
  }

  /** The rest of a match after its length symbol. */
  ghost function DecodeMatch(ls: nat, dist: seq<nat>, bits: seq<bool>): (d: Decoded<Item>)
    requires ls < NUM_LEN
    ensures d.Ok? ==> |d.rest| < |bits|
    ensures d.Ok? ==> d.value.Tok? && d.value.t.Match? && d.value.t.lenSym == ls && d.value.t.distSym < NUM_DIST
    ensures d.Err? ==> d.code < 0
  {
    match Take(bits, LenExtra(ls))
    case Err(e) => Err(e)
    case Ok(le, rest) => DecodeDistance(ls, le, dist, rest)
  }

  ghost function DecodeDistance(ls: nat, le: nat, dist: seq<nat>, bits: seq<bool>): (d: Decoded<Item>)
    ensures d.Err? ==> d.code < 0
    ensures d.Ok? ==> |d.rest| < |bits|
    ensures d.Ok? ==> d.value.Tok? && d.value.t.Match? && d.value.t.lenSym == ls && d.value.t.distSym < NUM_DIST
  {
    match DecodeSymbol(dist, bits)
    case Err(e) => Err(e)
    case Ok(ds, rest) =>
      if ds >= NUM_DIST then Err(ERR_DATA)
      else
        match Take(rest, DistExtra(ds))
        case Err(e) => Err(e)
        case Ok(de, rest) => Ok(Tok(Match(ls, le, ds, de)), rest)
  }

  datatype Emitted = Grown(out: seq<byte>) | Refused(code: int)

  /** Adds a match to the output: reaching before the start is checked first, then the room. */
  ghost function EmitCopy(dist: nat, len: nat, out: seq<byte>, cap: nat): Emitted
    requires dist > 0
  {
    if dist > |out| then Refused(ERR_DATA)
    else if |out| + len > cap then Refused(ERR_OUTPUT)
    else Grown(CopyBack(out, dist, len))
  }

  ghost function EmitToken(t: Token, out: seq<byte>, cap: nat): Emitted
    requires t.Match? ==> t.lenSym < NUM_LEN && t.distSym < NUM_DIST
  {
    match t
    case Literal(b) => if |out| >= cap then Refused(ERR_OUTPUT) else Grown(out + [b])
    case Match(_, _, _, _) => EmitCopy(t.Distance(), t.Length(), out, cap)
  }

  /** Emitting is expanding, as far as the token reaches and the room goes. */
  lemma {:induction false} EmitExpands(t: Token, out: seq<byte>, cap: nat)
    requires t.Match? ==> t.lenSym < NUM_LEN && t.distSym < NUM_DIST
    ensures EmitToken(t, out, cap)
         == if !t.Reaches(out) then Refused(ERR_DATA)
            else if |t.Expand(out)| > cap then Refused(ERR_OUTPUT)
            else Grown(t.Expand(out))
  {
  }

  /** The tokens of one block up to and including its end-of-block code. */
  ghost function DecodeTokens(lit: seq<nat>, dist: seq<nat>, bits: seq<bool>, out: seq<byte>,
      cap: nat): (d: Decoded<seq<byte>>)
    ensures d.Err? ==> d.code < 0
    ensures d.Ok? ==> |d.rest| < |bits|
    decreases |bits|
  {
    match DecodeItem(lit, dist, bits)
    case Err(e) => Err(e)
    case Ok(End, rest) => Ok(out, rest)
    case Ok(Tok(t), rest) =>
      match EmitToken(t, out, cap)
      case Refused(e) => Err(e)
      case Grown(out') => DecodeTokens(lit, dist, rest, out', cap)
  }

  // ---- Blocks ----

  /** The first `n` bytes that a bit string spells. */
  ghost function BitBytes(bits: seq<bool>, n: nat): (bytes: seq<byte>)
    requires 8 * n <= |bits|
    ensures |bytes| == n
  {
    if n == 0 then [] else [ByteOf(bits[..8])] + BitBytes(bits[8..], n - 1)
  }

  /** A stored block; the input ends on a byte boundary, so the bits to skip are
      those beyond a multiple of eight. */
  ghost function DecodeStored(bits: seq<bool>, out: seq<byte>, cap: nat): (d: Decoded<seq<byte>>)
    ensures d.Err? ==> d.code < 0
    ensures d.Ok? ==> |d.rest| <= |bits|
  {
    DecodeAligned(bits[|bits| % 8..], out, cap)
  }

  ghost function DecodeAligned(bytes: seq<bool>, out: seq<byte>, cap: nat): (d: Decoded<seq<byte>>)
    ensures d.Err? ==> d.code < 0
    ensures d.Ok? ==> |d.rest| <= |bytes|
  {
    if |bytes| < 32 then Err(ERR_INPUT)
    else
      var len, nlen := Val(bytes[..16]), Val(bytes[16..32]);
      var body := bytes[32..];
      if nlen != 0xFFFF - len then Err(ERR_DATA)
      else if |body| < 8 * len then Err(ERR_INPUT)
      else if |out| + len > cap then Err(ERR_OUTPUT)
      else Ok(out + BitBytes(body, len), body[8 * len..])
  }

  ghost function DecodeBody(kind: nat, bits: seq<bool>, out: seq<byte>, cap: nat): (d: Decoded<seq<byte>>)
    ensures d.Err? ==> d.code < 0
    ensures d.Ok? ==> |d.rest| <= |bits|
  {
    if kind == 0 then DecodeStored(bits, out, cap)
    else if kind == 1 then DecodeTokens(FixedLit(), FixedDist(), bits, out, cap)
    else if kind == 2 then
      match DecodeHeader(bits)
      case Err(e) => Err(e)
      case Ok(c, rest) => DecodeTokens(c.lit, c.dist, rest, out, cap)
    else Err(ERR_DATA)
  }

  /** One block, and whether it was marked last. */
  ghost function DecodeBlock(bits: seq<bool>, out: seq<byte>, cap: nat): (d: Decoded<(bool, seq<byte>)>)
    ensures d.Err? ==> d.code < 0
    ensures d.Ok? ==> |d.rest| < |bits|
  {
    if bits == [] then Err(ERR_INPUT)
    else
      match Take(bits[1..], 2)
      case Err(e) => Err(e)
      case Ok(kind, rest) =>
        match DecodeBody(kind, rest, out, cap)
        case Err(e) => Err(e)
        case Ok(out', rest') => Ok((bits[0], out'), rest')
  }

  /** A whole stream: the data, or the error the decoder reports. */
  ghost function Inflate(bits: seq<bool>, out: seq<byte>, cap: nat): (d: Decoded<seq<byte>>)
    ensures d.Err? ==> d.code < 0
    decreases |bits|
  {
    match DecodeBlock(bits, out, cap)
    case Err(e) => Err(e)
    case Ok((last, out'), rest) => if last then Ok(out', rest) else Inflate(rest, out', cap)
  }
}
