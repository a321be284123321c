/** Canonical Huffman codes as section 3.2.2 of RFC 1951 defines them.

    A code is given by its vector of code lengths alone (0 = symbol unused).
    Everything here speaks of that vector; no decoding table is involved. */
module CanonicalHuffman {
  import opened Bits

  const MAX_BITS := 15
  const MAX_SYMBOLS := 288

  predicate LengthsOk(ls: seq<nat>) {
    |ls| <= MAX_SYMBOLS && forall i :: 0 <= i < |ls| ==> ls[i] <= MAX_BITS
  }

  /** bl_count: how many symbols have length `l`. */
  function Count(ls: seq<nat>, l: nat): (c: nat)
    ensures c <= |ls|
  {
    if ls == [] then 0
    else Count(ls[..|ls| - 1], l) + if ls[|ls| - 1] == l then 1 else 0
  }

  /** next_code: the numerically smallest code of length `l`. */
  function FirstCode(ls: seq<nat>, l: nat): nat {
    if l <= 1 then 0 else 2 * (FirstCode(ls, l - 1) + Count(ls, l - 1))
  }

  /** The code of symbol `s` as a number: codes of one length are consecutive in symbol order. */
  function CodeVal(ls: seq<nat>, s: nat): nat
    requires s < |ls|
  {
    FirstCode(ls, ls[s]) + Count(ls[..s], ls[s])
  }

  /** The code of symbol `s` as it is sent, highest bit first. */
  function Code(ls: seq<nat>, s: nat): (bs: seq<bool>)
    requires s < |ls|
    ensures |bs| == ls[s]
  {
    MsbBits(CodeVal(ls, s), ls[s])
  }

  /** The Kraft sum, in units of 2 to the minus MAX_BITS. */
  function KraftSum(ls: seq<nat>): nat
    requires LengthsOk(ls)
  {
    if ls == [] then 0
    else
      var n := |ls| - 1;
      KraftSum(ls[..n]) + if ls[n] == 0 then 0 else Pow2(MAX_BITS - ls[n])
  }

  /** A length vector describes a code exactly when its Kraft sum is at most one. */
  predicate Valid(ls: seq<nat>) {
    LengthsOk(ls) && KraftSum(ls) <= Pow2(MAX_BITS)
  }

  /** `bits` starts with the code of the used symbol `s`. */
  predicate StartsWith(ls: seq<nat>, s: nat, bits: seq<bool>) {
    s < |ls| && ls[s] > 0 && Code(ls, s) <= bits
  }

  // ---- Counting ----

  lemma {:induction false} CountStep(ls: seq<nat>, i: nat, l: nat)
    requires i < |ls|
    ensures Count(ls[..i + 1], l) == Count(ls[..i], l) + if ls[i] == l then 1 else 0
  {
    assert ls[..i + 1][..i] == ls[..i];
  }

  lemma {:induction false} CountMonotone(ls: seq<nat>, i: nat, j: nat, l: nat)
    requires i <= j <= |ls|
    ensures Count(ls[..i], l) <= Count(ls[..j], l)
  {
    if i < j {
      CountMonotone(ls, i, j - 1, l);
      CountStep(ls, j - 1, l);
    }
  }

  lemma {:induction false} CountBefore(ls: seq<nat>, s: nat, t: nat)
    requires s < t <= |ls|
    ensures Count(ls[..s], ls[s]) < Count(ls[..t], ls[s])
  {
    CountStep(ls, s, ls[s]);
    CountMonotone(ls, s + 1, t, ls[s]);
  }

  lemma {:induction false} CountRank(ls: seq<nat>, s: nat)
    requires s < |ls|
    ensures Count(ls[..s], ls[s]) < Count(ls, ls[s])
  {
    CountBefore(ls, s, |ls|);
    assert ls[..|ls|] == ls;
  }

  /** The `k`-th symbol of a given length exists. */
  lemma {:induction false} NthSymbol(ls: seq<nat>, l: nat, k: nat) returns (s: nat)
    requires k < Count(ls, l)
    ensures s < |ls| && ls[s] == l && Count(ls[..s], l) == k
  {
    var n := |ls| - 1;
    if ls[n] == l && k == Count(ls[..n], l) {
      s := n;
    } else {
      s := NthSymbol(ls[..n], l, k);
      assert ls[..n][..s] == ls[..s];
    }
  }

  // ---- The Kraft inequality, length by length ----

  /** The codes up to length `l` and their descendants, counted at depth `l`. */
  function Used(ls: seq<nat>, l: nat): nat {
    if l == 0 then 0 else 2 * Used(ls, l - 1) + Count(ls, l)
  }

  lemma {:induction false} UsedFirstCode(ls: seq<nat>, l: nat)
    requires l > 0
    ensures FirstCode(ls, l) + Count(ls, l) == Used(ls, l)
  {
    if l > 1 {
      UsedFirstCode(ls, l - 1);
    } else {
      assert Used(ls, 0) == 0;
    }
  }

  lemma {:induction false} UsedEmpty(l: nat)
    ensures Used([], l) == 0
  {
    if l > 0 {
      UsedEmpty(l - 1);
    }
  }

  lemma {:induction false} UsedAppend(ls: seq<nat>, m: nat, l: nat)
    ensures Used(ls + [m], l) == Used(ls, l) + if 1 <= m <= l then Pow2(l - m) else 0
  {
    if l > 0 {
      UsedAppend(ls, m, l - 1);
      assert (ls + [m])[..|ls|] == ls;
    }
  }

  lemma {:induction false} UsedIsKraft(ls: seq<nat>)
    requires LengthsOk(ls)
    ensures Used(ls, MAX_BITS) == KraftSum(ls)
  {
    if ls == [] {
      UsedEmpty(MAX_BITS);
    } else {
      var n := |ls| - 1;
      UsedIsKraft(ls[..n]);
      UsedAppend(ls[..n], ls[n], MAX_BITS);
      assert ls[..n] + [ls[n]] == ls;
    }
  }

  lemma {:induction false} UsedGrows(ls: seq<nat>, l: nat, m: nat)
    requires l <= m
    ensures Shl(Used(ls, l), m - l) <= Used(ls, m)
  {
    if l < m {
      UsedGrows(ls, l, m - 1);
    }
  }

  /** No length is over-subscribed: the code words of each length and the
      descendants of the shorter ones fit at that depth. */
  ghost predicate Sound(ls: seq<nat>) {
    forall l: nat :: Used(ls, l) <= Pow2(l)
  }

  lemma {:induction false} CountNone(ls: seq<nat>, l: nat)
    requires forall i :: 0 <= i < |ls| ==> ls[i] != l
    ensures Count(ls, l) == 0
  {
    if ls != [] { CountNone(ls[..|ls| - 1], l); }
  }

  lemma {:induction false} UsedBeyond(ls: seq<nat>, m: nat, l: nat)
    requires (forall i :: 0 <= i < |ls| ==> ls[i] <= m) && m <= l && Used(ls, m) <= Pow2(m)
    ensures Used(ls, l) <= Pow2(l)
  {
    if m < l {
      UsedBeyond(ls, m, l - 1);
      CountNone(ls, l);
    }
  }

  /** What fits at the greatest depth fits at every depth. */
  lemma {:induction false} SoundFrom(ls: seq<nat>, m: nat)
    requires (forall i :: 0 <= i < |ls| ==> ls[i] <= m) && Used(ls, m) <= Pow2(m)
    ensures Sound(ls)
  {
    forall l: nat
      ensures Used(ls, l) <= Pow2(l)
    {
      if l < m {
        UsedGrows(ls, l, m);
        ShlPow2(l, m - l);
        ShlMonotone(Pow2(l), Used(ls, l), m - l);
      } else {
        UsedBeyond(ls, m, l);
      }
    }
  }

  /** Kraft's inequality: a valid code is nowhere over-subscribed, and conversely. */
  lemma {:induction false} ValidIsSound(ls: seq<nat>)
    requires LengthsOk(ls)
    ensures Valid(ls) <==> Sound(ls)
  {
    UsedIsKraft(ls);
    if Valid(ls) { SoundFrom(ls, MAX_BITS); }
  }

  lemma {:induction false} ValidSound(ls: seq<nat>)
    requires Valid(ls)
    ensures Sound(ls) && LengthsOk(ls)
  {
    ValidIsSound(ls);
  }

  // ---- Prefix freeness ----

  /** A code word fits its length and comes before every longer one. */
  lemma {:induction false} CodeFits(ls: seq<nat>, s: nat)
    requires Sound(ls) && s < |ls| && ls[s] > 0
    ensures CodeVal(ls, s) < Used(ls, ls[s]) <= Pow2(ls[s])
    ensures MsbVal(Code(ls, s)) == CodeVal(ls, s)
  {
    CountRank(ls, s);
    UsedFirstCode(ls, ls[s]);
    assert Used(ls, ls[s]) <= Pow2(ls[s]);
    MsbValBits(CodeVal(ls, s), ls[s]);
  }

  /** Section 3.2.2 of RFC 1951: no code word is a prefix of another, so a bit
      string starts with the code of at most one symbol. */
  lemma {:induction false} PrefixFree(ls: seq<nat>, s: nat, t: nat, bits: seq<bool>)
    requires Sound(ls) && StartsWith(ls, s, bits) && StartsWith(ls, t, bits)
    ensures s == t
  {
    if ls[s] < ls[t] {
      ShorterIsNoPrefix(ls, s, t, bits);
    } else if ls[t] < ls[s] {
      ShorterIsNoPrefix(ls, t, s, bits);
    } else {
      CodeFits(ls, s);
      CodeFits(ls, t);
      assert Code(ls, s) == bits[..ls[s]] == Code(ls, t);
      if s < t { CountBefore(ls, s, t); }
      if t < s { CountBefore(ls, t, s); }
    }
  }

  lemma {:induction false} ShorterIsNoPrefix(ls: seq<nat>, s: nat, t: nat, bits: seq<bool>)
    requires Sound(ls) && s < |ls| && t < |ls| && 0 < ls[s] < ls[t]
    requires StartsWith(ls, s, bits)
    ensures !StartsWith(ls, t, bits)
  {
    if StartsWith(ls, t, bits) {
      CodeFits(ls, s);
      CodeFits(ls, t);
      LongerIsBeyond(ls, s, t);
      TwoPrefixes(Code(ls, s), Code(ls, t), bits);
      PrefixBelow(Code(ls, t), Code(ls, s));
      assert false;
    }
  }

  lemma {:induction false} TwoPrefixes(a: seq<bool>, b: seq<bool>, c: seq<bool>)
    requires a <= c && b <= c && |a| <= |b|
    ensures a <= b
  {
    assert a == c[..|a|] && b == c[..|b|];
  }

  lemma {:induction false} PrefixBelow(c: seq<bool>, d: seq<bool>)
    requires d <= c
    ensures MsbVal(c) < Shl(MsbVal(d) + 1, |c| - |d|)
  {
    MsbPrefix(c, |d|);
    assert c[..|d|] == d;
  }

  /** The code of a longer symbol lies at or beyond every descendant of a shorter one's. */
  lemma {:induction false} LongerIsBeyond(ls: seq<nat>, s: nat, t: nat)
    requires Sound(ls) && s < |ls| && t < |ls| && 0 < ls[s] < ls[t]
    ensures Shl(CodeVal(ls, s) + 1, ls[t] - ls[s]) <= CodeVal(ls, t)
  {
    CodeFits(ls, s);
    ShlMonotone(CodeVal(ls, s) + 1, Used(ls, ls[s]), ls[t] - ls[s]);
    UsedBelow(ls, ls[s], ls[t]);
  }

  lemma {:induction false} UsedBelow(ls: seq<nat>, l: nat, m: nat)
    requires 0 < l < m
    ensures Shl(Used(ls, l), m - l) <= FirstCode(ls, m)
  {
    UsedGrows(ls, l, m - 1);
    UsedFirstCode(ls, m - 1);
  }

  // ---- Decoding, stated by the code alone ----

  datatype Decoded<+T> = Ok(value: T, rest: seq<bool>) | Err(code: int)

  const ERR_DATA := -1
  const ERR_OUTPUT := -2
  const ERR_INPUT := -3

  /** What decoding one symbol means: the symbol whose code the input starts
      with. Without one the input is too short if it has fewer than MAX_BITS
      bits, and not a code word otherwise. */
  ghost function DecodeSymbol(ls: seq<nat>, bits: seq<bool>): (d: Decoded<nat>)
    ensures d.Ok? ==> d.value < |ls| && ls[d.value] > 0 && bits == Code(ls, d.value) + d.rest
    ensures d.Ok? ==> |d.rest| < |bits|
    ensures d.Err? ==> d.code < 0
  {
    if exists s: nat :: StartsWith(ls, s, bits) then
      var s: nat :| StartsWith(ls, s, bits);
      Ok(s, bits[ls[s]..])
    else if |bits| < MAX_BITS then Err(ERR_INPUT)
    else Err(ERR_DATA)
  }

  /** Decoding undoes encoding, whatever bits follow, and consumes exactly the code. */
  lemma {:induction false} DecodeCode(ls: seq<nat>, s: nat, rest: seq<bool>)
    requires Sound(ls) && s < |ls| && ls[s] > 0
    ensures DecodeSymbol(ls, Code(ls, s) + rest) == Ok(s, rest)
  {
    var bits := Code(ls, s) + rest;
    assert StartsWith(ls, s, bits);
    var t := DecodeSymbol(ls, bits).value;
    assert StartsWith(ls, t, bits);
    PrefixFree(ls, s, t, bits);
  }
}
