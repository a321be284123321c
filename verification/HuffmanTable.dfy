/** The count/symbol decoding table of kernel/inflate.c and how it is filled. */
module HuffmanTable {
  import opened Bits
  import opened CanonicalHuffman

  /** Where the symbols of length `l` start in the table. */
  function Start(ls: seq<nat>, l: nat): nat {
    if l <= 1 then 0 else Start(ls, l - 1) + Count(ls, l - 1)
  }

  /** The table position of symbol `s`: by length first, then by symbol. */
  function Slot(ls: seq<nat>, s: nat): nat
    requires s < |ls|
  {
    Start(ls, ls[s]) + Count(ls[..s], ls[s])
  }

  lemma {:induction false} StartAppend(ls: seq<nat>, m: nat, l: nat)
    ensures Start(ls + [m], l) == Start(ls, l) + if 1 <= m < l then 1 else 0
  {
    if l > 1 {
      StartAppend(ls, m, l - 1);
      assert (ls + [m])[..|ls|] == ls;
    }
  }

  lemma {:induction false} StartEmpty(l: nat)
    ensures Start([], l) == 0
  {
    if l > 1 { StartEmpty(l - 1); }
  }

  /** The used symbols fit in as many slots as there are symbols. */
  lemma {:induction false} StartBound(ls: seq<nat>, l: nat)
    ensures Start(ls, l) <= |ls|
  {
    if ls == [] {
      StartEmpty(l);
    } else {
      var n := |ls| - 1;
      StartBound(ls[..n], l);
      StartAppend(ls[..n], ls[n], l);
      assert ls[..n] + [ls[n]] == ls;
    }
  }

  lemma {:induction false} StartMonotone(ls: seq<nat>, l: nat, m: nat)
    requires l <= m
    ensures Start(ls, l) <= Start(ls, m)
  {
    if l < m { StartMonotone(ls, l, m - 1); }
  }

  lemma {:induction false} SlotBound(ls: seq<nat>, s: nat)
    requires LengthsOk(ls) && s < |ls| && ls[s] > 0
    ensures Start(ls, ls[s]) <= Slot(ls, s) < Start(ls, ls[s] + 1) <= |ls|
  {
    CountRank(ls, s);
    StartBound(ls, ls[s] + 1);
  }

  /** No two used symbols share a slot. */
  lemma {:induction false} SlotInjective(ls: seq<nat>, s: nat, t: nat)
    requires LengthsOk(ls) && s < |ls| && t < |ls| && ls[s] > 0 && ls[t] > 0 && s != t
    ensures Slot(ls, s) != Slot(ls, t)
  {
    SlotBound(ls, s);
    SlotBound(ls, t);
    if ls[s] < ls[t] {
      StartMonotone(ls, ls[s] + 1, ls[t]);
    } else if ls[t] < ls[s] {
      StartMonotone(ls, ls[t] + 1, ls[s]);
    } else if s < t {
      CountBefore(ls, s, t);
    } else {
      CountBefore(ls, t, s);
    }
  }

  lemma {:induction false} AllUnused(ls: seq<nat>)
    requires LengthsOk(ls) && Count(ls, 0) == |ls|
    ensures KraftSum(ls) == 0 && forall i :: 0 <= i < |ls| ==> ls[i] == 0
    ensures forall l :: 1 <= l <= MAX_BITS ==> Count(ls, l) == 0
  {
    if ls != [] {
      var n := |ls| - 1;
      AllUnused(ls[..n]);
    }
  }

  /** What is still free at depth `l` after the codes up to that length. */
  lemma {:induction false} UsedLeft(ls: seq<nat>, l: nat)
    requires LengthsOk(ls) && l <= MAX_BITS && Used(ls, l) > Pow2(l)
    ensures !Valid(ls)
  {
    ValidIsSound(ls);
  }

  class HuffTable {
    const counts: array<nat>
    const symbols: array<nat>
    ghost var lengths: seq<nat>

    /** The table stands for the canonical code of `lengths`. */
    ghost predicate Valid()
      reads this, counts, symbols
    {
      && Shape()
      && CanonicalHuffman.Valid(lengths)
      && (forall l :: 1 <= l <= MAX_BITS ==> counts[l] == Count(lengths, l))
      && Filled(lengths, |lengths|)
    }

    predicate Shape() {
      counts.Length == MAX_BITS + 1 && symbols.Length == MAX_SYMBOLS && counts != symbols
    }

    constructor ()
      ensures Shape() && fresh(this) && fresh(counts) && fresh(symbols)
    {
      counts := new nat[MAX_BITS + 1];
      symbols := new nat[MAX_SYMBOLS];
    }

    /** Builds the table; refuses exactly the over-subscribed length vectors. */
    method Build(ls: seq<nat>) returns (r: int)
      requires Shape() && LengthsOk(ls)
      modifies this, counts, symbols
      ensures r == 0 || r == ERR_DATA
      ensures r == 0 <==> KraftSum(ls) <= Pow2(MAX_BITS)
      ensures r == 0 ==> Valid() && lengths == ls
    {
      var n := |ls|;
      CountLengths(ls);
      if counts[0] == n {
        AllUnused(ls);
        lengths := ls;
        return 0;
      }
      var fits := CheckKraft(ls);
      if !fits { return ERR_DATA; }
      lengths := ls;
      FillSymbols(ls);
      return 0;
    }

    method CountLengths(ls: seq<nat>)
      requires Shape() && LengthsOk(ls)
      modifies counts
      ensures forall l :: 0 <= l <= MAX_BITS ==> counts[l] == Count(ls, l)
    {
      for l := 0 to MAX_BITS + 1
        invariant forall k :: 0 <= k < l ==> counts[k] == 0
      {
        counts[l] := 0;
      }
      for symbol := 0 to |ls|
        invariant forall l :: 0 <= l <= MAX_BITS ==> counts[l] == Count(ls[..symbol], l)
      {
        CountSteps(ls, symbol);
        counts[ls[symbol]] := counts[ls[symbol]] + 1;
      }
      assert ls[..|ls|] == ls;
    }

    /** The running count of free codes goes negative exactly when the Kraft sum exceeds one. */
    method CheckKraft(ls: seq<nat>) returns (fits: bool)
      requires Shape() && LengthsOk(ls)
      requires forall l :: 0 <= l <= MAX_BITS ==> counts[l] == Count(ls, l)
      ensures fits <==> KraftSum(ls) <= Pow2(MAX_BITS)
    {
      var left: int := 1;
      for len := 1 to MAX_BITS + 1
        invariant left == Pow2(len - 1) - Used(ls, len - 1) && left >= 0
      {
        left := 2 * left;
        left := left - counts[len];
        if left < 0 {
          UsedLeft(ls, len);
          return false;
        }
      }
      UsedIsKraft(ls);
      return true;
    }

    /** The first `n` symbols are in their slots. */
    ghost predicate Filled(ls: seq<nat>, n: nat)
      requires Shape() && n <= |ls|
      reads symbols
    {
      forall s :: 0 <= s < n && ls[s] > 0 ==> Slot(ls, s) < symbols.Length && symbols[Slot(ls, s)] == s
    }

    method Offsets(ls: seq<nat>) returns (offs: array<nat>)
      requires Shape()
      requires forall l :: 0 <= l <= MAX_BITS ==> counts[l] == Count(ls, l)
      ensures fresh(offs) && NextSlots(offs[..], ls, 0)
    {
      offs := new nat[MAX_BITS + 1];
      offs[0], offs[1] := 0, 0;
      for len := 1 to MAX_BITS
        invariant forall l :: 1 <= l <= len ==> offs[l] == Start(ls, l)
      {
        offs[len + 1] := offs[len] + counts[len];
      }
    }

    method FillSymbols(ls: seq<nat>)
      requires Shape() && LengthsOk(ls)
      requires forall l :: 0 <= l <= MAX_BITS ==> counts[l] == Count(ls, l)
      modifies symbols
      ensures Filled(ls, |ls|)
    {
      var offs := Offsets(ls);
      for symbol := 0 to |ls|
        invariant NextSlots(offs[..], ls, symbol)
        invariant Filled(ls, symbol)
      {
        if ls[symbol] != 0 {
          PlaceSymbol(ls, symbol, offs);
        } else {
          NextSlotsStep(offs[..], ls, symbol);
        }
      }
    }

    method PlaceSymbol(ls: seq<nat>, symbol: nat, offs: array<nat>)
      requires Shape() && LengthsOk(ls) && symbol < |ls| && ls[symbol] > 0
      requires NextSlots(offs[..], ls, symbol) && Filled(ls, symbol) && offs != symbols
      modifies symbols, offs
      ensures NextSlots(offs[..], ls, symbol + 1) && Filled(ls, symbol + 1)
    {
      SlotsApart(ls, symbol);
      NextSlotsStep(offs[..], ls, symbol);
      var len := ls[symbol];
      symbols[offs[len]] := symbol;
      offs[len] := offs[len] + 1;
      assert offs[..] == old(offs[..])[len := Slot(ls, symbol) + 1];
    }
  }

  /** The offset of each length points at the slot of the next symbol of that length. */
  ghost predicate NextSlots(offs: seq<nat>, ls: seq<nat>, n: nat)
    requires n <= |ls|
  {
    |offs| == MAX_BITS + 1 && forall l :: 1 <= l <= MAX_BITS ==> offs[l] == Start(ls, l) + Count(ls[..n], l)
  }

  lemma {:induction false} NextSlotsStep(offs: seq<nat>, ls: seq<nat>, n: nat)
    requires LengthsOk(ls) && n < |ls| && NextSlots(offs, ls, n)
    ensures ls[n] == 0 ==> NextSlots(offs, ls, n + 1)
    ensures ls[n] > 0 ==> offs[ls[n]] == Slot(ls, n) && NextSlots(offs[ls[n] := Slot(ls, n) + 1], ls, n + 1)
  {
    CountSteps(ls, n);
  }

  lemma {:induction false} CountSteps(ls: seq<nat>, i: nat)
    requires i < |ls|
    ensures forall l :: Count(ls[..i + 1], l) == Count(ls[..i], l) + if ls[i] == l then 1 else 0
  {
    forall l: nat
      ensures Count(ls[..i + 1], l) == Count(ls[..i], l) + if ls[i] == l then 1 else 0
    {
      CountStep(ls, i, l);
    }
  }

  lemma {:induction false} SlotsApart(ls: seq<nat>, i: nat)
    requires LengthsOk(ls) && i < |ls| && ls[i] > 0
    ensures Slot(ls, i) < |ls|
    ensures forall s :: 0 <= s < i && ls[s] > 0 ==> Slot(ls, s) != Slot(ls, i)
  {
    SlotBound(ls, i);
    forall s | 0 <= s < i && ls[s] > 0
      ensures Slot(ls, s) != Slot(ls, i)
    {
      SlotInjective(ls, s, i);
    }
  }
}
