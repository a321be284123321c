/** The tables of DEFLATE, said another way than by listing them: where the length of
    each code length code travels, and the code words of the fixed codes. */
module DeflateTables {
  import opened Bits
  import opened CanonicalHuffman
  import opened DeflateFormat

  /** Section 3.2.7: the repeat codes come first, then zero, and then the lengths from
      the middle outwards, so that those seldom used can be left off. */
  function PlaceOf(p: nat): nat
    requires p < NUM_CLEN
  {
    if p >= 16 then p - 16 else if p == 0 then 3 else if p >= 8 then 2 * (p - 6) else 19 - 2 * p
  }

  lemma {:induction false} OrderPlace(n: nat)
    requires n < NUM_CLEN
    ensures CLEN_ORDER[n] < NUM_CLEN && PlaceOf(CLEN_ORDER[n]) == n
    ensures PlaceOf(n) < NUM_CLEN && CLEN_ORDER[PlaceOf(n)] == n
  {
  }

  /** The length of code `p` is the one sent at its place, or zero if that was left off. */
  lemma {:induction false} ClenPlaces(sent: seq<nat>, p: nat)
    requires |sent| <= NUM_CLEN && p < NUM_CLEN
    ensures ClenVector(sent)[p] == if PlaceOf(p) < |sent| then sent[PlaceOf(p)] else 0
  {
    hide ClenVector, PlaceOf;
    if sent != [] {
      ClenPlaces(sent[..|sent| - 1], p);
      ClenStep(sent, p);
    } else {
      ClenNone(p);
    }
  }

  lemma {:induction false} ClenNone(p: nat)
    requires p < NUM_CLEN
    ensures ClenVector([])[p] == 0
  {
  }

  lemma {:induction false} ClenStep(sent: seq<nat>, p: nat)
    requires 0 < |sent| <= NUM_CLEN && p < NUM_CLEN
    ensures ClenVector(sent)[p] ==
      if PlaceOf(p) == |sent| - 1 then sent[|sent| - 1] else ClenVector(sent[..|sent| - 1])[p]
  {
    OrderPlace(|sent| - 1);
    OrderPlace(p);
  }

  /** The lengths 1, 2, ..., n. */
  function Staircase(n: nat): (ls: seq<nat>)
    ensures |ls| == n && forall i :: 0 <= i < n ==> ls[i] == i + 1
  {
    if n == 0 then [] else Staircase(n - 1) + [n]
  }

  lemma {:induction false} StaircaseSum(n: nat)
    requires n <= 15
    ensures LengthsOk(Staircase(n)) && KraftSum(Staircase(n)) + Pow2(15 - n) == Pow2(15)
  {
    hide Pow2;
    if n > 0 {
      StaircaseSum(n - 1);
      var ls := Staircase(n);
      assert ls[..n - 1] == Staircase(n - 1);
      Doubled(15 - n);
    } else {
      assert KraftSum(Staircase(0)) == 0;
    }
  }

  lemma {:induction false} Doubled(k: nat)
    ensures Pow2(k + 1) == 2 * Pow2(k)
  {
  }

  /** Code words have up to fifteen bits, and two of that length complete the code whose
      other lengths are all different. */
  lemma {:induction false} DeepestCode(extra: nat)
    ensures Valid(Staircase(15) + [extra]) <==> extra == 15 || extra == 0
  {
    var ls := Staircase(15) + [extra];
    StaircaseSum(15);
    hide KraftSum, Pow2, Staircase;
    if extra <= 15 {
      KraftLast(Staircase(15), extra);
      assert Pow2(0) == 1 by { PowZero(); }
      if extra < 15 { Doubled(14 - extra); }
    } else {
      assert ls[15] == extra;
    }
  }

  lemma {:induction false} PowZero()
    ensures Pow2(0) == 1
  {
  }

  lemma {:induction false} KraftLast(ls: seq<nat>, l: nat)
    requires LengthsOk(ls) && |ls| < MAX_SYMBOLS && l <= 15
    ensures LengthsOk(ls + [l])
    ensures KraftSum(ls + [l]) == KraftSum(ls) + if l == 0 then 0 else Pow2(15 - l)
  {
    assert (ls + [l])[..|ls|] == ls;
  }

  /** Counting along a run of equal lengths. */
  lemma {:induction false} CountRun(ls: seq<nat>, a: nat, b: nat, v: nat, l: nat)
    requires a <= b <= |ls| && forall i :: a <= i < b ==> ls[i] == v
    ensures Count(ls[..b], l) == Count(ls[..a], l) + if v == l then b - a else 0
  {
    if a < b {
      CountRun(ls, a, b - 1, v, l);
      assert ls[..b][..b - 1] == ls[..b - 1];
    }
  }

  /** How many of the first `s` fixed literal codes have length `l`. */
  lemma {:induction false} FixedCounts(s: nat, l: nat)
    requires s <= 288
    ensures Count(FixedLit()[..s], l) ==
      (if l == 8 then (if s < 144 then s else 144) else 0)
      + (if l == 9 then (if s < 144 then 0 else if s < 256 then s - 144 else 112) else 0)
      + (if l == 7 then (if s < 256 then 0 else if s < 280 then s - 256 else 24) else 0)
      + (if l == 8 then (if s < 280 then 0 else s - 280) else 0)
  {
    hide Count;
    var ls := FixedLit();
    NoneCounted(l);
    CountRun(ls, 0, if s < 144 then s else 144, 8, l);
    if s > 144 { CountRun(ls, 144, if s < 256 then s else 256, 9, l); }
    if s > 256 { CountRun(ls, 256, if s < 280 then s else 280, 7, l); }
    if s > 280 { CountRun(ls, 280, s, 8, l); }
    assert ls[..0] == [];
  }

  lemma {:induction false} NoneCounted(l: nat)
    ensures Count([], l) == 0
  {
  }

  lemma {:induction false} FixedFirst()
    ensures FirstCode(FixedLit(), 7) == 0 && FirstCode(FixedLit(), 8) == 0x30 && FirstCode(FixedLit(), 9) == 0x190
  {
    var ls := FixedLit();
    assert ls[..288] == ls;
    FixedCounts(288, 1);
    FixedCounts(288, 2);
    FixedCounts(288, 3);
    FixedCounts(288, 4);
    FixedCounts(288, 5);
    FixedCounts(288, 6);
    FixedCounts(288, 7);
    FixedCounts(288, 8);
    hide Count;
    assert FirstCode(ls, 4) == 0;
    assert FirstCode(ls, 7) == 0;
  }

  /** The code words of section 3.2.6. */
  lemma {:induction false} FixedCodes(s: nat)
    requires s < 288
    ensures Code(FixedLit(), s) ==
      if s < 144 then MsbBits(0x30 + s, 8)
      else if s < 256 then MsbBits(0x190 + (s - 144), 9)
      else if s < 280 then MsbBits(s - 256, 7)
      else MsbBits(0xC0 + (s - 280), 8)
  {
    hide Count, FirstCode, MsbBits;
    FixedFirst();
    FixedCounts(s, FixedLit()[s]);
  }

  lemma {:induction false} FixedDistances(s: nat)
    requires s < 30
    ensures Code(FixedDist(), s) == MsbBits(s, 5)
  {
    var ds := FixedDist();
    CountRun(ds, 0, s, 5, 5);
    assert ds[..0] == [];
    NoneCounted(5);
    assert ds[..30] == ds;
    CountRun(ds, 0, 30, 5, 1);
    CountRun(ds, 0, 30, 5, 2);
    CountRun(ds, 0, 30, 5, 3);
    CountRun(ds, 0, 30, 5, 4);
    hide MsbBits;
    assert Count(ds, 1) == 0 && Count(ds, 2) == 0 && Count(ds, 3) == 0 && Count(ds, 4) == 0;
    hide Count;
    assert FirstCode(ds, 3) == 0;
    assert FirstCode(ds, 5) == 0;
  }
}
