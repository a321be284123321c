/** Blocks of 2^o pages that start at a multiple of 2^o, and their buddies. */
module Dyadic {
  import opened Bits

  /** `h` is a multiple of 2^o. */
  predicate Aligned(h: nat, o: nat) {
    o == 0 || (h % 2 == 0 && Aligned(h / 2, o - 1))
  }

  /** `h ^ (1 << o)`: the other half of the enclosing block twice the size. */
  function Buddy(h: nat, o: nat): nat {
    if o == 0 then (if h % 2 == 0 then h + 1 else h - 1)
    else h % 2 + 2 * Buddy(h / 2, o - 1)
  }

  predicate InBlock(p: int, h: int, o: nat) {
    h <= p < h + Pow2(o)
  }

  /** Masking with 2^o - 1 tests alignment. */
  lemma {:induction false} AlignedLow(h: nat, o: nat)
    ensures Aligned(h, o) <==> Low(h, o) == 0
  {
    if o > 0 { AlignedLow(h / 2, o - 1); }
  }

  lemma {:induction false} AlignedLess(h: nat, o: nat, j: nat)
    requires j <= o && Aligned(h, o)
    ensures Aligned(h, j)
  {
    if j > 0 { AlignedLess(h / 2, o - 1, j - 1); }
  }

  /** Both halves of a block are blocks, and each other's buddies. */
  lemma {:induction false} Halves(h: nat, o: nat)
    requires Aligned(h, o + 1)
    ensures Aligned(h, o) && Aligned(h + Pow2(o), o)
    ensures Buddy(h, o) == h + Pow2(o) && Buddy(h + Pow2(o), o) == h
  {
    if o > 0 {
      Halves(h / 2, o - 1);
      assert (h + Pow2(o)) / 2 == h / 2 + Pow2(o - 1);
    }
  }

  /** A block and its buddy are the two halves of one block. */
  lemma {:induction false} BuddyHalves(h: nat, o: nat)
    requires Aligned(h, o)
    ensures var b := Buddy(h, o);
      && Aligned(b, o) && Buddy(b, o) == h
      && if h < b then b == h + Pow2(o) && Aligned(h, o + 1) else h == b + Pow2(o) && Aligned(b, o + 1)
  {
    if o > 0 { BuddyHalves(h / 2, o - 1); }
  }

  /** Blocks that meet are nested: the smaller one lies inside the larger. */
  lemma {:induction false} Nested(p: nat, m: nat, a: nat, h: nat, j: nat)
    requires a <= j && Aligned(m, a) && Aligned(h, j) && InBlock(p, m, a) && InBlock(p, h, j)
    ensures h <= m && m + Pow2(a) <= h + Pow2(j)
  {
    if a > 0 { Nested(p / 2, m / 2, a - 1, h / 2, j - 1); }
  }

  /** A block whose inside holds a larger multiple starts there. */
  lemma {:induction false} StartsAt(b: nat, h: nat, j: nat)
    requires Aligned(b, j) && Aligned(h, j) && InBlock(b, h, j)
    ensures h == b
  {
    if j > 0 { StartsAt(b / 2, h / 2, j - 1); }
  }
}
