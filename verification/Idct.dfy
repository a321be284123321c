/** The fixed-point inverse cosine transform of kernel/jpeg.c. */
module Idct {
  import opened Basics
  import opened Bits

  const C0 := 2896
  const CN := 4096

  const COS: seq<seq<int>> := [
    [4096,  4017,  3784,  3406,  2896,  2276,  1567,   799],
    [4096,  3406,  1567,  -799, -2896, -4017, -3784, -2276],
    [4096,  2276, -1567, -4017, -2896,   799,  3784,  3406],
    [4096,   799, -3784, -2276,  2896,  3406, -1567, -4017],
    [4096,  -799, -3784,  2276,  2896, -3406, -1567,  4017],
    [4096, -2276, -1567,  4017, -2896,  -799,  3784, -3406],
    [4096, -3406,  1567,   799, -2896,  4017, -3784,  2276],
    [4096, -4017,  3784, -3406,  2896, -2276,  1567,  -799]]

  const TWO20 := 0x10_0000
  const TWO24 := 0x100_0000
  const TWO37 := 0x20_0000_0000
  const TWO38 := 0x40_0000_0000
  const TWO50 := 0x4_0000_0000_0000
  const TWO63 := 0x8000_0000_0000_0000

  /** Coefficients in row order: eight rows of eight. */
  type Block = b: seq<int> | |b| == 64 witness seq(64, _ => 0)

  function RowAt(b: Block, v: nat): (row: seq<int>)
    requires v < 8
    ensures |row| == 8
  {
    b[8 * v..8 * v + 8]
  }

  /** The weight of frequency `u` at position `x`. */
  function Weight(x: nat, u: nat): (w: int)
    requires x < 8 && u < 8
    ensures -TWO24 <= w <= TWO24
  {
    CosBound(x, u);
    (if u == 0 then C0 else CN) * COS[x][u]
  }

  lemma {:induction false} CosBound(x: nat, u: nat)
    requires x < 8 && u < 8
    ensures |COS[x]| == 8 && -4096 <= COS[x][u] <= 4096
  {
  }

  /** Reversing the positions negates every second column. */
  lemma {:induction false} Mirrored(x: nat, u: nat)
    requires x < 8 && u < 8
    ensures Weight(7 - x, u) == if u % 2 == 0 then Weight(x, u) else -Weight(x, u)
  {
    match x
    case 0 => case 1 => case 2 => case 3 => case 4 => case 5 => case 6 => case 7 =>
  }

  /** The inner product of two columns of weights, over the first `n` positions. */
  function Gram(u: nat, v: nat, n: nat): int
    requires u < 8 && v < 8 && n <= 8
  {
    if n == 0 then 0 else Gram(u, v, n - 1) + Weight(n - 1, u) * Weight(n - 1, v)
  }

  lemma {:induction false} Negate(a: int, b: int)
    ensures -a * -b == a * b && -a * b == -(a * b) && a * -b == -(a * b)
  {
  }

  lemma {:induction false} TermMirrored(x: nat, u: nat, v: nat)
    requires x < 8 && u < 8 && v < 8
    ensures Weight(7 - x, u) * Weight(7 - x, v) ==
            if u % 2 == v % 2 then Weight(x, u) * Weight(x, v) else -(Weight(x, u) * Weight(x, v))
  {
    Mirrored(x, u);
    Mirrored(x, v);
    hide Weight;
    Negate(Weight(x, u), Weight(x, v));
  }

  lemma {:induction false} GramMirrored(u: nat, v: nat, n: nat)
    requires u < 8 && v < 8 && 4 <= n <= 8
    ensures Gram(u, v, n) == Gram(u, v, 4) +
            if u % 2 == v % 2 then Gram(u, v, 4) - Gram(u, v, 8 - n) else Gram(u, v, 8 - n) - Gram(u, v, 4)
  {
    hide Weight;
    if n > 4 {
      GramMirrored(u, v, n - 1);
      TermMirrored(8 - n, u, v);
    }
  }

  lemma {:induction false} GramSwap(u: nat, v: nat, n: nat)
    requires u < 8 && v < 8 && n <= 8
    ensures Gram(u, v, n) == Gram(v, u, n)
  {
    hide Weight;
    if n > 0 { GramSwap(u, v, n - 1); }
  }

  lemma {:induction false} GramFour(u: nat, v: nat)
    requires u < 8 && v < 8
    ensures Gram(u, v, 4) == Weight(0, u) * Weight(0, v) + Weight(1, u) * Weight(1, v) + Weight(2, u) * Weight(2, v) +
      Weight(3, u) * Weight(3, v)
  {
    hide Weight;
    assert Gram(u, v, 0) == 0;
    assert Gram(u, v, 1) == Weight(0, u) * Weight(0, v);
    assert Gram(u, v, 2) == Gram(u, v, 1) + Weight(1, u) * Weight(1, v);
    assert Gram(u, v, 3) == Gram(u, v, 2) + Weight(2, u) * Weight(2, v);
  }

  lemma {:induction false} EvenHalf(u: nat, v: nat)
    requires u <= v < 8 && u % 2 == v % 2 == 0
    ensures -TWO37 < Gram(u, v, 4) - (if u == v then TWO50 / 2 else 0) < TWO37
  {
    GramFour(u, v);
    hide Gram;
    match u
    case 0 => match v { case 0 => case 2 => case 4 => case 6 => }
    case 2 => match v { case 2 => case 4 => case 6 => }
    case 4 => match v { case 4 => case 6 => }
    case 6 =>
  }

  lemma {:induction false} OddHalf(u: nat, v: nat)
    requires u <= v < 8 && u % 2 == v % 2 == 1
    ensures -TWO37 < Gram(u, v, 4) - (if u == v then TWO50 / 2 else 0) < TWO37
  {
    GramFour(u, v);
    hide Gram;
    match u
    case 1 => match v { case 1 => case 3 => case 5 => case 7 => }
    case 3 => match v { case 3 => case 5 => case 7 => }
    case 5 => match v { case 5 => case 7 => }
    case 7 =>
  }

  /** The table is the inverse of a cosine transform: its columns are orthogonal and of
      equal length, to within the twelve bits it is kept in. */
  lemma {:induction false} Orthogonal(u: nat, v: nat)
    requires u < 8 && v < 8
    ensures -TWO38 < Gram(u, v, 8) - (if u == v then TWO50 else 0) < TWO38
  {
    GramMirrored(u, v, 8);
    assert Gram(u, v, 0) == 0;
    hide Gram;
    GramSwap(u, v, 4);
    if u % 2 == v % 2 {
      var a, b := if u <= v then u else v, if u <= v then v else u;
      if u % 2 == 0 { EvenHalf(a, b); } else { OddHalf(a, b); }
    }
  }

  function Dot(a: seq<int>, x: nat, n: nat): int
    requires |a| == 8 && x < 8 && n <= 8
  {
    if n == 0 then 0 else Dot(a, x, n - 1) + a[n - 1] * Weight(x, n - 1)
  }

  predicate Within(a: seq<int>, bound: int) {
    forall i :: 0 <= i < |a| ==> -bound <= a[i] <= bound
  }

  lemma {:induction false} TermBound(a: int, w: int, bound: int)
    requires 0 <= bound && -bound <= a <= bound && -TWO24 <= w <= TWO24
    ensures -(TWO24 * bound) <= a * w <= TWO24 * bound
  {
    Scale(a, bound, w);
    Scale(-a, bound, w);
    Scale(a, bound, -w);
    Scale(-a, bound, -w);
  }

  lemma {:induction false} Scale(a: int, bound: int, w: int)
    requires 0 <= bound && a <= bound && w <= TWO24
    ensures a >= 0 && w >= 0 ==> a * w <= TWO24 * bound
  {
    if a >= 0 && w >= 0 {
      NotNegative(a, TWO24 - w);
      assert a * (TWO24 - w) == a * TWO24 - a * w;
    }
  }

  /** Every partial sum of up to eight terms. */
  lemma {:induction false} DotBound(a: seq<int>, x: nat, n: nat, bound: int)
    requires bound >= 0 && |a| == 8 && x < 8 && n <= 8 && Within(a, bound)
    ensures -(n * TWO24 * bound) <= Dot(a, x, n) <= n * TWO24 * bound
  {
    hide Weight;
    if n > 0 {
      DotBound(a, x, n - 1, bound);
      TermBound(a[n - 1], Weight(x, n - 1), bound);
    }
  }

  lemma {:induction false} DotLinear(f: seq<int>, q: seq<int>, r: seq<int>, x: nat, n: nat)
    requires |f| == |q| == |r| == 8 && x < 8 && n <= 8
    requires forall i :: 0 <= i < 8 ==> f[i] == 4096 * q[i] + r[i]
    ensures Dot(f, x, n) == 4096 * Dot(q, x, n) + Dot(r, x, n)
  {
    hide Weight;
    if n > 0 {
      DotLinear(f, q, r, x, n - 1);
      Spread(q[n - 1], r[n - 1], Weight(x, n - 1));
    }
  }

  lemma {:induction false} Spread(q: int, r: int, w: int)
    ensures (4096 * q + r) * w == 4096 * (q * w) + r * w
  {
  }

  /** The row transforms at position `x`: exact, and shifted as the code keeps them. */
  function RowSums(b: Block, x: nat): (s: seq<int>)
    requires x < 8
    ensures |s| == 8 && forall v :: 0 <= v < 8 ==> s[v] == Dot(RowAt(b, v), x, 8)
  {
    seq(8, v requires 0 <= v < 8 => Dot(RowAt(b, v), x, 8))
  }

  function Shifted(s: seq<int>): (t: seq<int>)
    ensures |t| == |s| && forall i :: 0 <= i < |t| ==> t[i] == s[i] / 4096
  {
    seq(|s|, i requires 0 <= i < |s| => s[i] / 4096)
  }

  function Clamp(v: int): byte {
    if v < 0 then 0 else if v > 255 then 255 else v
  }

  /** The sample at column `x` and row `y`, with the shift between the passes. */
  function Sample(b: Block, x: nat, y: nat): byte
    requires x < 8 && y < 8
  {
    Clamp((Dot(Shifted(RowSums(b, x)), y, 8) + TWO37) / TWO38 + 128)
  }

  /** The sample of the two-dimensional transform in one go, rounded once. */
  function OneShot(b: Block, x: nat, y: nat): byte
    requires x < 8 && y < 8
  {
    Clamp((Dot(RowSums(b, x), y, 8) + TWO50 / 2) / TWO50 + 128)
  }

  lemma {:induction false} RoundingClose(a: int, e: int)
    requires -0x80_0000_0000 < 4096 * a - e < 0x80_0000_0000
    ensures var p, q := (a + TWO37) / TWO38, (e + TWO50 / 2) / TWO50; -1 <= p - q <= 1
  {
  }

  /** Dropping the low bits between the passes moves no sample by more than one. */
  lemma {:induction false} SampleClose(b: Block, x: nat, y: nat)
    requires x < 8 && y < 8
    ensures -1 <= Sample(b, x, y) as int - OneShot(b, x, y) as int <= 1
  {
    hide Dot;
    var f, q := RowSums(b, x), Shifted(RowSums(b, x));
    var r := seq(8, i requires 0 <= i < 8 => f[i] % 4096);
    DotLinear(f, q, r, y, 8);
    DotBound(r, y, 8, 4095);
    RoundingClose(Dot(q, y, 8), Dot(f, y, 8));
  }

  /** With coefficients of up to twenty bits no 64-bit accumulator overflows, in either
      pass, at any point of the sums. */
  lemma {:induction false} NoOverflow(b: Block, x: nat, y: nat, n: nat)
    requires x < 8 && y < 8 && n <= 8 && Within(b, TWO20)
    ensures forall v :: 0 <= v < 8 ==> -TWO63 < Dot(RowAt(b, v), x, n) < TWO63
    ensures Within(Shifted(RowSums(b, x)), 0x8_0000_0000)
    ensures -TWO63 < Dot(Shifted(RowSums(b, x)), y, n) && Dot(Shifted(RowSums(b, x)), y, n) + TWO37 < TWO63
    ensures -0x8000_0000 < (Dot(Shifted(RowSums(b, x)), y, n) + TWO37) / TWO38 + 128 < 0x8000_0000
  {
    hide Dot;
    forall v | 0 <= v < 8
      ensures -TWO63 < Dot(RowAt(b, v), x, n) < TWO63
      ensures -0x8_0000_0000 <= Dot(RowAt(b, v), x, 8) / 4096 <= 0x8_0000_0000
    {
      DotBound(RowAt(b, v), x, n, TWO20);
      DotBound(RowAt(b, v), x, 8, TWO20);
    }
    DotBound(Shifted(RowSums(b, x)), y, n, 0x8_0000_0000);
  }

  /** A row with nothing but its first coefficient. */
  lemma {:induction false} DcOnly(row: seq<int>, x: nat)
    requires |row| == 8 && x < 8 && forall u :: 1 <= u < 8 ==> row[u] == 0
    ensures Dot(row, x, 8) / 4096 == row[0] * C0
  {
    DcSum(row, x, 8);
    assert Weight(x, 0) == C0 * 4096 by { FirstCosine(x); }
    assert row[0] * (C0 * 4096) == 4096 * (row[0] * C0);
  }

  lemma {:induction false} FirstCosine(x: nat)
    requires x < 8
    ensures |COS[x]| == 8 && COS[x][0] == 4096
  {
  }

  lemma {:induction false} DcSum(row: seq<int>, x: nat, n: nat)
    requires |row| == 8 && x < 8 && 1 <= n <= 8 && forall u :: 1 <= u < 8 ==> row[u] == 0
    ensures Dot(row, x, n) == row[0] * Weight(x, 0)
  {
    hide Weight;
    if n > 1 {
      DcSum(row, x, n - 1);
    } else {
      assert Dot(row, x, 0) == 0;
    }
  }

  lemma {:induction false} TermIs(a: int, x: nat, u: nat)
    requires x < 8 && u < 8
    ensures |COS[x]| == 8 && a * Weight(x, u) == a * (if u == 0 then C0 else CN) * COS[x][u]
  {
    CosBound(x, u);
    var c, k := if u == 0 then C0 else CN, COS[x][u];
    assert a * (c * k) == a * c * k;
  }

  /** The inner loop of both passes, with the first term outside it. */
  method Accumulate(a: seq<int>, x: nat) returns (acc: int)
    requires |a| == 8 && x < 8
    ensures acc == Dot(a, x, 8)
  {
    hide Weight;
    TermIs(a[0], x, 0);
    assert Dot(a, x, 0) == 0;
    acc := a[0] * C0 * COS[x][0];
    for u := 1 to 8
      invariant acc == Dot(a, x, u)
    {
      TermIs(a[u], x, u);
      acc := acc + a[u] * CN * COS[x][u];
    }
  }

  /** What the row pass leaves at position `x` of row `v`. */
  function Mid(b: Block, k: nat): int
    requires k < 64
  {
    Dot(RowAt(b, k / 8), k % 8, 8) / 4096
  }

  /** The row pass, with its short cut. */
  method RowPass(b: Block, tmp: array<int>)
    requires tmp.Length == 64
    modifies tmp
    ensures forall k :: 0 <= k < 64 ==> tmp[k] == Mid(b, k)
  {
    hide Dot;
    for v := 0 to 8
      invariant forall k :: 0 <= k < 8 * v ==> tmp[k] == Mid(b, k)
    {
      var row := RowAt(b, v);
      var flat := row[1] == row[2] == row[3] == row[4] == row[5] == row[6] == row[7] == 0;
      for x := 0 to 8
        invariant forall k :: 0 <= k < 8 * v + x ==> tmp[k] == Mid(b, k)
      {
        if flat {
          DcOnly(row, x);
          tmp[8 * v + x] := row[0] * C0;
        } else {
          var acc := Accumulate(row, x);
          tmp[8 * v + x] := acc / 4096;
        }
        assert (8 * v + x) / 8 == v && (8 * v + x) % 8 == x;
      }
    }
  }

  function Column(tmp: seq<int>, x: nat): (c: seq<int>)
    requires |tmp| == 64 && x < 8
    ensures |c| == 8 && forall v :: 0 <= v < 8 ==> c[v] == tmp[8 * v + x]
  {
    seq(8, v requires 0 <= v < 8 => tmp[8 * v + x])
  }

  lemma {:induction false} MidIs(b: Block, v: nat, x: nat)
    requires v < 8 && x < 8
    ensures Mid(b, 8 * v + x) == Dot(RowAt(b, v), x, 8) / 4096
  {
    assert (8 * v + x) / 8 == v && (8 * v + x) % 8 == x;
  }

  lemma {:induction false} ColumnIs(b: Block, tmp: seq<int>, x: nat)
    requires |tmp| == 64 && x < 8 && forall k :: 0 <= k < 64 ==> tmp[k] == Mid(b, k)
    ensures Column(tmp, x) == Shifted(RowSums(b, x))
  {
    hide Dot, Mid;
    forall v | 0 <= v < 8 ensures Column(tmp, x)[v] == Shifted(RowSums(b, x))[v] {
      MidIs(b, v, x);
    }
  }

  /** `jidct8x8`: eight by eight samples at a position of the plane, and nothing else. */
  method Jidct(b: Block, plane: array2<byte>, top: nat, left: nat)
    requires top + 8 <= plane.Length0 && left + 8 <= plane.Length1
    modifies plane
    ensures forall i, j :: 0 <= i < plane.Length0 && 0 <= j < plane.Length1 ==>
      plane[i, j] == if top <= i < top + 8 &&
        left <= j < left + 8 then Sample(b, j - left, i - top) else old(plane[i, j])
  {
    hide Dot, Clamp, Sample;
    var tmp := new int[64];
    RowPass(b, tmp);
    for x := 0 to 8
      invariant forall k :: 0 <= k < 64 ==> tmp[k] == Mid(b, k)
      invariant forall i, j :: 0 <= i < plane.Length0 && 0 <= j < plane.Length1 ==>
        plane[i, j] == if top <= i < top + 8 &&
          left <= j < left + x then Sample(b, j - left, i - top) else old(plane[i, j])
    {
      ColumnIs(b, tmp[..], x);
      var column := Column(tmp[..], x);
      for y := 0 to 8
        invariant forall k :: 0 <= k < 64 ==> tmp[k] == Mid(b, k)
        invariant forall i, j :: 0 <= i < plane.Length0 && 0 <= j < plane.Length1 ==>
          plane[i, j] == if top <= i < top + 8 && left <= j < left + x then Sample(b, j - left, i - top)
                         else if top <= i < top + y && j == left + x then Sample(b, x, i - top)
                         else old(plane[i, j])
      {
        var acc := Accumulate(column, y);
        SampleIs(b, x, y);
        plane[top + y, left + x] := Clamp((acc + TWO37) / TWO38 + 128);
      }
    }
  }

  lemma {:induction false} SampleIs(b: Block, x: nat, y: nat)
    requires x < 8 && y < 8
    ensures Sample(b, x, y) == Clamp((Dot(Shifted(RowSums(b, x)), y, 8) + TWO37) / TWO38 + 128)
  {
  }
}
