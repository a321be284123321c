/** What the table and the sums of the inverse cosine transform are, without the table. */
module IdctTable {
  import opened Basics
  import opened Bits
  import opened Idct

  function Cosine(x: nat, u: nat): int
    requires x < 8 && u < 8
  {
    COS[x][u]
  }

  /** The cosines of the multiples of one angle: the sum of the neighbours of the cosine
      of the `u`-fold angle is twice its product with the cosine of the angle itself. */
  lemma {:induction false} Recurrence(x: nat, u: nat)
    requires x < 8 && 1 <= u <= 6
    ensures -7008 <= 2 * Cosine(x, 1) * Cosine(x, u) - 4096 * (Cosine(x, u - 1) + Cosine(x, u + 1)) <= 7008
  {
    match x
    case 0 => case 1 => case 2 => case 3 => case 4 => case 5 => case 6 => case 7 =>
  }

  /** The cosine of the eightfold angle vanishes: the angles are odd multiples of
      a sixteenth of the half turn. */
  lemma {:induction false} EighthVanishes(x: nat)
    requires x < 8
    ensures -4848 <= 2 * Cosine(x, 1) * Cosine(x, 7) - 4096 * Cosine(x, 6) <= 4848
  {
    match x
    case 0 => case 1 => case 2 => case 3 => case 4 => case 5 => case 6 => case 7 =>
  }

  /** The angles grow with the position; the multiple by zero has cosine one. */
  lemma {:induction false} AnglesGrow(x: nat)
    requires x < 8
    ensures Cosine(x, 0) == 4096
    ensures forall z: nat :: z < x ==> Cosine(z, 1) > Cosine(x, 1)
  {
    match x
    case 0 => case 1 => case 2 => case 3 => case 4 => case 5 => case 6 => case 7 =>
  }

  /** The first `n` terms of the two-dimensional transform: coefficient `k` has the
      horizontal frequency `k % 8` and the vertical frequency `k / 8`. */
  function Terms(b: Block, x: nat, y: nat, n: nat): int
    requires x < 8 && y < 8 && n <= 64
  {
    if n == 0 then 0 else Terms(b, x, y, n - 1) + b[n - 1] * Weight(x, (n - 1) % 8) * Weight(y, (n - 1) / 8)
  }

  lemma {:induction false} RowTerms(b: Block, x: nat, y: nat, v: nat, n: nat)
    requires x < 8 && y < 8 && v < 8 && n <= 8
    ensures Terms(b, x, y, 8 * v + n) == Terms(b, x, y, 8 * v) + Dot(RowAt(b, v), x, n) * Weight(y, v)
  {
    hide Weight;
    if n > 0 {
      RowTerms(b, x, y, v, n - 1);
      var k := 8 * v + n - 1;
      assert k / 8 == v && k % 8 == n - 1;
      assert Dot(RowAt(b, v), x, n) == Dot(RowAt(b, v), x, n - 1) + b[k] * Weight(x, n - 1);
      Distribute(Dot(RowAt(b, v), x, n - 1), b[k] * Weight(x, n - 1), Weight(y, v));
    } else {
      assert Dot(RowAt(b, v), x, 0) == 0;
    }
  }

  lemma {:induction false} Distribute(a: int, b: int, w: int)
    ensures (a + b) * w == a * w + b * w
  {
  }

  /** The two passes one behind the other are the transform of all 64 coefficients. */
  lemma {:induction false} PassesAreTerms(b: Block, x: nat, y: nat, n: nat)
    requires x < 8 && y < 8 && n <= 8
    ensures Dot(RowSums(b, x), y, n) == Terms(b, x, y, 8 * n)
  {
    hide Weight;
    if n > 0 {
      PassesAreTerms(b, x, y, n - 1);
      RowTerms(b, x, y, n - 1, 8);
    }
  }

  /** Clamping gives the nearest byte. */
  lemma {:induction false} ClampNearest(v: int, other: byte)
    ensures 0 <= v <= 255 ==> Clamp(v) == v
    ensures Abs(v - Clamp(v)) <= Abs(v - other)
  {
  }

  /** The transform in one go is rounded to the nearest number before it is clamped. */
  lemma {:induction false} OneShotNearest(b: Block, x: nat, y: nat) returns (q: int)
    requires x < 8 && y < 8
    ensures OneShot(b, x, y) == Clamp(q + 128)
    ensures 2 * Abs(Terms(b, x, y, 64) - 0x4_0000_0000_0000 * q) <= 0x4_0000_0000_0000
  {
    hide Dot, Terms, Clamp;
    PassesAreTerms(b, x, y, 8);
    q := (Terms(b, x, y, 64) + TWO50 / 2) / TWO50;
  }

  /** A block of one shade: every sample is an eighth of the only coefficient above the
      middle shade, give or take one. */
  lemma {:induction false} OneShade(b: Block, x: nat, y: nat)
    requires x < 8 && y < 8 && -0x4000 <= b[0] <= 0x4000 && forall k :: 1 <= k < 64 ==> b[k] == 0
    ensures -1 <= Sample(b, x, y) as int - Clamp((b[0] + 4) / 8 + 128) as int <= 1
  {
    var t := Shifted(RowSums(b, x));
    ShadeColumn(b, x);
    FirstCosine(x);
    FirstCosine(y);
    DcSum(t, y, 8);
    assert Weight(y, 0) == C0 * 4096;
    assert Dot(t, y, 8) == b[0] * C0 * (C0 * 4096);
  }

  lemma {:induction false} ShadeColumn(b: Block, x: nat)
    requires x < 8 && forall k :: 1 <= k < 64 ==> b[k] == 0
    ensures Shifted(RowSums(b, x))[0] == b[0] * C0
    ensures forall v :: 1 <= v < 8 ==> Shifted(RowSums(b, x))[v] == 0
  {
    hide Dot;
    DcOnly(RowAt(b, 0), x);
    forall v | 1 <= v < 8 ensures Shifted(RowSums(b, x))[v] == 0 {
      DcOnly(RowAt(b, v), x);
    }
  }
}
