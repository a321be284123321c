/** PNG scanline filters, kernel/png.c and section 9 of ISO/IEC 15948. */
module PngFilter {
  import opened Basics
  import opened Bits

  datatype Result<T> = Ok(value: T) | Corrupt | Truncated

  function Paeth(a: byte, b: byte, c: byte): (r: byte)
    ensures r == a || r == b || r == c
    ensures var p := a + b - c; Abs(p - r) <= Abs(p - a) && Abs(p - r) <= Abs(p - b) && Abs(p - r) <= Abs(p - c)
    ensures var p := a + b - c; r != a ==> Abs(p - r) < Abs(p - a) && (r != b ==> Abs(p - r) < Abs(p - b))
  {
    var p := a + b - c;
    if Abs(p - a) <= Abs(p - b) && Abs(p - a) <= Abs(p - c) then a
    else if Abs(p - b) <= Abs(p - c) then b
    else c
  }

  function Average(a: byte, b: byte): byte {
    (a + b) / 2
  }

  /** The average is rounded down. */
  lemma {:induction false} AverageDown(a: byte, b: byte)
    ensures 2 * Average(a, b) <= a as int + b as int <= 2 * Average(a, b) + 1
  {
  }

  /** The value a filter predicts from the bytes to the left, above, and above left. */
  function Predict(filter: nat, a: byte, b: byte, c: byte): (p: byte) {
    match filter
    case 1 => a
    case 2 => b
    case 3 => Average(a, b)
    case 4 => Paeth(a, b, c)
    case _ => 0
  }

  function Add(x: byte, p: byte): byte {
    (x + p) % 256
  }

  function Sub(x: byte, p: byte): byte {
    (x - p) % 256
  }

  /** The byte one pixel to the left, zero before the first pixel. */
  function Left(row: seq<byte>, i: nat, bpp: nat): byte
    requires i <= |row| + bpp && 0 < bpp
  {
    if i >= bpp && i - bpp < |row| then row[i - bpp] else 0
  }

  /** Filtering a scanline, as an encoder does it. */
  function Filtered(filter: nat, row: seq<byte>, above: seq<byte>, bpp: nat): (f: seq<byte>)
    requires 0 < bpp && |above| == |row|
    ensures |f| == |row|
    ensures forall i :: 0 <= i < |f| ==>
      f[i] == Sub(row[i], Predict(filter, Left(row, i, bpp), above[i], Left(above, i, bpp)))
  {
    seq(|row|, i requires 0 <= i < |row| => Sub(row[i],
      Predict(filter, Left(row, i, bpp), above[i], Left(above, i, bpp))))
  }

  /** Reconstruction: each byte from those already reconstructed. */
  function Restored(filter: nat, line: seq<byte>, above: seq<byte>, bpp: nat): (row: seq<byte>)
    requires 0 < bpp && |line| <= |above|
    ensures |row| == |line|
  {
    if line == [] then []
    else
      var n := |line| - 1;
      var row := Restored(filter, line[..n], above, bpp);
      row + [Add(line[n], Predict(filter, Left(row, n, bpp), above[n], Left(above, n, bpp)))]
  }

  lemma {:induction false} AddSub(x: byte, p: byte)
    ensures Add(Sub(x, p), p) == x && Sub(Add(x, p), p) == x
  {
  }

  lemma {:induction false} RestoredPrefix(filter: nat, line: seq<byte>, above: seq<byte>, bpp: nat, n: nat)
    requires 0 < bpp && n <= |line| <= |above|
    ensures Restored(filter, line, above, bpp)[..n] == Restored(filter, line[..n], above, bpp)
  {
    if n == |line| {
      assert line[..n] == line;
    } else {
      RestoredPrefix(filter, line[..|line| - 1], above, bpp, n);
      assert line[..|line| - 1][..n] == line[..n];
    }
  }

  lemma {:induction false} RestoredAt(filter: nat, line: seq<byte>, above: seq<byte>, bpp: nat, n: nat)
    requires 0 < bpp && n < |line| <= |above|
    ensures var row := Restored(filter, line, above, bpp);
            row[n] == Add(line[n], Predict(filter, Left(row, n, bpp), above[n], Left(above, n, bpp)))
  {
    RestoredPrefix(filter, line, above, bpp, n + 1);
    assert line[..n + 1][..n] == line[..n];
    var row, part := Restored(filter, line, above, bpp), Restored(filter, line[..n + 1], above, bpp);
    assert part == row[..n + 1];
    RestoredPrefix(filter, line[..n + 1], above, bpp, n);
    assert Left(row, n, bpp) == Left(part[..n], n, bpp);
    assert part[n] == row[n];
  }

  /** Reconstruction undoes filtering. */
  lemma {:induction false} RestoreFiltered(filter: nat, row: seq<byte>, above: seq<byte>, bpp: nat)
    requires 0 < bpp && |above| == |row|
    ensures Restored(filter, Filtered(filter, row, above, bpp), above, bpp) == row
  {
    hide Predict, Add, Sub, Restored;
    var f := Filtered(filter, row, above, bpp);
    RestoredNone(f, above, bpp);
    var n := 0;
    while n < |row|
      invariant n <= |row| && Restored(filter, f[..n], above, bpp) == row[..n]
    {
      RestoredStep(filter, f, above, bpp, n);
      AddSub(row[n], Predict(filter, Left(row, n, bpp), above[n], Left(above, n, bpp)));
      assert Left(row[..n], n, bpp) == Left(row, n, bpp);
      n := n + 1;
    }
    assert f[..n] == f && row[..n] == row;
  }

  /** The sum of every `bpp`-th byte up to position `n`. */
  function SumBack(line: seq<byte>, n: nat, bpp: nat): nat
    requires 0 < bpp && n < |line|
  {
    line[n] as int + if n >= bpp then SumBack(line, n - bpp, bpp) else 0
  }

  /** The first filter stores differences along the row: its undoing is a running sum
      of each byte of the pixels. */
  lemma {:induction false} RunningSum(line: seq<byte>, above: seq<byte>, bpp: nat, n: nat)
    requires 0 < bpp && n < |line| <= |above|
    ensures Restored(1, line, above, bpp)[n] == SumBack(line, n, bpp) % 256
  {
    RestoredAt(1, line, above, bpp, n);
    hide Restored;
    if n >= bpp {
      RunningSum(line, above, bpp, n - bpp);
      var before := SumBack(line, n - bpp, bpp);
      hide SumBack;
      CarryMod(line[n], before);
    }
  }

  lemma {:induction false} CarryMod(x: byte, s: nat)
    ensures (x + s % 256) % 256 == (x + s) % 256
  {
  }

  /** The second filter stores differences down the columns. */
  lemma {:induction false} ColumnSum(line: seq<byte>, above: seq<byte>, bpp: nat, n: nat)
    requires 0 < bpp && n < |line| <= |above|
    ensures Restored(2, line, above, bpp)[n] == (line[n] as int + above[n] as int) % 256
  {
    RestoredAt(2, line, above, bpp, n);
  }

  /** And filtering undoes reconstruction: no two scanlines share a filtered form. */
  lemma {:induction false} FilterRestored(filter: nat, line: seq<byte>, above: seq<byte>, bpp: nat)
    requires 0 < bpp && |above| == |line|
    ensures Filtered(filter, Restored(filter, line, above, bpp), above, bpp) == line
  {
    hide Predict, Add, Sub;
    var row := Restored(filter, line, above, bpp);
    forall n | 0 <= n < |line| ensures Filtered(filter, row, above, bpp)[n] == line[n] {
      RestoredAt(filter, line, above, bpp, n);
      AddSub(line[n], Predict(filter, Left(row, n, bpp), above[n], Left(above, n, bpp)));
    }
  }

  function Zeros(n: nat): (z: seq<byte>)
    ensures |z| == n && forall i :: 0 <= i < n ==> z[i] == 0
  {
    seq(n, _ => 0)
  }

  /** The scanline above: all zero when there is none. */
  function Above(prev: array?<byte>, n: nat): (above: seq<byte>)
    requires prev != null ==> prev.Length == n
    reads prev
    ensures |above| == n
  {
    if prev == null then Zeros(n) else prev[..]
  }

  lemma {:induction false} RestoredStep(filter: nat, line: seq<byte>, above: seq<byte>, bpp: nat, i: nat)
    requires 0 < bpp && i < |line| <= |above|
    ensures var row := Restored(filter, line[..i], above, bpp);
            Restored(filter, line[..i + 1], above, bpp) ==
            row + [Add(line[i], Predict(filter, Left(row, i, bpp), above[i], Left(above, i, bpp)))]
  {
    assert line[..i + 1][..i] == line[..i];
  }

  /** Where nothing is predicted, bytes stand for themselves. */
  lemma {:induction false} RestoredSame(filter: nat, line: seq<byte>, above: seq<byte>, bpp: nat, n: nat)
    requires 0 < bpp && n <= |line| <= |above|
    requires filter == 0 || (filter == 1 && n <= bpp) || (filter == 2 && forall i :: 0 <= i < n ==> above[i] == 0)
    ensures Restored(filter, line[..n], above, bpp) == line[..n]
  {
    hide Predict, Add, Restored;
    RestoredNone(line, above, bpp);
    if n > 0 {
      RestoredSame(filter, line, above, bpp, n - 1);
      RestoredStep(filter, line, above, bpp, n - 1);
      AddNothing(filter, line[n - 1], Left(line[..n - 1], n - 1, bpp), above[n - 1], Left(above, n - 1, bpp));
    }
  }

  lemma {:induction false} AddNothing(filter: nat, x: byte, a: byte, b: byte, c: byte)
    requires filter == 0 || (filter == 1 && a == 0) || (filter == 2 && b == 0)
    ensures Add(x, Predict(filter, a, b, c)) == x
  {
  }

  lemma {:induction false} PredictIs(a: byte, b: byte, c: byte)
    ensures Predict(1, a, b, c) == a && Predict(2, a, b, c) == b
    ensures Predict(3, a, b, c) == Average(a, b) && Predict(4, a, b, c) == Paeth(a, b, c)
  {
  }

  lemma {:induction false} RestoredNone(line: seq<byte>, above: seq<byte>, bpp: nat)
    requires 0 < bpp && |line| <= |above|
    ensures forall filter :: Restored(filter, line[..0], above, bpp) == []
  {
  }

  /** Filter 1: from the left, beginning with the second pixel. */
  method SubLine(line: array<byte>, bpp: nat, ghost above: seq<byte>)
    requires 0 < bpp && |above| == line.Length
    modifies line
    ensures line[..] == Restored(1, old(line[..]), above, bpp)
  {
    hide Predict, Add, Restored;
    var n := line.Length;
    ghost var was := line[..];
    var i: nat := if bpp < n then bpp else n;
    RestoredSame(1, was, above, bpp, i);
    assert line[..i] == was[..i];
    while i < n
      invariant i <= n && line[..i] == Restored(1, was[..i], above, bpp)
      invariant forall j :: i <= j < n ==> line[j] == was[j]
    {
      ghost var row := line[..i];
      RestoredStep(1, was, above, bpp, i);
      PredictIs(row[i - bpp], above[i], Left(above, i, bpp));
      line[i] := Add(line[i], line[i - bpp]);
      assert line[..i + 1] == row + [line[i]];
      i := i + 1;
    }
    assert was[..n] == was && line[..n] == line[..];
  }

  /** Filter 2: from above. */
  method UpLine(line: array<byte>, prev: array<byte>, bpp: nat, ghost above: seq<byte>)
    requires 0 < bpp && |above| == line.Length
    requires prev != line && prev.Length == line.Length && above == prev[..]
    modifies line
    ensures line[..] == Restored(2, old(line[..]), above, bpp)
  {
    hide Predict, Add, Restored;
    var n := line.Length;
    ghost var was := line[..];
    var i := 0;
    RestoredNone(was, above, bpp);
    while i < n
      invariant i <= n && line[..i] == Restored(2, was[..i], above, bpp)
      invariant forall j :: i <= j < n ==> line[j] == was[j]
    {
      ghost var row := line[..i];
      RestoredStep(2, was, above, bpp, i);
      PredictIs(Left(row, i, bpp), above[i], Left(above, i, bpp));
      line[i] := Add(line[i], prev[i]);
      assert line[..i + 1] == row + [line[i]];
      i := i + 1;
    }
    assert was[..n] == was && line[..n] == line[..];
  }

  /** Filter 3: the average of the left and the one above. */
  method AverageLine(line: array<byte>, prev: array?<byte>, bpp: nat, ghost above: seq<byte>)
    requires 0 < bpp && |above| == line.Length
    requires prev != line && (prev != null ==> prev.Length == line.Length) && above == Above(prev, line.Length)
    modifies line
    ensures line[..] == Restored(3, old(line[..]), above, bpp)
  {
    hide Predict, Add, Restored;
    var n := line.Length;
    ghost var was := line[..];
    var i := 0;
    RestoredNone(was, above, bpp);
    while i < n
      invariant i <= n && line[..i] == Restored(3, was[..i], above, bpp)
      invariant forall j :: i <= j < n ==> line[j] == was[j]
    {
      ghost var row := line[..i];
      RestoredStep(3, was, above, bpp, i);
      var a := if i >= bpp then line[i - bpp] else 0;
      var b := if prev != null then prev[i] else 0;
      PredictIs(a, b, Left(above, i, bpp));
      line[i] := Add(line[i], Average(a, b));
      assert line[..i + 1] == row + [line[i]];
      i := i + 1;
    }
    assert was[..n] == was && line[..n] == line[..];
  }

  /** Filter 4: whichever of left, above and above left is nearest. */
  method PaethLine(line: array<byte>, prev: array?<byte>, bpp: nat, ghost above: seq<byte>)
    requires 0 < bpp && |above| == line.Length
    requires prev != line && (prev != null ==> prev.Length == line.Length) && above == Above(prev, line.Length)
    modifies line
    ensures line[..] == Restored(4, old(line[..]), above, bpp)
  {
    hide Predict, Add, Restored;
    var n := line.Length;
    ghost var was := line[..];
    var i := 0;
    RestoredNone(was, above, bpp);
    while i < n
      invariant i <= n && line[..i] == Restored(4, was[..i], above, bpp)
      invariant forall j :: i <= j < n ==> line[j] == was[j]
    {
      ghost var row := line[..i];
      RestoredStep(4, was, above, bpp, i);
      var a := if i >= bpp then line[i - bpp] else 0;
      var b := if prev != null then prev[i] else 0;
      var c := if prev != null && i >= bpp then prev[i - bpp] else 0;
      PredictIs(a, b, c);
      line[i] := Add(line[i], Paeth(a, b, c));
      assert line[..i + 1] == row + [line[i]];
      i := i + 1;
    }
    assert was[..n] == was && line[..n] == line[..];
  }

  /** `png_unfilter`: restores a scanline in place. */
  method Unfilter(filter: nat, line: array<byte>, prev: array?<byte>, bpp: nat) returns (ok: bool)
    requires 0 < bpp && prev != line && (prev != null ==> prev.Length == line.Length)
    modifies line
    ensures ok <==> filter <= 4
    ensures ok ==> line[..] == Restored(filter, old(line[..]), Above(prev, line.Length), bpp)
    ensures !ok ==> line[..] == old(line[..])
  {
    ghost var was, above := line[..], Above(prev, line.Length);
    assert was[..line.Length] == was;
    match filter {
      case 0 => RestoredSame(0, was, above, bpp, line.Length);
      case 1 => SubLine(line, bpp, above);
      case 2 =>
        if prev != null {
          UpLine(line, prev, bpp, above);
        } else {
          RestoredSame(2, was, above, bpp, line.Length);
        }
      case 3 => AverageLine(line, prev, bpp, above);
      case 4 => PaethLine(line, prev, bpp, above);
      case _ => return false;
    }
    return true;
  }
}
