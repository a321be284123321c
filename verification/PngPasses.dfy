/** The passes of a PNG image, kernel/png.c and section 8.2 of ISO/IEC 15948: which
    pixels each pass carries, how large the stream is, and the walk over all passes. */
module PngPasses {
  import opened Bits
  import opened DivFacts
  import opened PngFilter
  import opened PngRows

  /** Origin and step of a pass. */
  datatype Pass = Pass(x0: nat, y0: nat, dx: nat, dy: nat)

  const ADAM7 := [
    Pass(0, 0, 8, 8), Pass(4, 0, 8, 8), Pass(0, 4, 4, 8), Pass(2, 0, 4, 4),
    Pass(0, 2, 2, 4), Pass(1, 0, 2, 2), Pass(0, 1, 1, 2)]

  function PassList(interlaced: bool): (ps: seq<Pass>)
    ensures forall i :: 0 <= i < |ps| ==> StepOk(ps[i].x0, ps[i].dx) && StepOk(ps[i].y0, ps[i].dy)
  {
    if interlaced then ADAM7 else [Pass(0, 0, 1, 1)]
  }

  predicate StepOk(o: nat, d: nat) {
    o < d && (d == 1 || d == 2 || d == 4 || d == 8)
  }

  /** How many of the positions `o, o + d, ...` are below `n`. */
  function Along(n: nat, o: nat, d: nat): nat
    requires n > 0 && StepOk(o, d)
  {
    (n + d - 1 - o) / d
  }

  lemma {:induction false} AlongRange(n: nat, o: nat, d: nat, k: nat)
    requires n > 0 && StepOk(o, d)
    ensures k < Along(n, o, d) <==> o + k * d < n
    ensures Along(n, o, d) <= n
  {
    match d
    case 1 => case 2 => case 4 => case 8 =>
  }

  /** A place in a pass: pass, column and row. */
  datatype Place = Place(pass: nat, px: nat, py: nat)

  /** The pass that carries a pixel, by its residues. */
  function Owner(interlaced: bool, x: nat, y: nat): (p: nat)
    ensures p < |PassList(interlaced)|
  {
    if !interlaced then 0
    else if y % 2 == 1 then 6
    else if x % 2 == 1 then 5
    else if y % 4 == 2 then 4
    else if x % 4 == 2 then 3
    else if y % 8 == 4 then 2
    else if x % 8 == 4 then 1
    else 0
  }

  function PlaceOf(interlaced: bool, x: nat, y: nat): Place {
    var p := PassList(interlaced)[Owner(interlaced, x, y)];
    Place(Owner(interlaced, x, y), if x < p.x0 then 0 else (x - p.x0) / p.dx, if y < p.y0 then 0 else (y - p.y0) / p.dy)
  }

  function ColumnOf(interlaced: bool, at: Place): nat
    requires at.pass < |PassList(interlaced)|
  {
    PassList(interlaced)[at.pass].x0 + at.px * PassList(interlaced)[at.pass].dx
  }

  function RowOf(interlaced: bool, at: Place): nat
    requires at.pass < |PassList(interlaced)|
  {
    PassList(interlaced)[at.pass].y0 + at.py * PassList(interlaced)[at.pass].dy
  }

  lemma {:induction false} AxisBack(o: nat, d: nat, k: nat)
    requires StepOk(o, d)
    ensures (o + k * d) % d == o && (o + k * d - o) / d == k
  {
    TimesMul(k, d);
    DivTimes(k, d, o);
    DivTimes(k, d, 0);
  }

  lemma {:induction false} AxisForth(o: nat, d: nat, x: nat)
    requires StepOk(o, d) && x % d == o
    ensures x >= o && o + (x - o) / d * d == x
  {
    var k, r := Divide(x, d);
    TimesMul(k, d);
    DivTimes(k, d, 0);
  }

  /** A pass owns exactly the pixels with its residues. */
  lemma {:induction false} OwnerIs(p: nat, x: nat, y: nat)
    requires p < 7
    ensures Owner(true, x, y) == p <==> x % ADAM7[p].dx == ADAM7[p].x0 && y % ADAM7[p].dy == ADAM7[p].y0
  {
    match p
    case 0 => case 1 => case 2 => case 3 => case 4 => case 5 => case 6 =>
  }

  /** Eight, halved so many times. */
  function Halved(times: nat): (d: nat)
    requires times < 4
    ensures d > 0 && d * Pow2(times) == 8
  {
    match times
    case 0 => 8
    case _ => Halved(times - 1) / 2
  }

  /** The first passes together carry a grid, whose steps halve from pass to pass,
      the horizontal one first. */
  lemma {:induction false} PassesGrid(p: nat, x: nat, y: nat)
    requires p < 7
    ensures Owner(true, x, y) <= p <==> x % Halved((p + 1) / 2) == 0 && y % Halved(p / 2) == 0
  {
    assert Halved(0) == 8 && Halved(1) == 4 && Halved(2) == 2 && Halved(3) == 1;
    hide Halved;
    Residues(x);
    Residues(y);
  }

  lemma {:induction false} Residues(v: nat)
    ensures v % 1 == 0 && (v % 2 == 1 <==> v % 2 != 0)
    ensures v % 4 == 0 <==> v % 2 == 0 && v % 4 != 2
    ensures v % 8 == 0 <==> v % 4 == 0 && v % 8 != 4
  {
  }

  /** Every pixel has its place. */
  lemma {:induction false} PixelPlaced(interlaced: bool, x: nat, y: nat)
    ensures PlaceOf(interlaced, x, y).pass < |PassList(interlaced)|
    ensures ColumnOf(interlaced, PlaceOf(interlaced, x, y)) == x
    ensures RowOf(interlaced, PlaceOf(interlaced, x, y)) == y
  {
    if interlaced { OwnerIs(Owner(true, x, y), x, y); }
    hide Owner;
    var p := PassList(interlaced)[Owner(interlaced, x, y)];
    AxisForth(p.x0, p.dx, x);
    AxisForth(p.y0, p.dy, y);
  }

  /** No pixel has two: the places of all passes are the pixels, each once. */
  lemma {:induction false} PlaceUnique(interlaced: bool, at: Place)
    requires at.pass < |PassList(interlaced)|
    ensures PlaceOf(interlaced, ColumnOf(interlaced, at), RowOf(interlaced, at)) == at
  {
    hide Owner;
    var p := PassList(interlaced)[at.pass];
    AxisBack(p.x0, p.dx, at.px);
    AxisBack(p.y0, p.dy, at.py);
    if interlaced { OwnerIs(at.pass, ColumnOf(interlaced, at), RowOf(interlaced, at)); }
  }

  /** The places that exist in an image of `w` by `h`. */
  ghost predicate InImage(interlaced: bool, w: nat, h: nat, at: Place)
    requires w > 0 && h > 0
  {
    var ps := PassList(interlaced);
    at.pass < |ps| && at.px < Along(w, ps[at.pass].x0, ps[at.pass].dx) &&
      at.py < Along(h, ps[at.pass].y0, ps[at.pass].dy)
  }

  /** The places of an image are exactly the places of its pixels. */
  lemma {:induction false} Partition(interlaced: bool, w: nat, h: nat, at: Place)
    requires w > 0 && h > 0 && at.pass < |PassList(interlaced)|
    ensures InImage(interlaced, w, h, at) <==> ColumnOf(interlaced, at) < w && RowOf(interlaced, at) < h
  {
    var p := PassList(interlaced)[at.pass];
    AlongRange(w, p.x0, p.dx, at.px);
    AlongRange(h, p.y0, p.dy, at.py);
  }

  /** Scanlines of pixels for every pass, as many and as long as the pass calls for. */
  ghost predicate Shaped<T>(passes: seq<seq<seq<T>>>, w: nat, h: nat, interlaced: bool)
    requires w > 0 && h > 0
  {
    var ps := PassList(interlaced);
    && |passes| == |ps|
    && (forall p :: 0 <= p < |ps| ==> |passes[p]| == Along(h, ps[p].y0, ps[p].dy))
    && (forall p, r :: 0 <= p < |ps| && 0 <= r < |passes[p]| ==> |passes[p][r]| == Along(w, ps[p].x0, ps[p].dx))
  }

  ghost function PixelAt<T>(passes: seq<seq<seq<T>>>, w: nat, h: nat, interlaced: bool, x: nat, y: nat): T
    requires x < w && y < h && Shaped(passes, w, h, interlaced)
  {
    PixelPlaced(interlaced, x, y);
    Partition(interlaced, w, h, PlaceOf(interlaced, x, y));
    var at := PlaceOf(interlaced, x, y);
    passes[at.pass][at.py][at.px]
  }

  /** The walk has passed this place when it stands at column `c` of row `r` of pass `p`. */
  predicate Before(at: Place, p: nat, r: nat, c: nat) {
    at.pass < p || (at.pass == p && (at.py < r || (at.py == r && at.px < c)))
  }

  ghost predicate Scattered<T>(image: array2<T>, passes: seq<seq<seq<T>>>, w: nat, h: nat, interlaced: bool, p: nat,
      r: nat, c: nat)
    requires w > 0 && h > 0 && Shaped(passes, w, h, interlaced) && image.Length0 == h && image.Length1 == w
    reads image
  {
    forall x: nat, y: nat :: x < w && y < h && Before(PlaceOf(interlaced, x, y), p, r, c) ==>
      image[y, x] == PixelAt(passes, w, h, interlaced, x, y)
  }

  /** Storing one pixel: the one whose place is next, and no other. */
  method PutPixel<T>(image: array2<T>, ghost passes: seq<seq<seq<T>>>, w: nat, h: nat, interlaced: bool, p: nat,
      r: nat, c: nat, v: T)
    requires w > 0 && h > 0 && Shaped(passes, w, h, interlaced) && image.Length0 == h && image.Length1 == w
    requires InImage(interlaced, w, h, Place(p, c, r)) && v == passes[p][r][c]
    requires Scattered(image, passes, w, h, interlaced, p, r, c)
    modifies image
    ensures Scattered(image, passes, w, h, interlaced, p, r, c + 1)
  {
    hide PlaceOf, ColumnOf, RowOf, Along, Shaped;
    ghost var at := Place(p, c, r);
    Partition(interlaced, w, h, at);
    PlaceUnique(interlaced, at);
    var pass := PassList(interlaced)[p];
    var x, y := pass.x0 + c * pass.dx, pass.y0 + r * pass.dy;
    PlaceIs(interlaced, at, x, y);
    forall x': nat, y': nat | x' < w && y' < h && PlaceOf(interlaced, x', y') == at ensures x' == x && y' == y {
      PixelPlaced(interlaced, x', y');
    }
    if x >= w || y >= h {
      return;
    }
    image[y, x] := v;
  }

  lemma {:induction false} PlaceIs(interlaced: bool, at: Place, x: nat, y: nat)
    requires at.pass < |PassList(interlaced)|
    ensures x == PassList(interlaced)[at.pass].x0 + at.px * PassList(interlaced)[at.pass].dx <==>
      x == ColumnOf(interlaced, at)
    ensures y == PassList(interlaced)[at.pass].y0 + at.py * PassList(interlaced)[at.pass].dy <==>
      y == RowOf(interlaced, at)
  {
  }

  lemma {:induction false} RowDone<T>(image: array2<T>, passes: seq<seq<seq<T>>>, w: nat, h: nat, interlaced: bool,
      p: nat, r: nat)
    requires w > 0 && h > 0 && Shaped(passes, w, h, interlaced) && image.Length0 == h && image.Length1 == w
    requires p < |passes| && r < |passes[p]| && Scattered(image, passes, w, h, interlaced, p, r, |passes[p][r]|)
    ensures Scattered(image, passes, w, h, interlaced, p, r + 1, 0)
  {
    hide PlaceOf, ColumnOf, RowOf, Along;
    forall x: nat, y: nat | x < w && y < h && Before(PlaceOf(interlaced, x, y), p, r + 1, 0)
      ensures image[y, x] == PixelAt(passes, w, h, interlaced, x, y)
    {
      PixelPlaced(interlaced, x, y);
      Partition(interlaced, w, h, PlaceOf(interlaced, x, y));
    }
  }

  lemma {:induction false} PassDone<T>(image: array2<T>, passes: seq<seq<seq<T>>>, w: nat, h: nat, interlaced: bool,
      p: nat)
    requires w > 0 && h > 0 && Shaped(passes, w, h, interlaced) && image.Length0 == h && image.Length1 == w
    requires p < |passes| && Scattered(image, passes, w, h, interlaced, p, |passes[p]|, 0)
    ensures Scattered(image, passes, w, h, interlaced, p + 1, 0, 0)
  {
    hide PlaceOf, ColumnOf, RowOf, Along;
    forall x: nat, y: nat | x < w && y < h && Before(PlaceOf(interlaced, x, y), p + 1, 0, 0)
      ensures image[y, x] == PixelAt(passes, w, h, interlaced, x, y)
    {
      PixelPlaced(interlaced, x, y);
      Partition(interlaced, w, h, PlaceOf(interlaced, x, y));
    }
  }

  /** The pass loop: every pixel of the image is written, and gets the sample that its
      pass, row and column call for. */
  method Scatter<T>(passes: seq<seq<seq<T>>>, w: nat, h: nat, interlaced: bool, blank: T) returns (image: array2<T>)
    requires w > 0 && h > 0 && Shaped(passes, w, h, interlaced)
    ensures fresh(image) && image.Length0 == h && image.Length1 == w
    ensures forall x: nat, y: nat :: x < w && y < h ==> image[y, x] == PixelAt(passes, w, h, interlaced, x, y)
  {
    hide PlaceOf, PixelAt, Scattered;
    image := new T[h, w]((i, j) => blank);
    Nothing(image, passes, w, h, interlaced);
    for p := 0 to |passes|
      invariant Scattered(image, passes, w, h, interlaced, p, 0, 0)
    {
      for r := 0 to |passes[p]|
        invariant Scattered(image, passes, w, h, interlaced, p, r, 0)
      {
        for c := 0 to |passes[p][r]|
          invariant Scattered(image, passes, w, h, interlaced, p, r, c)
        {
          PutPixel(image, passes, w, h, interlaced, p, r, c, passes[p][r][c]);
        }
        RowDone(image, passes, w, h, interlaced, p, r);
      }
      PassDone(image, passes, w, h, interlaced, p);
    }
    Everything(image, passes, w, h, interlaced);
  }

  lemma {:induction false} Nothing<T>(image: array2<T>, passes: seq<seq<seq<T>>>, w: nat, h: nat, interlaced: bool)
    requires w > 0 && h > 0 && Shaped(passes, w, h, interlaced) && image.Length0 == h && image.Length1 == w
    ensures Scattered(image, passes, w, h, interlaced, 0, 0, 0)
  {
  }

  lemma {:induction false} Everything<T>(image: array2<T>, passes: seq<seq<seq<T>>>, w: nat, h: nat, interlaced: bool)
    requires w > 0 && h > 0 && Shaped(passes, w, h, interlaced) && image.Length0 == h && image.Length1 == w
    requires Scattered(image, passes, w, h, interlaced, |passes|, 0, 0)
    ensures forall x: nat, y: nat :: x < w && y < h ==> image[y, x] == PixelAt(passes, w, h, interlaced, x, y)
  {
    hide PixelAt, Along;
    forall x: nat, y: nat | x < w && y < h ensures image[y, x] == PixelAt(passes, w, h, interlaced, x, y) {
      PixelPlaced(interlaced, x, y);
    }
  }

  // How large the stream is.

  /** Bytes of a scanline of `px` pixels. */
  function LineBytes(px: nat, bits: nat): nat {
    (px * bits + 7) / 8
  }

  /** A scanline has the fewest bytes that hold its bits. */
  lemma {:induction false} LineBytesEnough(px: nat, bits: nat)
    ensures px * bits <= 8 * LineBytes(px, bits) < px * bits + 8
  {
  }

  /** How many scanlines of how many bytes a pass has; none when it is empty. */
  datatype Shape = Shape(count: nat, len: nat)

  function ShapeOf(p: Pass, w: nat, h: nat, bits: nat): Shape
    requires w > 0 && h > 0 && StepOk(p.x0, p.dx) && StepOk(p.y0, p.dy)
  {
    var pw, ph := Along(w, p.x0, p.dx), Along(h, p.y0, p.dy);
    if pw == 0 || ph == 0 then Shape(0, 0) else Shape(ph, LineBytes(pw, bits))
  }

  function Shapes(ps: seq<Pass>, w: nat, h: nat, bits: nat): (s: seq<Shape>)
    requires w > 0 && h > 0 && forall i :: 0 <= i < |ps| ==> StepOk(ps[i].x0, ps[i].dx) && StepOk(ps[i].y0, ps[i].dy)
    ensures |s| == |ps| && forall i :: 0 <= i < |s| ==> s[i] == ShapeOf(ps[i], w, h, bits)
  {
    seq(|ps|, i requires 0 <= i < |ps| => ShapeOf(ps[i], w, h, bits))
  }

  /** The length of the filtered stream. */
  function StreamBytes(shapes: seq<Shape>): nat {
    if shapes == [] then 0 else Times(shapes[0].count, 1 + shapes[0].len) + StreamBytes(shapes[1..])
  }

  function SumWidths(ps: seq<Pass>, w: nat): nat
    requires w > 0 && forall i :: 0 <= i < |ps| ==> StepOk(ps[i].x0, ps[i].dx)
  {
    if ps == [] then 0 else Along(w, ps[0].x0, ps[0].dx) + SumWidths(ps[1..], w)
  }

  function SumHeights(ps: seq<Pass>, h: nat): nat
    requires h > 0 && forall i :: 0 <= i < |ps| ==> StepOk(ps[i].y0, ps[i].dy)
  {
    if ps == [] then 0 else Along(h, ps[0].y0, ps[0].dy) + SumHeights(ps[1..], h)
  }

  /** The buffer size `png_decode` computes. */
  function Need(interlaced: bool, w: nat, h: nat, bits: nat): nat
    requires w > 0 && h > 0
  {
    SumHeights(PassList(interlaced), h) * (LineBytes(SumWidths(PassList(interlaced), w), bits) + 1) + 64
  }

  lemma {:induction false} LineBytesGrow(a: nat, b: nat, bits: nat)
    requires a <= b
    ensures LineBytes(a, bits) <= LineBytes(b, bits)
  {
    assert b * bits - a * bits == (b - a) * bits;
  }

  lemma {:induction false} TimesGrow(n: nat, d: nat, e: nat)
    requires d <= e
    ensures Times(n, d) <= Times(n, e)
  {
    if n > 0 { TimesGrow(n - 1, d, e); }
  }

  lemma {:induction false} TimesAdd(m: nat, n: nat, d: nat)
    ensures Times(m + n, d) == Times(m, d) + Times(n, d)
  {
    if n > 0 { TimesAdd(m, n - 1, d); }
  }

  lemma {:induction false} StreamBound(ps: seq<Pass>, w: nat, h: nat, bits: nat, line: nat)
    requires w > 0 && h > 0 && forall i :: 0 <= i < |ps| ==> StepOk(ps[i].x0, ps[i].dx) && StepOk(ps[i].y0, ps[i].dy)
    requires LineBytes(SumWidths(ps, w), bits) <= line
    ensures StreamBytes(Shapes(ps, w, h, bits)) <= Times(SumHeights(ps, h), 1 + line)
  {
    hide Along, LineBytes;
    if ps != [] {
      var pw, ph := Along(w, ps[0].x0, ps[0].dx), Along(h, ps[0].y0, ps[0].dy);
      LineBytesGrow(SumWidths(ps[1..], w), SumWidths(ps, w), bits);
      LineBytesGrow(pw, SumWidths(ps, w), bits);
      StreamBound(ps[1..], w, h, bits, line);
      assert Shapes(ps, w, h, bits)[1..] == Shapes(ps[1..], w, h, bits);
      TimesGrow(ph, 1 + LineBytes(pw, bits), 1 + line);
      TimesAdd(ph, SumHeights(ps[1..], h), 1 + line);
    }
  }

  /** The buffer holds the whole stream, with the 64 bytes to spare. */
  lemma {:induction false} NeedEnough(interlaced: bool, w: nat, h: nat, bits: nat)
    requires w > 0 && h > 0
    ensures StreamBytes(Shapes(PassList(interlaced), w, h, bits)) + 64 <= Need(interlaced, w, h, bits)
  {
    var line := LineBytes(SumWidths(PassList(interlaced), w), bits);
    StreamBound(PassList(interlaced), w, h, bits, line);
    TimesMul(SumHeights(PassList(interlaced), h), 1 + line);
  }

  // The walk over all passes.

  type Rows = seq<seq<byte>>

  /** The scanlines of passes of the given shapes, or the first error. */
  function PassesOf(raw: seq<byte>, shapes: seq<Shape>, bpp: nat): (r: Result<seq<Rows>>)
    requires 0 < bpp
    ensures r.Ok? ==> |r.value| == |shapes|
    decreases |shapes|
  {
    if shapes == [] then Ok([])
    else
      match RowsOf(raw, shapes[0].count, shapes[0].len, Zeros(shapes[0].len), bpp)
      case Truncated => Truncated
      case Corrupt => Corrupt
      case Ok(p) => Cons(p.rows, PassesOf(p.rest, shapes[1..], bpp))
  }

  function Cons(rows: Rows, r: Result<seq<Rows>>): (c: Result<seq<Rows>>)
    ensures c.Ok? <==> r.Ok?
    ensures c.Ok? ==> c.value == [rows] + r.value
  {
    match r
    case Ok(ps) => Ok([rows] + ps)
    case e => e
  }

  function Behind(rows: seq<Rows>, r: Result<seq<Rows>>): Result<seq<Rows>> {
    match r
    case Ok(ps) => Ok(rows + ps)
    case e => e
  }

  ghost predicate Fit(passes: seq<Rows>, shapes: seq<Shape>) {
    |passes| == |shapes| && forall i :: 0 <= i < |shapes| ==>
      |passes[i]| == shapes[i].count && Lines(passes[i], shapes[i].len)
  }

  /** The stream of an encoder: each pass starts afresh under a row of zeros. */
  ghost function StoredPasses(filters: seq<seq<byte>>, passes: seq<Rows>, shapes: seq<Shape>, bpp: nat): seq<byte>
    requires 0 < bpp && Fit(passes, shapes) && |filters| == |passes|
    requires forall i :: 0 <= i < |passes| ==> |filters[i]| == |passes[i]|
  {
    if passes == [] then []
    else
      Stored(filters[0], passes[0], shapes[0].len, Zeros(shapes[0].len), bpp)
      + StoredPasses(filters[1..], passes[1..], shapes[1..], bpp)
  }

  /** All passes come back, whatever filters were chosen, and whatever follows them. */
  lemma {:induction false} PassesStored(filters: seq<seq<byte>>, passes: seq<Rows>, shapes: seq<Shape>, bpp: nat,
      rest: seq<byte>)
    requires 0 < bpp && Fit(passes, shapes) && |filters| == |passes|
    requires forall i :: 0 <= i < |passes| ==> |filters[i]| == |passes[i]|
    requires forall i, j :: 0 <= i < |filters| && 0 <= j < |filters[i]| ==> filters[i][j] <= 4
    ensures PassesOf(StoredPasses(filters, passes, shapes, bpp) + rest, shapes, bpp) == Ok(passes)
  {
    hide Stored, RowsOf;
    if passes != [] {
      var first := Stored(filters[0], passes[0], shapes[0].len, Zeros(shapes[0].len), bpp);
      var next := StoredPasses(filters[1..], passes[1..], shapes[1..], bpp);
      assert StoredPasses(filters, passes, shapes, bpp) + rest == first + (next + rest);
      RowsStored(filters[0], passes[0], shapes[0].len, Zeros(shapes[0].len), bpp, next + rest);
      PassesStored(filters[1..], passes[1..], shapes[1..], bpp, rest);
      assert [passes[0]] + passes[1..] == passes;
    }
  }

  /** A stream that is long enough is never found truncated. */
  lemma {:induction false} RowsEnough(raw: seq<byte>, count: nat, len: nat, above: seq<byte>, bpp: nat)
    requires 0 < bpp && |above| == len && |raw| >= Times(count, 1 + len)
    ensures var r := RowsOf(raw, count, len, above, bpp);
            r != Truncated && (r.Ok? ==> |r.value.rest| == |raw| - Times(count, 1 + len))
  {
    hide Restored;
    if count > 0 && raw[0] <= 4 {
      RowsEnough(raw[1 + len..], count - 1, len, Restored(raw[0], raw[1..1 + len], above, bpp), bpp);
    }
  }

  lemma {:induction false} PassesEnough(raw: seq<byte>, shapes: seq<Shape>, bpp: nat)
    requires 0 < bpp && |raw| >= StreamBytes(shapes)
    ensures PassesOf(raw, shapes, bpp) != Truncated
    decreases |shapes|
  {
    hide RowsOf, Zeros;
    if shapes != [] {
      RowsEnough(raw, shapes[0].count, shapes[0].len, Zeros(shapes[0].len), bpp);
      var r := RowsOf(raw, shapes[0].count, shapes[0].len, Zeros(shapes[0].len), bpp);
      if r.Ok? { PassesEnough(r.value.rest, shapes[1..], bpp); }
    }
  }

  /** The pass loop of `png_decode`, up to the scanlines; empty passes are skipped. */
  method DecodePasses(raw: seq<byte>, w: nat, h: nat, bits: nat, interlaced: bool) returns (result: Result<seq<Rows>>)
    requires w > 0 && h > 0 && bits > 0
    ensures result == PassesOf(raw, Shapes(PassList(interlaced), w, h, bits), (bits + 7) / 8)
  {
    hide RowsOf, Along, LineBytes, Zeros;
    var bpp := (bits + 7) / 8;
    var ps := PassList(interlaced);
    ghost var shapes := Shapes(ps, w, h, bits);
    var rest := raw;
    var rows: seq<Rows> := [];
    assert shapes[0..] == shapes;
    BehindNone(PassesOf(raw, shapes, bpp));
    for p := 0 to |ps|
      invariant PassesOf(raw, shapes, bpp) == Behind(rows, PassesOf(rest, shapes[p..], bpp))
    {
      var pw, ph := Along(w, ps[p].x0, ps[p].dx), Along(h, ps[p].y0, ps[p].dy);
      assert shapes[p..][1..] == shapes[p + 1..];
      if pw == 0 || ph == 0 {
        NoRows(rest, 0, Zeros(0), bpp);
        BehindNext(rows, [], PassesOf(rest, shapes[p + 1..], bpp));
        rows := rows + [[]];
      } else {
        var r := PassRows(rest, 0, ph, LineBytes(pw, bits), bpp);
        assert rest[0..] == rest;
        match r {
          case Truncated => return Truncated;
          case Corrupt => return Corrupt;
          case Ok(parsed) =>
            BehindNext(rows, parsed.rows, PassesOf(parsed.rest, shapes[p + 1..], bpp));
            rows, rest := rows + [parsed.rows], parsed.rest;
        }
      }
    }
    assert rows + [] == rows;
    result := Ok(rows);
  }

  lemma {:induction false} BehindNone(r: Result<seq<Rows>>)
    ensures Behind([], r) == r
  {
    if r.Ok? { assert [] + r.value == r.value; }
  }

  lemma {:induction false} BehindNext(rows: seq<Rows>, next: Rows, r: Result<seq<Rows>>)
    ensures Behind(rows, Cons(next, r)) == Behind(rows + [next], r)
  {
    if r.Ok? { assert rows + ([next] + r.value) == rows + [next] + r.value; }
  }
}
