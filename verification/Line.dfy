/** Line drawing, kernel/fbdev.c: which pixels are plotted, in which order. */
module Line {
  import opened Basics

  datatype Point = Point(x: int, y: int)

  function Max(a: int, b: int): int {
    if a >= b then a else b
  }

  /** Twice the distance of a pixel from the ideal line along the minor axis, times the
      length of the major axis: `i` and `j` are offsets from the first end point. */
  function Deviation(dx: int, dy: int, i: int, j: int): int {
    2 * (dx * j - dy * i)
  }

  /** Offsets that lie in the bounding box and within half a pixel of the line. */
  predicate Near(dx: nat, dy: nat, i: int, j: int) {
    0 <= i <= dx && 0 <= j <= dy && Abs(Deviation(dx, dy, i, j)) <= Max(dx, dy)
  }

  lemma {:induction false} Difference(d: int, a: int, b: int)
    ensures d * b - d * a == d * (b - a)
    ensures d * b - d * a - d == d * (b - a - 1)
  {
  }

  lemma {:induction false} Product(d: int, a: int, b: int)
    requires a <= b && d >= 0
    ensures d * a <= d * b
    ensures a < b ==> d * a + d <= d * b
  {
    Difference(d, a, b);
    NotNegative(d, b - a);
    if a < b { NotNegative(d, b - a - 1); }
  }

  /** Half a pixel from the line and not past the end on the major axis is not past
      the end on the minor axis. */
  lemma {:induction false} InBox(d: int, e: int, i: int, j: int, v: int)
    requires 0 < d && 0 <= e && i <= d && v == d * j - e * i && 2 * v <= d
    ensures j <= e
    ensures i == d && 2 * v >= -d ==> j == e
  {
    Product(e, i, d);
    assert d * e == e * d;
    if j >= e {
      Product(d, e, j);
    } else {
      Product(d, j, e);
    }
  }

  /** On a diagonal the deviation is a multiple of the length. */
  lemma {:induction false} Diagonal(d: nat, i: int, j: int, v: int)
    requires d > 0 && v == d * j - d * i
    ensures 2 * v + d != 0
  {
    assert v == d * (j - i);
    if j - i >= 0 {
      Product(d, 0, j - i);
    } else {
      Product(d, j - i, -1);
    }
  }

  lemma {:induction false} Steps(d: int, e: int, i: int, j: int)
    ensures d * (j + 1) - e * i == d * j - e * i + d
    ensures d * j - e * (i + 1) == d * j - e * i - e
    ensures d * (j + 1) - e * (i + 1) == d * j - e * i + d - e
  {
  }

  /** What one round of the loop does to the offsets and the error term. */
  lemma {:induction false} Round(dx: nat, dy: nat, i: int, j: int, v: int, right: bool, down: bool)
    requires Near(dx, dy, i, j) && v == dx * j - dy * i && (i, j) != (dx, dy)
    requires right <==> 2 * (v + dx - dy) + dy > 0
    requires down <==> 2 * (v + dx - dy) < dx
    ensures (if dx >= dy then right else down)
    ensures var i', j' := if right then i + 1 else i, if down then j + 1 else j;
            Near(dx, dy, i', j') && dx * j' - dy * i' == v + (if down then dx else 0) - (if right then dy else 0)
  {
    Steps(dx, dy, i, j);
    if dx >= dy {
      NotDone(dx, dy, i, j, v);
      if dx == dy { Diagonal(dx, i, j, v); }
      InBox(dx, dy, i + 1, if down then j + 1 else j, v - dy + if down then dx else 0);
    } else {
      NotDone(dy, dx, j, i, -v);
      InBox(dy, dx, j + 1, if right then i + 1 else i, -v - dx + if right then dy else 0);
    }
  }

  /** Only the far end point has the largest offset on the major axis. */
  lemma {:induction false} NotDone(d: int, e: int, i: int, j: int, v: int)
    requires d >= e >= 0 && 0 <= i <= d && 0 <= j <= e && (i, j) != (d, e) && v == d * j - e * i && Abs(2 * v) <= d
    ensures i < d
  {
    if i == d {
      if d > 0 { InBox(d, e, i, j, v); }
    }
  }

  predicate Between(a: int, b: int, v: int) {
    a <= v <= b || b <= v <= a
  }

  /** The `k`-th point: in the bounding box, within half a pixel of the line, and `k`
      steps along the longer side. */
  predicate PointOk(from: Point, to: Point, k: nat, p: Point) {
    var dx, dy, i, j := Abs(to.x - from.x), Abs(to.y - from.y), Abs(p.x - from.x), Abs(p.y - from.y);
    && Between(from.x, to.x, p.x) && Between(from.y, to.y, p.y)
    && Near(dx, dy, i, j) && k == if dx >= dy then i else j
  }

  /** The pixel at offsets `i` and `j` towards the second end point. */
  function Pixel(from: Point, to: Point, i: int, j: int): Point {
    Point(if from.x < to.x then from.x + i else from.x - i, if from.y < to.y then from.y + j else from.y - j)
  }

  lemma {:induction false} PixelOk(from: Point, to: Point, i: int, j: int)
    requires Near(Abs(to.x - from.x), Abs(to.y - from.y), i, j)
    ensures 0 <= i <= Abs(to.x - from.x) && 0 <= j <= Abs(to.y - from.y)
    ensures PointOk(from, to, if Abs(to.x - from.x) >= Abs(to.y - from.y) then i else j, Pixel(from, to, i, j))
    ensures Pixel(from, to, i, j) == to <==> (i, j) == (Abs(to.x - from.x), Abs(to.y - from.y))
  {
  }

  /** `fb_draw_line`: as many points as the longer side needs, from the first end point
      to the second, one step at a time and never more than half a pixel off. */
  method DrawLine(from: Point, to: Point) returns (points: seq<Point>)
    ensures |points| == Max(Abs(to.x - from.x), Abs(to.y - from.y)) + 1
    ensures points[0] == from && points[|points| - 1] == to
    ensures forall k :: 0 <= k < |points| ==> PointOk(from, to, k, points[k])
  {
    hide Near, PointOk, Pixel;
    var x, y := from.x, from.y;
    var dx := if to.x > x then to.x - x else x - to.x;
    var dy := if to.y > y then to.y - y else y - to.y;
    var sx := if x < to.x then 1 else -1;
    var sy := if y < to.y then 1 else -1;
    var err := dx - dy;
    points := [];
    ghost var i, j, v := 0, 0, 0;
    Start(dx, dy);
    PixelAt(from, to, 0, 0);
    while true
      invariant Near(dx, dy, i, j) && v == dx * j - dy * i && err == v + dx - dy
      invariant Point(x, y) == Pixel(from, to, i, j)
      invariant |points| == if dx >= dy then i else j
      invariant |points| == 0 ==> x == from.x && y == from.y
      invariant |points| > 0 ==> points[0] == from
      invariant forall k :: 0 <= k < |points| ==> PointOk(from, to, k, points[k])
      decreases Max(dx, dy) - |points|
    {
      PixelOk(from, to, i, j);
      points := points + [Point(x, y)];
      if x == to.x && y == to.y {
        break;
      }
      var e2 := 2 * err;
      ghost var right, down := e2 > -dy, e2 < dx;
      Round(dx, dy, i, j, v, right, down);
      PixelAt(from, to, i, j);
      v := v + (if down then dx else 0) - (if right then dy else 0);
      if e2 > -dy {
        err, x, i := err - dy, x + sx, i + 1;
      }
      if e2 < dx {
        err, y, j := err + dx, y + sy, j + 1;
      }
      PixelOk(from, to, i, j);
    }
  }

  lemma {:induction false} Start(dx: nat, dy: nat)
    ensures Near(dx, dy, 0, 0) && dx * 0 - dy * 0 == 0
  {
  }

  /** One step on either axis moves the pixel by one towards the end. */
  lemma {:induction false} PixelAt(from: Point, to: Point, i: int, j: int)
    ensures Pixel(from, to, 0, 0) == from
    ensures var p, sx, sy := Pixel(from, to, i, j), if from.x < to.x then 1 else -1, if from.y < to.y then 1 else -1;
            && Pixel(from, to, i + 1, j) == Point(p.x + sx, p.y)
            && Pixel(from, to, i, j + 1) == Point(p.x, p.y + sy)
            && Pixel(from, to, i + 1, j + 1) == Point(p.x + sx, p.y + sy)
  {
  }
}
