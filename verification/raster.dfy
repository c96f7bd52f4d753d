/** Pixels, the black/white threshold rule, sampled points and the stride-4
    grid that the point sampler walks. */
module Raster {

  /** One colour channel on the 0..255 scale. */
  type Channel = c: int | 0 <= c <= 255

  /** The colour of one raster sample. */
  datatype Rgb = Rgb(red: Channel, green: Channel, blue: Channel)

  /** A cell of the classified grid. `Unset` is a cell the classifier has not
      written yet (a null entry of the colour array). */
  datatype Colour = Unset | Black | White

  /** A channel at or below this value makes a pixel black. */
  const Threshold: int := 110

  /** The sampler looks at every 4th column of every 4th row. */
  const Stride: int := 4

  /** The threshold rule: a pixel is dark when at least one channel is at or
      below the threshold. */
  predicate IsDark(c: Rgb) {
    c.red <= Threshold || c.green <= Threshold || c.blue <= Threshold
  }

  /** A sampled point, in pixel coordinates. */
  datatype Point = Point(x: int, y: int)

  /** The order in which the sampler visits cells: row by row, then column by
      column. */
  predicate LexLess(p: Point, q: Point) {
    p.y < q.y || (p.y == q.y && p.x < q.x)
  }

  predicate StrictlyIncreasing(ps: seq<Point>) {
    forall a, b :: 0 <= a < b < |ps| ==> LexLess(ps[a], ps[b])
  }

  /** How many of the coordinates 0..len-1 are multiples of the stride. */
  function StrideCount(len: nat): (c: nat)
    ensures c * Stride >= len && (c == 0 || (c - 1) * Stride < len)
  {
    (len + Stride - 1) / Stride
  }

  /** The position, in visiting order, of the grid cell at (x, y) on an
      image `width` pixels wide: the number of random draws made before it. */
  function CellIndex(width: nat, x: nat, y: nat): int {
    (y / Stride) * StrideCount(width) + x / Stride
  }

  /** Every grid cell inside the image has its own draw among the first
      rows * columns ones. */
  lemma {:induction false} CellIndexInRange(width: nat, height: nat, x: nat, y: nat)
    requires x < width && y < height
    ensures 0 <= CellIndex(width, x, y) < StrideCount(width) * StrideCount(height)
  {
    var cols, rows := StrideCount(width), StrideCount(height);
    var r, c := y / Stride, x / Stride;
    GridCoordinateBelowCount(width, x);
    GridCoordinateBelowCount(height, y);
    ScaleBelow(r, rows, cols);
    assert CellIndex(width, x, y) == r * cols + c;
  }

  /** Draws are made in visiting order: a grid cell visited before another
      has the smaller draw index. */
  lemma {:induction false} CellIndexOrdered(width: nat, x1: nat, y1: nat, x2: nat, y2: nat)
    requires x1 < width && x2 < width
    requires x1 % Stride == 0 && y1 % Stride == 0 && x2 % Stride == 0 && y2 % Stride == 0
    requires LexLess(Point(x1, y1), Point(x2, y2))
    ensures CellIndex(width, x1, y1) < CellIndex(width, x2, y2)
  {
    var cols := StrideCount(width);
    GridCoordinateBelowCount(width, x1);
    GridCoordinateBelowCount(width, x2);
    if y1 < y2 {
      ScaleBelow(y1 / Stride, y2 / Stride, cols);
    }
  }

  /** Distinct grid cells get distinct draws, so every cell has a draw of
      its own. */
  lemma {:induction false} CellIndexInjective(width: nat, x1: nat, y1: nat, x2: nat, y2: nat)
    requires x1 < width && x2 < width
    requires x1 % Stride == 0 && y1 % Stride == 0 && x2 % Stride == 0 && y2 % Stride == 0
    ensures CellIndex(width, x1, y1) == CellIndex(width, x2, y2) <==> x1 == x2 && y1 == y2
  {
    if LexLess(Point(x1, y1), Point(x2, y2)) {
      CellIndexOrdered(width, x1, y1, x2, y2);
    } else if LexLess(Point(x2, y2), Point(x1, y1)) {
      CellIndexOrdered(width, x2, y2, x1, y1);
    }
  }

  /** A coordinate inside a dimension falls in one of its grid cells. */
  lemma {:induction false} GridCoordinateBelowCount(len: nat, v: nat)
    requires v < len
    ensures v / Stride < StrideCount(len)
  {
  }

  /** Scaling a row number below the row count stays below the cell count,
      with room for one more row. */
  lemma {:induction false} ScaleBelow(r: nat, rows: nat, cols: nat)
    requires r < rows
    ensures 0 <= r * cols && r * cols + cols <= rows * cols
  {
    var d: nat := rows - r - 1;
    assert rows * cols == r * cols + cols + d * cols;
  }

  /** Two strictly increasing sequences of points with the same elements are
      the same sequence: the sampler's output is fixed by which cells it
      accepts. */
  lemma {:induction false} IncreasingDeterminedByElements(p: seq<Point>, q: seq<Point>)
    requires StrictlyIncreasing(p) && StrictlyIncreasing(q)
    requires forall e :: e in p <==> e in q
    ensures p == q
    decreases |p|
  {
    assert |q| > 0 ==> q[0] in p;
    assert |p| > 0 ==> p[0] in q;
    if p != [] && q != [] {
      var i :| 0 <= i < |q| && q[i] == p[0];
      var j :| 0 <= j < |p| && p[j] == q[0];
      assert i == 0 || j == 0;
      assert p[0] == q[0];
      forall e ensures e in p[1..] <==> e in q[1..] {
        if e in p[1..] {
          var a :| 1 <= a < |p| && p[a] == e;
          assert LexLess(p[0], e);
          assert e in q;
          var b :| 0 <= b < |q| && q[b] == e;
          assert b != 0;
          assert q[1..][b - 1] == e;
        }
        if e in q[1..] {
          var b :| 1 <= b < |q| && q[b] == e;
          assert LexLess(q[0], e);
          assert e in p;
          var a :| 0 <= a < |p| && p[a] == e;
          assert a != 0;
          assert p[1..][a - 1] == e;
        }
      }
      IncreasingDeterminedByElements(p[1..], q[1..]);
      assert p == [p[0]] + p[1..] && q == [q[0]] + q[1..];
    }
  }

  /** The only grid coordinate in [c, c + Stride) is c itself. */
  lemma {:induction false} OnlyGridCoordinate(c: int, d: int)
    requires c % Stride == 0 && d % Stride == 0 && c <= d < c + Stride
    ensures d == c
  {
  }

  /** The c-th grid coordinate is a multiple of the stride. */
  lemma {:induction false} GridMultiple(c: int)
    ensures (c * Stride) % Stride == 0
  {
  }
}
