/** The Euclidean adjacency matrix over the sampled points. The distance
    function (Math.hypot) is a parameter: the matrix is described for any
    function of the coordinate differences. */
module Distances {
  import opened Raster
  import opened Matrices

  /** The value the builder leaves in cell (a, b). Both (a, b) and (b, a) are
      written twice, once while the outer loop is at the lower index and once
      while it is at the higher one; the later write wins, so the cell holds
      the distance taken from the higher-indexed point to the lower-indexed
      one. */
  function Entry(points: seq<Point>, hypot: (int, int) -> real, a: int, b: int): real
    requires 0 <= a < |points| && 0 <= b < |points|
  {
    var hi, lo := if a < b then b else a, if a < b then a else b;
    hypot(points[hi].x - points[lo].x, points[hi].y - points[lo].y)
  }

  /** The whole matrix the builder leaves behind. */
  function DistanceMatrix(points: seq<Point>, hypot: (int, int) -> real): (m: seq<seq<real>>)
    ensures |m| == |points| && IsSquare(m)
  {
    seq(|points|, a requires 0 <= a < |points| =>
      seq(|points|, b requires 0 <= b < |points| => Entry(points, hypot, a, b)))
  }

  /** The matrix is symmetric whatever the distance function, because of
      the order in which cells are written. */
  lemma {:induction false} DistanceMatrixSymmetric(points: seq<Point>, hypot: (int, int) -> real)
    ensures Symmetric(DistanceMatrix(points, hypot))
  {
    var m := DistanceMatrix(points, hypot);
    forall a, b | 0 <= a < |m| && 0 <= b < |m| ensures m[a][b] == m[b][a] {
      assert m[a][b] == Entry(points, hypot, a, b) && m[b][a] == Entry(points, hypot, b, a);
    }
  }

  /** The diagonal is zero when the distance of (0, 0) is zero. */
  lemma {:induction false} DistanceMatrixDiagonal(points: seq<Point>, hypot: (int, int) -> real)
    requires hypot(0, 0) == 0.0
    ensures forall a :: 0 <= a < |points| ==> DistanceMatrix(points, hypot)[a][a] == 0.0
  {
    var m := DistanceMatrix(points, hypot);
    forall a | 0 <= a < |points| ensures m[a][a] == 0.0 {
      assert m[a][a] == Entry(points, hypot, a, a);
    }
  }

  /** When the distance function ignores the sign of its arguments, as
      Math.hypot does, cell (a, b) holds the distance between points a and
      b. */
  lemma {:induction false} DistanceMatrixIsPairwise(points: seq<Point>, hypot: (int, int) -> real)
    requires forall dx, dy :: hypot(-dx, -dy) == hypot(dx, dy)
    ensures forall a, b :: 0 <= a < |points| && 0 <= b < |points| ==>
      DistanceMatrix(points, hypot)[a][b] == hypot(points[a].x - points[b].x, points[a].y - points[b].y)
  {
    var m := DistanceMatrix(points, hypot);
    forall a, b | 0 <= a < |points| && 0 <= b < |points|
      ensures m[a][b] == hypot(points[a].x - points[b].x, points[a].y - points[b].y)
    {
      var dx, dy := points[a].x - points[b].x, points[a].y - points[b].y;
      assert m[a][b] == Entry(points, hypot, a, b);
      assert hypot(-dx, -dy) == hypot(dx, dy);
    }
  }

  /** When every pairwise distance is below Integer.MAX_VALUE, so is every
      entry of the matrix, and the tour lemmas apply to it. */
  lemma {:induction false} DistancesBelowSentinel(points: seq<Point>, hypot: (int, int) -> real)
    requires forall a, b :: 0 <= a < |points| && 0 <= b < |points| ==>
      hypot(points[a].x - points[b].x, points[a].y - points[b].y) < IntMax
    ensures BelowSentinel(DistanceMatrix(points, hypot))
  {
    var m := DistanceMatrix(points, hypot);
    forall a, b | 0 <= a < |points| && 0 <= b < |points| ensures m[a][b] < IntMax {
      if a < b {
        assert m[a][b] == hypot(points[b].x - points[a].x, points[b].y - points[a].y);
      } else {
        assert m[a][b] == hypot(points[a].x - points[b].x, points[a].y - points[b].y);
      }
    }
  }

  /** Two square matrices of the same size with the same entries are equal. */
  lemma {:induction false} MatricesEqual(a: seq<seq<real>>, b: seq<seq<real>>)
    requires IsSquare(a) && IsSquare(b) && |a| == |b|
    requires forall i, j :: 0 <= i < |a| && 0 <= j < |a| ==> a[i][j] == b[i][j]
    ensures a == b
  {
    forall i | 0 <= i < |a| ensures a[i] == b[i] {
      assert forall j :: 0 <= j < |a| ==> a[i][j] == b[i][j];
    }
  }
}
