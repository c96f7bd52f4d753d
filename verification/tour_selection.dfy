/** Choosing the best start and the line segments drawn for a tour. */
module TourSelection {
  import opened Raster
  import opened Matrices
  import opened NearestNeighbour

  /** The start the selection settled on and the recorded total it kept. */
  datatype Best = Best(start: int, total: real)

  /** The selection loop of drawShortestTour after it has looked at the
      totals of starts 0..k-1: seeded with Integer.MAX_VALUE and index -1, a
      total replaces the running best only when it is strictly smaller. The
      result is the lowest start whose total is minimal, or -1 when no total
      lies below the sentinel (in particular when there is none). */
  function FirstMin(totals: seq<real>, k: nat): (b: Best)
    requires k <= |totals|
    ensures (b.start == -1 && b.total == IntMax) || (0 <= b.start < k && b.total == totals[b.start] < IntMax)
    ensures forall j :: 0 <= j < k ==> b.total <= totals[j]
    ensures forall j :: 0 <= j < b.start ==> b.total < totals[j]
    decreases k
  {
    if k == 0 then Best(-1, IntMax)
    else
      var b := FirstMin(totals, k - 1);
      if totals[k - 1] < b.total then Best(k - 1, totals[k - 1]) else b
  }

  /** The values of a map whose keys are 0..|d|-1, in key order: what the
      selection loop reads as it looks up keys 0, 1, 2, ... */
  ghost function InKeyOrder(d: map<int, real>): (r: seq<real>)
    requires forall i :: 0 <= i < |d| ==> i in d
    ensures |r| == |d| && forall i :: 0 <= i < |r| ==> r[i] == d[i]
  {
    seq(|d|, i requires 0 <= i < |d| => d[i])
  }

  /** A map built from a table, entry k holding the table's k-th value, is
      read back in key order as the table itself. */
  lemma {:induction false} InKeyOrderOfTable(d: map<int, real>, table: seq<real>)
    requires d == (map k | 0 <= k < |table| :: table[k]) && |d| == |table|
    ensures InKeyOrder(d) == table
  {
  }

  /** Recording the next table entry under the next key extends a map built
      from a prefix of the table by one entry. */
  lemma {:induction false} TableGrows(d: map<int, real>, table: seq<real>, i: int)
    requires 0 <= i < |table| && d == (map k | 0 <= k < i :: table[k]) && |d| == i
    ensures d[i := table[i]] == (map k | 0 <= k < i + 1 :: table[k])
    ensures |d[i := table[i]]| == i + 1
  {
    assert i !in d;
  }

  /** A line drawn on the canvas, between two sampled points. */
  datatype Segment = Segment(from: Point, to: Point)

  /** The lines the drawing loop draws for the first n entries of a tour:
      one between each entry and the next, n-1 in all. */
  function TourSegments(points: seq<Point>, tour: seq<int>, n: nat): (r: seq<Segment>)
    requires n <= |tour|
    requires forall k :: 0 <= k < n ==> 0 <= tour[k] < |points|
    ensures |r| == if n == 0 then 0 else n - 1
    ensures forall k :: 0 <= k < |r| ==> r[k] == Segment(points[tour[k]], points[tour[k + 1]])
    decreases n
  {
    if n <= 1 then []
    else TourSegments(points, tour, n - 1) + [Segment(points[tour[n - 2]], points[tour[n - 1]])]
  }

  /** For a tour over N >= 2 distinct points the drawing has N-1 lines and
      the closing edge, from the last point back to the start, is not among
      them; from three points on it is not drawn in either direction. */
  lemma {:induction false} ClosingEdgeNotDrawn(m: seq<seq<real>>, s: int, points: seq<Point>)
    requires BelowSentinel(m) && 0 <= s < |m| && |m| >= 2 && |points| == |m|
    requires forall a, b :: 0 <= a < b < |points| ==> points[a] != points[b]
    ensures |TourSegments(points, Tour(m, s), |m|)| == |m| - 1
    ensures Segment(points[Tour(m, s)[|m| - 1]], points[s]) !in TourSegments(points, Tour(m, s), |m|)
    ensures |m| >= 3 ==> Segment(points[s], points[Tour(m, s)[|m| - 1]]) !in TourSegments(points, Tour(m, s), |m|)
  {
    var n := |m|;
    var t := Tour(m, s);
    TourIsPermutation(m, s);
    var r := TourSegments(points, t, n);
    forall k | 0 <= k < |r|
      ensures r[k] != Segment(points[t[n - 1]], points[s])
      ensures n >= 3 ==> r[k] != Segment(points[s], points[t[n - 1]])
    {
      assert r[k] == Segment(points[t[k]], points[t[k + 1]]);
      assert t[k] != t[n - 1];
      assert points[t[k]] != points[t[n - 1]];
      assert points[t[k]] == points[s] ==> k == 0;
    }
  }

  /** The distance matrix of three points on a line at 0, 4 and 12. */
  const Line: seq<seq<real>> := [[0.0, 4.0, 12.0], [4.0, 0.0, 8.0], [12.0, 8.0, 0.0]]

  lemma LineRunFrom0()
    ensures Walked(Line, 0, 2) == Walk([true, true, true], 2, 2, [0, 1, 2], 12.0)
  {
    var m := Line;
    assert Walked(m, 0, 1) == Step(m, Start(3, 0));
    assert Start(3, 0).visited == [true, false, false];
    assert Nearest(m[0], [true, false, false], 3, 0) == Pick(1, 4.0);
    assert Walked(m, 0, 1) == Walk([true, true, false], 1, 1, [0, 1], 4.0);
    assert Walked(m, 0, 2) == Step(m, Walked(m, 0, 1));
    assert Nearest(m[1], [true, true, false], 3, 1) == Pick(2, 8.0);
  }

  lemma LineRunFrom1()
    ensures Walked(Line, 1, 2) == Walk([true, true, true], 2, 2, [1, 0, 2], 16.0)
  {
    var m := Line;
    assert Walked(m, 1, 1) == Step(m, Start(3, 1));
    assert Start(3, 1).visited == [false, true, false];
    assert Nearest(m[1], [false, true, false], 3, 0) == Pick(0, 4.0);
    assert Walked(m, 1, 1) == Walk([true, true, false], 0, 0, [1, 0], 4.0);
    assert Walked(m, 1, 2) == Step(m, Walked(m, 1, 1));
    assert Nearest(m[0], [true, true, false], 3, 0) == Pick(2, 12.0);
  }

  lemma LineRunFrom2()
    ensures Walked(Line, 2, 2) == Walk([true, true, true], 0, 0, [2, 1, 0], 12.0)
  {
    var m := Line;
    assert Walked(m, 2, 1) == Step(m, Start(3, 2));
    assert Start(3, 2).visited == [false, false, true];
    assert Nearest(m[2], [false, false, true], 3, 0) == Pick(1, 8.0);
    assert Walked(m, 2, 1) == Walk([false, true, true], 1, 1, [2, 1], 8.0);
    assert Walked(m, 2, 2) == Step(m, Walked(m, 2, 1));
    assert Nearest(m[1], [false, true, true], 3, 1) == Pick(0, 4.0);
  }

  /** Three points on a line at 0, 4 and 12. The run from start 1 records the
      smallest total, but the run from start 2 is the last one made, and its
      list is the one every entry of the tour map refers to: the drawing
      follows [2, 1, 0], not the best tour [1, 0, 2]. */
  lemma LastTourIsNotBest()
    ensures [TourTotal(Line, 0), TourTotal(Line, 1), TourTotal(Line, 2)] == [36.0, 32.0, 36.0]
    ensures FirstMin([TourTotal(Line, 0), TourTotal(Line, 1), TourTotal(Line, 2)], 3).start == 1
    ensures Tour(Line, 1) == [1, 0, 2, 1] && Tour(Line, 2) == [2, 1, 0, 2]
  {
    LineRunFrom0();
    LineRunFrom1();
    LineRunFrom2();
  }
}
