/** The AlgorithmDrawing object: its fields and the methods that turn an
    image into a nearest-neighbour tour, one loop at a time, as the Java
    class does. */
module Drawing {
  import opened Raster
  import opened Matrices
  import opened NearestNeighbour
  import opened Distances
  import opened TourSelection

  datatype Option<T> = None | Some(value: T)

  /** The growable list of tour indices (an ArrayList of Integer). The object
      is shared: the tour map stores this very object under every key. */
  class IntList {
    var items: seq<int>

    constructor ()
      ensures items == []
    {
      items := [];
    }

    method Clear()
      modifies this
      ensures items == []
    {
      items := [];
    }

    method Add(x: int)
      modifies this
      ensures items == old(items) + [x]
    {
      items := items + [x];
    }
  }

  class AlgorithmDrawing {
    /** The input image; image[x, y] is the colour at column x, row y. */
    const image: array2<Rgb>
    /** The classified grid, allPixels[x, y]; same size as the image. */
    const allPixels: array2<Colour>
    /** Coordinates of the sampled points, in the order they were found. */
    var drawnXList: seq<int>
    var drawnYList: seq<int>
    var numOfPixels: int
    /** The visited flags of the latest nearest-neighbour run. */
    var visited: array<bool>
    /** The one list object every run clears and refills. */
    const shortestPixelNumList: IntList
    /** Start index to tour list; every value is shortestPixelNumList. */
    var shortestPixelTourMap: map<int, IntList>
    /** Start index to recorded tour total. */
    var shortestPixelTourDistMap: map<int, real>
    var adjacencyDistanceMatrix: array2<real>

    ghost predicate Valid()
      reads this`numOfPixels, this`drawnXList, this`drawnYList
    {
      && allPixels.Length0 == image.Length0
      && allPixels.Length1 == image.Length1
      && 0 <= numOfPixels
      && |drawnXList| == numOfPixels
      && |drawnYList| == numOfPixels
    }

    /** Every entry of the tour map is the one shared list object. */
    ghost predicate ToursShareList()
      reads this`shortestPixelTourMap
    {
      forall k :: k in shortestPixelTourMap ==> shortestPixelTourMap[k] == shortestPixelNumList
    }

    /** No point sampled and no run made yet. */
    ghost predicate Pristine()
      reads this
    {
      numOfPixels == 0 && shortestPixelTourMap == map[] && shortestPixelTourDistMap == map[]
    }

    /** The sampled points. */
    ghost function Points(): (ps: seq<Point>)
      reads this`drawnXList, this`drawnYList
      requires |drawnXList| == |drawnYList|
      ensures |ps| == |drawnXList|
      ensures forall k :: 0 <= k < |ps| ==> ps[k] == Point(drawnXList[k], drawnYList[k])
    {
      var xs, ys := drawnXList, drawnYList;
      seq(|xs|, k requires 0 <= k < |xs| => Point(xs[k], ys[k]))
    }

    /** The distance matrix as rows. */
    ghost function Matrix(): (m: seq<seq<real>>)
      reads this`adjacencyDistanceMatrix, adjacencyDistanceMatrix
      ensures |m| == adjacencyDistanceMatrix.Length0
      ensures forall i :: 0 <= i < |m| ==> |m[i]| == adjacencyDistanceMatrix.Length1
      ensures forall i, j :: 0 <= i < adjacencyDistanceMatrix.Length0 && 0 <= j < adjacencyDistanceMatrix.Length1 ==>
        m[i][j] == adjacencyDistanceMatrix[i, j]
    {
      var a := adjacencyDistanceMatrix;
      seq(a.Length0, i requires 0 <= i < a.Length0 reads a =>
        seq(a.Length1, j requires 0 <= j < a.Length1 reads a => a[i, j]))
    }

    /** The sampler takes the grid cell (x, y): it is on the stride-4 grid
        inside the image, the random draw made for it came out below 0.5,
        and the cell is classified black. */
    ghost predicate Accepted(coins: seq<bool>, p: Point)
      reads allPixels
    {
      && 0 <= p.x < allPixels.Length0 && 0 <= p.y < allPixels.Length1
      && p.x % Stride == 0 && p.y % Stride == 0
      && 0 <= CellIndex(allPixels.Length0, p.x, p.y) < |coins|
      && coins[CellIndex(allPixels.Length0, p.x, p.y)]
      && allPixels[p.x, p.y] == Black
    }

    constructor (image: array2<Rgb>)
      ensures this.image == image && Valid() && ToursShareList() && Pristine()
      ensures drawnXList == [] && drawnYList == []
      ensures fresh(allPixels) && fresh(shortestPixelNumList) && shortestPixelNumList.items == []
      ensures forall x, y :: 0 <= x < allPixels.Length0 && 0 <= y < allPixels.Length1 ==> allPixels[x, y] == Unset
    {
      this.image := image;
      allPixels := new Colour[image.Length0, image.Length1]((_, _) => Unset);
      drawnXList := [];
      drawnYList := [];
      numOfPixels := 0;
      visited := new bool[0];
      shortestPixelNumList := new IntList();
      shortestPixelTourMap := map[];
      shortestPixelTourDistMap := map[];
      adjacencyDistanceMatrix := new real[0, 0];
    }

    /** createAllPixelsArray: every cell of the grid becomes Black when the
        image pixel there is dark, White otherwise. */
    method CreateAllPixelsArray()
      requires Valid()
      modifies allPixels
      ensures Classified()
    {
      var j := 0;
      while j < image.Length1
        invariant 0 <= j <= image.Length1
        invariant forall x, y :: 0 <= x < allPixels.Length0 && 0 <= y < j ==>
          allPixels[x, y] == if IsDark(image[x, y]) then Black else White
      {
        var i := 0;
        while i < image.Length0
          invariant 0 <= i <= image.Length0
          invariant forall x, y :: 0 <= x < allPixels.Length0 && 0 <= y < j ==>
            allPixels[x, y] == if IsDark(image[x, y]) then Black else White
          invariant forall x :: 0 <= x < i ==>
            allPixels[x, j] == if IsDark(image[x, j]) then Black else White
        {
          var pixelColour := image[i, j];
          if pixelColour.red <= Threshold || pixelColour.green <= Threshold || pixelColour.blue <= Threshold {
            allPixels[i, j] := Black;
          } else {
            allPixels[i, j] := White;
          }
          i := i + 1;
        }
        j := j + 1;
      }
    }

    /** The cell (x, y) if the sampler takes it, nothing otherwise. */
    ghost function Cell(coins: seq<bool>, x: int, y: int): seq<Point>
      reads allPixels
    {
      if Accepted(coins, Point(x, y)) then [Point(x, y)] else []
    }

    /** The accepted cells among the first `c` grid cells of the row at
        height `y`, left to right: what the inner loop of drawPixelledImage
        has appended after `c` iterations. */
    ghost function RowUpTo(coins: seq<bool>, y: int, c: nat): seq<Point>
      reads allPixels
      decreases c
    {
      if c == 0 then []
      else RowUpTo(coins, y, c - 1) + Cell(coins, (c - 1) * Stride, y)
    }

    /** The accepted cells of the first `r` grid rows, in visiting order:
        what drawPixelledImage has appended after `r` iterations of its
        outer loop. */
    ghost function RowsUpTo(coins: seq<bool>, r: nat): seq<Point>
      reads allPixels
      decreases r
    {
      if r == 0 then []
      else RowsUpTo(coins, r - 1) + RowUpTo(coins, (r - 1) * Stride, StrideCount(allPixels.Length0))
    }

    /** Everything the sampler appends: the accepted cells of all grid rows. */
    ghost function Sample(coins: seq<bool>): seq<Point>
      reads allPixels
    {
      RowsUpTo(coins, StrideCount(allPixels.Length1))
    }

    /** The cells of a row prefix are accepted cells of that row, left of
        the c-th grid column. */
    lemma {:induction false} RowUpToAccepted(coins: seq<bool>, y: int, c: nat)
      ensures forall k :: 0 <= k < |RowUpTo(coins, y, c)| ==>
        Accepted(coins, RowUpTo(coins, y, c)[k]) && RowUpTo(coins, y, c)[k].y == y && RowUpTo(coins, y, c)[k].x < c * Stride
      decreases c
    {
      if c > 0 {
        var x := (c - 1) * Stride;
        var prev, cell := RowUpTo(coins, y, c - 1), Cell(coins, x, y);
        RowUpToAccepted(coins, y, c - 1);
        var r := prev + cell;
        assert r == RowUpTo(coins, y, c);
        forall k | 0 <= k < |r| ensures Accepted(coins, r[k]) && r[k].y == y && r[k].x < c * Stride {
          if k < |prev| {
            assert r[k] == prev[k];
          } else {
            assert cell == [Point(x, y)] && Accepted(coins, Point(x, y));
            assert r[k] == Point(x, y);
          }
        }
      }
    }

    /** The cells of a row prefix go strictly left to right. */
    lemma {:induction false} RowUpToIncreasing(coins: seq<bool>, y: int, c: nat)
      ensures forall a, b :: 0 <= a < b < |RowUpTo(coins, y, c)| ==> RowUpTo(coins, y, c)[a].x < RowUpTo(coins, y, c)[b].x
      decreases c
    {
      if c > 0 {
        var x := (c - 1) * Stride;
        var prev, cell := RowUpTo(coins, y, c - 1), Cell(coins, x, y);
        RowUpToIncreasing(coins, y, c - 1);
        RowUpToAccepted(coins, y, c - 1);
        var r := prev + cell;
        assert r == RowUpTo(coins, y, c);
        forall a, b | 0 <= a < b < |r| ensures r[a].x < r[b].x {
          if b >= |prev| {
            assert cell == [Point(x, y)];
            assert r[a] == prev[a] && r[b] == Point(x, y);
          } else {
            assert r[a] == prev[a] && r[b] == prev[b];
          }
        }
      }
    }

    /** Every accepted cell of the row left of the c-th grid column is in
        the row prefix. */
    lemma {:induction false} RowUpToComplete(coins: seq<bool>, y: int, c: nat)
      ensures forall p :: Accepted(coins, p) && p.y == y && p.x < c * Stride ==> p in RowUpTo(coins, y, c)
      decreases c
    {
      if c > 0 {
        var x := (c - 1) * Stride;
        var prev, cell := RowUpTo(coins, y, c - 1), Cell(coins, x, y);
        RowUpToComplete(coins, y, c - 1);
        var r := prev + cell;
        assert r == RowUpTo(coins, y, c);
        forall p | Accepted(coins, p) && p.y == y && p.x < c * Stride ensures p in r {
          if p.x >= x {
            GridMultiple(c - 1);
            OnlyGridCoordinate(x, p.x);
            assert r[|prev|] == p;
          } else {
            assert p in prev;
          }
        }
      }
    }

    /** The cells of the first r grid rows are accepted cells above the r-th
        grid row. */
    lemma {:induction false} RowsUpToAccepted(coins: seq<bool>, r: nat)
      ensures forall k :: 0 <= k < |RowsUpTo(coins, r)| ==>
        Accepted(coins, RowsUpTo(coins, r)[k]) && RowsUpTo(coins, r)[k].y < r * Stride
      decreases r
    {
      if r > 0 {
        var y := (r - 1) * Stride;
        var prev, row := RowsUpTo(coins, r - 1), RowUpTo(coins, y, StrideCount(allPixels.Length0));
        RowsUpToAccepted(coins, r - 1);
        RowUpToAccepted(coins, y, StrideCount(allPixels.Length0));
        var s := prev + row;
        assert s == RowsUpTo(coins, r);
        forall k | 0 <= k < |s| ensures Accepted(coins, s[k]) && s[k].y < r * Stride {
          if k < |prev| {
            assert s[k] == prev[k];
          } else {
            assert s[k] == row[k - |prev|];
          }
        }
      }
    }

    /** The cells of the first r grid rows are in visiting order. */
    lemma {:induction false} RowsUpToIncreasing(coins: seq<bool>, r: nat)
      ensures StrictlyIncreasing(RowsUpTo(coins, r))
      decreases r
    {
      if r > 0 {
        var y := (r - 1) * Stride;
        var prev, row := RowsUpTo(coins, r - 1), RowUpTo(coins, y, StrideCount(allPixels.Length0));
        RowsUpToIncreasing(coins, r - 1);
        RowsUpToAccepted(coins, r - 1);
        RowUpToAccepted(coins, y, StrideCount(allPixels.Length0));
        RowUpToIncreasing(coins, y, StrideCount(allPixels.Length0));
        var s := prev + row;
        assert s == RowsUpTo(coins, r);
        forall a, b | 0 <= a < b < |s| ensures LexLess(s[a], s[b]) {
          if b < |prev| {
            assert s[a] == prev[a] && s[b] == prev[b];
          } else if a < |prev| {
            assert s[a] == prev[a] && s[b] == row[b - |prev|];
          } else {
            assert s[a] == row[a - |prev|] && s[b] == row[b - |prev|];
          }
        }
      }
    }

    /** Every accepted cell above the r-th grid row is among the cells of
        the first r grid rows. */
    lemma {:induction false} RowsUpToComplete(coins: seq<bool>, r: nat)
      ensures forall p :: Accepted(coins, p) && p.y < r * Stride ==> p in RowsUpTo(coins, r)
      decreases r
    {
      if r > 0 {
        var y := (r - 1) * Stride;
        var prev, row := RowsUpTo(coins, r - 1), RowUpTo(coins, y, StrideCount(allPixels.Length0));
        RowsUpToComplete(coins, r - 1);
        RowUpToComplete(coins, y, StrideCount(allPixels.Length0));
        var s := prev + row;
        assert s == RowsUpTo(coins, r);
        forall p | Accepted(coins, p) && p.y < r * Stride ensures p in s {
          if p.y >= y {
            GridMultiple(r - 1);
            OnlyGridCoordinate(y, p.y);
            assert p in row;
          } else {
            assert p in prev;
          }
        }
      }
    }

    /** The sample is exactly the accepted grid cells, in visiting order. */
    lemma SampleIsAcceptedInOrder(coins: seq<bool>)
      ensures StrictlyIncreasing(Sample(coins))
      ensures forall p :: p in Sample(coins) <==> Accepted(coins, p)
    {
      var r := StrideCount(allPixels.Length1);
      RowsUpToAccepted(coins, r);
      RowsUpToIncreasing(coins, r);
      RowsUpToComplete(coins, r);
    }

    /** The sample is the only strictly increasing sequence of the accepted
        cells: what the sampler appends is fixed by which cells it accepts. */
    lemma SampleUnique(coins: seq<bool>, ps: seq<Point>)
      requires StrictlyIncreasing(ps) && forall p :: p in ps <==> Accepted(coins, p)
      ensures ps == Sample(coins)
    {
      SampleIsAcceptedInOrder(coins);
      IncreasingDeterminedByElements(ps, Sample(coins));
    }

    /** drawPixelledImage: walks the stride-4 grid row by row and appends
        the accepted cells. The random draw made for a cell is
        `coins[CellIndex(width, x, y)]` (true when the draw is below 0.5):
        one draw per cell, in visiting order. */
    method DrawPixelledImage(coins: seq<bool>)
      requires Valid()
      requires |coins| >= StrideCount(image.Length0) * StrideCount(image.Length1)
      modifies this`drawnXList, this`drawnYList, this`numOfPixels
      ensures Valid() && Points() == old(Points()) + Sample(coins)
    {
      ghost var before := Points();
      ghost var r := 0;
      var j := 0;
      while j < image.Length1
        invariant j == r * Stride && r <= StrideCount(allPixels.Length1)
        invariant Valid() && Points() == before + RowsUpTo(coins, r)
      {
        ghost var prefix := RowsUpTo(coins, r);
        ghost var row := RowUpTo(coins, j, StrideCount(allPixels.Length0));
        GridMultiple(r);
        SampleRow(coins, j);
        assert RowsUpTo(coins, r + 1) == prefix + row;
        assert before + prefix + row == before + (prefix + row);
        j := j + Stride;
        r := r + 1;
      }
    }

    /** The inner loop of drawPixelledImage, over the grid cells of the row
        at height `j`: it appends the accepted cells of that row, left to
        right. */
    method SampleRow(coins: seq<bool>, j: int)
      requires Valid() && 0 <= j < image.Length1 && j % Stride == 0
      requires |coins| >= StrideCount(image.Length0) * StrideCount(image.Length1)
      modifies this`drawnXList, this`drawnYList, this`numOfPixels
      ensures Valid() && Points() == old(Points()) + RowUpTo(coins, j, StrideCount(allPixels.Length0))
    {
      ghost var before := Points();
      ghost var c := 0;
      var i := 0;
      while i < image.Length0
        invariant i == c * Stride && c <= StrideCount(allPixels.Length0)
        invariant Valid() && Points() == before + RowUpTo(coins, j, c)
      {
        ghost var prefix := RowUpTo(coins, j, c);
        GridMultiple(c);
        SampleCell(coins, i, j);
        assert RowUpTo(coins, j, c + 1) == prefix + Cell(coins, i, j);
        assert before + prefix + Cell(coins, i, j) == before + (prefix + Cell(coins, i, j));
        i := i + Stride;
        c := c + 1;
      }
    }

    /** One iteration of the inner loop: the cell (i, j) is appended when
        its draw came out below 0.5 and it is black, and only then. */
    method SampleCell(coins: seq<bool>, i: int, j: int)
      requires Valid() && 0 <= i < image.Length0 && 0 <= j < image.Length1
      requires i % Stride == 0 && j % Stride == 0
      requires |coins| >= StrideCount(image.Length0) * StrideCount(image.Length1)
      modifies this`drawnXList, this`drawnYList, this`numOfPixels
      ensures Valid() && Points() == old(Points()) + Cell(coins, i, j)
    {
      CellIndexInRange(image.Length0, image.Length1, i, j);
      if coins[CellIndex(image.Length0, i, j)] {
        if allPixels[i, j] == Black {
          AddPoint(i, j);
        }
      }
    }

    /** Records one sampled point: both coordinate lists grow by one and so
        does the count. */
    method AddPoint(x: int, y: int)
      requires Valid()
      modifies this`drawnXList, this`drawnYList, this`numOfPixels
      ensures Valid() && numOfPixels == old(numOfPixels) + 1
      ensures Points() == old(Points()) + [Point(x, y)]
    {
      drawnXList := drawnXList + [x];
      drawnYList := drawnYList + [y];
      numOfPixels := numOfPixels + 1;
    }

    /** createDistanceAdjacencyMatrix: an N x N matrix whose cell (a, b) is
        the distance function applied to the coordinate differences of the
        two points, written at (i, j) and (j, i) in one pass. */
    method CreateDistanceAdjacencyMatrix(hypot: (int, int) -> real)
      requires Valid()
      modifies this`adjacencyDistanceMatrix
      ensures Valid() && fresh(adjacencyDistanceMatrix)
      ensures adjacencyDistanceMatrix.Length0 == numOfPixels && adjacencyDistanceMatrix.Length1 == numOfPixels
      ensures Matrix() == DistanceMatrix(Points(), hypot)
    {
      var n := numOfPixels;
      ghost var points := Points();
      var m := new real[n, n];
      var j := 0;
      while j < n
        invariant 0 <= j <= n
        invariant forall a, b :: 0 <= a < j && 0 <= b < j ==> m[a, b] == Entry(points, hypot, a, b)
      {
        FillRow(m, points, drawnXList, drawnYList, hypot, j);
        j := j + 1;
      }
      adjacencyDistanceMatrix := m;
      MatricesEqual(Matrix(), DistanceMatrix(points, hypot));
    }

    /** The inner loop of createDistanceAdjacencyMatrix for outer index `j`:
        it writes row j and column j. Afterwards the top-left (j+1) x (j+1)
        block holds its final values. */
    static method FillRow(m: array2<real>, ghost points: seq<Point>, xs: seq<int>, ys: seq<int>,
                          hypot: (int, int) -> real, j: int)
      requires m.Length0 == m.Length1 == |points| == |xs| == |ys| && 0 <= j < |points|
      requires forall k :: 0 <= k < |points| ==> points[k] == Point(xs[k], ys[k])
      requires forall a, b :: 0 <= a < j && 0 <= b < j ==> m[a, b] == Entry(points, hypot, a, b)
      modifies m
      ensures forall a, b :: 0 <= a <= j && 0 <= b <= j ==> m[a, b] == Entry(points, hypot, a, b)
    {
      var n := |xs|;
      var i := 0;
      while i < n
        invariant 0 <= i <= n
        invariant forall a, b :: 0 <= a < j && 0 <= b < j ==> m[a, b] == Entry(points, hypot, a, b)
        invariant forall a :: 0 <= a < i && a <= j ==>
          m[a, j] == Entry(points, hypot, a, j) && m[j, a] == Entry(points, hypot, j, a)
      {
        var euclideanDistance := hypot(xs[j] - xs[i], ys[j] - ys[i]);
        assert i <= j ==> euclideanDistance == Entry(points, hypot, i, j) == Entry(points, hypot, j, i);
        m[i, j] := euclideanDistance;
        m[j, i] := euclideanDistance;
        i := i + 1;
      }
    }

    /** applyTravellingSalesmanAlg: one nearest-neighbour run from
        `startIndex`, on a freshly allocated visited array. The shared list
        is cleared and refilled with the tour, the total is recorded for the
        start, and the shared list object itself is stored for the start. */
    method ApplyTravellingSalesmanAlg(ghost m: seq<seq<real>>, startIndex: int)
      requires Valid() && IsSquare(m) && |m| == numOfPixels && 0 <= startIndex < |m|
      requires adjacencyDistanceMatrix.Length0 == adjacencyDistanceMatrix.Length1 == |m|
      requires forall i, j :: 0 <= i < |m| && 0 <= j < |m| ==> m[i][j] == adjacencyDistanceMatrix[i, j]
      modifies this`visited, this`shortestPixelTourMap, this`shortestPixelTourDistMap, shortestPixelNumList
      ensures Valid() && fresh(visited)
      ensures shortestPixelNumList.items == Tour(m, startIndex)
      ensures shortestPixelTourDistMap == old(shortestPixelTourDistMap)[startIndex := TourTotal(m, startIndex)]
      ensures shortestPixelTourMap == old(shortestPixelTourMap)[startIndex := shortestPixelNumList]
    {
      var n := numOfPixels;
      shortestPixelNumList.Clear();
      visited := new bool[n](_ => false);
      var firstPixel := startIndex;
      visited[firstPixel] := true;
      shortestPixelNumList.Add(firstPixel);
      assert visited[..] == Start(n, startIndex).visited;
      var current, totalDistance := GreedySteps(m, startIndex);
      totalDistance := CloseTour(m, startIndex, current, totalDistance);
      shortestPixelTourDistMap := shortestPixelTourDistMap[firstPixel := totalDistance];
      shortestPixelTourMap := shortestPixelTourMap[firstPixel := shortestPixelNumList];
    }

    /** The outer loop of applyTravellingSalesmanAlg once the start is marked
        and listed: N-1 greedy steps, each marking the nearest unvisited
        point, moving to it, appending it to the shared list and adding its
        distance. Flags, position, list and total end as those of the last
        step of the run. */
    method GreedySteps(ghost m: seq<seq<real>>, startIndex: int) returns (current: int, totalDistance: real)
      requires IsSquare(m) && |m| == visited.Length && 0 <= startIndex < |m|
      requires adjacencyDistanceMatrix.Length0 == adjacencyDistanceMatrix.Length1 == |m|
      requires forall i, j :: 0 <= i < |m| && 0 <= j < |m| ==> m[i][j] == adjacencyDistanceMatrix[i, j]
      requires visited[..] == Start(|m|, startIndex).visited && shortestPixelNumList.items == [startIndex]
      modifies visited, shortestPixelNumList
      ensures visited[..] == Walked(m, startIndex, |m| - 1).visited
      ensures current == Walked(m, startIndex, |m| - 1).current
      ensures shortestPixelNumList.items == Walked(m, startIndex, |m| - 1).tour
      ensures totalDistance == Walked(m, startIndex, |m| - 1).total
    {
      var n := visited.Length;
      totalDistance := 0.0;
      var nextPixel := 0;
      var pixelVisitCount := 1;
      current := startIndex;
      ghost var w := Start(n, startIndex);
      var j := pixelVisitCount;
      while j != n
        invariant 1 <= j <= n
        invariant w == Walked(m, startIndex, j - 1)
        invariant visited[..] == w.visited && current == w.current && nextPixel == w.next
        invariant shortestPixelNumList.items == w.tour && totalDistance == w.total
        decreases n - j
      {
        var minimumDistance;
        nextPixel, minimumDistance := NearestUnvisited(m, current, nextPixel);
        ghost var w' := Step(m, w);
        visited[nextPixel] := true;
        current := nextPixel;
        pixelVisitCount := pixelVisitCount + 1;
        totalDistance := totalDistance + minimumDistance;
        shortestPixelNumList.Add(current);
        assert visited[..] == w'.visited;
        w := w';
        j := j + 1;
      }
    }

    /** The end of applyTravellingSalesmanAlg: the start is appended again and
        the entry from the last point back to it is added twice, which makes
        the list and the total the run's Tour and TourTotal. */
    method CloseTour(ghost m: seq<seq<real>>, startIndex: int, current: int, total: real) returns (totalDistance: real)
      requires IsSquare(m) && 0 <= startIndex < |m|
      requires adjacencyDistanceMatrix.Length0 == adjacencyDistanceMatrix.Length1 == |m|
      requires forall i, j :: 0 <= i < |m| && 0 <= j < |m| ==> m[i][j] == adjacencyDistanceMatrix[i, j]
      requires current == Walked(m, startIndex, |m| - 1).current
      requires shortestPixelNumList.items == Walked(m, startIndex, |m| - 1).tour
      requires total == Walked(m, startIndex, |m| - 1).total
      modifies shortestPixelNumList
      ensures shortestPixelNumList.items == Tour(m, startIndex)
      ensures totalDistance == TourTotal(m, startIndex)
    {
      FinishedRun(m, startIndex, Walked(m, startIndex, |m| - 1));
      shortestPixelNumList.Add(startIndex);
      totalDistance := total + adjacencyDistanceMatrix[startIndex, current] * 2.0;
    }

    /** The inner loop of applyTravellingSalesmanAlg: scans the row of
        `current` for the closest unvisited point, starting from the
        sentinel and keeping `nextPixel` when nothing beats it. */
    method NearestUnvisited(ghost m: seq<seq<real>>, current: int, nextPixel: int) returns (next: int, minimumDistance: real)
      requires IsSquare(m) && |m| == visited.Length && 0 <= current < |m|
      requires adjacencyDistanceMatrix.Length0 == adjacencyDistanceMatrix.Length1 == |m|
      requires forall i, j :: 0 <= i < |m| && 0 <= j < |m| ==> m[i][j] == adjacencyDistanceMatrix[i, j]
      ensures Pick(next, minimumDistance) == Nearest(m[current], visited[..], |m|, nextPixel)
    {
      var n := visited.Length;
      next := nextPixel;
      minimumDistance := IntMax;
      var i := 0;
      while i < n
        invariant 0 <= i <= n
        invariant Pick(next, minimumDistance) == Nearest(m[current], visited[..], i, nextPixel)
      {
        var euclideanDistance := adjacencyDistanceMatrix[current, i];
        if !visited[i] && euclideanDistance < minimumDistance {
          minimumDistance := euclideanDistance;
          next := i;
        }
        i := i + 1;
      }
    }

    /** drawShortestTour: picks the lowest start with the smallest recorded
        total (-1 if none lies below the sentinel), then draws a line between
        each pair of consecutive entries of the list stored for that start,
        N-1 lines in all. With N >= 2 and no start chosen the lookup yields
        no list and the drawing fails (None). */
    method DrawShortestTour() returns (startIndex: int, shortestDistanceTour: real, lines: Option<seq<Segment>>)
      requires Valid() && ToursShareList()
      requires forall i :: 0 <= i < |shortestPixelTourDistMap| ==> i in shortestPixelTourDistMap
      requires numOfPixels >= 2 ==> |shortestPixelNumList.items| >= numOfPixels
      requires numOfPixels >= 2 ==> forall k :: 0 <= k < numOfPixels ==> 0 <= shortestPixelNumList.items[k] < numOfPixels
      ensures Best(startIndex, shortestDistanceTour) == FirstMin(InKeyOrder(shortestPixelTourDistMap), |shortestPixelTourDistMap|)
      ensures lines == if numOfPixels < 2 then Some([])
                       else if startIndex in shortestPixelTourMap then Some(TourSegments(Points(), shortestPixelNumList.items, numOfPixels))
                       else None
    {
      startIndex, shortestDistanceTour := SelectStart();
      if numOfPixels < 2 {
        lines := Some([]);
        return;
      }
      if startIndex !in shortestPixelTourMap {
        lines := None;
        return;
      }
      var drawn := DrawTour(shortestPixelTourMap[startIndex].items);
      lines := Some(drawn);
    }

    /** The selection loop of drawShortestTour: looks up the totals of starts
        0, 1, 2, ... and keeps the first smallest one below the sentinel. */
    method SelectStart() returns (startIndex: int, shortestDistanceTour: real)
      requires forall i :: 0 <= i < |shortestPixelTourDistMap| ==> i in shortestPixelTourDistMap
      ensures Best(startIndex, shortestDistanceTour) == FirstMin(InKeyOrder(shortestPixelTourDistMap), |shortestPixelTourDistMap|)
    {
      shortestDistanceTour := IntMax;
      startIndex := -1;
      var i := 0;
      while i < |shortestPixelTourDistMap|
        invariant 0 <= i <= |shortestPixelTourDistMap|
        invariant Best(startIndex, shortestDistanceTour) == FirstMin(InKeyOrder(shortestPixelTourDistMap), i)
      {
        if shortestPixelTourDistMap[i] < shortestDistanceTour {
          shortestDistanceTour := shortestPixelTourDistMap[i];
          startIndex := i;
        }
        i := i + 1;
      }
    }

    /** The drawing loop of drawShortestTour: one line from each of the first
        N entries of the tour to the next, between the sampled points they
        name. */
    method DrawTour(tour: seq<int>) returns (drawn: seq<Segment>)
      requires Valid() && numOfPixels >= 1 && |tour| >= numOfPixels
      requires forall k :: 0 <= k < numOfPixels ==> 0 <= tour[k] < numOfPixels
      ensures drawn == TourSegments(Points(), tour, numOfPixels)
    {
      drawn := [];
      var k := 1;
      while k < numOfPixels
        invariant 1 <= k <= numOfPixels
        invariant drawn == TourSegments(Points(), tour, k)
      {
        drawn := drawn + [Segment(Point(drawnXList[tour[k - 1]], drawnYList[tour[k - 1]]),
                                  Point(drawnXList[tour[k]], drawnYList[tour[k]]))];
        k := k + 1;
      }
    }

    /** The loop of createTravellingSalesmanDrawing that runs the heuristic
        from every start 0..N-1 in turn. Afterwards both maps have exactly
        the keys 0..N-1, start k has its own run's total recorded, and the
        shared list holds the tour of the last run. */
    method RunFromEveryStart(ghost m: seq<seq<real>>, ghost totals: seq<real>, ghost tours: seq<seq<int>>)
      requires Valid() && shortestPixelTourMap == map[] && shortestPixelTourDistMap == map[]
      requires IsSquare(m) && |m| == numOfPixels
      requires adjacencyDistanceMatrix.Length0 == adjacencyDistanceMatrix.Length1 == |m|
      requires forall i, j :: 0 <= i < |m| && 0 <= j < |m| ==> m[i][j] == adjacencyDistanceMatrix[i, j]
      requires |totals| == |m| && forall k {:trigger TourTotal(m, k)} :: 0 <= k < |m| ==> totals[k] == TourTotal(m, k)
      requires |tours| == |m| && forall k {:trigger Tour(m, k)} :: 0 <= k < |m| ==> tours[k] == Tour(m, k)
      modifies this`visited, this`shortestPixelTourMap, this`shortestPixelTourDistMap, shortestPixelNumList
      ensures Valid() && ToursShareList()
      ensures shortestPixelTourDistMap == (map k | 0 <= k < numOfPixels :: totals[k])
      ensures |shortestPixelTourDistMap| == numOfPixels
      ensures shortestPixelTourMap.Keys == shortestPixelTourDistMap.Keys
      ensures numOfPixels > 0 ==> shortestPixelNumList.items == tours[numOfPixels - 1]
    {
      var i := 0;
      while i < numOfPixels
        invariant 0 <= i <= numOfPixels
        invariant Valid() && ToursShareList()
        invariant shortestPixelTourDistMap == (map k | 0 <= k < i :: totals[k])
        invariant |shortestPixelTourDistMap| == i
        invariant shortestPixelTourMap.Keys == shortestPixelTourDistMap.Keys
        invariant i > 0 ==> shortestPixelNumList.items == tours[i - 1]
      {
        assert totals[i] == TourTotal(m, i) && tours[i] == Tour(m, i);
        TableGrows(shortestPixelTourDistMap, totals, i);
        RecordRun(m, totals[i], tours[i], i);
        i := i + 1;
      }
    }

    /** One pass of the loop of createTravellingSalesmanDrawing: the run from
        start i records that run's total as the next entry of the table of
        totals and leaves that run's tour in the shared list. */
    method RecordRun(ghost m: seq<seq<real>>, ghost total: real, ghost tour: seq<int>, i: int)
      requires Valid() && ToursShareList()
      requires IsSquare(m) && |m| == numOfPixels && 0 <= i < |m|
      requires adjacencyDistanceMatrix.Length0 == adjacencyDistanceMatrix.Length1 == |m|
      requires forall i, j :: 0 <= i < |m| && 0 <= j < |m| ==> m[i][j] == adjacencyDistanceMatrix[i, j]
      requires total == TourTotal(m, i) && tour == Tour(m, i)
      requires i !in shortestPixelTourDistMap && shortestPixelTourMap.Keys == shortestPixelTourDistMap.Keys
      modifies this`visited, this`shortestPixelTourMap, this`shortestPixelTourDistMap, shortestPixelNumList
      ensures Valid() && ToursShareList()
      ensures shortestPixelTourDistMap == old(shortestPixelTourDistMap)[i := total]
      ensures shortestPixelTourMap.Keys == shortestPixelTourDistMap.Keys
      ensures shortestPixelNumList.items == tour
    {
      ApplyTravellingSalesmanAlg(m, i);
    }

    /** Every cell of the grid holds the colour the threshold rule gives the
        image pixel there. */
    ghost predicate Classified()
      reads allPixels, image
    {
      && allPixels.Length0 == image.Length0 && allPixels.Length1 == image.Length1
      && forall x, y :: 0 <= x < allPixels.Length0 && 0 <= y < allPixels.Length1 ==>
        allPixels[x, y] == if IsDark(image[x, y]) then Black else White
    }

    /** The sampled points are exactly the accepted grid cells, in visiting
        order. */
    ghost predicate Sampled(coins: seq<bool>)
      reads this`drawnXList, this`drawnYList, this`numOfPixels, allPixels
      requires |drawnXList| == |drawnYList| == numOfPixels
    {
      && StrictlyIncreasing(Points())
      && (forall p :: p in Points() <==> Accepted(coins, p))
    }

    /** The first three calls of createTravellingSalesmanDrawing: classify
        the image, sample the black cells, build the distance matrix. */
    method BuildGraph(coins: seq<bool>, hypot: (int, int) -> real)
      requires Valid() && Pristine()
      requires |coins| >= StrideCount(image.Length0) * StrideCount(image.Length1)
      modifies allPixels, this`drawnXList, this`drawnYList, this`numOfPixels, this`adjacencyDistanceMatrix
      ensures Valid() && Classified() && Sampled(coins)
      ensures shortestPixelTourMap == map[] && shortestPixelTourDistMap == map[]
      ensures adjacencyDistanceMatrix.Length0 == numOfPixels && adjacencyDistanceMatrix.Length1 == numOfPixels
      ensures Matrix() == DistanceMatrix(Points(), hypot)
    {
      CreateAllPixelsArray();
      DrawPixelledImage(coins);
      SampleIsAcceptedInOrder(coins);
      CreateDistanceAdjacencyMatrix(hypot);
    }

    /** createTravellingSalesmanDrawing: classify, sample, build the matrix,
        run the heuristic from every start in turn, then select and draw.
        Because every run refills the same list object, every entry of the
        tour map ends up holding the tour of the last start, N-1, and that
        is the tour drawn whichever start was selected. */
    method CreateTravellingSalesmanDrawing(coins: seq<bool>, hypot: (int, int) -> real)
      returns (startIndex: int, shortestDistanceTour: real, lines: Option<seq<Segment>>,
               ghost points: seq<Point>, ghost m: seq<seq<real>>, ghost totals: seq<real>, ghost tours: seq<seq<int>>)
      requires Valid() && Pristine()
      requires |coins| >= StrideCount(image.Length0) * StrideCount(image.Length1)
      modifies this, allPixels, shortestPixelNumList
      ensures Valid() && ToursShareList() && Classified()
      ensures points == Points() && StrictlyIncreasing(points) && forall p :: p in points <==> Accepted(coins, p)
      ensures m == DistanceMatrix(points, hypot) && m == Matrix()
      ensures |totals| == |points| && forall k {:trigger TourTotal(m, k)} :: 0 <= k < |points| ==> totals[k] == TourTotal(m, k)
      ensures |tours| == |points| && forall k {:trigger Tour(m, k)} :: 0 <= k < |points| ==> tours[k] == Tour(m, k)
      ensures shortestPixelTourDistMap == (map k | 0 <= k < |points| :: totals[k])
      ensures shortestPixelTourMap.Keys == shortestPixelTourDistMap.Keys
      ensures |points| > 0 ==> shortestPixelNumList.items == tours[|points| - 1] == Tour(m, |points| - 1)
      ensures Best(startIndex, shortestDistanceTour) == FirstMin(totals, |points|)
      ensures lines == if |points| < 2 then Some([])
                       else if startIndex == -1 then None
                       else Some(TourSegments(points, tours[|points| - 1], |points|))
    {
      BuildGraph(coins, hypot);
      points := Points();
      m := Matrix();
      totals, tours := RunTables(m);
      startIndex, shortestDistanceTour, lines := RunAndDraw(m, totals, tours);
    }

    /** The second half of createTravellingSalesmanDrawing: the runs from
        every start, then drawShortestTour. */
    method RunAndDraw(ghost m: seq<seq<real>>, ghost totals: seq<real>, ghost tours: seq<seq<int>>)
      returns (startIndex: int, shortestDistanceTour: real, lines: Option<seq<Segment>>)
      requires Valid() && shortestPixelTourMap == map[] && shortestPixelTourDistMap == map[]
      requires IsSquare(m) && |m| == numOfPixels
      requires adjacencyDistanceMatrix.Length0 == adjacencyDistanceMatrix.Length1 == |m|
      requires forall i, j :: 0 <= i < |m| && 0 <= j < |m| ==> m[i][j] == adjacencyDistanceMatrix[i, j]
      requires |totals| == |m| && forall k {:trigger TourTotal(m, k)} :: 0 <= k < |m| ==> totals[k] == TourTotal(m, k)
      requires |tours| == |m| && forall k {:trigger Tour(m, k)} :: 0 <= k < |m| ==> tours[k] == Tour(m, k)
      modifies this`visited, this`shortestPixelTourMap, this`shortestPixelTourDistMap, shortestPixelNumList
      ensures Valid() && ToursShareList()
      ensures shortestPixelTourDistMap == (map k | 0 <= k < numOfPixels :: totals[k])
      ensures shortestPixelTourMap.Keys == shortestPixelTourDistMap.Keys
      ensures numOfPixels > 0 ==> shortestPixelNumList.items == tours[numOfPixels - 1] == Tour(m, numOfPixels - 1)
      ensures Best(startIndex, shortestDistanceTour) == FirstMin(totals, numOfPixels)
      ensures lines == if numOfPixels < 2 then Some([])
                       else if startIndex == -1 then None
                       else Some(TourSegments(Points(), tours[numOfPixels - 1], numOfPixels))
    {
      RunFromEveryStart(m, totals, tours);
      InKeyOrderOfTable(shortestPixelTourDistMap, totals);
      assert numOfPixels > 0 ==> shortestPixelNumList.items == Tour(m, numOfPixels - 1);
      startIndex, shortestDistanceTour, lines := DrawShortestTour();
    }

    /** The totals and tours of the runs from every start, as tables. */
    static lemma {:induction false} RunTables(m: seq<seq<real>>) returns (totals: seq<real>, tours: seq<seq<int>>)
      requires IsSquare(m)
      ensures |totals| == |m| && forall k {:trigger TourTotal(m, k)} :: 0 <= k < |m| ==> totals[k] == TourTotal(m, k)
      ensures |tours| == |m| && forall k {:trigger Tour(m, k)} :: 0 <= k < |m| ==> tours[k] == Tour(m, k)
    {
      totals := seq(|m|, k requires 0 <= k < |m| => TourTotal(m, k));
      tours := seq(|m|, k requires 0 <= k < |m| => Tour(m, k));
    }
  }
}
