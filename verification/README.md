# Algorithm Portrait: the image-to-tour pipeline

This project models `AlgorithmDrawing`, the class of Algorithm Portrait that
turns an image into a line drawing. It then proves what each step computes.
The pipeline has five steps:

1. **Classify.** Every pixel is labelled black when one of its channels is at
   or below 110, and white otherwise.
2. **Sample.** The sampler visits every 4th column of every 4th row. It makes
   one random draw per grid cell and keeps a cell when the draw is below 0.5
   and the cell is black.
3. **Build the distance matrix.** The matrix is built from `Math.hypot` of
   the coordinate differences.
4. **Run the heuristic.** The nearest-neighbour travelling-salesman heuristic
   runs once from every start.
5. **Select and draw.** The start with the smallest recorded total is
   selected, and one line is drawn between each pair of consecutive entries
   of the stored tour.

The class is modelled imperatively, as the Java is written:

- `Drawing.AlgorithmDrawing` keeps the Java fields:
  - the colour grid, as an `array2`;
  - the coordinate lists and the point count;
  - the `visited` array;
  - the two per-start maps, as `map`s;
  - the distance matrix, as an `array2`.
- The shared `ArrayList` of tour indices is a separate class, `Drawing.IntList`.
  The tour map holds references to that one object.
- Every Java loop is a `method` with a `while` loop, proved against a
  specification function:
  - `Sample` for the sampler;
  - `DistanceMatrix` for the matrix builder;
  - `Nearest`, `Walked`, `Tour` and `TourTotal` for the heuristic;
  - `FirstMin` for the selection scan;
  - `TourSegments` for the drawing loop.
- Lemmas about those functions state what the source promises.

Behaviour that the code has, and that the model keeps:

- **Sentinel and stale index.** The greedy scan starts from
  `Integer.MAX_VALUE` and compares with a strict `<`. The index it remembers
  (`nextPixel`) is set to 0 once per run and carried from step to step. The
  model keeps both, so it describes every matrix. The tour lemmas assume
  every entry is below the sentinel (`BelowSentinel`). Then every step picks
  a fresh point, and ties go to the lowest index.
- **Closing edge counted twice.** The recorded total is the N-1 greedy
  distances plus twice the entry from the start to the last point.
  - A closed tour's length counts the closing edge once. The code adds
    `d[s][last]` twice (AlgorithmDrawing.java:219), and the model follows
    the code.
  - `TourTotalCountsClosingTwice` and `TourTotalExceedsClosedLength` state
    the difference.
- **One shared list.** Every run clears and refills the same list object and
  stores that object under its start.
  - After all runs, every entry of the tour map is the tour of the last start,
    N-1.
  - That tour is drawn, whichever start the selection picks.
  - Because one list object is cleared and stored for every start
    (AlgorithmDrawing.java:176, 223), the tour drawn is the last start's, not
    the selected start's. `LastTourIsNotBest` gives three points where the
    two differ.
- **Selection edge cases.** The selection scan returns -1 when no total lies
  below the sentinel, which includes the case N = 0.
  - With N >= 2 and no start selected, the lookup of the tour fails. The
    model returns `None` there.
  - With N < 2, nothing is drawn.
- **Closing edge not drawn.** The drawing loop draws N-1 lines, and the
  closing edge back to the start is not among them (`ClosingEdgeNotDrawn`).

External inputs are parameters:

- `Math.random()` becomes `coins: seq<bool>`. Entry `CellIndex(width, x, y)`
  is true when the draw made for cell (x, y) is below 0.5. That is one draw
  per grid cell, in visiting order.
- `Math.hypot` becomes `hypot: (int, int) -> real`. Distances are `real`.
- The image is a grid of RGB triples.

## Model

| member | source | states |
|---|---|---|
| Raster.StrideCount | AlgorithmDrawing.java:116-117 | the number of grid coordinates `0, 4, 8, ...` below a dimension: they cover it, and one fewer would not |
| Raster.CellIndexInRange | AlgorithmDrawing.java:116-120 | the draw index of every grid cell inside the image lies among the first rows*columns draws |
| Raster.CellIndexOrdered | AlgorithmDrawing.java:116-120 | a grid cell visited before another (earlier row, or same row and further left) has the smaller draw index: draws are made in visiting order |
| Raster.CellIndexInjective | AlgorithmDrawing.java:116-120 | two grid cells inside the image share a draw index exactly when they are the same cell: each cell has a draw of its own |
| Raster.IncreasingDeterminedByElements | AlgorithmDrawing.java:116-128 | two strictly increasing point sequences with the same elements are equal |
| Drawing.IntList.constructor | AlgorithmDrawing.java:48 | the list starts empty |
| Drawing.IntList.Clear | AlgorithmDrawing.java:176 | clearing leaves the list empty |
| Drawing.IntList.Add | AlgorithmDrawing.java:186 | adding appends exactly one entry at the end |
| Drawing.AlgorithmDrawing.constructor | AlgorithmDrawing.java:42-51 | a fresh grid of the image's size with every cell unset, empty coordinate lists, an empty shared list and empty maps |
| Drawing.AlgorithmDrawing.CreateAllPixelsArray | AlgorithmDrawing.java:84-105 | afterwards every cell of the width x height grid is Black exactly when one channel of the image pixel is at most 110, and White otherwise |
| Drawing.AlgorithmDrawing.DrawPixelledImage | AlgorithmDrawing.java:112-135 | the points appended are exactly `Sample(coins)`, and the coordinate lists and the count grow together |
| Drawing.AlgorithmDrawing.SampleRow | AlgorithmDrawing.java:117-132 | one pass of the inner loop appends exactly the accepted cells of that row, left to right |
| Drawing.AlgorithmDrawing.SampleCell | AlgorithmDrawing.java:120-129 | a cell is appended when its draw is below 0.5 and it is black, and is skipped otherwise |
| Drawing.AlgorithmDrawing.AddPoint | AlgorithmDrawing.java:126-128 | both coordinate lists grow by the point and the count grows by one |
| Drawing.AlgorithmDrawing.RowUpToAccepted | AlgorithmDrawing.java:117-129 | every point a row pass appends is an accepted cell of that row, left of where the pass has reached |
| Drawing.AlgorithmDrawing.RowUpToIncreasing | AlgorithmDrawing.java:117-129 | a row pass appends points strictly left to right |
| Drawing.AlgorithmDrawing.RowUpToComplete | AlgorithmDrawing.java:117-129 | every accepted cell of the row left of where the pass has reached was appended |
| Drawing.AlgorithmDrawing.RowsUpToAccepted | AlgorithmDrawing.java:116-133 | every point appended by the first r rows is an accepted cell above row 4r |
| Drawing.AlgorithmDrawing.RowsUpToIncreasing | AlgorithmDrawing.java:116-133 | the points appended by the first r rows are in strictly increasing (y, x) order |
| Drawing.AlgorithmDrawing.RowsUpToComplete | AlgorithmDrawing.java:116-133 | every accepted cell above row 4r is appended by the first r rows |
| Drawing.AlgorithmDrawing.SampleIsAcceptedInOrder | AlgorithmDrawing.java:116-133 | the sample is strictly increasing in (y, x), so it has no duplicates, and a point is in it exactly when it is an accepted cell (on the grid, inside the image, its draw below 0.5, black) |
| Drawing.AlgorithmDrawing.SampleUnique | AlgorithmDrawing.java:116-133 | any strictly increasing sequence holding exactly the accepted cells is the sample: what the sampler appends is fixed by which cells are accepted |
| Distances.DistanceMatrix | AlgorithmDrawing.java:229-244 | the matrix is N x N |
| Drawing.AlgorithmDrawing.CreateDistanceAdjacencyMatrix | AlgorithmDrawing.java:229-244 | a fresh N x N matrix equal to `DistanceMatrix(points, hypot)` |
| Drawing.AlgorithmDrawing.FillRow | AlgorithmDrawing.java:235-241 | after the inner loop for j, the top-left (j+1) x (j+1) block holds its final values |
| Distances.DistanceMatrixSymmetric | AlgorithmDrawing.java:239-240 | the matrix is symmetric for any distance function, because both cells are written with the same value |
| Distances.DistanceMatrixDiagonal | AlgorithmDrawing.java:236-240 | the diagonal is zero when the distance of (0, 0) is zero |
| Distances.DistanceMatrixIsPairwise | AlgorithmDrawing.java:236 | for a distance function that ignores sign, as `Math.hypot` does, cell (a, b) is the distance between points a and b |
| Distances.DistancesBelowSentinel | AlgorithmDrawing.java:236 | when every pairwise distance is below `Integer.MAX_VALUE`, the matrix meets the sentinel assumption of the tour lemmas |
| NearestNeighbour.Nearest | AlgorithmDrawing.java:191-203 | the scan's index is the stale `nextPixel` or one of the indices scanned |
| NearestNeighbour.NearestIsMinimal | AlgorithmDrawing.java:191-203 | the scan either keeps the stale index with the sentinel, or returns an unvisited index whose entry is no larger than any unvisited entry, and strictly smaller than those of lower index |
| NearestNeighbour.Step | AlgorithmDrawing.java:193-213 | one step marks the pick, moves to it and appends it |
| NearestNeighbour.Walked | AlgorithmDrawing.java:189-215 | after t steps the list has t+1 valid indices |
| NearestNeighbour.Tour | AlgorithmDrawing.java:176-217 | a run's list has N+1 valid entries and begins and ends with the start |
| NearestNeighbour.StartStaysFirst | AlgorithmDrawing.java:183-186 | the start stays the first entry of the list |
| NearestNeighbour.StepConsistent | AlgorithmDrawing.java:189-215 | below the sentinel, a step keeps the list duplicate-free, the flags equal to list membership, one more flag set, and the total equal to the sum of the edges walked |
| NearestNeighbour.MoveKeepsConsistent | AlgorithmDrawing.java:205-213 | marking, moving to and listing an unvisited point, and adding its entry, keeps the run's state consistent |
| NearestNeighbour.WalkedConsistent | AlgorithmDrawing.java:189-215 | below the sentinel, every state of a run is consistent |
| NearestNeighbour.WalkedTotal | AlgorithmDrawing.java:207-211 | below the sentinel, the running total is the sum of the edges walked and the current point is the last one listed |
| NearestNeighbour.WalkPrefix | AlgorithmDrawing.java:213 | a later list starts with an earlier one |
| NearestNeighbour.TourPrefix | AlgorithmDrawing.java:213-217 | the first t+1 entries of the finished list are the list after t steps |
| NearestNeighbour.TourIsPermutation | AlgorithmDrawing.java:176-217 | below the sentinel, the list has N+1 entries, begins and ends with the start, and its first N entries are a permutation of 0..N-1 |
| NearestNeighbour.StepIsGreedy | AlgorithmDrawing.java:191-205 | below the sentinel, every step moves to an unvisited point that is nearest, with ties going to the lowest index |
| NearestNeighbour.GreedyChoice | AlgorithmDrawing.java:191-213 | each entry after the first was unvisited when chosen, is no farther from its predecessor than any unvisited point, and is strictly nearer than unvisited points of lower index |
| NearestNeighbour.TourTotalCountsClosingTwice | AlgorithmDrawing.java:211-221 | the recorded total is the sum of the N-1 greedy edges plus twice the entry from the start to the last point |
| NearestNeighbour.ClosingCountedTwice | AlgorithmDrawing.java:217-219 | appending the start leaves the sum of the greedy edges alone, and the closing entry is added twice |
| NearestNeighbour.TourTotalExceedsClosedLength | AlgorithmDrawing.java:219 | on a symmetric matrix the recorded total is the closed tour's length plus the closing edge once more |
| NearestNeighbour.DegenerateTotals | AlgorithmDrawing.java:189-219 | on a symmetric matrix below the sentinel: one point with a zero diagonal gives the list [0, 0] and total 0; two points give [s, 1-s, s] and total 3*d[0][1] |
| NearestNeighbour.SquareTour | AlgorithmDrawing.java:175-227 | on the four corners of a square the run from corner 0 goes round the square, taking the tie to corner 1, and records five sides |
| Drawing.AlgorithmDrawing.NearestUnvisited | AlgorithmDrawing.java:191-203 | the inner scan returns exactly `Nearest` of the current row, the visited flags and the stale index |
| Drawing.AlgorithmDrawing.GreedySteps | AlgorithmDrawing.java:189-215 | after the outer loop, the flags, position, list and total are those of `Walked(m, s, N-1)` |
| Drawing.AlgorithmDrawing.CloseTour | AlgorithmDrawing.java:217-219 | appending the start and adding the closing entry twice gives `Tour(m, s)` and `TourTotal(m, s)` |
| Drawing.AlgorithmDrawing.ApplyTravellingSalesmanAlg | AlgorithmDrawing.java:175-227 | on a freshly allocated visited array, the shared list becomes the run's tour, the start's total is recorded, and the shared list itself is stored under the start |
| TourSelection.TableGrows | AlgorithmDrawing.java:221 | recording the next start's total extends the table of totals by exactly that entry |
| Drawing.AlgorithmDrawing.RecordRun | AlgorithmDrawing.java:69 | one run records its own total under its start, keeps both maps on the same keys and leaves its tour in the shared list |
| Drawing.AlgorithmDrawing.RunFromEveryStart | AlgorithmDrawing.java:68-70 | after all runs, both maps have the keys 0..N-1, start k has its own total, every tour entry is the shared list, and that list holds the last start's tour |
| TourSelection.FirstMin | AlgorithmDrawing.java:143-153 | the scan returns -1 with the sentinel, or a start whose total is below the sentinel; that total is no larger than any other, and strictly smaller than those of lower starts |
| TourSelection.InKeyOrder | AlgorithmDrawing.java:147-150 | reading a map with keys 0..size-1 in key order gives its values at those keys |
| TourSelection.InKeyOrderOfTable | AlgorithmDrawing.java:147-150 | the map of totals read in key order is the table of run totals |
| Drawing.AlgorithmDrawing.SelectStart | AlgorithmDrawing.java:143-153 | the selection loop returns exactly `FirstMin` of the recorded totals in key order |
| TourSelection.TourSegments | AlgorithmDrawing.java:159-161 | the drawing loop draws N-1 lines, the k-th from entry k to entry k+1 of the tour |
| Drawing.AlgorithmDrawing.DrawTour | AlgorithmDrawing.java:159-161 | the lines drawn are exactly `TourSegments` of the points and the tour |
| Drawing.AlgorithmDrawing.DrawShortestTour | AlgorithmDrawing.java:141-163 | select the first smallest total; draw nothing for N < 2; fail when no start was selected; otherwise draw the shared list's lines |
| TourSelection.ClosingEdgeNotDrawn | AlgorithmDrawing.java:159-161 | on a matrix below the sentinel, for N >= 2 distinct points, N-1 lines are drawn and the closing edge is not among them (from three points on, in neither direction) |
| TourSelection.LineRunFrom0 | AlgorithmDrawing.java:189-215 | on points at 0, 4 and 12, the run from 0 visits 0, 1, 2 |
| TourSelection.LineRunFrom1 | AlgorithmDrawing.java:189-215 | on the same points, the run from 1 visits 1, 0, 2 |
| TourSelection.LineRunFrom2 | AlgorithmDrawing.java:189-215 | on the same points, the run from 2 visits 2, 1, 0 |
| TourSelection.LastTourIsNotBest | AlgorithmDrawing.java:68-75 | on three points the selection picks start 1, but the shared list holds the tour of start 2, which differs from start 1's tour |
| Drawing.AlgorithmDrawing.BuildGraph | AlgorithmDrawing.java:59-61 | after classifying, sampling and building the matrix, the grid is classified, the points are exactly the accepted cells in visiting order, and the matrix is their distance matrix |
| Drawing.AlgorithmDrawing.RunAndDraw | AlgorithmDrawing.java:68-75 | the runs record every start's total, the shared list holds the last tour, the selection is `FirstMin` of the totals, and the lines are those of the last start's tour |
| Drawing.AlgorithmDrawing.CreateTravellingSalesmanDrawing | AlgorithmDrawing.java:58-78 | the whole pipeline: classified grid, sampled points, their matrix, every start's total, selection by `FirstMin`, and lines drawn along the tour of start N-1 (none for N < 2, a failed lookup when nothing is selected) |

## Left out

- Image reading, the image file written by `createImageFile`, and the whole
  of `DrawingMain.java` are file I/O. `DrawingMain.java` is not part of this
  model.
- The canvas is left out: drawing through `java.awt` (`fillOval`, `drawLine`,
  the anti-aliasing hint) and whitening the image with `setRGB`. The drawing
  loop is modelled as the list of segments it would draw, and the image is
  never written to.
- `Color` packing and unpacking of `getRGB` is library code. Pixels are RGB
  triples.
- `Math.random()` is a parameter, `coins`, with one draw per grid cell. Its
  distribution is not modelled.
- `Math.hypot` is a parameter, and doubles are `real`s. Rounding and the
  square root are not modelled. Comparisons against `Integer.MAX_VALUE` use
  the exact value 2147483647.
- `applyDijkstraAlg` has an empty body and is not modelled.
- The console output (`System.out.println`) is not modelled.
- The tour lemmas assume every matrix entry is below `Integer.MAX_VALUE`.
  Without that, the model still computes what the code computes, stale
  index included, but nothing is proved about the result.
