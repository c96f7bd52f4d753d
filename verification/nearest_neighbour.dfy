/** The nearest-neighbour travelling-salesman heuristic of AlgorithmDrawing, as
    functions over a distance matrix given as a sequence of rows.

    The scan that picks the next point is seeded with the sentinel
    Integer.MAX_VALUE and compares with a strict `<`; the index it remembers
    is carried over from the previous step (it starts at 0). The functions
    below keep both quirks, so they describe what the code does on every
    matrix; the lemmas state what that means when every entry lies below
    the sentinel. */
module NearestNeighbour {
  import opened Matrices

  /** The index a scan settled on and the distance it recorded. */
  datatype Pick = Pick(index: int, dist: real)

  /** The inner loop of one greedy step after it has looked at indices
      0..k-1 of `row`: an unvisited entry replaces the running minimum only
      when it is strictly smaller. If nothing beats the sentinel the stale
      index `fallback` survives. */
  function Nearest(row: seq<real>, visited: seq<bool>, k: nat, fallback: int): (p: Pick)
    requires k <= |row| && k <= |visited|
    ensures p.index == fallback || 0 <= p.index < k
    decreases k
  {
    if k == 0 then Pick(fallback, IntMax)
    else
      var p := Nearest(row, visited, k - 1, fallback);
      if !visited[k - 1] && row[k - 1] < p.dist then Pick(k - 1, row[k - 1]) else p
  }

  /** What a scan of indices 0..k-1 is meant to find: a distance no larger
      than the sentinel; the stale index exactly when nothing beat the
      sentinel; otherwise an unvisited index whose entry is the recorded
      distance, no larger than any other unvisited entry looked at and
      strictly smaller than those before it. */
  ghost predicate IsNearest(row: seq<real>, visited: seq<bool>, k: nat, fallback: int, p: Pick)
    requires k <= |row| && k <= |visited|
  {
    && p.dist <= IntMax
    && (p.dist == IntMax ==> p.index == fallback)
    && (p.dist < IntMax ==> 0 <= p.index < k && !visited[p.index] && row[p.index] == p.dist)
    && (forall j :: 0 <= j < k && !visited[j] ==> p.dist <= row[j])
    && (p.dist < IntMax ==> forall j :: 0 <= j < p.index && !visited[j] ==> p.dist < row[j])
  }

  /** The scan finds what it is meant to. */
  lemma {:induction false} NearestIsMinimal(row: seq<real>, visited: seq<bool>, k: nat, fallback: int)
    requires k <= |row| && k <= |visited|
    ensures IsNearest(row, visited, k, fallback, Nearest(row, visited, k, fallback))
    decreases k
  {
    if k > 0 {
      NearestIsMinimal(row, visited, k - 1, fallback);
    }
  }

  /** The state of one run: the visited flags, the current point, the
      remembered `nextPixel`, the tour list so far and the running total. */
  datatype Walk = Walk(visited: seq<bool>, current: int, next: int, tour: seq<int>, total: real)

  /** The state before the first greedy step: only `s` is visited, and
      `nextPixel` starts at 0. */
  function Start(n: nat, s: int): Walk {
    Walk(seq(n, i => i == s), s, 0, [s], 0.0)
  }

  /** One iteration of the outer loop: scan the current row, mark the pick,
      move to it, append it and add the recorded distance. */
  function Step(m: seq<seq<real>>, w: Walk): (w': Walk)
    requires IsSquare(m) && |w.visited| == |m|
    requires 0 <= w.current < |m| && 0 <= w.next < |m|
    ensures |w'.visited| == |m| && 0 <= w'.current < |m| && w'.next == w'.current
    ensures w'.tour == w.tour + [w'.current]
    ensures w'.visited == w.visited[w'.current := true]
  {
    var p := Nearest(m[w.current], w.visited, |m|, w.next);
    Walk(w.visited[p.index := true], p.index, p.index, w.tour + [p.index], w.total + p.dist)
  }

  /** The state after `t` greedy steps from start `s`. */
  function Walked(m: seq<seq<real>>, s: int, t: nat): (w: Walk)
    requires IsSquare(m) && 0 <= s < |m|
    ensures |w.visited| == |m| && 0 <= w.current < |m| && 0 <= w.next < |m|
    ensures |w.tour| == t + 1
    ensures forall k :: 0 <= k < |w.tour| ==> 0 <= w.tour[k] < |m|
    decreases t
  {
    if t == 0 then Start(|m|, s) else Step(m, Walked(m, s, t - 1))
  }

  /** The list a run from `s` leaves behind: N-1 greedy steps, then `s`
      appended once more. */
  function Tour(m: seq<seq<real>>, s: int): (r: seq<int>)
    requires IsSquare(m) && 0 <= s < |m|
    ensures |r| == |m| + 1 && r[0] == s && r[|m|] == s
    ensures forall k :: 0 <= k < |r| ==> 0 <= r[k] < |m|
  {
    StartStaysFirst(m, s, |m| - 1);
    Walked(m, s, |m| - 1).tour + [s]
  }

  /** The total a run from `s` records: the greedy distances plus twice the
      entry from `s` to the last point visited. */
  function TourTotal(m: seq<seq<real>>, s: int): real
    requires IsSquare(m) && 0 <= s < |m|
  {
    var w := Walked(m, s, |m| - 1);
    w.total + m[s][w.current] * 2.0
  }

  /** A run's list and total are its N-1 greedy steps followed by the
      return to the start, counted twice. */
  lemma {:induction false} FinishedRun(m: seq<seq<real>>, s: int, w: Walk)
    requires IsSquare(m) && 0 <= s < |m| && w == Walked(m, s, |m| - 1)
    ensures w.tour + [s] == Tour(m, s) && w.total + m[s][w.current] * 2.0 == TourTotal(m, s)
  {
  }

  /** The sum of the first k edges of a visiting order. */
  function StepSum(m: seq<seq<real>>, tour: seq<int>, k: nat): real
    requires IsSquare(m) && k < |tour|
    requires forall i :: 0 <= i < |tour| ==> 0 <= tour[i] < |m|
    decreases k
  {
    if k == 0 then 0.0 else StepSum(m, tour, k - 1) + m[tour[k - 1]][tour[k]]
  }

  /** The number of visited flags that are set. */
  function CountTrue(v: seq<bool>): (c: nat)
    ensures c <= |v|
  {
    if v == [] then 0 else (if v[0] then 1 else 0) + CountTrue(v[1..])
  }

  // ---------------------------------------------------------------------
  // Counting visited flags

  lemma {:induction false} CountTrueNone(v: seq<bool>)
    requires forall i :: 0 <= i < |v| ==> !v[i]
    ensures CountTrue(v) == 0
  {
    if v != [] {
      CountTrueNone(v[1..]);
    }
  }

  /** Setting one flag that was clear adds exactly one. */
  lemma {:induction false} CountTrueSet(v: seq<bool>, i: int)
    requires 0 <= i < |v| && !v[i]
    ensures CountTrue(v[i := true]) == CountTrue(v) + 1
  {
    if i == 0 {
      assert v[i := true][1..] == v[1..];
    } else {
      assert v[i := true][1..] == v[1..][i - 1 := true];
      CountTrueSet(v[1..], i - 1);
    }
  }

  /** While fewer flags are set than there are points, some point is unvisited. */
  lemma {:induction false} UnvisitedExists(v: seq<bool>) returns (u: int)
    requires CountTrue(v) < |v|
    ensures 0 <= u < |v| && !v[u]
  {
    if v[0] {
      u := UnvisitedExists(v[1..]);
      u := u + 1;
    } else {
      u := 0;
    }
  }

  /** When every flag is counted, every point is visited. */
  lemma {:induction false} AllVisited(v: seq<bool>)
    requires CountTrue(v) == |v|
    ensures forall i :: 0 <= i < |v| ==> v[i]
  {
    if v != [] {
      AllVisited(v[1..]);
      forall i | 0 <= i < |v| ensures v[i] {
        if i > 0 {
          assert v[i] == v[1..][i - 1];
        }
      }
    }
  }

  // ---------------------------------------------------------------------
  // The shape of a run

  lemma {:induction false} StartStaysFirst(m: seq<seq<real>>, s: int, t: nat)
    requires IsSquare(m) && 0 <= s < |m|
    ensures Walked(m, s, t).tour[0] == s
  {
    if t > 0 {
      StartStaysFirst(m, s, t - 1);
    }
  }

  /** Appending to a visiting order leaves the sums of its existing edges alone. */
  lemma {:induction false} StepSumExtend(m: seq<seq<real>>, tour: seq<int>, x: int, k: nat)
    requires IsSquare(m) && k < |tour| && 0 <= x < |m|
    requires forall i :: 0 <= i < |tour| ==> 0 <= tour[i] < |m|
    ensures forall i :: 0 <= i < |tour + [x]| ==> 0 <= (tour + [x])[i] < |m|
    ensures StepSum(m, tour + [x], k) == StepSum(m, tour, k)
  {
    assert forall i :: 0 <= i < |tour + [x]| ==> 0 <= (tour + [x])[i] < |m|;
    if k > 0 {
      StepSumExtend(m, tour, x, k - 1);
    }
  }

  /** What holds of the state after t steps when every entry lies below the
      sentinel. */
  ghost predicate Consistent(m: seq<seq<real>>, s: int, w: Walk, t: nat)
    requires IsSquare(m) && |w.visited| == |m|
  {
    && |w.tour| == t + 1
    && w.tour[0] == s
    && w.current == w.tour[t]
    && (forall k :: 0 <= k < |w.tour| ==> 0 <= w.tour[k] < |m|)
    && (forall a, b :: 0 <= a < b < |w.tour| ==> w.tour[a] != w.tour[b])
    && (forall i :: 0 <= i < |m| ==> (w.visited[i] <==> i in w.tour))
    && CountTrue(w.visited) == t + 1
    && w.total == StepSum(m, w.tour, t)
  }

  /** One greedy step from a consistent state with an unvisited point left
      reaches a consistent state. */
  lemma {:induction false} StepConsistent(m: seq<seq<real>>, s: int, w0: Walk, t: nat)
    requires BelowSentinel(m) && 0 < t < |m|
    requires |w0.visited| == |m| && 0 <= w0.current < |m| && 0 <= w0.next < |m|
    requires Consistent(m, s, w0, t - 1)
    ensures Consistent(m, s, Step(m, w0), t)
  {
    var u := UnvisitedExists(w0.visited);
    var p := Nearest(m[w0.current], w0.visited, |m|, w0.next);
    NearestIsMinimal(m[w0.current], w0.visited, |m|, w0.next);
    assert p.dist <= m[w0.current][u] < IntMax;
    MoveKeepsConsistent(m, s, w0, t, p.index);
  }

  /** Moving from a consistent state to an unvisited point, marking it,
      listing it and adding the entry to it gives a consistent state. */
  lemma {:induction false} MoveKeepsConsistent(m: seq<seq<real>>, s: int, w0: Walk, t: nat, x: int)
    requires IsSquare(m) && 0 < t && |w0.visited| == |m| && 0 <= w0.current < |m|
    requires Consistent(m, s, w0, t - 1)
    requires 0 <= x < |m| && !w0.visited[x]
    ensures Consistent(m, s, Walk(w0.visited[x := true], x, x, w0.tour + [x], w0.total + m[w0.current][x]), t)
  {
    CountTrueSet(w0.visited, x);
    StepSumExtend(m, w0.tour, x, t - 1);
    AppendFresh(w0.tour, x);
    MarkAndList(w0.visited, w0.tour, x);
  }

  /** Appending a point not yet listed keeps a list duplicate-free. */
  lemma {:induction false} AppendFresh(tour: seq<int>, x: int)
    requires forall a, b :: 0 <= a < b < |tour| ==> tour[a] != tour[b]
    requires x !in tour
    ensures forall a, b :: 0 <= a < b < |tour + [x]| ==> (tour + [x])[a] != (tour + [x])[b]
  {
    var t := tour + [x];
    forall a, b | 0 <= a < b < |t| ensures t[a] != t[b] {
      if b == |tour| {
        assert t[a] == tour[a];
      } else {
        assert t[a] == tour[a] && t[b] == tour[b];
      }
    }
  }

  /** Marking a point and listing it keeps the flags and the list in step. */
  lemma {:induction false} MarkAndList(visited: seq<bool>, tour: seq<int>, x: int)
    requires 0 <= x < |visited|
    requires forall i :: 0 <= i < |visited| ==> (visited[i] <==> i in tour)
    ensures forall i :: 0 <= i < |visited| ==> (visited[x := true][i] <==> i in tour + [x])
  {
    forall i | 0 <= i < |visited| ensures visited[x := true][i] <==> i in tour + [x] {
      assert i in tour + [x] <==> i in tour || i == x;
    }
  }

  /** Every step of a run with entries below the sentinel picks a fresh
      point: the list stays duplicate-free, holds exactly the visited
      points, and the total is the sum of the edges walked. */
  lemma {:induction false} WalkedConsistent(m: seq<seq<real>>, s: int, t: nat)
    requires BelowSentinel(m) && 0 <= s < |m| && t < |m|
    ensures Consistent(m, s, Walked(m, s, t), t)
  {
    var n := |m|;
    if t == 0 {
      var w := Start(n, s);
      var none := seq(n, i => false);
      CountTrueNone(none);
      CountTrueSet(none, s);
      assert none[s := true] == w.visited;
      forall i | 0 <= i < n ensures w.visited[i] <==> i in w.tour {
        assert i in w.tour <==> i == s;
      }
    } else {
      WalkedConsistent(m, s, t - 1);
      StepConsistent(m, s, Walked(m, s, t - 1), t);
    }
  }

  /** With every entry below the sentinel, the running total is the sum of
      the edges walked and the current point is the last one listed. */
  lemma {:induction false} WalkedTotal(m: seq<seq<real>>, s: int, t: nat)
    requires BelowSentinel(m) && 0 <= s < |m| && t < |m|
    ensures var w := Walked(m, s, t); w.current == w.tour[t] && w.total == StepSum(m, w.tour, t)
  {
    WalkedConsistent(m, s, t);
  }

  /** Each step appends the point it moves to. */
  lemma {:induction false} WalkedAppends(m: seq<seq<real>>, s: int, t: nat)
    requires IsSquare(m) && 0 <= s < |m| && 0 < t
    ensures Walked(m, s, t).tour == Walked(m, s, t - 1).tour + [Walked(m, s, t).current]
  {
    assert Walked(m, s, t) == Step(m, Walked(m, s, t - 1));
  }

  /** A later state's list starts with an earlier state's list. */
  lemma {:induction false} WalkPrefix(m: seq<seq<real>>, s: int, t1: nat, t2: nat)
    requires IsSquare(m) && 0 <= s < |m| && t1 <= t2
    ensures Walked(m, s, t2).tour[..t1 + 1] == Walked(m, s, t1).tour
    decreases t2
  {
    if t1 < t2 {
      WalkPrefix(m, s, t1, t2 - 1);
      WalkedAppends(m, s, t2);
      PrefixOfAppend(Walked(m, s, t2 - 1).tour, Walked(m, s, t2).current, t1 + 1);
    }
  }

  /** Appending leaves every prefix of the original alone. */
  lemma {:induction false} PrefixOfAppend(a: seq<int>, x: int, k: nat)
    requires k <= |a|
    ensures (a + [x])[..k] == a[..k]
  {
  }

  /** The first t+1 entries of the finished list are the list after t steps. */
  lemma {:induction false} TourPrefix(m: seq<seq<real>>, s: int, t: nat)
    requires IsSquare(m) && 0 <= s < |m| && t < |m|
    ensures Tour(m, s)[..t + 1] == Walked(m, s, t).tour
  {
    var full := Walked(m, s, |m| - 1);
    WalkPrefix(m, s, t, |m| - 1);
    assert Tour(m, s)[..t + 1] == full.tour[..t + 1];
  }

  // ---------------------------------------------------------------------
  // Properties of the tour

  /** With every entry below the sentinel, the run from `s` lists every point
      exactly once and then `s` again: its first N entries are a permutation
      of 0..N-1. */
  lemma {:induction false} TourIsPermutation(m: seq<seq<real>>, s: int)
    requires BelowSentinel(m) && 0 <= s < |m|
    ensures |Tour(m, s)| == |m| + 1 && Tour(m, s)[0] == s && Tour(m, s)[|m|] == s
    ensures forall k :: 0 <= k <= |m| ==> 0 <= Tour(m, s)[k] < |m|
    ensures forall a, b :: 0 <= a < b < |m| ==> Tour(m, s)[a] != Tour(m, s)[b]
    ensures forall v :: 0 <= v < |m| ==> v in Tour(m, s)[..|m|]
  {
    var w := Walked(m, s, |m| - 1);
    WalkedConsistent(m, s, |m| - 1);
    AllVisited(w.visited);
    assert Tour(m, s)[..|m|] == w.tour;
  }

  /** A step from `w0` to `w` is greedy: it moves to an unvisited point that
      is nearest to the current one, the lowest-indexed among equally near
      ones. */
  ghost predicate Greedy(m: seq<seq<real>>, w0: Walk, w: Walk)
    requires IsSquare(m) && 0 <= w0.current < |m| && 0 <= w.current < |m|
  {
    && w.current !in w0.tour
    && (forall j :: 0 <= j < |m| && j !in w0.tour ==> m[w0.current][w.current] <= m[w0.current][j])
    && (forall j :: 0 <= j < w.current && j !in w0.tour ==> m[w0.current][w.current] < m[w0.current][j])
  }

  /** Every step of a run with entries below the sentinel is greedy. */
  lemma {:induction false} StepIsGreedy(m: seq<seq<real>>, s: int, t: nat)
    requires BelowSentinel(m) && 0 <= s < |m| && 1 <= t < |m|
    ensures Greedy(m, Walked(m, s, t - 1), Walked(m, s, t))
  {
    var w0 := Walked(m, s, t - 1);
    WalkedConsistent(m, s, t - 1);
    assert CountTrue(w0.visited) < |m|;
    var u := UnvisitedExists(w0.visited);
    var p := Nearest(m[w0.current], w0.visited, |m|, w0.next);
    NearestIsMinimal(m[w0.current], w0.visited, |m|, w0.next);
    assert p.dist <= m[w0.current][u] < IntMax;
    assert Walked(m, s, t) == Step(m, w0);
  }

  /** Each point after the first was unvisited when it was chosen, lies no
      farther from its predecessor than any other unvisited point, and is
      strictly nearer than every unvisited point of lower index (ties go to
      the lowest index). */
  lemma {:induction false} GreedyChoice(m: seq<seq<real>>, s: int, k: int)
    requires BelowSentinel(m) && 0 <= s < |m| && 1 <= k < |m|
    ensures Tour(m, s)[k] !in Tour(m, s)[..k]
    ensures forall j :: 0 <= j < |m| && j !in Tour(m, s)[..k] ==>
      m[Tour(m, s)[k - 1]][Tour(m, s)[k]] <= m[Tour(m, s)[k - 1]][j]
    ensures forall j :: 0 <= j < Tour(m, s)[k] && j !in Tour(m, s)[..k] ==>
      m[Tour(m, s)[k - 1]][Tour(m, s)[k]] < m[Tour(m, s)[k - 1]][j]
  {
    var w0 := Walked(m, s, k - 1);
    var w := Walked(m, s, k);
    StepIsGreedy(m, s, k);
    TourPrefix(m, s, k);
    WalkedAppends(m, s, k);
    assert Tour(m, s)[..k] == Tour(m, s)[..k + 1][..k] == w0.tour;
    assert Tour(m, s)[k] == Tour(m, s)[..k + 1][k] == w.current;
    assert Tour(m, s)[k - 1] == w0.tour[k - 1] == w0.current;
  }

  /** The recorded total is the sum of the N-1 greedy edges plus twice the
      entry from the start to the last point: the closing edge is counted
      twice. */
  lemma {:induction false} TourTotalCountsClosingTwice(m: seq<seq<real>>, s: int)
    requires BelowSentinel(m) && 0 <= s < |m|
    ensures forall k :: 0 <= k <= |m| ==> 0 <= Tour(m, s)[k] < |m|
    ensures TourTotal(m, s) == StepSum(m, Tour(m, s), |m| - 1) + 2.0 * m[s][Tour(m, s)[|m| - 1]]
  {
    var w := Walked(m, s, |m| - 1);
    FinishedRun(m, s, w);
    WalkedTotal(m, s, |m| - 1);
    ClosingCountedTwice(m, s, w.tour, w.current, w.total, Tour(m, s), TourTotal(m, s));
  }

  /** The arithmetic of the closing step: appending the start adds nothing
      to the sum of the first N-1 edges, and the entry from the start to the
      last point is added twice. */
  lemma {:induction false} ClosingCountedTwice(m: seq<seq<real>>, s: int, tour: seq<int>, current: int, total: real,
                            t: seq<int>, recorded: real)
    requires IsSquare(m) && 0 <= s < |m| && |tour| == |m| && current == tour[|m| - 1]
    requires forall i :: 0 <= i < |tour| ==> 0 <= tour[i] < |m|
    requires total == StepSum(m, tour, |m| - 1)
    requires t == tour + [s] && recorded == total + m[s][current] * 2.0
    ensures forall i :: 0 <= i < |t| ==> 0 <= t[i] < |m|
    ensures recorded == StepSum(m, t, |m| - 1) + 2.0 * m[s][t[|m| - 1]]
  {
    StepSumExtend(m, tour, s, |m| - 1);
  }

  /** On a symmetric matrix the recorded total is the length of the closed
      tour (all N edges) plus the closing edge once more. */
  lemma {:induction false} TourTotalExceedsClosedLength(m: seq<seq<real>>, s: int)
    requires BelowSentinel(m) && Symmetric(m) && 0 <= s < |m|
    ensures forall k :: 0 <= k <= |m| ==> 0 <= Tour(m, s)[k] < |m|
    ensures TourTotal(m, s) == StepSum(m, Tour(m, s), |m|) + m[Tour(m, s)[|m| - 1]][s]
  {
    TourTotalCountsClosingTwice(m, s);
  }

  /** One point: no step is taken and the total is twice the diagonal entry,
      so 0 on a zero diagonal. Two points: the single step plus the same edge
      twice, i.e. three times d[0][1], not an out-and-back 2*d[0][1]. */
  lemma {:induction false} DegenerateTotals(m: seq<seq<real>>, s: int)
    requires BelowSentinel(m) && Symmetric(m) && 0 <= s < |m|
    ensures |m| == 1 && m[0][0] == 0.0 ==> Tour(m, s) == [0, 0] && TourTotal(m, s) == 0.0
    ensures |m| == 2 ==> Tour(m, s) == [s, 1 - s, s] && TourTotal(m, s) == 3.0 * m[0][1]
  {
    if |m| == 2 {
      TourIsPermutation(m, s);
      TourTotalCountsClosingTwice(m, s);
      var t := Tour(m, s);
      assert t[1] == 1 - s by {
        assert 1 - s in t[..2];
      }
    }
  }

  /** Four points at the corners of a square, in the order (0,0), (0,10),
      (10,10), (10,0): sides `d`, diagonals `e > d`. The run from corner 0
      goes round the square (the tie between corners 1 and 3 goes to 1), and
      the total it records is five sides, not the perimeter of four. */
  lemma {:induction false} SquareTour(d: real, e: real)
    requires 0.0 <= d < e < IntMax
    ensures var m := [[0.0, d, e, d], [d, 0.0, d, e], [e, d, 0.0, d], [d, e, d, 0.0]];
      Tour(m, 0) == [0, 1, 2, 3, 0] && TourTotal(m, 0) == 5.0 * d
  {
    var m := [[0.0, d, e, d], [d, 0.0, d, e], [e, d, 0.0, d], [d, e, d, 0.0]];
    var w0 := Walked(m, 0, 0);
    assert w0.visited == [true, false, false, false];
    var w1 := Walked(m, 0, 1);
    assert w1 == Step(m, w0);
    assert Nearest(m[0], w0.visited, 4, 0) == Pick(1, d);
    assert w1.visited == [true, true, false, false];
    var w2 := Walked(m, 0, 2);
    assert w2 == Step(m, w1);
    assert Nearest(m[1], w1.visited, 4, 1) == Pick(2, d);
    assert w2.visited == [true, true, true, false];
    var w3 := Walked(m, 0, 3);
    assert w3 == Step(m, w2);
    assert Nearest(m[2], w2.visited, 4, 2) == Pick(3, d);
  }
}
