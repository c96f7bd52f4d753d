/** Square matrices of distances, the sentinel the scans start from, and the
    shape properties the builder establishes and the tour relies on. */
module Matrices {

  /** Integer.MAX_VALUE, the value both scans start from. */
  const IntMax: real := 2147483647.0

  predicate IsSquare(m: seq<seq<real>>) {
    forall i :: 0 <= i < |m| ==> |m[i]| == |m|
  }

  /** Every entry is smaller than the sentinel, so every scan over a
      non-empty set of candidates finds one of them. */
  predicate BelowSentinel(m: seq<seq<real>>) {
    IsSquare(m) && forall i, j :: 0 <= i < |m| && 0 <= j < |m| ==> m[i][j] < IntMax
  }

  predicate Symmetric(m: seq<seq<real>>)
    requires IsSquare(m)
  {
    forall i, j :: 0 <= i < |m| && 0 <= j < |m| ==> m[i][j] == m[j][i]
  }
}
