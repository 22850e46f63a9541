/** The weight matrix of the graph and the paths an ant walks over it. */
module Weights {

  /** weights[u][v] is the cost of the edge u -> v; 0.0 means there is no such edge. */
  type Matrix = seq<seq<real>>

  /** Every row is as long as there are rows (an N x N matrix). */
  predicate IsSquare(m: Matrix) {
    forall i :: 0 <= i < |m| ==> |m[i]| == |m|
  }

  predicate NonNegative(m: Matrix) {
    forall i, j :: 0 <= i < |m| && 0 <= j < |m[i]| ==> m[i][j] >= 0.0
  }

  /** Every node of p is a node of m. */
  predicate InRange(m: Matrix, p: seq<nat>) {
    forall k :: 0 <= k < |p| ==> p[k] < |m|
  }

  predicate NoDuplicates(p: seq<nat>) {
    forall i, j :: 0 <= i < j < |p| ==> p[i] != p[j]
  }

  /** Every consecutive pair of p is an edge of m. */
  predicate UsesEdges(m: Matrix, p: seq<nat>)
    requires IsSquare(m) && InRange(m, p)
  {
    forall k :: 0 <= k < |p| - 1 ==> m[p[k]][p[k + 1]] != 0.0
  }

  /** A path as an ant builds it: nodes of m, none twice, joined by edges of m. */
  predicate SimplePath(m: Matrix, p: seq<nat>) {
    IsSquare(m) && InRange(m, p) && NoDuplicates(p) && UsesEdges(m, p)
  }

  /** The sum of the edge weights along p, added up from the first edge to the last. */
  function PathWeight(m: Matrix, p: seq<nat>): real
    requires IsSquare(m) && InRange(m, p)
  {
    if |p| < 2 then 0.0 else PathWeight(m, p[..|p| - 1]) + m[p[|p| - 2]][p[|p| - 1]]
  }

  /** Appending a node adds exactly the weight of the new last edge. */
  lemma PathWeightAppend(m: Matrix, p: seq<nat>, v: nat)
    requires IsSquare(m) && InRange(m, p) && |p| > 0 && v < |m|
    ensures InRange(m, p + [v])
    ensures PathWeight(m, p + [v]) == PathWeight(m, p) + m[p[|p| - 1]][v]
  {
    assert (p + [v])[..|p|] == p;
  }

  /** On a non-negative matrix a path that uses at least one edge has positive weight. */
  lemma {:induction false} PathWeightPositive(m: Matrix, p: seq<nat>)
    requires IsSquare(m) && NonNegative(m) && InRange(m, p) && UsesEdges(m, p)
    ensures PathWeight(m, p) >= 0.0
    ensures |p| >= 2 ==> PathWeight(m, p) > 0.0
  {
    if |p| >= 2 {
      var q := p[..|p| - 1];
      PathWeightPositive(m, q);
      assert m[p[|p| - 2]][p[|p| - 1]] != 0.0;
    }
  }

  /** A path with no repeated node among the nodes 0 .. n-1 has at most n nodes. */
  lemma {:induction false} DistinctBounded(p: seq<nat>, n: nat)
    requires NoDuplicates(p)
    requires forall k :: 0 <= k < |p| ==> p[k] < n
    ensures |p| <= n
    decreases n
  {
    if |p| > 0 {
      var x := p[|p| - 1];
      // drop the last node and close the gap it leaves among 0 .. n-1
      var q: seq<nat> := seq(|p| - 1, k requires 0 <= k < |p| - 1 => if p[k] > x then p[k] - 1 else p[k]);
      forall i, j | 0 <= i < j < |q| ensures q[i] != q[j] {
        assert p[i] != p[j] && p[i] != x && p[j] != x;
      }
      forall k | 0 <= k < |q| ensures q[k] < n - 1 {
        assert p[k] != x;
      }
      DistinctBounded(q, n - 1);
    }
  }
}
