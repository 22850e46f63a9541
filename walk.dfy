/** What one ant's construction of a path computes, stated as functions over the two matrices.
  * The random numbers the ant draws are a supplied stream `draws`, read from position `pos` on. */
module AntWalk {
  import opened Weights
  import opened Pheromones

  /** The desirability of an edge from its pheromone and its weight: pow(tau, 0.4) * pow(1 / w, 0.6)
    * in the program, kept abstract here. */
  type Score = (real, real) -> real

  /** Positive pheromone on a positive weight gives a positive desirability. */
  ghost predicate ScorePositive(score: Score) {
    forall t: real, x: real :: t > 0.0 && x > 0.0 ==> score(t, x) > 0.0
  }

  /** The weight matrix is N x N and the pheromone matrix has the same size. */
  predicate Shaped(w: Matrix, tau: seq<seq<real>>) {
    IsSquare(w) && |tau| == |w| && forall i :: 0 <= i < |tau| ==> |tau[i]| == |w|
  }

  /** From u the ant may move to v: there is an edge and v is not yet on its path. */
  predicate Feasible(w: Matrix, path: seq<nat>, u: nat, v: nat)
    requires IsSquare(w) && u < |w| && v < |w|
  {
    w[u][v] != 0.0 && v !in path
  }

  function Desire(w: Matrix, tau: seq<seq<real>>, score: Score, u: nat, v: nat): real
    requires Shaped(w, tau) && u < |w| && v < |w|
  {
    score(tau[u][v], w[u][v])
  }

  /** `balanceSum`: the desirabilities of the feasible moves from u to the nodes 0 .. n-1, added in index order. */
  function BalanceSum(w: Matrix, tau: seq<seq<real>>, score: Score, path: seq<nat>, u: nat, n: nat): (b: real)
    requires Shaped(w, tau) && u < |w| && n <= |w|
    ensures (forall v :: 0 <= v < n ==> !Feasible(w, path, u, v)) ==> b == 0.0
  {
    if n == 0 then 0.0
    else BalanceSum(w, tau, score, path, u, n - 1)
         + (if Feasible(w, path, u, n - 1) then Desire(w, tau, score, u, n - 1) else 0.0)
  }

  /** The number of feasible moves from u to the nodes i .. j-1: each of them takes one draw in a scan. */
  function CountFeasible(w: Matrix, path: seq<nat>, u: nat, i: nat, j: nat): (c: nat)
    requires IsSquare(w) && u < |w| && i <= j <= |w|
    ensures c == 0 ==> forall v :: i <= v < j ==> !Feasible(w, path, u, v)
    ensures c <= j - i
    decreases j - i
  {
    if i == j then 0
    else (if Feasible(w, path, u, i) then 1 else 0) + CountFeasible(w, path, u, i + 1, j)
  }

  /** The draw at position k exists and does not fall below the probability of moving from u to v. */
  predicate Fails(w: Matrix, tau: seq<seq<real>>, score: Score, u: nat, v: nat, balance: real, draws: seq<real>, k: nat)
    requires Shaped(w, tau) && u < |w| && v < |w| && balance != 0.0
  {
    k < |draws| && draws[k] >= Desire(w, tau, score, u, v) / balance
  }

  /** How one scan over the neighbours ends. */
  datatype Draw = Moved(next: nat, pos: nat) | NoMove(pos: nat) | OutOfDraws

  /** One scan of the nodes i .. N-1 from u: each feasible node in turn takes the next draw and the ant
    * moves to the first whose draw falls below its probability Desire / balance. */
  function Scan(w: Matrix, tau: seq<seq<real>>, score: Score, path: seq<nat>, u: nat, balance: real,
                draws: seq<real>, pos: nat, i: nat): (r: Draw)
    requires Shaped(w, tau) && u < |w| && i <= |w| && balance != 0.0 && pos <= |draws|
    ensures r.Moved? ==> i <= r.next < |w| && Feasible(w, path, u, r.next) && pos < r.pos <= |draws|
    ensures r.NoMove? ==> r.pos == pos + CountFeasible(w, path, u, i, |w|) <= |draws|
    decreases |w| - i
  {
    if i == |w| then NoMove(pos)
    else if !Feasible(w, path, u, i) then Scan(w, tau, score, path, u, balance, draws, pos, i + 1)
    else if pos == |draws| then OutOfDraws
    else if draws[pos] < Desire(w, tau, score, u, i) / balance then Moved(i, pos + 1)
    else Scan(w, tau, score, path, u, balance, draws, pos + 1, i + 1)
  }

  /** Which node a scan picks: the lowest-indexed feasible node whose draw succeeds. The feasible nodes take
    * consecutive draws from `pos`, every one before the pick failed, and the pick's own draw fell below its
    * probability. */
  lemma {:induction false} ScanPicksFirstSuccess(w: Matrix, tau: seq<seq<real>>, score: Score, path: seq<nat>, u: nat,
                                                 balance: real, draws: seq<real>, pos: nat, i: nat)
    requires Shaped(w, tau) && u < |w| && i <= |w| && balance != 0.0 && pos <= |draws|
    ensures var r := Scan(w, tau, score, path, u, balance, draws, pos, i);
      r.Moved? ==>
        r.pos == pos + CountFeasible(w, path, u, i, r.next) + 1
        && draws[r.pos - 1] < Desire(w, tau, score, u, r.next) / balance
        && forall v :: i <= v < r.next && Feasible(w, path, u, v) ==>
             Fails(w, tau, score, u, v, balance, draws, pos + CountFeasible(w, path, u, i, v))
    decreases |w| - i
  {
    if i < |w| {
      var r := Scan(w, tau, score, path, u, balance, draws, pos, i);
      if !Feasible(w, path, u, i) {
        ScanPicksFirstSuccess(w, tau, score, path, u, balance, draws, pos, i + 1);
        if r.Moved? {
          assert CountFeasible(w, path, u, i, r.next) == CountFeasible(w, path, u, i + 1, r.next);
          forall v | i < v < r.next
            ensures CountFeasible(w, path, u, i, v) == CountFeasible(w, path, u, i + 1, v)
          {
          }
        }
      } else if pos < |draws| && draws[pos] >= Desire(w, tau, score, u, i) / balance {
        ScanPicksFirstSuccess(w, tau, score, path, u, balance, draws, pos + 1, i + 1);
        if r.Moved? {
          assert CountFeasible(w, path, u, i, r.next) == 1 + CountFeasible(w, path, u, i + 1, r.next);
          forall v | i < v < r.next
            ensures CountFeasible(w, path, u, i, v) == 1 + CountFeasible(w, path, u, i + 1, v)
          {
          }
        }
      }
    }
  }

  /** A scan that picks nothing had a failing draw for every feasible node, one after the other. */
  lemma {:induction false} ScanNoMoveAllFail(w: Matrix, tau: seq<seq<real>>, score: Score, path: seq<nat>, u: nat,
                                             balance: real, draws: seq<real>, pos: nat, i: nat)
    requires Shaped(w, tau) && u < |w| && i <= |w| && balance != 0.0 && pos <= |draws|
    ensures Scan(w, tau, score, path, u, balance, draws, pos, i).NoMove? ==>
      forall v :: i <= v < |w| && Feasible(w, path, u, v) ==>
        Fails(w, tau, score, u, v, balance, draws, pos + CountFeasible(w, path, u, i, v))
    decreases |w| - i
  {
    if i < |w| && Scan(w, tau, score, path, u, balance, draws, pos, i).NoMove? {
      if !Feasible(w, path, u, i) {
        ScanNoMoveAllFail(w, tau, score, path, u, balance, draws, pos, i + 1);
        forall v | i < v < |w|
          ensures CountFeasible(w, path, u, i, v) == CountFeasible(w, path, u, i + 1, v)
        {
        }
      } else {
        ScanNoMoveAllFail(w, tau, score, path, u, balance, draws, pos + 1, i + 1);
        forall v | i < v < |w|
          ensures CountFeasible(w, path, u, i, v) == 1 + CountFeasible(w, path, u, i + 1, v)
        {
        }
      }
    }
  }

  /** A scan runs out of draws only when the feasible nodes need more draws than are left; the draws that
    * were there all failed. */
  lemma {:induction false} ScanOutOfDrawsShort(w: Matrix, tau: seq<seq<real>>, score: Score, path: seq<nat>, u: nat,
                                               balance: real, draws: seq<real>, pos: nat, i: nat)
    requires Shaped(w, tau) && u < |w| && i <= |w| && balance != 0.0 && pos <= |draws|
    ensures Scan(w, tau, score, path, u, balance, draws, pos, i).OutOfDraws? ==>
      pos + CountFeasible(w, path, u, i, |w|) > |draws|
      && forall v :: i <= v < |w| && Feasible(w, path, u, v) && pos + CountFeasible(w, path, u, i, v) < |draws| ==>
           Fails(w, tau, score, u, v, balance, draws, pos + CountFeasible(w, path, u, i, v))
    decreases |w| - i
  {
    if i < |w| && Scan(w, tau, score, path, u, balance, draws, pos, i).OutOfDraws? {
      if !Feasible(w, path, u, i) {
        ScanOutOfDrawsShort(w, tau, score, path, u, balance, draws, pos, i + 1);
        forall v | i < v <= |w|
          ensures CountFeasible(w, path, u, i, v) == CountFeasible(w, path, u, i + 1, v)
        {
        }
      } else if pos < |draws| {
        ScanOutOfDrawsShort(w, tau, score, path, u, balance, draws, pos + 1, i + 1);
        forall v | i < v <= |w|
          ensures CountFeasible(w, path, u, i, v) == 1 + CountFeasible(w, path, u, i + 1, v)
        {
        }
      } else {
        assert CountFeasible(w, path, u, i, |w|) >= 1;
      }
    }
  }

  /** How a construction ends; DrawsExhausted is the model's own: the supplied stream ran out. */
  datatype Ending = Arrived | Stuck | DrawsExhausted

  datatype Outcome = Outcome(path: seq<nat>, totalWay: real, ending: Ending, pos: nat)

  /** The construction from `cur` with the ant's `path` and `totalWay` so far: stop at `end`, get stuck when
    * the balance sum is zero, otherwise scan; a scan with no successful draw repeats from the same node. */
  function Walk(w: Matrix, tau: seq<seq<real>>, score: Score, end: nat, path: seq<nat>, totalWay: real,
                cur: nat, draws: seq<real>, pos: nat): (r: Outcome)
    requires Shaped(w, tau) && cur < |w| && end < |w| && pos <= |draws|
    ensures r.pos <= |draws|
    decreases |draws| - pos
  {
    if cur == end then Outcome(path, totalWay, Arrived, pos)
    else
      var balance := BalanceSum(w, tau, score, path, cur, |w|);
      if balance == 0.0 then Outcome(path, totalWay, Stuck, pos)
      else match Scan(w, tau, score, path, cur, balance, draws, pos, 0)
        case OutOfDraws => Outcome(path, totalWay, DrawsExhausted, |draws|)
        case NoMove(next) => Walk(w, tau, score, end, path, totalWay, cur, draws, next)
        case Moved(v, next) => Walk(w, tau, score, end, path + [v], totalWay + w[cur][v], v, draws, next)
  }

  /** Moving from the last node of a simple path to a feasible node keeps it simple and adds that edge's weight. */
  lemma FeasibleStep(w: Matrix, path: seq<nat>, v: nat)
    requires SimplePath(w, path) && |path| > 0 && path[|path| - 1] < |w| && v < |w|
    requires Feasible(w, path, path[|path| - 1], v)
    ensures SimplePath(w, path + [v])
    ensures PathWeight(w, path + [v]) == PathWeight(w, path) + w[path[|path| - 1]][v]
  {
    var p := path + [v];
    PathWeightAppend(w, path, v);
    forall k | 0 <= k < |p| - 1 ensures w[p[k]][p[k + 1]] != 0.0 {
      if k < |path| - 1 { assert p[k] == path[k] && p[k + 1] == path[k + 1]; }
    }
  }

  /** A sequence that starts with path + [v] starts with path. */
  lemma PrefixOfPrefix(s: seq<nat>, path: seq<nat>, v: nat)
    requires |path| + 1 <= |s| && s[..|path| + 1] == path + [v]
    ensures s[..|path|] == path
  {
    assert s[..|path|] == s[..|path| + 1][..|path|];
  }

  /** From a simple path ending at the current node, a construction only appends: the result is a
    * longer simple path, and the cost grows by exactly the weights of the edges it adds. */
  lemma {:induction false} WalkSimplePath(w: Matrix, tau: seq<seq<real>>, score: Score, end: nat, path: seq<nat>,
                                          totalWay: real, cur: nat, draws: seq<real>, pos: nat)
    requires Shaped(w, tau) && cur < |w| && end < |w| && pos <= |draws|
    requires SimplePath(w, path) && |path| > 0 && path[|path| - 1] == cur
    ensures var r := Walk(w, tau, score, end, path, totalWay, cur, draws, pos);
      SimplePath(w, r.path) && |path| <= |r.path| && r.path[..|path|] == path
      && r.totalWay - PathWeight(w, r.path) == totalWay - PathWeight(w, path)
    decreases |draws| - pos
  {
    var r := Walk(w, tau, score, end, path, totalWay, cur, draws, pos);
    if cur != end {
      var balance := BalanceSum(w, tau, score, path, cur, |w|);
      if balance != 0.0 {
        match Scan(w, tau, score, path, cur, balance, draws, pos, 0)
        case OutOfDraws =>
        case NoMove(next) =>
          assert r == Walk(w, tau, score, end, path, totalWay, cur, draws, next);
          WalkSimplePath(w, tau, score, end, path, totalWay, cur, draws, next);
        case Moved(v, next) =>
          var p := path + [v];
          var total := totalWay + w[cur][v];
          assert r == Walk(w, tau, score, end, p, total, v, draws, next);
          FeasibleStep(w, path, v);
          WalkSimplePath(w, tau, score, end, p, total, v, draws, next);
          PrefixOfPrefix(r.path, path, v);
      }
    }
  }

  /** How a construction from a path ending at the current node ends: an arrival ends at `end`, and the
    * ant is stuck only at a last node whose balance sum is zero. */
  lemma {:induction false} WalkEnding(w: Matrix, tau: seq<seq<real>>, score: Score, end: nat, path: seq<nat>,
                                      totalWay: real, cur: nat, draws: seq<real>, pos: nat)
    requires Shaped(w, tau) && cur < |w| && end < |w| && pos <= |draws|
    requires |path| > 0 && path[|path| - 1] == cur
    ensures var r := Walk(w, tau, score, end, path, totalWay, cur, draws, pos);
      |r.path| > 0 && r.path[|r.path| - 1] < |w|
      && (r.ending == Arrived ==> r.path[|r.path| - 1] == end)
      && (r.ending == Stuck ==>
            r.path[|r.path| - 1] != end && BalanceSum(w, tau, score, r.path, r.path[|r.path| - 1], |w|) == 0.0)
      && (r.ending == DrawsExhausted ==> r.pos == |draws|)
    decreases |draws| - pos
  {
    var r := Walk(w, tau, score, end, path, totalWay, cur, draws, pos);
    if cur != end {
      var balance := BalanceSum(w, tau, score, path, cur, |w|);
      if balance != 0.0 {
        match Scan(w, tau, score, path, cur, balance, draws, pos, 0)
        case OutOfDraws =>
        case NoMove(next) =>
          assert r == Walk(w, tau, score, end, path, totalWay, cur, draws, next);
          WalkEnding(w, tau, score, end, path, totalWay, cur, draws, next);
        case Moved(v, next) =>
          var p := path + [v];
          var total := totalWay + w[cur][v];
          assert r == Walk(w, tau, score, end, p, total, v, draws, next);
          WalkEnding(w, tau, score, end, p, total, v, draws, next);
      }
    }
  }

  /** With positive pheromones, non-negative weights and a positive score, the balance sum is zero exactly
    * when no feasible move is left (and never negative). */
  lemma {:induction false} BalanceSumZeroIff(w: Matrix, tau: seq<seq<real>>, score: Score, path: seq<nat>, u: nat, n: nat)
    requires Shaped(w, tau) && NonNegative(w) && Positive(tau) && ScorePositive(score)
    requires u < |w| && n <= |w|
    ensures BalanceSum(w, tau, score, path, u, n) >= 0.0
    ensures BalanceSum(w, tau, score, path, u, n) == 0.0 <==> forall v :: 0 <= v < n ==> !Feasible(w, path, u, v)
  {
    if n > 0 {
      BalanceSumZeroIff(w, tau, score, path, u, n - 1);
      if Feasible(w, path, u, n - 1) {
        assert tau[u][n - 1] > 0.0 && w[u][n - 1] > 0.0;
        assert Desire(w, tau, score, u, n - 1) > 0.0;
      }
    }
  }
}
