/** One ant: the path it builds, its cost, and whether it has ever got stuck. */
module Ants {
  import opened Weights
  import opened Pheromones
  import opened AntWalk

  /** A snapshot of an ant's three fields. */
  datatype AntState = AntState(path: seq<nat>, totalWay: real, cantFindWay: bool) {
    /** A deposit by this ant adds a positive share. */
    predicate SharePositive() {
      !cantFindWay && |path| >= 2 ==> totalWay > 0.0
    }

    /** The ant can deposit on an n x n matrix: its nodes index the matrix and its share is positive. */
    predicate Ready(n: nat) {
      (forall k :: 0 <= k < |path| ==> path[k] < n) && SharePositive()
    }
  }

  predicate SharesPositive(states: seq<AntState>) {
    forall m :: 0 <= m < |states| ==> states[m].SharePositive()
  }

  /** What the ants, in order, add to the entry (u, v): the deposit of every ant that has never been stuck. */
  function ColonyDeposit(states: seq<AntState>, u: nat, v: nat): real
    requires SharesPositive(states)
  {
    if |states| == 0 then 0.0
    else
      var s := states[|states| - 1];
      ColonyDeposit(states[..|states| - 1], u, v) + (if s.cantFindWay then 0.0 else Deposit(s.path, s.totalWay, u, v))
  }

  /** Together the ants add nothing negative to any entry. */
  lemma {:induction false} ColonyDepositNonNegative(states: seq<AntState>, u: nat, v: nat)
    requires SharesPositive(states)
    ensures ColonyDeposit(states, u, v) >= 0.0
  {
    if |states| > 0 {
      ColonyDepositNonNegative(states[..|states| - 1], u, v);
      var s := states[|states| - 1];
      if !s.cantFindWay {
        DepositExactlyOnPath(s.path, s.totalWay, u, v);
      }
    }
  }

  /** The deposits of two groups of ants add up. */
  lemma {:induction false} ColonyDepositAppend(a: seq<AntState>, b: seq<AntState>, u: nat, v: nat)
    requires SharesPositive(a) && SharesPositive(b)
    ensures SharesPositive(a + b)
    ensures ColonyDeposit(a + b, u, v) == ColonyDeposit(a, u, v) + ColonyDeposit(b, u, v)
  {
    assert forall m :: 0 <= m < |a + b| ==> (a + b)[m] == if m < |a| then a[m] else b[m - |a|];
    if |b| == 0 {
      assert a + b == a;
    } else {
      var b' := b[..|b| - 1];
      assert (a + b)[..|a + b| - 1] == a + b';
      ColonyDepositAppend(a, b', u, v);
    }
  }

  /** The order in which two groups of ants deposit does not change what they add. */
  lemma ColonyDepositOrder(a: seq<AntState>, b: seq<AntState>, u: nat, v: nat)
    requires SharesPositive(a) && SharesPositive(b)
    ensures SharesPositive(a + b) && SharesPositive(b + a)
    ensures ColonyDeposit(a + b, u, v) == ColonyDeposit(b + a, u, v)
  {
    ColonyDepositAppend(a, b, u, v);
    ColonyDepositAppend(b, a, u, v);
  }

  class Ant {
    var path: seq<nat>
    var totalWay: real
    /** Set when a construction gets stuck; nothing ever clears it again. */
    var cantFindWay: bool

    constructor ()
      ensures path == [] && totalWay == 0.0 && !cantFindWay
    {
      path := [];
      totalWay := 0.0;
      cantFindWay := false;
    }

    function State(): AntState
      reads this
    {
      AntState(path, totalWay, cantFindWay)
    }

    /** Walks from `start` towards `end`, appending to `path` and adding each edge's weight to `totalWay`;
      * reads `draws` from `pos0` on and returns the position after the last draw it used. `finished` is
      * false only when the draws ran out first. Neither matrix is written. */
    method Go(start: nat, end: nat, w: Matrix, tau: array2<real>, score: Score, draws: seq<real>, pos0: nat)
      returns (pos: nat, finished: bool)
      requires IsSquare(w) && Sized(tau, |w|) && start < |w| && end < |w| && pos0 <= |draws|
      modifies this
      ensures var r := Walk(w, Contents(tau), score, end, old(path) + [start], old(totalWay), start, draws, pos0);
        path == r.path && totalWay == r.totalWay && pos == r.pos
        && finished == (r.ending != DrawsExhausted)
        && cantFindWay == (old(cantFindWay) || r.ending == Stuck)
      ensures start == end ==>
        path == old(path) + [start] && totalWay == old(totalWay) && cantFindWay == old(cantFindWay) && finished
    {
      var currentPoint: nat := start;
      path := path + [currentPoint];
      pos, finished := pos0, true;
      ghost var t := Contents(tau);
      ghost var goal := Walk(w, t, score, end, path, totalWay, currentPoint, draws, pos);
      while currentPoint != end
        invariant currentPoint < |w| && pos <= |draws|
        invariant Walk(w, t, score, end, path, totalWay, currentPoint, draws, pos) == goal
        invariant cantFindWay == old(cantFindWay)
        decreases |draws| - pos
      {
        var balanceSum := SumFeasible(w, tau, score, path, currentPoint);
        if balanceSum == 0.0 {
          assert goal == Outcome(path, totalWay, Stuck, pos);
          cantFindWay := true;
          break;
        }
        var step := ScanFeasible(w, tau, score, path, currentPoint, balanceSum, draws, pos);
        ghost var was := Walk(w, t, score, end, path, totalWay, currentPoint, draws, pos);
        match step
        case OutOfDraws =>
          assert was == Outcome(path, totalWay, DrawsExhausted, |draws|);
          pos, finished := |draws|, false;
          return;
        case NoMove(next) =>
          assert was == Walk(w, t, score, end, path, totalWay, currentPoint, draws, next);
          pos := next;
        case Moved(v, next) =>
          ghost var grown, added := path + [v], totalWay + w[currentPoint][v];
          assert was == Walk(w, t, score, end, grown, added, v, draws, next);
          path := path + [v];
          totalWay := totalWay + w[currentPoint][v];
          assert path == grown && totalWay == added;
          currentPoint, pos := v, next;
      }
    }

    /** Deposits AntCapacity / totalWay on every edge of the path unless the ant has ever been stuck,
      * then clears the path and the cost but not `cantFindWay`. */
    method PheromonesOut(tau: array2<real>)
      requires forall k :: 0 <= k < |path| ==> path[k] < tau.Length0 && path[k] < tau.Length1
      requires !cantFindWay && |path| >= 2 ==> totalWay != 0.0
      modifies this, tau
      ensures forall i, j :: 0 <= i < tau.Length0 && 0 <= j < tau.Length1 ==>
        tau[i, j] == if old(cantFindWay) then old(tau[i, j]) else old(tau[i, j]) + Deposit(old(path), old(totalWay), i, j)
      ensures path == [] && totalWay == 0.0 && cantFindWay == old(cantFindWay)
    {
      if !cantFindWay {
        ghost var share := Share(path, totalWay);
        var i := 0;
        assert path[i..] == path;
        while i < |path| - 1
          modifies tau
          invariant 0 <= i <= |path|
          invariant forall r, c :: 0 <= r < tau.Length0 && 0 <= c < tau.Length1 ==>
            tau[r, c] == old(tau[r, c]) + AddedAlong(path, r, c, share) - AddedAlong(path[i..], r, c, share)
        {
          tau[path[i], path[i + 1]] := tau[path[i], path[i + 1]] + AntCapacity / totalWay;
          assert path[i..][1..] == path[i + 1..];
          i := i + 1;
        }
      }
      totalWay := 0.0;
      path := [];
    }
  }

  /** The first loop of a step of `go`: adds up the desirability of every feasible move from u. */
  method SumFeasible(w: Matrix, tau: array2<real>, score: Score, path: seq<nat>, u: nat) returns (balanceSum: real)
    requires IsSquare(w) && Sized(tau, |w|) && u < |w|
    ensures balanceSum == BalanceSum(w, Contents(tau), score, path, u, |w|)
  {
    balanceSum := 0.0;
    for i := 0 to |w|
      invariant balanceSum == BalanceSum(w, Contents(tau), score, path, u, i)
    {
      if w[u][i] == 0.0 || i in path {
        continue;
      }
      balanceSum := balanceSum + score(tau[u, i], w[u][i]);
    }
  }

  /** The second loop of a step of `go`: each feasible move from u in index order takes the next draw, and
    * the first draw below that move's probability picks it. */
  method ScanFeasible(w: Matrix, tau: array2<real>, score: Score, path: seq<nat>, u: nat, balanceSum: real,
                      draws: seq<real>, pos0: nat) returns (step: Draw)
    requires IsSquare(w) && Sized(tau, |w|) && u < |w| && balanceSum != 0.0 && pos0 <= |draws|
    ensures step == Scan(w, Contents(tau), score, path, u, balanceSum, draws, pos0, 0)
  {
    var pos: nat := pos0;
    var i: nat := 0;
    while i < |w|
      invariant i <= |w| && pos <= |draws|
      invariant Scan(w, Contents(tau), score, path, u, balanceSum, draws, pos0, 0)
             == Scan(w, Contents(tau), score, path, u, balanceSum, draws, pos, i)
      decreases |w| - i
    {
      if w[u][i] == 0.0 || i in path {
        i := i + 1;
        continue;
      }
      if pos == |draws| {
        return OutOfDraws;
      }
      var probabilityToMove := score(tau[u, i], w[u][i]) / balanceSum;
      if draws[pos] < probabilityToMove {
        return Moved(i, pos + 1);
      }
      pos, i := pos + 1, i + 1;
    }
    return NoMove(pos);
  }
}
