/** The colony: the iteration loop that evaporates, runs every ant, keeps the cheapest path of the
  * iteration and lets every ant deposit; and the cost the caller adds up for the answer. */
module Colony {
  import opened Weights
  import opened Pheromones
  import opened AntWalk
  import opened Ants

  const NumberOfAnts: nat := 300
  const NumberOfIterations: nat := 100

  /** `minTotalWay`, which starts every iteration at Infinity. */
  datatype Bound = Infinity | Finite(value: real)

  predicate Below(x: real, b: Bound) {
    b.Infinity? || x < b.value
  }

  /** states[best] has the first of the smallest costs: the ant whose path `answer` keeps, since only a
    * strictly smaller cost replaces the one kept so far. */
  predicate IsFirstMin(states: seq<AntState>, best: nat) {
    best < |states|
    && (forall j :: 0 <= j < |states| ==> states[best].totalWay <= states[j].totalWay)
    && (forall j :: 0 <= j < best ==> states[best].totalWay < states[j].totalWay)
  }

  /** What a construction from a fresh ant state yields: a simple path from `start` of at most N nodes whose
    * cost is the sum of its weights, ending at `end` or at a node with no feasible move left. */
  predicate Built(w: Matrix, start: nat, end: nat, p: seq<nat>, way: real) {
    SimplePath(w, p) && |p| > 0 && p[0] == start && |p| <= |w| && way == PathWeight(w, p)
    && var last := p[|p| - 1];
       last == end || forall v :: 0 <= v < |w| ==> !Feasible(w, p, last, v)
  }

  datatype RunResult = Answer(path: seq<nat>) | NoDrawsLeft

  /** A construction from an empty path and zero cost, over positive pheromones, builds such a path, and
    * one that uses an edge has a positive cost; it is stuck exactly when it stops short of `end`. */
  lemma FreshWalkBuilds(w: Matrix, tau: seq<seq<real>>, score: Score, start: nat, end: nat, draws: seq<real>, pos: nat)
    requires Shaped(w, tau) && NonNegative(w) && Positive(tau) && ScorePositive(score)
    requires start < |w| && end < |w| && pos <= |draws|
    ensures var r := Walk(w, tau, score, end, [start], 0.0, start, draws, pos);
      (r.ending != DrawsExhausted ==>
        Built(w, start, end, r.path, r.totalWay) && (|r.path| >= 2 ==> r.totalWay > 0.0)
        && (r.ending == Stuck <==> r.path[|r.path| - 1] != end))
      && (r.ending == DrawsExhausted ==> r.pos == |draws|)
  {
    var r := Walk(w, tau, score, end, [start], 0.0, start, draws, pos);
    WalkSimplePath(w, tau, score, end, [start], 0.0, start, draws, pos);
    WalkEnding(w, tau, score, end, [start], 0.0, start, draws, pos);
    assert r.path[0] == r.path[..1][0];
    DistinctBounded(r.path, |w|);
    PathWeightPositive(w, r.path);
    if r.ending == Stuck {
      BalanceSumZeroIff(w, tau, score, r.path, r.path[|r.path| - 1], |w|);
    }
  }

  /** Creates the ant population: NumberOfAnts distinct ants with empty state, none of them stuck. */
  method NewAnts() returns (ants: seq<Ant>)
    ensures |ants| == NumberOfAnts
    ensures forall m :: 0 <= m < |ants| ==>
      fresh(ants[m]) && ants[m].path == [] && ants[m].totalWay == 0.0 && !ants[m].cantFindWay
    ensures forall a, b :: 0 <= a < b < |ants| ==> ants[a] != ants[b]
  {
    ants := [];
    while |ants| < NumberOfAnts
      invariant |ants| <= NumberOfAnts
      invariant forall m :: 0 <= m < |ants| ==>
        fresh(ants[m]) && ants[m].path == [] && ants[m].totalWay == 0.0 && !ants[m].cantFindWay
      invariant forall a, b :: 0 <= a < b < |ants| ==> ants[a] != ants[b]
    {
      var ant := new Ant();
      ants := ants + [ant];
    }
  }

  /** The state `s` is what an ant that was stuck before exactly when `wasStuck` holds has after the walk over
    * the pheromones `tau` from a cleared state, reading the draws from `from`; that walk did not run out of
    * draws and stopped before the draw at `next`. */
  predicate WalkedFrom(w: Matrix, tau: seq<seq<real>>, score: Score, start: nat, end: nat, draws: seq<real>,
                       from: nat, wasStuck: bool, s: AntState, next: nat)
  {
    Shaped(w, tau) && start < |w| && end < |w| && from <= |draws|
    && var r := Walk(w, tau, score, end, [start], 0.0, start, draws, from);
       r.ending != DrawsExhausted && s.path == r.path && s.totalWay == r.totalWay
       && s.cantFindWay == (wasStuck || r.ending == Stuck) && next == r.pos
  }

  /** `s` is the state WalkedFrom describes, a path as Built describes, which the ant can deposit; the ant is
    * stuck exactly when it was before or its path stops short of `end`. */
  predicate Constructed(w: Matrix, tau: seq<seq<real>>, score: Score, start: nat, end: nat, draws: seq<real>,
                        from: nat, wasStuck: bool, s: AntState, next: nat)
  {
    WalkedFrom(w, tau, score, start, end, draws, from, wasStuck, s, next)
    && s.Ready(|w|) && Built(w, start, end, s.path, s.totalWay)
    && s.cantFindWay == (wasStuck || s.path[|s.path| - 1] != end)
  }

  /** One ant's walk from a cleared state: the ant ends in the state of Walk from `[start]` and cost 0; unless
    * the draws run out, it builds a path as Built describes and can deposit it. */
  method BuildOne(ant: Ant, w: Matrix, tau: array2<real>, score: Score, start: nat, end: nat,
                  draws: seq<real>, pos0: nat) returns (pos: nat, finished: bool)
    requires IsSquare(w) && Sized(tau, |w|) && NonNegative(w) && AllPositive(tau) && ScorePositive(score)
    requires start < |w| && end < |w| && pos0 <= |draws|
    requires ant.path == [] && ant.totalWay == 0.0
    modifies ant
    ensures var r := Walk(w, Contents(tau), score, end, [start], 0.0, start, draws, pos0);
      ant.path == r.path && ant.totalWay == r.totalWay && pos == r.pos
      && finished == (r.ending != DrawsExhausted)
      && ant.cantFindWay == (old(ant.cantFindWay) || r.ending == Stuck)
    ensures !finished ==> pos == |draws|
    ensures finished ==>
      Constructed(w, Contents(tau), score, start, end, draws, pos0, old(ant.cantFindWay), ant.State(), pos)
  {
    FreshWalkBuilds(w, Contents(tau), score, start, end, draws, pos0);
    assert ant.path + [start] == [start];
    pos, finished := ant.Go(start, end, w, tau, score, draws, pos0);
    assert finished ==> InRange(w, ant.path);
  }

  /** The ants' walks of one iteration, one ant after the other, each reading the draws where the previous
    * one stopped (`starts`); keeps a copy of the path of the first ant whose cost is below every earlier one.
    * `states` are the states of the ants that finished their walks. `finished` is false exactly when the walk
    * of the next ant ran out of draws; otherwise every ant walked and `answer` is the path of the first ant of
    * smallest cost. */
  method RunAnts(ants: seq<Ant>, w: Matrix, tau: array2<real>, score: Score, start: nat, end: nat,
                 draws: seq<real>, pos0: nat)
    returns (pos: nat, finished: bool, answer: seq<nat>,
             ghost states: seq<AntState>, ghost starts: seq<nat>, ghost winner: nat)
    requires IsSquare(w) && Sized(tau, |w|) && NonNegative(w) && AllPositive(tau) && ScorePositive(score)
    requires start < |w| && end < |w| && pos0 <= |draws| && |ants| > 0
    requires forall a, b :: 0 <= a < b < |ants| ==> ants[a] != ants[b]
    requires forall m :: 0 <= m < |ants| ==> ants[m].path == [] && ants[m].totalWay == 0.0
    modifies ants
    ensures |starts| == |states| + 1 && |states| <= |ants| && starts[0] == pos0
    ensures forall m :: 0 <= m < |starts| ==> starts[m] <= |draws|
    ensures forall m :: 0 <= m < |states| ==>
      ants[m].State() == states[m]
      && Constructed(w, Contents(tau), score, start, end, draws, starts[m], old(ants[m].cantFindWay), states[m],
                     starts[m + 1])
    ensures finished <==> |states| == |ants|
    ensures finished ==> pos == starts[|states|] && IsFirstMin(states, winner) && answer == states[winner].path
    ensures !finished ==>
      pos == |draws| && Walk(w, Contents(tau), score, end, [start], 0.0, start, draws, starts[|states|]).ending
                        == DrawsExhausted
  {
    var minTotalWay := Infinity;
    pos, finished, answer, states, starts, winner := pos0, true, [], [], [pos0], 0;
    for k := 0 to |ants|
      invariant |states| == k && |starts| == k + 1 && starts[0] == pos0 && starts[k] == pos && finished
      invariant forall m :: 0 <= m < |starts| ==> starts[m] <= |draws|
      invariant forall m :: k <= m < |ants| ==>
        ants[m].path == [] && ants[m].totalWay == 0.0 && ants[m].cantFindWay == old(ants[m].cantFindWay)
      invariant forall m :: 0 <= m < k ==>
        ants[m].State() == states[m]
        && Constructed(w, Contents(tau), score, start, end, draws, starts[m], old(ants[m].cantFindWay), states[m],
                       starts[m + 1])
      invariant k > 0 ==>
        IsFirstMin(states, winner) && minTotalWay == Finite(states[winner].totalWay) && answer == states[winner].path
      invariant k == 0 ==> minTotalWay == Infinity
    {
      var ant := ants[k];
      assert forall m :: 0 <= m < |ants| && m != k ==> ants[m] != ant;
      pos, finished := BuildOne(ant, w, tau, score, start, end, draws, pos);
      if !finished {
        return;
      }
      if Below(ant.totalWay, minTotalWay) {
        minTotalWay := Finite(ant.totalWay);
        answer := ant.path;
        winner := k;
      }
      states, starts := states + [ant.State()], starts + [pos];
    }
  }

  /** Every ant, in order, deposits on `tau` and clears its path and cost. Together they add to each entry the
    * deposits of the ants that have never been stuck, so the entries stay positive. */
  method DepositAll(ants: seq<Ant>, tau: array2<real>, ghost before: seq<AntState>)
    requires tau.Length0 == tau.Length1 && |before| == |ants|
    requires forall a, b :: 0 <= a < b < |ants| ==> ants[a] != ants[b]
    requires forall m :: 0 <= m < |ants| ==> ants[m].State() == before[m] && before[m].Ready(tau.Length0)
    modifies ants, tau
    ensures SharesPositive(before)
    ensures forall r, c :: 0 <= r < tau.Length0 && 0 <= c < tau.Length1 ==>
      tau[r, c] == old(tau[r, c]) + ColonyDeposit(before, r, c)
    ensures old(AllPositive(tau)) ==> AllPositive(tau)
    ensures forall m :: 0 <= m < |ants| ==>
      ants[m].path == [] && ants[m].totalWay == 0.0 && ants[m].cantFindWay == before[m].cantFindWay
  {
    assert before[..0] == [];
    for k := 0 to |ants|
      invariant SharesPositive(before[..k])
      invariant forall r, c :: 0 <= r < tau.Length0 && 0 <= c < tau.Length1 ==>
        tau[r, c] == old(tau[r, c]) + ColonyDeposit(before[..k], r, c)
      invariant forall m :: k <= m < |ants| ==> ants[m].State() == before[m]
      invariant forall m :: 0 <= m < k ==>
        ants[m].path == [] && ants[m].totalWay == 0.0 && ants[m].cantFindWay == before[m].cantFindWay
    {
      assert before[..k + 1][..k] == before[..k];
      ants[k].PheromonesOut(tau);
    }
    assert before[..|ants|] == before;
    forall r, c | 0 <= r < tau.Length0 && 0 <= c < tau.Length1 ensures ColonyDeposit(before, r, c) >= 0.0 {
      ColonyDepositNonNegative(before, r, c);
    }
  }

  /** The pheromone matrix after one iteration: every entry evaporated, then the ants' deposits added. */
  predicate Evolves(before: seq<seq<real>>, states: seq<AntState>, after: seq<seq<real>>)
    requires SharesPositive(states)
  {
    |after| == |before|
    && (forall r :: 0 <= r < |before| ==> |after[r]| == |before[r]|)
    && forall r, c :: 0 <= r < |before| && 0 <= c < |before[r]| ==>
         after[r][c] == before[r][c] * (1.0 - Ro) + ColonyDeposit(states, r, c)
  }

  /** The walks of one iteration over the pheromones `tau`: ant m, stuck before exactly when prior[m] is,
    * reads the draws from starts[m], ends in states[m] as Constructed describes, and the next ant reads from
    * where it stopped. `states` may cover only the first ants. */
  predicate Walks(w: Matrix, score: Score, start: nat, end: nat, draws: seq<real>, tau: seq<seq<real>>,
                  prior: seq<AntState>, states: seq<AntState>, starts: seq<nat>)
  {
    |starts| == |states| + 1 && |states| <= |prior|
    && (forall m :: 0 <= m < |starts| ==> starts[m] <= |draws|)
    && forall m :: 0 <= m < |states| ==>
         Constructed(w, tau, score, start, end, draws, starts[m], prior[m].cantFindWay, states[m], starts[m + 1])
  }

  /** One iteration from the pheromones `before`: the ants walk over the evaporated matrix. Either every ant
    * walked and `after` is the evaporated matrix plus their deposits, or the walk of the next ant ran out of
    * draws and `after` is the evaporated matrix. */
  predicate Iteration(w: Matrix, score: Score, start: nat, end: nat, draws: seq<real>, before: seq<seq<real>>,
                      prior: seq<AntState>, states: seq<AntState>, starts: seq<nat>, after: seq<seq<real>>)
  {
    var vaporized := Evaporated(before);
    Walks(w, score, start, end, draws, vaporized, prior, states, starts)
    && if |states| == |prior| then SharesPositive(states) && Evolves(before, states, after)
       else (Shaped(w, vaporized) && start < |w| && end < |w|
             && Walk(w, vaporized, score, end, [start], 0.0, start, draws, starts[|states|]).ending == DrawsExhausted
             && after == vaporized)
  }

  /** The states of a new population: NumberOfAnts ants, none of them stuck. */
  function FreshColony(): (c: seq<AntState>)
    ensures |c| == NumberOfAnts && forall m :: 0 <= m < |c| ==> !c[m].cantFindWay
  {
    seq(NumberOfAnts, m => AntState([], 0.0, false))
  }

  /** The ant states iteration i starts from: a new population, or the states after the iteration before. */
  function Prior(colonies: seq<seq<AntState>>, i: nat): seq<AntState>
  {
    if i == 0 || i > |colonies| then FreshColony() else colonies[i - 1]
  }

  /** The iteration after `previous` reads its first draw where the last walk of `previous` stopped. */
  predicate Follows(previous: seq<AntState>, previousStarts: seq<nat>, starts: seq<nat>) {
    |previous| < |previousStarts| && 0 < |starts| && starts[0] == previousStarts[|previous|]
  }

  /** An n x n matrix of 1s. */
  predicate AllOnes(m: seq<seq<real>>, n: nat) {
    |m| == n && forall r :: 0 <= r < n ==> |m[r]| == n && forall c :: 0 <= c < n ==> m[r][c] == 1.0
  }

  /** Iteration i went from pheromones[i] to pheromones[i + 1], starting from the ant states of the iteration
    * before, and produced colonies[i] reading the draws from positions[i]. */
  predicate IterationAt(w: Matrix, score: Score, start: nat, end: nat, draws: seq<real>,
                        pheromones: seq<seq<seq<real>>>, colonies: seq<seq<AntState>>, positions: seq<seq<nat>>,
                        i: nat)
  {
    i < |colonies| && |pheromones| == |colonies| + 1 && |positions| == |colonies|
    && Iteration(w, score, start, end, draws, pheromones[i], Prior(colonies, i), colonies[i], positions[i],
                 pheromones[i + 1])
  }

  /** Every iteration run so far went as IterationAt describes. */
  predicate Iterations(w: Matrix, score: Score, start: nat, end: nat, draws: seq<real>,
                       pheromones: seq<seq<seq<real>>>, colonies: seq<seq<AntState>>, positions: seq<seq<nat>>)
  {
    |pheromones| == |colonies| + 1 && |positions| == |colonies|
    && forall i :: 0 <= i < |colonies| ==> IterationAt(w, score, start, end, draws, pheromones, colonies, positions, i)
  }

  /** Every iteration but the first reads its first draw where the iteration before stopped. */
  predicate Chained(colonies: seq<seq<AntState>>, positions: seq<seq<nat>>) {
    |positions| == |colonies|
    && forall i :: 0 < i < |colonies| ==> Follows(colonies[i - 1], positions[i - 1], positions[i])
  }

  /** The iterations run so far: the pheromone matrix before each and after the last, the ant states each
    * produced and where each walk read its first draw. The first iteration starts from a matrix of 1s, a new
    * population and the first draw; each later one from the matrix, the ant states and the draw position the
    * one before left. */
  predicate History(w: Matrix, score: Score, start: nat, end: nat, draws: seq<real>,
                    pheromones: seq<seq<seq<real>>>, colonies: seq<seq<AntState>>, positions: seq<seq<nat>>)
  {
    Iterations(w, score, start, end, draws, pheromones, colonies, positions) && Chained(colonies, positions)
    && AllOnes(pheromones[0], |w|) && (|colonies| > 0 ==> |positions[0]| > 0 && positions[0][0] == 0)
  }

  /** One iteration: evaporate, let every ant walk, keep the path of the first ant of smallest cost, let every
    * ant deposit. The ants, stuck before as `prior` says, walk over the evaporated matrix as Iteration
    * describes; if all of them walked, every ant is cleared and keeps its flag, and `answer` is the path of
    * the first ant of smallest cost. */
  method RunIteration(ants: seq<Ant>, w: Matrix, tau: array2<real>, score: Score, start: nat, end: nat,
                      draws: seq<real>, pos0: nat, ghost prior: seq<AntState>)
    returns (pos: nat, finished: bool, answer: seq<nat>,
             ghost states: seq<AntState>, ghost starts: seq<nat>, ghost winner: nat)
    requires IsSquare(w) && Sized(tau, |w|) && NonNegative(w) && AllPositive(tau) && ScorePositive(score)
    requires start < |w| && end < |w| && pos0 <= |draws| && |ants| > 0
    requires forall a, b :: 0 <= a < b < |ants| ==> ants[a] != ants[b]
    requires forall m :: 0 <= m < |ants| ==> ants[m].path == [] && ants[m].totalWay == 0.0
    requires |prior| == |ants| && forall m :: 0 <= m < |ants| ==> ants[m].cantFindWay == prior[m].cantFindWay
    modifies ants, tau
    ensures Iteration(w, score, start, end, draws, old(Contents(tau)), prior, states, starts, Contents(tau))
    ensures AllPositive(tau) && pos <= |draws| && starts[0] == pos0
    ensures finished <==> |states| == |ants|
    ensures !finished ==> pos == |draws|
    ensures finished ==>
      pos == starts[|states|] && IsFirstMin(states, winner) && answer == states[winner].path
      && forall m :: 0 <= m < |ants| ==>
        ants[m].path == [] && ants[m].totalWay == 0.0 && ants[m].cantFindWay == states[m].cantFindWay
  {
    ghost var before := Contents(tau);
    VaporizePheromones(tau);
    ghost var vaporized := Contents(tau);
    assert vaporized == Evaporated(before);
    pos, finished, answer, states, starts, winner := RunAnts(ants, w, tau, score, start, end, draws, pos0);
    assert Walks(w, score, start, end, draws, vaporized, prior, states, starts);
    if !finished {
      return;
    }
    forall m | 0 <= m < |ants| ensures states[m].Ready(|w|) {
      assert Constructed(w, vaporized, score, start, end, draws, starts[m], prior[m].cantFindWay, states[m],
                         starts[m + 1]);
    }
    DepositAll(ants, tau, states);
    forall r, c | 0 <= r < |before| && 0 <= c < |before[r]|
      ensures Contents(tau)[r][c] == before[r][c] * (1.0 - Ro) + ColonyDeposit(states, r, c)
    {
      assert vaporized[r][c] == before[r][c] * (1.0 - Ro);
    }
  }

  /** Appending one more iteration to the iterations run so far. */
  lemma IterationsGrow(w: Matrix, score: Score, start: nat, end: nat, draws: seq<real>,
                       pheromones: seq<seq<seq<real>>>, colonies: seq<seq<AntState>>, positions: seq<seq<nat>>,
                       after: seq<seq<real>>, states: seq<AntState>, starts: seq<nat>)
    requires Iterations(w, score, start, end, draws, pheromones, colonies, positions)
    requires Iteration(w, score, start, end, draws, pheromones[|colonies|], Prior(colonies, |colonies|), states,
                       starts, after)
    ensures Iterations(w, score, start, end, draws, pheromones + [after], colonies + [states], positions + [starts])
  {
    var history, grown, read := pheromones + [after], colonies + [states], positions + [starts];
    forall i | 0 <= i < |colonies|
      ensures IterationAt(w, score, start, end, draws, history, grown, read, i)
    {
      assert IterationAt(w, score, start, end, draws, pheromones, colonies, positions, i);
      assert Prior(grown, i) == Prior(colonies, i);
      assert history[i] == pheromones[i] && history[i + 1] == pheromones[i + 1];
      assert grown[i] == colonies[i] && read[i] == positions[i];
    }
    var n := |colonies|;
    assert Prior(grown, n) == Prior(colonies, n);
    assert history[n] == pheromones[n] && history[n + 1] == after && grown[n] == states && read[n] == starts;
    assert IterationAt(w, score, start, end, draws, history, grown, read, n);
  }

  /** Appending one more iteration that starts where the last one stopped keeps the draws chained. */
  lemma ChainGrows(colonies: seq<seq<AntState>>, positions: seq<seq<nat>>, states: seq<AntState>, starts: seq<nat>)
    requires Chained(colonies, positions)
    requires |colonies| > 0 ==> Follows(colonies[|colonies| - 1], positions[|colonies| - 1], starts)
    ensures Chained(colonies + [states], positions + [starts])
  {
    var grown, read := colonies + [states], positions + [starts];
    forall i | 0 < i < |grown| ensures Follows(grown[i - 1], read[i - 1], read[i]) {
      assert grown[i - 1] == colonies[i - 1] && read[i - 1] == positions[i - 1];
      if i < |colonies| {
        assert read[i] == positions[i];
      }
    }
  }

  /** Appending one more iteration to a history of iterations gives one again. */
  lemma HistoryGrows(w: Matrix, score: Score, start: nat, end: nat, draws: seq<real>,
                     pheromones: seq<seq<seq<real>>>, colonies: seq<seq<AntState>>, positions: seq<seq<nat>>,
                     after: seq<seq<real>>, states: seq<AntState>, starts: seq<nat>)
    requires History(w, score, start, end, draws, pheromones, colonies, positions)
    requires Iteration(w, score, start, end, draws, pheromones[|colonies|], Prior(colonies, |colonies|), states,
                       starts, after)
    requires |colonies| == 0 ==> |starts| > 0 && starts[0] == 0
    requires |colonies| > 0 ==> Follows(colonies[|colonies| - 1], positions[|colonies| - 1], starts)
    ensures History(w, score, start, end, draws, pheromones + [after], colonies + [states], positions + [starts])
  {
    IterationsGrow(w, score, start, end, draws, pheromones, colonies, positions, after, states, starts);
    ChainGrows(colonies, positions, states, starts);
    assert (pheromones + [after])[0] == pheromones[0];
    if |colonies| > 0 {
      assert (positions + [starts])[0] == positions[0];
    }
  }

  /** The iterations run so far are all complete, and the next one reads its first draw at `pos`: the first
    * draw, or where the last walk of the iteration before stopped. */
  predicate Progress(w: Matrix, score: Score, start: nat, end: nat, draws: seq<real>,
                     pheromones: seq<seq<seq<real>>>, colonies: seq<seq<AntState>>, positions: seq<seq<nat>>,
                     pos: nat)
  {
    History(w, score, start, end, draws, pheromones, colonies, positions) && |positions| == |colonies|
    && (forall i :: 0 <= i < |colonies| ==> |colonies[i]| == NumberOfAnts && |positions[i]| == NumberOfAnts + 1)
    && pos == if |colonies| == 0 then 0 else positions[|colonies| - 1][NumberOfAnts]
  }

  /** One more iteration, starting where the complete iterations so far stopped, extends the history; the
    * earlier iterations stay complete, the new one is the last entry and the next would start from its
    * states. When it is complete too, the history is still one of complete iterations. */
  lemma ProgressGrows(w: Matrix, score: Score, start: nat, end: nat, draws: seq<real>,
                      pheromones: seq<seq<seq<real>>>, colonies: seq<seq<AntState>>, positions: seq<seq<nat>>,
                      pos: nat, after: seq<seq<real>>, states: seq<AntState>, starts: seq<nat>)
    requires Progress(w, score, start, end, draws, pheromones, colonies, positions, pos)
    requires Iteration(w, score, start, end, draws, pheromones[|colonies|], Prior(colonies, |colonies|), states,
                       starts, after)
    requires |starts| > 0 && starts[0] == pos
    ensures var grown, read := colonies + [states], positions + [starts];
      History(w, score, start, end, draws, pheromones + [after], grown, read)
      && (forall i :: 0 <= i < |colonies| ==> |grown[i]| == NumberOfAnts)
      && grown[|colonies|] == states && Prior(grown, |grown|) == states
      && (|states| == NumberOfAnts ==>
            Progress(w, score, start, end, draws, pheromones + [after], grown, read, starts[NumberOfAnts]))
  {
    var grown, read := colonies + [states], positions + [starts];
    HistoryGrows(w, score, start, end, draws, pheromones, colonies, positions, after, states, starts);
    assert forall i :: 0 <= i < |colonies| ==> grown[i] == colonies[i] && read[i] == positions[i];
    assert grown[|colonies|] == states && read[|colonies|] == starts;
  }

  /** Runs NumberOfIterations iterations over a fresh pheromone matrix of 1s and returns a copy of the path of
    * the first ant with the smallest cost in the last iteration, stuck or not. The draws of all ants come
    * from one stream; if it runs out, the run reports NoDrawsLeft. The ghost results record every iteration
    * as History describes; every iteration but the last is complete, and `best` is the winner of the last. */
  method AntsAlg(w: Matrix, start: nat, end: nat, score: Score, draws: seq<real>)
    returns (result: RunResult, ghost pheromones: seq<seq<seq<real>>>, ghost colonies: seq<seq<AntState>>,
             ghost positions: seq<seq<nat>>, ghost best: nat)
    requires IsSquare(w) && NonNegative(w) && start < |w| && end < |w|
    requires ScorePositive(score)
    ensures History(w, score, start, end, draws, pheromones, colonies, positions)
    ensures |colonies| <= NumberOfIterations
    ensures forall i :: 0 <= i < |colonies| - 1 ==> |colonies[i]| == NumberOfAnts
    ensures result.NoDrawsLeft? ==> 0 < |colonies| && |colonies[|colonies| - 1]| < NumberOfAnts
    ensures result.Answer? ==>
      |colonies| == NumberOfIterations && |colonies[NumberOfIterations - 1]| == NumberOfAnts
      && IsFirstMin(colonies[NumberOfIterations - 1], best) && result.path == colonies[NumberOfIterations - 1][best].path
  {
    var answer: seq<nat> := [];
    var pheromonesMatrix := NewPheromones(|w|);
    var ants := NewAnts();
    var pos: nat := 0;
    pheromones, colonies, positions, best := [Contents(pheromonesMatrix)], [], [], 0;
    for iteration := 0 to NumberOfIterations
      invariant Sized(pheromonesMatrix, |w|) && AllPositive(pheromonesMatrix)
      invariant |ants| == NumberOfAnts && forall a, b :: 0 <= a < b < |ants| ==> ants[a] != ants[b]
      invariant forall m :: 0 <= m < |ants| ==> ants[m].path == [] && ants[m].totalWay == 0.0
      invariant pos <= |draws| && |colonies| == iteration
      invariant Progress(w, score, start, end, draws, pheromones, colonies, positions, pos)
      invariant pheromones[iteration] == Contents(pheromonesMatrix)
      invariant |Prior(colonies, iteration)| == NumberOfAnts
      invariant forall m :: 0 <= m < |ants| ==> ants[m].cantFindWay == Prior(colonies, iteration)[m].cantFindWay
      invariant iteration > 0 ==> IsFirstMin(colonies[iteration - 1], best) && answer == colonies[iteration - 1][best].path
    {
      var finished;
      ghost var states, starts, winner;
      ghost var prior := Prior(colonies, iteration);
      ghost var from := pos;
      pos, finished, answer, states, starts, winner :=
        RunIteration(ants, w, pheromonesMatrix, score, start, end, draws, pos, prior);
      ProgressGrows(w, score, start, end, draws, pheromones, colonies, positions, from, Contents(pheromonesMatrix),
                    states, starts);
      pheromones, colonies, positions := pheromones + [Contents(pheromonesMatrix)], colonies + [states],
                                         positions + [starts];
      if !finished {
        return NoDrawsLeft, pheromones, colonies, positions, best;
      }
      best := winner;
    }
    return Answer(answer), pheromones, colonies, positions, best;
  }

  /** The cost printed beside the answer: the weights along it, added from the first edge to the last. */
  method WayWeight(w: Matrix, answer: seq<nat>) returns (wayWeight: real)
    requires IsSquare(w) && InRange(w, answer)
    ensures wayWeight == PathWeight(w, answer)
  {
    wayWeight := 0.0;
    var i := 0;
    while i < |answer| - 1
      invariant |answer| == 0 ==> i == 0 && wayWeight == 0.0
      invariant |answer| > 0 ==> i < |answer| && wayWeight == PathWeight(w, answer[..i + 1])
    {
      assert answer[..i + 2][..i + 1] == answer[..i + 1];
      wayWeight := wayWeight + w[answer[i]][answer[i + 1]];
      i := i + 1;
    }
    if |answer| > 0 {
      assert answer[..i + 1] == answer;
    }
  }
}
