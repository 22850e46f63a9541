# Ant colony path search, modelled in Dafny

The program searches an N x N weight matrix for a cheap path from `start` to `end` with an ant colony.
`weightMatrix[u][v]` is the cost of the edge u -> v, and 0 means the edge does not exist.

A pheromone matrix starts at 1 everywhere. Each of 100 iterations:

- evaporates the pheromone matrix: every entry keeps `1 - ro` of its value, with `ro = 0.05`;
- lets each of 300 ants walk from `start` (`Ant.go`);
- keeps a copy of the path of the first ant with the strictly smallest `totalWay`;
- lets every ant deposit `antCapacity / totalWay` (with `antCapacity = 100`) on each edge of its path, unless
  the ant has ever been stuck (`Ant.pheromonesOut`).

An ant walks like this:

- From its current node it may move only to a node joined by a non-zero edge and not yet on its path.
- It adds up a score over those feasible moves.
- If the sum is zero it marks itself stuck (`cantFindWay`) and stops.
- Otherwise it scans the feasible moves in index order and takes the first whose random draw falls below
  `score / sum`.
- A scan in which no draw succeeds is repeated from the same node.
- It stops when it reaches `end`.

The weights file is accepted only when it is square. The weights along the answer are added up beside it.

The model has six modules, one per part of `root/index.ts`:

- `Weights` (weights.dfy): the weight matrix, paths over it and their cost.
- `Loader` (loader.dfy): the squareness check.
- `Pheromones` (pheromones.dfy):
  - the pheromone matrix as an `array2<real>`, and its entries as a value (`Contents`);
  - its creation and in-place evaporation, and evaporation as a function on values (`Evaporated`);
  - what one ant deposits.
- `AntWalk` (walk.dfy): the pure specification of `go`, over the pheromone matrix taken as a value.
  - `BalanceSum` is the first loop of a step.
  - `Scan` is the second loop.
  - `Walk` is the whole construction.
- `Ants` (ant.dfy):
  - the class `Ant` with the fields `path`, `totalWay` and `cantFindWay`;
  - `Go` and `PheromonesOut` as in-place methods, `Go` proved equal to `Walk`;
  - what the whole colony deposits.
- `Colony` (colony.dfy):
  - `antsAlg` (`AntsAlg`), whose loop body is one iteration (`RunIteration`);
  - an iteration's two phases: construction (`RunAnts`, one ant at a time with `BuildOne`) and deposit
    (`DepositAll`);
  - the path-weight sum (`WayWeight`).

The score `Math.pow(tau, 0.4) * Math.pow(1 / w, 0.6)` is a parameter `score` of the model. The only thing
known about it is that it is positive when both its arguments are positive.

`Math.random()` becomes a supplied sequence of draws. Every draw the source takes reads the next element, and
all ants of all iterations share the one sequence. When the sequence runs out, the model ends the walk with
`DrawsExhausted` and the run with `NoDrawsLeft`. This ending exists only in the model. It stands in for the
source's unbounded retrying and makes every loop terminate.

Three behaviours of the program may look unintended. The model follows the program:

- The best path of an iteration is chosen among all ants, stuck or not (root/index.ts:117). A stuck ant's
  partial path, even the single node `[start]` with cost 0, can therefore win.
- `cantFindWay` is never cleared (root/index.ts:91-92). An ant that was stuck once never deposits again, even
  after later walks that reach `end`. `ColonyDeposit` leaves out exactly the ants whose flag is set.
- There is no "no path found" result. The answer is the path kept in the last iteration, and the first ant
  always overwrites it, since every cost is below the `Infinity` sentinel.

## Model

| member | source | states |
|---|---|---|
| Loader.CheckSquare | root/index.ts:141-143 | accepts the rows exactly when every row is as long as there are rows, returns them unchanged, and otherwise fails with 'Invalid input, file is not NxN matrix' |
| Colony.WayWeight | root/index.ts:149-152 | the sum computed by the loop over consecutive pairs of the answer is PathWeight, the weight of the path |
| Weights.PathWeightAppend | root/index.ts:76-77 | appending a node to a path adds exactly the weight of the new last edge to its cost |
| Weights.PathWeightPositive | root/index.ts:54 | over non-negative weights, a path that uses only existing edges costs at least 0, and more than 0 once it has an edge |
| Weights.DistinctBounded | root/index.ts:54 | a path with no repeated node among nodes 0 .. N-1 has at most N nodes |
| Pheromones.NewPheromones | root/index.ts:106-108 | the new pheromone matrix is N x N, fresh, with every entry 1 |
| Pheromones.VaporizePheromones | root/index.ts:96-102 | every entry becomes its old value times 1 - ro, so the matrix becomes `Evaporated` of the old one, and positive entries stay positive |
| Pheromones.AddedAlongCount | root/index.ts:87-89 | what the deposit loop adds to an entry is the share times the number of times the path walks that edge |
| Pheromones.EdgeCountOnPath | root/index.ts:87-89 | a pair is counted exactly when it is an edge of the path |
| Pheromones.EdgeCountSimple | root/index.ts:54 | on a path with no repeated node every edge is walked at most once |
| Pheromones.DepositExactlyOnPath | root/index.ts:85-93 | a deposit is never negative and is non-zero exactly on the edges of the path; on a simple path each such edge gets antCapacity / totalWay |
| AntWalk.BalanceSum | root/index.ts:52-58 | the balance sum is 0 when no move is feasible |
| AntWalk.BalanceSumZeroIff | root/index.ts:52-63 | with positive pheromones, non-negative weights and a positive score, the balance sum is non-negative and is 0 exactly when no feasible unvisited neighbour is left |
| AntWalk.CountFeasible | root/index.ts:65-66 | the number of feasible nodes in a range is at most its width, and 0 only when none is feasible |
| AntWalk.Scan | root/index.ts:65-81 | a scan that moves picks a feasible node and takes at least one draw; one that does not move takes one draw per feasible node |
| AntWalk.ScanPicksFirstSuccess | root/index.ts:65-81 | the node picked is the lowest-indexed feasible node whose draw succeeds: every feasible node before it failed its draw, taken one after the other |
| AntWalk.ScanNoMoveAllFail | root/index.ts:65-81 | a scan without a move failed the draw of every feasible node |
| AntWalk.ScanOutOfDrawsShort | root/index.ts:65-81 | a scan runs out of draws only when the feasible nodes need more draws than are left, and all draws there were failed |
| AntWalk.Walk | root/index.ts:49-82 | a construction never reads past the draws supplied |
| AntWalk.FeasibleStep | root/index.ts:54-78 | a move to a feasible node keeps the path simple and adds that edge's weight to its cost |
| AntWalk.WalkSimplePath | root/index.ts:49-82 | a construction extends the path it started from, keeps it without repeated nodes and along existing edges, and adds to totalWay exactly the weights it appends |
| AntWalk.WalkEnding | root/index.ts:51-64 | a construction ends at `end` when it arrives, at a node other than `end` with balance sum 0 when it is stuck, and with every draw used when the draws run out |
| Ants.ColonyDepositNonNegative | root/index.ts:122-124 | what all ants together add to an entry is never negative |
| Ants.ColonyDepositAppend | root/index.ts:122-124 | the deposits of two groups of ants add up |
| Ants.ColonyDepositOrder | root/index.ts:122-124 | the order in which the ants deposit does not change what they add |
| Ants.Ant.constructor | root/index.ts:37-41 | a new ant has an empty path, cost 0 and is not stuck |
| Ants.Ant.Go | root/index.ts:43-83 | the new path, totalWay and draw position are those of Walk from the old path plus `start`; the ant becomes stuck exactly when it was or the walk got stuck; with start = end the path only gains `start` and totalWay is unchanged |
| Ants.Ant.PheromonesOut | root/index.ts:85-93 | a never-stuck ant adds its deposit to every entry and a stuck one changes nothing; both clear path and totalWay and keep cantFindWay |
| Ants.SumFeasible | root/index.ts:52-58 | the first loop of a step computes BalanceSum |
| Ants.ScanFeasible | root/index.ts:65-81 | the second loop of a step computes Scan |
| Colony.FreshWalkBuilds | root/index.ts:43-83 | a walk from `[start]` with cost 0 that does not run out of draws builds a simple path from `start` of at most N nodes; its cost is the weight of its edges, positive once it has an edge; it ends at `end` or where no move is feasible, and it is stuck exactly when it ends short of `end` |
| Colony.NewAnts | root/index.ts:109-111 | NumberOfAnts distinct new ants with empty paths and cost 0, none of them stuck |
| Colony.BuildOne | root/index.ts:116 | one ant's walk from a cleared state ends in exactly the path, cost and draw position of Walk from `[start]` with cost 0; it reports running out exactly when that walk ran out; the ant is stuck exactly when it was before or the walk got stuck; a finished walk builds a path as FreshWalkBuilds says, which the ant can deposit, and the ant is then stuck exactly when it was before or its path ends short of `end` |
| Colony.RunAnts | root/index.ts:115-121 | the ants walk in population order, each reading the draws from where the previous walk stopped, and each ends in the state of Walk from those draws; the run stops early exactly when the next ant's walk runs out of draws; otherwise every ant has walked and the kept path is that of the first ant with the smallest cost |
| Colony.RunIteration | root/index.ts:113-124 | with the ants stuck before as the ghost `prior` says, the ants walk in order over the evaporated matrix, each reading the draws where the previous one stopped and ending in the state of Walk from `[start]`. If every ant walked, the matrix becomes the evaporated matrix plus the deposits of the never-stuck ants, the kept path is that of the first ant of smallest cost, and every ant is cleared but keeps its flag. Otherwise the walk of the next ant ran out of draws, `finished` is false and the matrix is only evaporated |
| Colony.DepositAll | root/index.ts:122-124 | every entry gains exactly ColonyDeposit, the deposits of the never-stuck ants, so positive entries stay positive; every ant is cleared but keeps cantFindWay |
| Colony.AntsAlg | root/index.ts:104-126 | the ghost history holds every iteration run. The first starts from a matrix of 1s, ants that were never stuck and the first draw. Each later one starts from the matrix, the ant flags and the draw position the one before left. Each iteration is related to its matrices, ant states and draw positions by `Iteration`, the relation RunIteration ensures. Every iteration but the last is complete. `NoDrawsLeft` comes exactly when the last iteration stopped because a walk ran out of draws. An answer comes only after all NumberOfIterations iterations completed, and it is the path of the first ant with the smallest cost in the last one |

## Left out

- Reading the weights file (root/index.ts:129-140) is not modelled. That covers the stream and `readline`, and
  the `+el` string-to-number coercion. The model starts from the parsed rows.
- Parsing `start` and `end` from the command line (root/index.ts:11-16) is not modelled; they are parameters
  that must be nodes of the matrix.
- Nothing that `console.log` prints is modelled (root/index.ts:18, 61, 72, 153).
- The promise chain at root/index.ts:147-148 is not modelled; only the weight sum it computes is.
- `Math.random()` is replaced by a supplied sequence of draws, and probabilities are not modelled.
- `DrawsExhausted` and `NoDrawsLeft` exist only in the model: they mark a run that used up the supplied
  draws.
- `Math.pow` with the exponents alfa = 0.4 and beta = 0.6 is not modelled; the score is an abstract function
  that is positive on positive arguments.
- The `isNaN` check and its `throw` (root/index.ts:71-74) are not modelled. They are an IEEE-754 artefact with
  no counterpart in `real`.
- Negative weights are not modelled: the walk's lemmas and `AntsAlg` require non-negative weights. The source
  throws only when the walk stands at a node whose negative-weight edge leads to a node not yet on the path.
  There `Math.pow` of a negative base gives NaN (root/index.ts:54-57, 67-73). A negative weight the walk never
  reads raises nothing.
- Ants.Ant.Go: does not model the source's unbounded retrying, because the walk ends when the supplied draws
  run out.
- Colony.AntsAlg: says nothing about the path when the supplied draws run out, because the source has no such
  ending.
- Floating-point rounding is not modelled: all weights, pheromones, shares and sums are exact reals.
- The pheromone matrix is one `array2`, not the source's array of row arrays, so aliasing between rows is not
  modelled. The source creates every row separately, so no two rows share storage.
