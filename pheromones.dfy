/** The pheromone matrix: its creation, its evaporation and what one ant deposits on it. */
module Pheromones {
  import opened Weights

  /** The evaporation rate `ro`: every entry keeps 1 - Ro of its value per iteration. */
  const Ro: real := 0.05

  /** `antCapacity`: the pheromone an ant spreads over its path, divided by the path's cost. */
  const AntCapacity: real := 100.0

  predicate AllPositive(tau: array2<real>)
    reads tau
  {
    forall i, j :: 0 <= i < tau.Length0 && 0 <= j < tau.Length1 ==> tau[i, j] > 0.0
  }

  /** The pheromone matrix is n x n. */
  predicate Sized(tau: array2<real>, n: nat) {
    tau.Length0 == n && tau.Length1 == n
  }

  /** Every entry of a pheromone matrix, taken as a value, is positive. */
  predicate Positive(t: seq<seq<real>>) {
    forall i, j :: 0 <= i < |t| && 0 <= j < |t[i]| ==> t[i][j] > 0.0
  }

  /** The entries of the pheromone matrix as a value, row by row. */
  ghost function Contents(tau: array2<real>): (m: seq<seq<real>>)
    reads tau
    ensures |m| == tau.Length0 && forall i :: 0 <= i < |m| ==> |m[i]| == tau.Length1
    ensures forall i, j :: 0 <= i < tau.Length0 && 0 <= j < tau.Length1 ==> m[i][j] == tau[i, j]
  {
    seq(tau.Length0, i requires 0 <= i < tau.Length0 reads tau =>
      seq(tau.Length1, j requires 0 <= j < tau.Length1 reads tau => tau[i, j]))
  }

  /** A pheromone matrix, taken as a value, after evaporation: every entry keeps 1 - Ro of its value. */
  function Evaporated(t: seq<seq<real>>): (e: seq<seq<real>>)
    ensures |e| == |t| && forall i :: 0 <= i < |t| ==> |e[i]| == |t[i]|
    ensures forall i, j :: 0 <= i < |t| && 0 <= j < |t[i]| ==> e[i][j] == t[i][j] * (1.0 - Ro)
  {
    seq(|t|, i requires 0 <= i < |t| => seq(|t[i]|, j requires 0 <= j < |t[i]| => t[i][j] * (1.0 - Ro)))
  }

  /** An n x n pheromone matrix filled with 1s, as the colony creates it before the first iteration. */
  method NewPheromones(n: nat) returns (tau: array2<real>)
    ensures fresh(tau) && tau.Length0 == n && tau.Length1 == n
    ensures forall i, j :: 0 <= i < n && 0 <= j < n ==> tau[i, j] == 1.0
    ensures AllPositive(tau)
  {
    tau := new real[n, n]((i, j) => 1.0);
  }

  /** Multiplies every entry by 1 - Ro, in place, row by row. */
  method VaporizePheromones(tau: array2<real>)
    requires tau.Length0 == tau.Length1
    modifies tau
    ensures forall i, j :: 0 <= i < tau.Length0 && 0 <= j < tau.Length1 ==> tau[i, j] == old(tau[i, j]) * (1.0 - Ro)
    ensures Contents(tau) == Evaporated(old(Contents(tau)))
    ensures old(AllPositive(tau)) ==> AllPositive(tau)
  {
    var n := tau.Length0;
    ghost var before := Contents(tau);
    for i := 0 to n
      invariant forall r, c :: 0 <= r < i && 0 <= c < n ==> tau[r, c] == old(tau[r, c]) * (1.0 - Ro)
      invariant forall r, c :: i <= r < n && 0 <= c < n ==> tau[r, c] == old(tau[r, c])
    {
      for j := 0 to n
        invariant forall r, c :: 0 <= r < i && 0 <= c < n ==> tau[r, c] == old(tau[r, c]) * (1.0 - Ro)
        invariant forall c :: 0 <= c < j ==> tau[i, c] == old(tau[i, c]) * (1.0 - Ro)
        invariant forall c :: j <= c < n ==> tau[i, c] == old(tau[i, c])
        invariant forall r, c :: i < r < n && 0 <= c < n ==> tau[r, c] == old(tau[r, c])
      {
        tau[i, j] := tau[i, j] * (1.0 - Ro);
      }
    }
    ghost var after, expected := Contents(tau), Evaporated(before);
    assert forall r | 0 <= r < n :: after[r] == expected[r];
  }

  /** How many times u -> v occurs as a consecutive pair of p. */
  function EdgeCount(p: seq<nat>, u: nat, v: nat): nat
  {
    if |p| < 2 then 0
    else (if p[0] == u && p[1] == v then 1 else 0) + EdgeCount(p[1..], u, v)
  }

  /** u -> v is one of the edges walked along p. */
  predicate OnPath(p: seq<nat>, u: nat, v: nat) {
    exists k :: 0 <= k < |p| - 1 && p[k] == u && p[k + 1] == v
  }

  /** The amount a finished ant adds to each edge of its path: AntCapacity / totalWay. */
  function Share(p: seq<nat>, totalWay: real): real
    requires |p| < 2 || totalWay != 0.0
  {
    if |p| < 2 then 0.0 else AntCapacity / totalWay
  }

  /** `amount` added to (u, v) once for every consecutive pair u, v of p, as the deposit loop adds it. */
  function AddedAlong(p: seq<nat>, u: nat, v: nat, amount: real): real
  {
    if |p| < 2 then 0.0
    else (if p[0] == u && p[1] == v then amount else 0.0) + AddedAlong(p[1..], u, v, amount)
  }

  /** What a finished ant with path p and cost totalWay adds to the entry (u, v). */
  function Deposit(p: seq<nat>, totalWay: real, u: nat, v: nat): real
    requires |p| < 2 || totalWay != 0.0
  {
    AddedAlong(p, u, v, Share(p, totalWay))
  }

  /** The deposit on (u, v) is the share times the number of times the path walks u -> v. */
  lemma {:induction false} AddedAlongCount(p: seq<nat>, u: nat, v: nat, amount: real)
    ensures AddedAlong(p, u, v, amount) == EdgeCount(p, u, v) as real * amount
  {
    if |p| >= 2 {
      AddedAlongCount(p[1..], u, v, amount);
      var rest := EdgeCount(p[1..], u, v);
      if p[0] == u && p[1] == v {
        assert (rest + 1) as real * amount == amount + rest as real * amount;
      }
    }
  }

  /** A pair is counted exactly when it is an edge of the path. */
  lemma {:induction false} EdgeCountOnPath(p: seq<nat>, u: nat, v: nat)
    ensures EdgeCount(p, u, v) > 0 <==> OnPath(p, u, v)
  {
    if |p| >= 2 {
      var q := p[1..];
      EdgeCountOnPath(q, u, v);
      if OnPath(q, u, v) {
        var k :| 0 <= k < |q| - 1 && q[k] == u && q[k + 1] == v;
        assert p[k + 1] == u && p[k + 2] == v;
      }
      if OnPath(p, u, v) && !(p[0] == u && p[1] == v) {
        var k :| 0 <= k < |p| - 1 && p[k] == u && p[k + 1] == v;
        assert q[k - 1] == u && q[k] == v;
      }
    }
  }

  /** On a path with no repeated node every edge is walked at most once. */
  lemma {:induction false} EdgeCountSimple(p: seq<nat>, u: nat, v: nat)
    requires NoDuplicates(p)
    ensures EdgeCount(p, u, v) <= 1
  {
    if |p| >= 2 {
      var q := p[1..];
      EdgeCountSimple(q, u, v);
      if p[0] == u && p[1] == v && EdgeCount(q, u, v) > 0 {
        EdgeCountOnPath(q, u, v);
        assert false;
      }
    }
  }

  /** A deposit reaches exactly the edges of the path, each of a simple path once, and adds nothing negative. */
  lemma DepositExactlyOnPath(p: seq<nat>, totalWay: real, u: nat, v: nat)
    requires |p| < 2 || totalWay > 0.0
    ensures Deposit(p, totalWay, u, v) >= 0.0
    ensures Deposit(p, totalWay, u, v) != 0.0 <==> OnPath(p, u, v)
    ensures NoDuplicates(p) ==> Deposit(p, totalWay, u, v) == if OnPath(p, u, v) then AntCapacity / totalWay else 0.0
  {
    AddedAlongCount(p, u, v, Share(p, totalWay));
    EdgeCountOnPath(p, u, v);
    if NoDuplicates(p) {
      EdgeCountSimple(p, u, v);
      if OnPath(p, u, v) {
        assert EdgeCount(p, u, v) == 1 && |p| >= 2;
        assert Deposit(p, totalWay, u, v) == 1.0 * (AntCapacity / totalWay);
      }
    }
  }
}
