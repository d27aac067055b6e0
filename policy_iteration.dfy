/** Policy Iteration: starting from "go right" everywhere and all-zero
    utilities, alternate a fixed number `k` of synchronous policy-evaluation
    sweeps with one greedy improvement step, until improvement leaves the
    policy unchanged. */
module PolicyIteration {
  import opened GridWorld
  import opened Bellman

  /** The starting policy: right (0, 1) at every cell, walls included. */
  function GetInitialPolicy(env: Environment): (policy: Grid<Action>)
    ensures Shaped(env, policy)
    ensures forall r, c :: 0 <= r < env.height && 0 <= c < env.width ==> policy[r][c] == Action(0, 1)
  {
    Fill(env, Action(0, 1))
  }

  // ---------------------------------------------------------------------
  // Policy evaluation

  /** The new utility of one cell under `policy`, read from the previous
      sweep's `U`: a wall keeps its utility, any other cell gets its reward
      plus gamma times the expected utility of its policy action. */
  function EvalCell(env: Environment, U: Grid<real>, policy: Grid<Action>, gamma: real, r: int, c: int): real
    requires Valid(env) && Shaped(env, U) && Shaped(env, policy) && InBounds(env, Cell(r, c))
  {
    if IsWall(env, r, c) then U[r][c]
    else GetReward(env, r, c) + gamma * QValue(env, U, Cell(r, c), policy[r][c])
  }

  /** One synchronous evaluation sweep: every cell is computed from `U` alone. */
  function EvalSweep(env: Environment, U: Grid<real>, policy: Grid<Action>, gamma: real): (V: Grid<real>)
    requires Valid(env) && Shaped(env, U) && Shaped(env, policy)
    ensures Shaped(env, V)
    ensures forall r, c {:trigger V[r][c]} :: 0 <= r < env.height && 0 <= c < env.width ==>
              V[r][c] == EvalCell(env, U, policy, gamma, r, c)
  {
    seq(env.height, r requires 0 <= r < env.height =>
      seq(env.width, c requires 0 <= c < env.width => EvalCell(env, U, policy, gamma, r, c)))
  }

  /** The utilities after `k` evaluation sweeps from `U`. */
  function EvalN(env: Environment, U: Grid<real>, policy: Grid<Action>, gamma: real, k: nat): (V: Grid<real>)
    requires Valid(env) && Shaped(env, U) && Shaped(env, policy)
    ensures Shaped(env, V)
  {
    if k == 0 then U else EvalSweep(env, EvalN(env, U, policy, gamma, k - 1), policy, gamma)
  }

  /** Cell (row, col) of an evaluation sweep: a non-wall cell gets its new
      value in `updated`; a wall is skipped. */
  method EvalCellOnce(env: Environment, utilities: Grid<real>, policy: Grid<Action>, gamma: real,
                      ghost V: Grid<real>, updated: Grid<real>, row: int, col: int)
    returns (updated': Grid<real>)
    requires Valid(env) && Shaped(env, utilities) && Shaped(env, policy)
    requires 0 <= row < env.height && 0 <= col < env.width
    requires Shaped(env, V) && V[row][col] == EvalCell(env, utilities, policy, gamma, row, col)
    requires SweptUpTo(env, updated, utilities, V, row, col)
    ensures SweptUpTo(env, updated', utilities, V, row, col + 1)
  {
    updated' := updated;
    SweepStep(env, updated, utilities, V, row, col, V[row][col]);
    if !IsWall(env, row, col) {
      var currAction := policy[row][col];
      var currActionUtility := ActionUtility(env, utilities, row, col, currAction);
      var reward := GetReward(env, row, col);
      updated' := updated[row := updated[row][col := reward + gamma * currActionUtility]];
    }
  }

  /** Row `row` of an evaluation sweep, left to right. */
  method EvalRowOnce(env: Environment, utilities: Grid<real>, policy: Grid<Action>, gamma: real,
                     ghost V: Grid<real>, updated: Grid<real>, row: int)
    returns (updated': Grid<real>)
    requires Valid(env) && Shaped(env, utilities) && Shaped(env, policy) && 0 <= row < env.height
    requires V == EvalSweep(env, utilities, policy, gamma)
    requires SweptUpTo(env, updated, utilities, V, row, 0)
    ensures SweptUpTo(env, updated', utilities, V, row + 1, 0)
  {
    updated' := updated;
    for col := 0 to env.width
      invariant SweptUpTo(env, updated', utilities, V, row, col)
    {
      updated' := EvalCellOnce(env, utilities, policy, gamma, V, updated', row, col);
    }
    NextRow(env, updated', utilities, V, row);
  }

  /** One evaluation sweep: computes the new utilities into a copy of
      `utilities`, reading only `utilities`. */
  method EvaluationSweep(env: Environment, utilities: Grid<real>, policy: Grid<Action>, gamma: real)
    returns (updated: Grid<real>)
    requires Valid(env) && Shaped(env, utilities) && Shaped(env, policy)
    ensures updated == EvalSweep(env, utilities, policy, gamma)
  {
    ghost var V := EvalSweep(env, utilities, policy, gamma);
    updated := utilities;
    for row := 0 to env.height
      invariant SweptUpTo(env, updated, utilities, V, row, 0)
    {
      updated := EvalRowOnce(env, utilities, policy, gamma, V, updated, row);
    }
    GridExt(env, updated, V);
  }

  /** Exactly `k` evaluation sweeps, each reading the previous one's result;
      with `k` = 0 the utilities come back unchanged. */
  method EvaluatePolicy(env: Environment, utilities: Grid<real>, policy: Grid<Action>, gamma: real, k: nat)
    returns (evaluated: Grid<real>)
    requires Valid(env) && Shaped(env, utilities) && Shaped(env, policy)
    ensures evaluated == EvalN(env, utilities, policy, gamma, k)
  {
    evaluated := utilities;
    for i := 0 to k
      invariant evaluated == EvalN(env, utilities, policy, gamma, i)
    {
      evaluated := EvaluationSweep(env, evaluated, policy, gamma);
    }
  }

  // ---------------------------------------------------------------------
  // Policy improvement

  /** `policy` already takes the greedy action at every non-wall cell. */
  predicate Stable(env: Environment, U: Grid<real>, policy: Grid<Action>)
    requires Valid(env) && Shaped(env, U) && Shaped(env, policy) && |env.actions| > 0
  {
    forall r, c {:trigger policy[r][c]} :: 0 <= r < env.height && 0 <= c < env.width && !IsWall(env, r, c) ==>
      policy[r][c] == GreedyAction(env, U, Cell(r, c))
  }

  /** Greedy improvement leaves a policy unchanged exactly when the policy
      is already greedy at every non-wall cell. */
  lemma GreedyFixpoint(env: Environment, U: Grid<real>, policy: Grid<Action>)
    requires Valid(env) && Shaped(env, U) && Shaped(env, policy) && |env.actions| > 0
    ensures Greedy(env, U, policy) == policy <==> Stable(env, U, policy)
  {
    var improved := Greedy(env, U, policy);
    if Stable(env, U, policy) {
      forall r, c | 0 <= r < env.height && 0 <= c < env.width
        ensures improved[r][c] == policy[r][c]
      {
      }
      GridExt(env, improved, policy);
    }
    if improved == policy {
      forall r, c | 0 <= r < env.height && 0 <= c < env.width && !IsWall(env, r, c)
        ensures policy[r][c] == GreedyAction(env, U, Cell(r, c))
      {
        assert improved[r][c] == GreedyCell(env, U, policy, r, c);
      }
    }
  }

  /** One improvement step: every non-wall cell of a copy of `policy` gets
      its greedy action for `utilities`, walls keep their entry, and the flag
      reports whether nothing changed. */
  method ImprovePolicy(env: Environment, utilities: Grid<real>, policy: Grid<Action>)
    returns (improved: Grid<Action>, policyUnchanged: bool)
    requires Valid(env) && Shaped(env, utilities) && Shaped(env, policy) && |env.actions| > 0
    ensures improved == Greedy(env, utilities, policy)
    ensures policyUnchanged <==> improved == policy
    ensures policyUnchanged <==> Stable(env, utilities, policy)
  {
    improved := GreedyFill(env, utilities, policy);
    policyUnchanged := improved == policy;
    GreedyFixpoint(env, utilities, policy);
  }

  // ---------------------------------------------------------------------
  // The solve loop

  /** Utilities and policy between two rounds of the solve loop. */
  datatype Snapshot = Snapshot(utilities: Grid<real>, policy: Grid<Action>)

  /** One round: `k` evaluation sweeps from the carried-over utilities, then
      greedy improvement of the policy against the new utilities. */
  function Round(env: Environment, gamma: real, k: nat, s: Snapshot): (t: Snapshot)
    requires Valid(env) && |env.actions| > 0
    requires Shaped(env, s.utilities) && Shaped(env, s.policy)
    ensures Shaped(env, t.utilities) && Shaped(env, t.policy)
  {
    var U := EvalN(env, s.utilities, s.policy, gamma, k);
    Snapshot(U, Greedy(env, U, s.policy))
  }

  /** The snapshot after `n` rounds from all-zero utilities and the initial
      policy. */
  function Rounds(env: Environment, gamma: real, k: nat, n: nat): (s: Snapshot)
    requires Valid(env) && |env.actions| > 0
    ensures Shaped(env, s.utilities) && Shaped(env, s.policy)
  {
    if n == 0 then Snapshot(Fill(env, 0.0), GetInitialPolicy(env))
    else Round(env, gamma, k, Rounds(env, gamma, k, n - 1))
  }

  /** Round `n` (counting from 1) reported no change: the improvement step
      left the policy it started from as it was. */
  predicate StableAt(env: Environment, gamma: real, k: nat, n: nat)
    requires Valid(env) && |env.actions| > 0 && 1 <= n
  {
    Rounds(env, gamma, k, n).policy == Rounds(env, gamma, k, n - 1).policy
  }

  /** The body of the solve loop: `k` evaluation sweeps, then one
      improvement step whose flag reports whether the policy was already
      greedy. */
  method PolicyRound(env: Environment, gamma: real, k: nat, utilities: Grid<real>, policy: Grid<Action>)
    returns (utilities': Grid<real>, policy': Grid<Action>, policyUnchanged: bool)
    requires Valid(env) && |env.actions| > 0 && Shaped(env, utilities) && Shaped(env, policy)
    ensures Snapshot(utilities', policy') == Round(env, gamma, k, Snapshot(utilities, policy))
    ensures policyUnchanged <==> policy' == policy
    ensures policyUnchanged <==> Stable(env, utilities', policy)
  {
    utilities' := EvaluatePolicy(env, utilities, policy, gamma, k);
    policy', policyUnchanged := ImprovePolicy(env, utilities', policy);
  }

  /** Round `round + 1` of the solve loop, from the snapshot after `round`
      rounds. */
  method NextRound(env: Environment, gamma: real, k: nat, ghost round: nat, utilities: Grid<real>, policy: Grid<Action>)
    returns (utilities': Grid<real>, policy': Grid<Action>, stable: bool)
    requires Valid(env) && |env.actions| > 0
    requires Snapshot(utilities, policy) == Rounds(env, gamma, k, round)
    ensures Snapshot(utilities', policy') == Rounds(env, gamma, k, round + 1)
    ensures stable == StableAt(env, gamma, k, round + 1)
  {
    utilities', policy', stable := PolicyRound(env, gamma, k, utilities, policy);
  }

  /** The evaluation sweeps counted after `n` rounds of `k` sweeps each. */
  function SweepsAfter(k: nat, n: nat): nat
  {
    if n == 0 then 0 else SweepsAfter(k, n - 1) + k
  }

  lemma {:induction false} SweepsAfterIsProduct(k: nat, n: nat)
    ensures SweepsAfter(k, n) == n * k
  {
    if n > 0 {
      SweepsAfterIsProduct(k, n - 1);
      assert n * k == (n - 1) * k + k;
    }
  }

  /** Alternates `k` evaluation sweeps with one improvement step until the
      improvement changes nothing (at most `maxRounds` rounds). */
  method SolveMdp(env: Environment, gamma: real, k: nat, maxRounds: nat)
    returns (numIters: nat, utilities: Grid<real>, policy: Grid<Action>, converged: bool, ghost rounds: nat)
    requires Valid(env) && |env.actions| > 0 && 0 < maxRounds
    ensures 1 <= rounds <= maxRounds
    ensures numIters == rounds * k
    ensures Snapshot(utilities, policy) == Rounds(env, gamma, k, rounds)
    ensures converged == StableAt(env, gamma, k, rounds)
    ensures forall n :: 1 <= n < rounds ==> !StableAt(env, gamma, k, n)
    ensures !converged ==> rounds == maxRounds
  {
    policy := GetInitialPolicy(env);
    utilities := Fill(env, 0.0);
    numIters := 0;
    converged := false;
    var round := 0;
    while !converged && round < maxRounds
      invariant round <= maxRounds && numIters == SweepsAfter(k, round)
      invariant Snapshot(utilities, policy) == Rounds(env, gamma, k, round)
      invariant converged ==> 1 <= round && StableAt(env, gamma, k, round)
      invariant forall n :: 1 <= n <= round && !(converged && n == round) ==> !StableAt(env, gamma, k, n)
      decreases maxRounds - round
    {
      utilities, policy, converged := NextRound(env, gamma, k, round, utilities, policy);
      numIters := numIters + k;
      round := round + 1;
    }
    rounds := round;
    SweepsAfterIsProduct(k, rounds);
  }

  // ---------------------------------------------------------------------
  // Properties of the rounds

  /** Walls keep their utility through any number of evaluation sweeps. */
  lemma {:induction false} EvalNKeepsWalls(env: Environment, U: Grid<real>, policy: Grid<Action>, gamma: real, k: nat)
    requires Valid(env) && Shaped(env, U) && Shaped(env, policy)
    ensures forall r, c :: 0 <= r < env.height && 0 <= c < env.width && IsWall(env, r, c) ==>
              EvalN(env, U, policy, gamma, k)[r][c] == U[r][c]
  {
    if k > 0 {
      EvalNKeepsWalls(env, U, policy, gamma, k - 1);
    }
  }

  /** From all-zero utilities and the initial policy, every wall has utility
      0 and action right (0, 1) after any number of rounds. */
  lemma {:induction false} RoundsKeepWalls(env: Environment, gamma: real, k: nat, n: nat)
    requires Valid(env) && |env.actions| > 0
    ensures forall r, c :: 0 <= r < env.height && 0 <= c < env.width && IsWall(env, r, c) ==>
              Rounds(env, gamma, k, n).utilities[r][c] == 0.0 && Rounds(env, gamma, k, n).policy[r][c] == Action(0, 1)
  {
    if n > 0 {
      RoundsKeepWalls(env, gamma, k, n - 1);
      var s := Rounds(env, gamma, k, n - 1);
      EvalNKeepsWalls(env, s.utilities, s.policy, gamma, k);
    }
  }

  /** A non-wall cell of an evaluation sweep satisfies the Bellman
      expectation equation for its policy action `a`: reward plus gamma times
      `q`, the sum of 0.8 of the utility where the intended move ends and 0.1
      of each perpendicular slip's. */
  lemma EvalSweepIsExpectation(env: Environment, U: Grid<real>, policy: Grid<Action>, gamma: real, r: int, c: int, q: real)
    requires Valid(env) && Shaped(env, U) && Shaped(env, policy)
    requires InBounds(env, Cell(r, c)) && !IsWall(env, r, c)
    requires var s, a := Cell(r, c), policy[r][c];
      var t0, t1, t2 := Resolve(env, s, a), Resolve(env, s, Action(-1 * a.dc, -1 * a.dr)), Resolve(env, s, Action(a.dc, a.dr));
      q == 0.8 * U[t0.row][t0.col] + 0.1 * U[t1.row][t1.col] + 0.1 * U[t2.row][t2.col]
    ensures EvalSweep(env, U, policy, gamma)[r][c] == GetReward(env, r, c) + gamma * q
  {
    QValueBySlips(env, U, Cell(r, c), policy[r][c]);
    EvalSweepValue(env, U, policy, gamma, r, c, q);
  }

  /** A non-wall cell of an evaluation sweep is its reward plus gamma times
      `q`, the expected utility of its policy action. */
  lemma EvalSweepValue(env: Environment, U: Grid<real>, policy: Grid<Action>, gamma: real, r: int, c: int, q: real)
    requires Valid(env) && Shaped(env, U) && Shaped(env, policy)
    requires InBounds(env, Cell(r, c)) && !IsWall(env, r, c)
    requires QValue(env, U, Cell(r, c), policy[r][c]) == q
    ensures EvalSweep(env, U, policy, gamma)[r][c] == GetReward(env, r, c) + gamma * q
  {
    assert EvalCell(env, U, policy, gamma, r, c) == GetReward(env, r, c) + gamma * q;
  }

  /** Round `n` reports no change exactly when the policy it started from is
      already greedy for the utilities it computed; the policy it returns is
      then greedy for its own utilities. */
  lemma StableRoundIsGreedy(env: Environment, gamma: real, k: nat, n: nat)
    requires Valid(env) && |env.actions| > 0 && 1 <= n
    ensures StableAt(env, gamma, k, n) <==>
              Stable(env, Rounds(env, gamma, k, n).utilities, Rounds(env, gamma, k, n - 1).policy)
    ensures StableAt(env, gamma, k, n) ==>
              Stable(env, Rounds(env, gamma, k, n).utilities, Rounds(env, gamma, k, n).policy)
  {
    var s := Rounds(env, gamma, k, n - 1);
    var U := Rounds(env, gamma, k, n).utilities;
    GreedyFixpoint(env, U, s.policy);
  }
}
