/** Value Iteration: synchronous sweeps of the Bellman optimality update from
    all-zero utilities until the largest change over the non-wall cells falls
    strictly below error * (1 - gamma) / gamma, then greedy policy extraction. */
module ValueIteration {
  import opened GridWorld
  import opened Bellman

  /** The change below which the sweeps stop. */
  function Threshold(error: real, gamma: real): (t: real)
    requires gamma != 0.0
    ensures t * gamma == error * (1.0 - gamma)
    ensures 0.0 < gamma < 1.0 && 0.0 < error ==> 0.0 < t
  {
    var x := error * (1.0 - gamma);
    assert (x / gamma) * gamma == x;
    assert 0.0 < gamma < 1.0 && 0.0 < error ==> 0.0 < x / gamma by {
      if 0.0 < gamma < 1.0 && 0.0 < error {
        PositiveQuotient(error, 1.0 - gamma, gamma);
      }
    }
    x / gamma
  }

  /** A product of two positives divided by a positive is positive. */
  lemma PositiveQuotient(a: real, b: real, d: real)
    requires 0.0 < a && 0.0 < b && 0.0 < d
    ensures 0.0 < (a * b) / d
  {
    assert 0.0 < a * b;
  }

  /** The new utility of one cell, read from the previous sweep's `U`: a wall
      keeps its utility, any other cell gets its reward plus gamma times the
      best expected utility over the actions. */
  function SweepCell(env: Environment, U: Grid<real>, gamma: real, r: int, c: int): real
    requires Valid(env) && Shaped(env, U) && |env.actions| > 0 && InBounds(env, Cell(r, c))
  {
    if IsWall(env, r, c) then U[r][c]
    else GetReward(env, r, c) + gamma * BestQ(env, U, Cell(r, c), |env.actions|).value
  }

  /** One synchronous sweep: every cell is computed from `U` alone. */
  function Sweep(env: Environment, U: Grid<real>, gamma: real): (V: Grid<real>)
    requires Valid(env) && Shaped(env, U) && |env.actions| > 0
    ensures Shaped(env, V)
    ensures forall r, c :: 0 <= r < env.height && 0 <= c < env.width ==>
              V[r][c] == SweepCell(env, U, gamma, r, c)
  {
    seq(env.height, r requires 0 <= r < env.height =>
      seq(env.width, c requires 0 <= c < env.width => SweepCell(env, U, gamma, r, c)))
  }

  /** A non-wall cell of a sweep: reward plus gamma times the best expected
      utility. */
  lemma SweepValue(env: Environment, U: Grid<real>, gamma: real, r: int, c: int, best: real)
    requires Valid(env) && Shaped(env, U) && |env.actions| > 0
    requires InBounds(env, Cell(r, c)) && !IsWall(env, r, c)
    requires BestQ(env, U, Cell(r, c), |env.actions|) == Fin(best)
    ensures Sweep(env, U, gamma)[r][c] == GetReward(env, r, c) + gamma * best
  {
    assert SweepCell(env, U, gamma, r, c) == GetReward(env, r, c) + gamma * best;
    assert Sweep(env, U, gamma)[r][c] == SweepCell(env, U, gamma, r, c);
  }

  /** The new value of a non-wall cell, from its reward and the best
      expected utility. */
  lemma SweepCellValue(env: Environment, U: Grid<real>, gamma: real, r: int, c: int, best: ExtReal, reward: real)
    requires Valid(env) && Shaped(env, U) && |env.actions| > 0
    requires InBounds(env, Cell(r, c)) && !IsWall(env, r, c)
    requires best == BestQ(env, U, Cell(r, c), |env.actions|) && reward == GetReward(env, r, c)
    ensures SweepCell(env, U, gamma, r, c) == reward + gamma * best.value
  {
  }

  /** The utilities after `n` sweeps from `U`. */
  function SweepN(env: Environment, U: Grid<real>, gamma: real, n: nat): (V: Grid<real>)
    requires Valid(env) && Shaped(env, U) && |env.actions| > 0
    ensures Shaped(env, V)
  {
    if n == 0 then U else Sweep(env, SweepN(env, U, gamma, n - 1), gamma)
  }

  /** Every non-wall cell changed by strictly less than `t` from `U` to `V`. */
  predicate Converged(env: Environment, U: Grid<real>, V: Grid<real>, t: real)
    requires Valid(env) && Shaped(env, U) && Shaped(env, V)
  {
    forall r, c :: 0 <= r < env.height && 0 <= c < env.width && !IsWall(env, r, c) ==>
      Abs(V[r][c] - U[r][c]) < t
  }

  /** Sweep `n` (counting from 1) of a solve from all-zero utilities met the
      stopping test. */
  predicate ConvergedAt(env: Environment, gamma: real, t: real, n: nat)
    requires Valid(env) && |env.actions| > 0 && 1 <= n
  {
    var zero := Fill(env, 0.0);
    Converged(env, SweepN(env, zero, gamma, n - 1), SweepN(env, zero, gamma, n), t)
  }

  /** The changes |V - U| of the non-wall cells of row `r` left of column
      `n`, from left to right. */
  function RowChanges(env: Environment, U: Grid<real>, V: Grid<real>, r: int, n: int): seq<real>
    requires Valid(env) && Shaped(env, U) && Shaped(env, V)
    requires 0 <= r < env.height && 0 <= n <= env.width
  {
    if n == 0 then []
    else RowChanges(env, U, V, r, n - 1)
         + (if IsWall(env, r, n - 1) then [] else [Abs(V[r][n - 1] - U[r][n - 1])])
  }

  /** The changes of the non-wall cells of the first `n` rows, in the
      row-major order a sweep visits them. */
  function Changes(env: Environment, U: Grid<real>, V: Grid<real>, n: int): seq<real>
    requires Valid(env) && Shaped(env, U) && Shaped(env, V) && 0 <= n <= env.height
  {
    if n == 0 then [] else Changes(env, U, V, n - 1) + RowChanges(env, U, V, n - 1, env.width)
  }

  /** The running maximum the solve loop tracks over a sweep from `U` to `V`. */
  function MaxChange(env: Environment, U: Grid<real>, V: Grid<real>): ExtReal
    requires Valid(env) && Shaped(env, U) && Shaped(env, V)
  {
    MaxOf(Changes(env, U, V, env.height))
  }

  /** Every change in a row prefix is below `t` exactly when every non-wall
      cell of that prefix changed by less than `t`. */
  lemma {:induction false} RowChangesBelow(env: Environment, U: Grid<real>, V: Grid<real>, r: int, n: int, t: real)
    requires Valid(env) && Shaped(env, U) && Shaped(env, V)
    requires 0 <= r < env.height && 0 <= n <= env.width
    ensures AllBelow(RowChanges(env, U, V, r, n), t) <==>
            (forall c :: 0 <= c < n && !IsWall(env, r, c) ==> Abs(V[r][c] - U[r][c]) < t)
  {
    if n > 0 {
      RowChangesBelow(env, U, V, r, n - 1, t);
      var rest := RowChanges(env, U, V, r, n - 1);
      var last := if IsWall(env, r, n - 1) then [] else [Abs(V[r][n - 1] - U[r][n - 1])];
      AllBelowAppend(rest, last, t);
      if !IsWall(env, r, n - 1) {
        assert last[0] == Abs(V[r][n - 1] - U[r][n - 1]);
      }
    }
  }

  /** The same over the first `n` rows. */
  lemma {:induction false} ChangesBelow(env: Environment, U: Grid<real>, V: Grid<real>, n: int, t: real)
    requires Valid(env) && Shaped(env, U) && Shaped(env, V) && 0 <= n <= env.height
    ensures AllBelow(Changes(env, U, V, n), t) <==>
            (forall r, c :: 0 <= r < n && 0 <= c < env.width && !IsWall(env, r, c) ==> Abs(V[r][c] - U[r][c]) < t)
  {
    if n > 0 {
      ChangesBelow(env, U, V, n - 1, t);
      RowChangesBelow(env, U, V, n - 1, env.width, t);
      AllBelowAppend(Changes(env, U, V, n - 1), RowChanges(env, U, V, n - 1, env.width), t);
    }
  }

  /** The stopping test on the tracked maximum is the same as asking every
      non-wall cell to have changed by strictly less than the threshold; with
      no non-wall cell the maximum stays minus infinity and the test passes. */
  lemma MaxChangeTest(env: Environment, U: Grid<real>, V: Grid<real>, t: real)
    requires Valid(env) && Shaped(env, U) && Shaped(env, V)
    ensures Below(MaxChange(env, U, V), t) <==> Converged(env, U, V, t)
  {
    ChangesBelow(env, U, V, env.height, t);
    BelowMaxOf(Changes(env, U, V, env.height), t);
  }

  /** Folding one more value into the running maximum. */
  lemma MaxOfAppend(qs: seq<real>, x: real)
    ensures MaxOf(qs + [x]) == MaxWith(MaxOf(qs), x)
  {
    assert (qs + [x])[..|qs|] == qs;
  }

  /** Processing cell (row, col) extends the list of changes seen so far:
      walls add nothing, other cells add their change. */
  lemma ChangeStep(env: Environment, U: Grid<real>, V: Grid<real>, row: int, col: int)
    requires Valid(env) && Shaped(env, U) && Shaped(env, V)
    requires 0 <= row < env.height && 0 <= col < env.width
    ensures IsWall(env, row, col) ==>
      MaxOf(Changes(env, U, V, row) + RowChanges(env, U, V, row, col + 1))
      == MaxOf(Changes(env, U, V, row) + RowChanges(env, U, V, row, col))
    ensures !IsWall(env, row, col) ==>
      MaxOf(Changes(env, U, V, row) + RowChanges(env, U, V, row, col + 1))
      == MaxWith(MaxOf(Changes(env, U, V, row) + RowChanges(env, U, V, row, col)), Abs(V[row][col] - U[row][col]))
  {
    var done, prefix := Changes(env, U, V, row), RowChanges(env, U, V, row, col);
    if IsWall(env, row, col) {
      assert RowChanges(env, U, V, row, col + 1) == prefix + [];
      assert prefix + [] == prefix;
    } else {
      var x := Abs(V[row][col] - U[row][col]);
      assert done + (prefix + [x]) == (done + prefix) + [x];
      MaxOfAppend(done + prefix, x);
    }
  }

  /** A row of changes starts empty and, once complete, joins the rows
      before it. */
  lemma RowBoundary(env: Environment, U: Grid<real>, V: Grid<real>, row: int)
    requires Valid(env) && Shaped(env, U) && Shaped(env, V) && 0 <= row < env.height
    ensures Changes(env, U, V, row) + RowChanges(env, U, V, row, 0) == Changes(env, U, V, row)
    ensures Changes(env, U, V, row) + RowChanges(env, U, V, row, env.width) == Changes(env, U, V, row + 1)
  {
    assert Changes(env, U, V, row) + [] == Changes(env, U, V, row);
  }

  /** Cell (row, col) of a sweep: a non-wall cell gets its new value in
      `updated` and its change is folded into the running maximum; a wall is
      skipped. */
  method SweepCellOnce(env: Environment, utilities: Grid<real>, gamma: real, ghost V: Grid<real>,
                       updated: Grid<real>, maxUtilityChange: ExtReal, row: int, col: int)
    returns (updated': Grid<real>, maxUtilityChange': ExtReal)
    requires Valid(env) && Shaped(env, utilities) && |env.actions| > 0
    requires 0 <= row < env.height && 0 <= col < env.width
    requires Shaped(env, V) && V[row][col] == SweepCell(env, utilities, gamma, row, col)
    requires SweptUpTo(env, updated, utilities, V, row, col)
    requires maxUtilityChange == MaxOf(Changes(env, utilities, V, row) + RowChanges(env, utilities, V, row, col))
    ensures SweptUpTo(env, updated', utilities, V, row, col + 1)
    ensures maxUtilityChange' == MaxOf(Changes(env, utilities, V, row) + RowChanges(env, utilities, V, row, col + 1))
  {
    ChangeStep(env, utilities, V, row, col);
    if IsWall(env, row, col) {
      SweepStep(env, updated, utilities, V, row, col, V[row][col]);
      updated', maxUtilityChange' := updated, maxUtilityChange;
    } else {
      var optimalActionUtility := MaxActionUtility(env, utilities, row, col);
      var reward := GetReward(env, row, col);
      var newUtility := reward + gamma * optimalActionUtility.value;
      SweepCellValue(env, utilities, gamma, row, col, optimalActionUtility, reward);
      SweepStep(env, updated, utilities, V, row, col, newUtility);
      updated' := updated[row := updated[row][col := newUtility]];
      maxUtilityChange' := MaxWith(maxUtilityChange, Abs(newUtility - utilities[row][col]));
    }
  }

  /** Row `row` of a sweep, left to right. */
  method SweepRowOnce(env: Environment, utilities: Grid<real>, gamma: real, ghost V: Grid<real>,
                      updated: Grid<real>, maxUtilityChange: ExtReal, row: int)
    returns (updated': Grid<real>, maxUtilityChange': ExtReal)
    requires Valid(env) && Shaped(env, utilities) && |env.actions| > 0 && 0 <= row < env.height
    requires V == Sweep(env, utilities, gamma)
    requires SweptUpTo(env, updated, utilities, V, row, 0)
    requires maxUtilityChange == MaxOf(Changes(env, utilities, V, row))
    ensures SweptUpTo(env, updated', utilities, V, row + 1, 0)
    ensures maxUtilityChange' == MaxOf(Changes(env, utilities, V, row + 1))
  {
    updated', maxUtilityChange' := updated, maxUtilityChange;
    RowBoundary(env, utilities, V, row);
    for col := 0 to env.width
      invariant SweptUpTo(env, updated', utilities, V, row, col)
      invariant maxUtilityChange' == MaxOf(Changes(env, utilities, V, row) + RowChanges(env, utilities, V, row, col))
    {
      updated', maxUtilityChange' := SweepCellOnce(env, utilities, gamma, V, updated', maxUtilityChange', row, col);
    }
    NextRow(env, updated', utilities, V, row);
  }

  /** One sweep of the solve loop: computes the new utilities into a copy of
      `utilities`, reading only `utilities`, and tracks the largest change
      over the non-wall cells. */
  method SweepOnce(env: Environment, utilities: Grid<real>, gamma: real)
    returns (updated: Grid<real>, maxUtilityChange: ExtReal)
    requires Valid(env) && Shaped(env, utilities) && |env.actions| > 0
    ensures updated == Sweep(env, utilities, gamma)
    ensures maxUtilityChange == MaxChange(env, utilities, updated)
  {
    ghost var V := Sweep(env, utilities, gamma);
    maxUtilityChange := NegInf;
    updated := utilities;
    for row := 0 to env.height
      invariant SweptUpTo(env, updated, utilities, V, row, 0)
      invariant maxUtilityChange == MaxOf(Changes(env, utilities, V, row))
    {
      updated, maxUtilityChange := SweepRowOnce(env, utilities, gamma, V, updated, maxUtilityChange, row);
    }
    SweptAll(env, updated, utilities, V);
  }

  /** Sweep `n + 1` of a solve from all-zero utilities, and its stopping
      test on the tracked maximum change. */
  lemma NextSweep(env: Environment, gamma: real, t: real, n: nat, U: Grid<real>, V: Grid<real>, m: ExtReal)
    requires Valid(env) && |env.actions| > 0
    requires U == SweepN(env, Fill(env, 0.0), gamma, n) && V == Sweep(env, U, gamma) && m == MaxChange(env, U, V)
    ensures V == SweepN(env, Fill(env, 0.0), gamma, n + 1)
    ensures Below(m, t) <==> ConvergedAt(env, gamma, t, n + 1)
  {
    MaxChangeTest(env, U, V, t);
  }

  /** A sweep that failed the stopping test extends the run of sweeps
      that failed it. */
  lemma NoneConvergedStep(env: Environment, gamma: real, t: real, k: nat)
    requires Valid(env) && |env.actions| > 0
    requires forall n :: 1 <= n <= k ==> !ConvergedAt(env, gamma, t, n)
    requires !ConvergedAt(env, gamma, t, k + 1)
    ensures forall n :: 1 <= n <= k + 1 ==> !ConvergedAt(env, gamma, t, n)
  {
  }

  /** The greedy policy for `utilities`: the first maximising action at every
      non-wall cell, down (1, 0) at walls. */
  method GetOptimalPolicy(env: Environment, utilities: Grid<real>)
    returns (policy: Grid<Action>)
    requires Valid(env) && Shaped(env, utilities) && |env.actions| > 0
    ensures Shaped(env, policy)
    ensures forall r, c :: 0 <= r < env.height && 0 <= c < env.width ==>
              policy[r][c] == if IsWall(env, r, c) then Action(1, 0)
                              else GreedyAction(env, utilities, Cell(r, c))
  {
    policy := GreedyFill(env, utilities, Fill(env, Action(1, 0)));
  }

  /** Runs sweeps from all-zero utilities until one changes every non-wall
      cell by less than the threshold (at most `maxSweeps` of them), then
      extracts the greedy policy. */
  method SolveMdp(env: Environment, gamma: real, error: real, maxSweeps: nat)
    returns (numIters: nat, utilities: Grid<real>, policy: Grid<Action>, converged: bool)
    requires Valid(env) && |env.actions| > 0 && gamma != 0.0 && 0 < maxSweeps
    ensures 1 <= numIters <= maxSweeps
    ensures utilities == SweepN(env, Fill(env, 0.0), gamma, numIters)
    ensures converged == ConvergedAt(env, gamma, Threshold(error, gamma), numIters)
    ensures forall n :: 1 <= n < numIters ==> !ConvergedAt(env, gamma, Threshold(error, gamma), n)
    ensures !converged ==> numIters == maxSweeps
    ensures Shaped(env, policy)
    ensures forall r, c :: 0 <= r < env.height && 0 <= c < env.width ==>
              policy[r][c] == if IsWall(env, r, c) then Action(1, 0)
                              else GreedyAction(env, utilities, Cell(r, c))
  {
    ghost var zero := Fill(env, 0.0);
    utilities := Fill(env, 0.0);
    var threshold := Threshold(error, gamma);
    numIters := 0;
    converged := false;
    while numIters < maxSweeps
      invariant numIters <= maxSweeps
      invariant utilities == SweepN(env, zero, gamma, numIters)
      invariant forall n :: 1 <= n <= numIters ==> !ConvergedAt(env, gamma, threshold, n)
    {
      var updated, maxUtilityChange := SweepOnce(env, utilities, gamma);
      NextSweep(env, gamma, threshold, numIters, utilities, updated, maxUtilityChange);
      utilities := updated;
      numIters := numIters + 1;
      if Below(maxUtilityChange, threshold) {
        converged := true;
        break;
      }
      NoneConvergedStep(env, gamma, threshold, numIters - 1);
    }
    policy := GetOptimalPolicy(env, utilities);
  }

  // ---------------------------------------------------------------------
  // Properties of the sweeps

  /** Walls keep their utility through any number of sweeps. */
  lemma {:induction false} SweepNKeepsWalls(env: Environment, U: Grid<real>, gamma: real, n: nat)
    requires Valid(env) && Shaped(env, U) && |env.actions| > 0
    ensures forall r, c :: 0 <= r < env.height && 0 <= c < env.width && IsWall(env, r, c) ==>
              SweepN(env, U, gamma, n)[r][c] == U[r][c]
  {
    if n > 0 {
      SweepNKeepsWalls(env, U, gamma, n - 1);
    }
  }

  /** From all-zero utilities, walls stay at 0 in every sweep. */
  lemma WallsStayZero(env: Environment, gamma: real, n: nat)
    requires Valid(env) && |env.actions| > 0
    ensures forall r, c :: 0 <= r < env.height && 0 <= c < env.width && IsWall(env, r, c) ==>
              SweepN(env, Fill(env, 0.0), gamma, n)[r][c] == 0.0
  {
    SweepNKeepsWalls(env, Fill(env, 0.0), gamma, n);
  }

  /** Every non-wall cell of a sweep satisfies the Bellman optimality
      equation against the previous utilities: it gets its reward plus gamma
      times the expected utility of the greedy action, and no action has a
      larger expected utility. */
  lemma SweepIsBellmanOptimality(env: Environment, U: Grid<real>, gamma: real, r: int, c: int)
    requires Valid(env) && Shaped(env, U) && |env.actions| > 0
    requires InBounds(env, Cell(r, c)) && !IsWall(env, r, c)
    ensures Sweep(env, U, gamma)[r][c] ==
            GetReward(env, r, c) + gamma * QValue(env, U, Cell(r, c), GreedyAction(env, U, Cell(r, c)))
    ensures forall j :: 0 <= j < |env.actions| ==>
              QValue(env, U, Cell(r, c), env.actions[j]) <= QValue(env, U, Cell(r, c), GreedyAction(env, U, Cell(r, c)))
  {
    var s := Cell(r, c);
    GreedyAttainsBestQ(env, U, s);
    GreedyIsMaximal(env, U, s);
    SweepValue(env, U, gamma, r, c, QValue(env, U, s, GreedyAction(env, U, s)));
  }

  /** On a one-cell grid every move, intended or slipped, ends where it
      started, so every action's expected utility is the cell's own. */
  lemma SingleCellQValue(env: Environment, U: Grid<real>, a: Action)
    requires Valid(env) && Shaped(env, U)
    requires env.height == 1 && env.width == 1 && !IsWall(env, 0, 0)
    ensures QValue(env, U, Cell(0, 0), a) == U[0][0]
  {
    var o := Cell(0, 0);
    QValueBySlips(env, U, o, a);
    var t0, t1, t2 := Resolve(env, o, a), Resolve(env, o, Action(-1 * a.dc, -1 * a.dr)), Resolve(env, o, Action(a.dc, a.dr));
    assert t0 == o && t1 == o && t2 == o;
  }

  /** Hence the best expected utility on a one-cell grid is the cell's own. */
  lemma SingleCellBestQ(env: Environment, U: Grid<real>)
    requires Valid(env) && Shaped(env, U) && |env.actions| > 0
    requires env.height == 1 && env.width == 1 && !IsWall(env, 0, 0)
    ensures BestQ(env, U, Cell(0, 0), |env.actions|) == Fin(U[0][0])
  {
    var i := BestIndex(env, U, Cell(0, 0), |env.actions|);
    BestIndexAttainsBestQ(env, U, Cell(0, 0), |env.actions|);
    SingleCellQValue(env, U, env.actions[i]);
  }

  /** Goal cells are not absorbing: on a one-cell grid every move stays put,
      so each sweep gives reward + gamma * (previous utility) rather than
      stopping at the reward. */
  lemma SingleCellRecurrence(env: Environment, U: Grid<real>, gamma: real)
    requires Valid(env) && Shaped(env, U) && |env.actions| > 0
    requires env.height == 1 && env.width == 1 && !IsWall(env, 0, 0)
    ensures Sweep(env, U, gamma)[0][0] == GetReward(env, 0, 0) + gamma * U[0][0]
  {
    SingleCellBestQ(env, U);
    SweepValue(env, U, gamma, 0, 0, U[0][0]);
  }
}
