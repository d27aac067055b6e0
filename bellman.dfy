/** What both solvers compute per cell: the expected next-state utility of an
    action, the best such value over the action list, the first action that
    attains it, and the greedy policy grid built from those choices; also the
    bookkeeping of a synchronous sweep that writes a copy of the utilities
    cell by cell in row-major order while reading only the original. */
module Bellman {
  import opened GridWorld

  /** A float that starts as minus infinity: the running maxima of the
      solvers begin at float("-inf"). */
  datatype ExtReal = NegInf | Fin(value: real)

  datatype Option<T> = None | Some(value: T)

  /** max(m, x) where m may be minus infinity. */
  function MaxWith(m: ExtReal, x: real): (r: ExtReal)
    ensures r.Fin? && (m.Fin? ==> m.value <= r.value) && x <= r.value
    ensures r == Fin(x) || r == m
  {
    if m.NegInf? || m.value < x then Fin(x) else m
  }

  /** m < t where m may be minus infinity. */
  predicate Below(m: ExtReal, t: real)
  {
    m.NegInf? || m.value < t
  }

  function Abs(x: real): real
  {
    if x < 0.0 then -x else x
  }

  /** The running maximum of `qs`, from minus infinity. */
  function MaxOf(qs: seq<real>): (m: ExtReal)
    ensures m.NegInf? <==> qs == []
  {
    if qs == [] then NegInf else MaxWith(MaxOf(qs[..|qs| - 1]), qs[|qs| - 1])
  }

  /** A non-empty list's running maximum bounds every entry and is one of them. */
  lemma {:induction false} MaxOfIsMaximum(qs: seq<real>)
    requires qs != []
    ensures forall i :: 0 <= i < |qs| ==> qs[i] <= MaxOf(qs).value
    ensures exists i :: 0 <= i < |qs| && qs[i] == MaxOf(qs).value
  {
    var init := qs[..|qs| - 1];
    if init == [] {
      assert qs[0] == MaxOf(qs).value;
    } else {
      MaxOfIsMaximum(init);
      var k :| 0 <= k < |init| && init[k] == MaxOf(init).value;
      assert forall i :: 0 <= i < |init| ==> qs[i] == init[i];
      if MaxOf(qs) == MaxOf(init) {
        assert qs[k] == MaxOf(qs).value;
      } else {
        assert qs[|qs| - 1] == MaxOf(qs).value;
      }
    }
  }

  /** Every entry of `qs` is strictly below `t`. */
  predicate AllBelow(qs: seq<real>, t: real)
  {
    forall i :: 0 <= i < |qs| ==> qs[i] < t
  }

  /** A concatenation is below `t` exactly when both parts are. */
  lemma AllBelowAppend(a: seq<real>, b: seq<real>, t: real)
    ensures AllBelow(a + b, t) <==> AllBelow(a, t) && AllBelow(b, t)
  {
    if AllBelow(a + b, t) {
      forall i | 0 <= i < |a|
        ensures a[i] < t
      {
        assert (a + b)[i] == a[i];
      }
      forall j | 0 <= j < |b|
        ensures b[j] < t
      {
        assert (a + b)[|a| + j] == b[j];
      }
    }
    if AllBelow(a, t) && AllBelow(b, t) {
      forall i | 0 <= i < |a + b|
        ensures (a + b)[i] < t
      {
        if i < |a| {
          assert (a + b)[i] == a[i];
        } else {
          assert (a + b)[i] == b[i - |a|];
        }
      }
    }
  }

  /** The strict stopping test against the running maximum holds exactly
      when every entry is below the bound (vacuously for the empty list). */
  lemma BelowMaxOf(qs: seq<real>, t: real)
    ensures Below(MaxOf(qs), t) <==> AllBelow(qs, t)
  {
    if qs != [] {
      MaxOfIsMaximum(qs);
      var m := MaxOf(qs).value;
      var k :| 0 <= k < |qs| && qs[k] == m;
    }
  }

  /** Every destination of `d` indexes into `U`. */
  predicate Covers(U: Grid<real>, d: Dist)
  {
    forall i :: 0 <= i < |d| ==> 0 <= d[i].dest.row < |U| && 0 <= d[i].dest.col < |U[d[i].dest.row]|
  }

  /** Sum over the dictionary of probability times utility of the destination. */
  function Expected(d: Dist, U: Grid<real>): real
    requires Covers(U, d)
  {
    if d == [] then 0.0
    else d[0].mass * U[d[0].dest.row][d[0].dest.col] + Expected(d[1..], U)
  }

  /** Adding mass for a destination inside `U` keeps every key inside `U`. */
  lemma {:induction false} AddMassCovers(d: Dist, s: Cell, p: real, U: Grid<real>)
    requires Covers(U, d)
    requires 0 <= s.row < |U| && 0 <= s.col < |U[s.row]|
    ensures Covers(U, AddMass(d, s, p))
  {
    if d != [] && d[0].dest != s {
      AddMassCovers(d[1..], s, p, U);
      var e := AddMass(d, s, p);
      assert e[0] == d[0] && e[1..] == AddMass(d[1..], s, p);
      forall i | 0 <= i < |e|
        ensures 0 <= e[i].dest.row < |U| && 0 <= e[i].dest.col < |U[e[i].dest.row]|
      {
        if i > 0 {
          assert e[i] == e[1..][i - 1];
        }
      }
    }
  }

  /** Adding mass `p` for `s` adds `p` times the utility of `s` to the sum. */
  lemma {:induction false} AddMassExpected(d: Dist, s: Cell, p: real, U: Grid<real>)
    requires Covers(U, d)
    requires 0 <= s.row < |U| && 0 <= s.col < |U[s.row]|
    ensures Covers(U, AddMass(d, s, p))
    ensures Expected(AddMass(d, s, p), U) == Expected(d, U) + p * U[s.row][s.col]
  {
    AddMassCovers(d, s, p, U);
    var u := U[s.row][s.col];
    if d != [] {
      var e := AddMass(d, s, p);
      var rest := Expected(d[1..], U);
      if d[0].dest == s {
        assert e[0] == Entry(s, d[0].mass + p) && e[1..] == d[1..];
        assert Expected(e, U) == (d[0].mass + p) * u + rest;
        assert Expected(d, U) == d[0].mass * u + rest;
        assert (d[0].mass + p) * u == d[0].mass * u + p * u;
      } else {
        AddMassExpected(d[1..], s, p, U);
        assert e[0] == d[0] && e[1..] == AddMass(d[1..], s, p);
        var head := d[0].mass * U[d[0].dest.row][d[0].dest.col];
        assert Expected(e, U) == head + Expected(AddMass(d[1..], s, p), U);
        assert Expected(d, U) == head + rest;
      }
    }
  }

  lemma ModelCovers(env: Environment, s: Cell, a: Action, U: Grid<real>)
    requires Valid(env) && InBounds(env, s) && Shaped(env, U)
    ensures Covers(U, TransitionModel(env, s, a))
  {
    TransitionDestinations(env, s, a);
    var d := TransitionModel(env, s, a);
    assert forall i :: 0 <= i < |d| ==> d[i] in d;
  }

  /** Expected utility of the next state when taking `a` at `s` under `U`. */
  function QValue(env: Environment, U: Grid<real>, s: Cell, a: Action): real
    requires Valid(env) && Shaped(env, U) && InBounds(env, s)
  {
    ModelCovers(env, s, a, U);
    Expected(TransitionModel(env, s, a), U)
  }

  /** The expected utility weighs the three resolved outcomes directly, with
      0.8 and 0.1 and 0.1: grouping equal destinations changes nothing. */
  lemma QValueBySlips(env: Environment, U: Grid<real>, s: Cell, a: Action)
    requires Valid(env) && Shaped(env, U) && InBounds(env, s)
    ensures var t0, t1, t2 := Resolve(env, s, a), Resolve(env, s, Action(-1 * a.dc, -1 * a.dr)), Resolve(env, s, Action(a.dc, a.dr));
      QValue(env, U, s, a) ==
        0.8 * U[t0.row][t0.col] + 0.1 * U[t1.row][t1.col] + 0.1 * U[t2.row][t2.col]
  {
    var t0, t1, t2 := Resolve(env, s, a), Resolve(env, s, Action(-1 * a.dc, -1 * a.dr)), Resolve(env, s, Action(a.dc, a.dr));
    ModelSteps(env, s, a);
    OutcomesExpected(t0, t1, t2, U);
  }

  /** Three counting-dictionary updates with 0.8, 0.1 and 0.1 weigh the
      three destinations' utilities with those probabilities. */
  lemma OutcomesExpected(t0: Cell, t1: Cell, t2: Cell, U: Grid<real>)
    requires 0 <= t0.row < |U| && 0 <= t0.col < |U[t0.row]|
    requires 0 <= t1.row < |U| && 0 <= t1.col < |U[t1.row]|
    requires 0 <= t2.row < |U| && 0 <= t2.col < |U[t2.row]|
    ensures var d := AddMass(AddMass(AddMass([], t0, 0.8), t1, 0.1), t2, 0.1);
      Covers(U, d) && Expected(d, U) == 0.8 * U[t0.row][t0.col] + 0.1 * U[t1.row][t1.col] + 0.1 * U[t2.row][t2.col]
  {
    var d1 := AddMass([], t0, 0.8);
    var d2 := AddMass(d1, t1, 0.1);
    AddMassExpected([], t0, 0.8, U);
    AddMassExpected(d1, t1, 0.1, U);
    AddMassExpected(d2, t2, 0.1, U);
  }

  /** The running maximum, from minus infinity, of the expected utilities of
      the first `n` actions in list order. */
  function BestQ(env: Environment, U: Grid<real>, s: Cell, n: nat): (m: ExtReal)
    requires Valid(env) && Shaped(env, U) && InBounds(env, s) && n <= |env.actions|
    ensures m.NegInf? <==> n == 0
  {
    if n == 0 then NegInf
    else MaxWith(BestQ(env, U, s, n - 1), QValue(env, U, s, env.actions[n - 1]))
  }

  /** The running maximum bounds the expected utility of each of the first
      `n` actions and is attained by one of them. */
  lemma {:induction false} BestQIsMaximum(env: Environment, U: Grid<real>, s: Cell, n: nat)
    requires Valid(env) && Shaped(env, U) && InBounds(env, s) && 0 < n <= |env.actions|
    ensures forall j :: 0 <= j < n ==> QValue(env, U, s, env.actions[j]) <= BestQ(env, U, s, n).value
    ensures exists j :: 0 <= j < n && QValue(env, U, s, env.actions[j]) == BestQ(env, U, s, n).value
  {
    var q := QValue(env, U, s, env.actions[n - 1]);
    if n == 1 {
      assert q == BestQ(env, U, s, n).value;
    } else {
      BestQIsMaximum(env, U, s, n - 1);
      var k :| 0 <= k < n - 1 && QValue(env, U, s, env.actions[k]) == BestQ(env, U, s, n - 1).value;
      if BestQ(env, U, s, n) == BestQ(env, U, s, n - 1) {
        assert QValue(env, U, s, env.actions[k]) == BestQ(env, U, s, n).value;
      } else {
        assert q == BestQ(env, U, s, n).value;
      }
    }
  }

  /** The index a running argmax with strict `>` settles on after the first
      `n` actions. */
  function BestIndex(env: Environment, U: Grid<real>, s: Cell, n: nat): (i: nat)
    requires Valid(env) && Shaped(env, U) && InBounds(env, s) && 0 < n <= |env.actions|
    ensures i < n
  {
    if n == 1 then 0
    else
      var b := BestIndex(env, U, s, n - 1);
      if QValue(env, U, s, env.actions[n - 1]) > QValue(env, U, s, env.actions[b]) then n - 1 else b
  }

  /** The argmax picks a maximal action, and no earlier action is as good. */
  lemma {:induction false} BestIndexIsFirstMaximiser(env: Environment, U: Grid<real>, s: Cell, n: nat)
    requires Valid(env) && Shaped(env, U) && InBounds(env, s) && 0 < n <= |env.actions|
    ensures var i := BestIndex(env, U, s, n);
      && (forall j :: 0 <= j < n ==> QValue(env, U, s, env.actions[j]) <= QValue(env, U, s, env.actions[i]))
      && (forall j :: 0 <= j < i ==> QValue(env, U, s, env.actions[j]) < QValue(env, U, s, env.actions[i]))
  {
    if n > 1 {
      BestIndexIsFirstMaximiser(env, U, s, n - 1);
    }
  }

  /** The value of the argmax is the running maximum. */
  lemma {:induction false} BestIndexAttainsBestQ(env: Environment, U: Grid<real>, s: Cell, n: nat)
    requires Valid(env) && Shaped(env, U) && InBounds(env, s) && 0 < n <= |env.actions|
    ensures BestQ(env, U, s, n) == Fin(QValue(env, U, s, env.actions[BestIndex(env, U, s, n)]))
  {
    if n > 1 {
      BestIndexAttainsBestQ(env, U, s, n - 1);
    }
  }

  /** The first action in list order whose expected utility is maximal. */
  function GreedyAction(env: Environment, U: Grid<real>, s: Cell): Action
    requires Valid(env) && Shaped(env, U) && InBounds(env, s) && |env.actions| > 0
  {
    env.actions[BestIndex(env, U, s, |env.actions|)]
  }

  /** The greedy action attains the best expected utility. */
  lemma GreedyAttainsBestQ(env: Environment, U: Grid<real>, s: Cell)
    requires Valid(env) && Shaped(env, U) && InBounds(env, s) && |env.actions| > 0
    ensures BestQ(env, U, s, |env.actions|) == Fin(QValue(env, U, s, GreedyAction(env, U, s)))
  {
    BestIndexAttainsBestQ(env, U, s, |env.actions|);
  }

  /** No action has a larger expected utility than the greedy one. */
  lemma GreedyIsMaximal(env: Environment, U: Grid<real>, s: Cell)
    requires Valid(env) && Shaped(env, U) && InBounds(env, s) && |env.actions| > 0
    ensures forall j :: 0 <= j < |env.actions| ==>
              QValue(env, U, s, env.actions[j]) <= QValue(env, U, s, GreedyAction(env, U, s))
  {
    BestIndexIsFirstMaximiser(env, U, s, |env.actions|);
  }

  /** The greedy action is the first in list order with the largest expected
      utility: every action listed before it is strictly worse. */
  lemma GreedyIsFirst(env: Environment, U: Grid<real>, s: Cell)
    requires Valid(env) && Shaped(env, U) && InBounds(env, s) && |env.actions| > 0
    ensures exists i :: 0 <= i < |env.actions| && env.actions[i] == GreedyAction(env, U, s) &&
              forall j :: 0 <= j < i ==> QValue(env, U, s, env.actions[j]) < QValue(env, U, s, GreedyAction(env, U, s))
  {
    BestIndexIsFirstMaximiser(env, U, s, |env.actions|);
    var i := BestIndex(env, U, s, |env.actions|);
    assert env.actions[i] == GreedyAction(env, U, s);
  }

  /** The greedy choice at one cell: walls keep `base`, other cells take the
      greedy action. */
  function GreedyCell(env: Environment, U: Grid<real>, base: Grid<Action>, r: int, c: int): Action
    requires Valid(env) && Shaped(env, U) && Shaped(env, base) && |env.actions| > 0
    requires InBounds(env, Cell(r, c))
  {
    if IsWall(env, r, c) then base[r][c] else GreedyAction(env, U, Cell(r, c))
  }

  /** The policy grid obtained from `base` by overwriting every non-wall cell
      with its greedy action. */
  function Greedy(env: Environment, U: Grid<real>, base: Grid<Action>): (p: Grid<Action>)
    requires Valid(env) && Shaped(env, U) && Shaped(env, base) && |env.actions| > 0
    ensures Shaped(env, p)
    ensures forall r, c :: 0 <= r < env.height && 0 <= c < env.width ==>
              p[r][c] == GreedyCell(env, U, base, r, c)
  {
    seq(env.height, r requires 0 <= r < env.height =>
      seq(env.width, c requires 0 <= c < env.width => GreedyCell(env, U, base, r, c)))
  }

  /** Two grids of the same shape that agree cell by cell are equal. */
  lemma GridExt<T>(env: Environment, A: Grid<T>, B: Grid<T>)
    requires Shaped(env, A) && Shaped(env, B)
    requires forall r, c :: 0 <= r < env.height && 0 <= c < env.width ==> A[r][c] == B[r][c]
    ensures A == B
  {
    forall r | 0 <= r < env.height
      ensures A[r] == B[r]
    {
      assert forall c :: 0 <= c < env.width ==> A[r][c] == B[r][c];
    }
  }

  // ---------------------------------------------------------------------
  // A synchronous sweep in row-major order

  /** (r, c) comes before (row, col) in row-major order. */
  predicate Before(r: int, c: int, row: int, col: int)
  {
    r < row || (r == row && c < col)
  }

  /** The cells before (row, col) hold their new value `V`, the others still
      hold the previous value `U`. */
  predicate SweptUpTo(env: Environment, W: Grid<real>, U: Grid<real>, V: Grid<real>, row: int, col: int)
    requires Shaped(env, U) && Shaped(env, V)
  {
    && Shaped(env, W)
    && forall r, c {:trigger W[r][c]} :: 0 <= r < env.height && 0 <= c < env.width ==>
         W[r][c] == if Before(r, c, row, col) then V[r][c] else U[r][c]
  }

  /** Processing cell (row, col): writing its new value (walls already have
      it) extends the swept region by one cell. */
  lemma SweepStep(env: Environment, W: Grid<real>, U: Grid<real>, V: Grid<real>, row: int, col: int, x: real)
    requires Shaped(env, U) && Shaped(env, V) && SweptUpTo(env, W, U, V, row, col)
    requires 0 <= row < env.height && 0 <= col < env.width
    ensures x == V[row][col] ==> SweptUpTo(env, W[row := W[row][col := x]], U, V, row, col + 1)
    ensures V[row][col] == U[row][col] ==> SweptUpTo(env, W, U, V, row, col + 1)
  {
  }

  /** Finishing a row moves the swept region to the start of the next one. */
  lemma NextRow(env: Environment, W: Grid<real>, U: Grid<real>, V: Grid<real>, row: int)
    requires Shaped(env, U) && Shaped(env, V) && 0 <= row < env.height
    requires SweptUpTo(env, W, U, V, row, env.width)
    ensures SweptUpTo(env, W, U, V, row + 1, 0)
  {
    assert forall r, c :: 0 <= c < env.width ==> (Before(r, c, row, env.width) <==> Before(r, c, row + 1, 0));
  }

  /** Once every row is processed, the copy holds the whole new grid. */
  lemma SweptAll(env: Environment, W: Grid<real>, U: Grid<real>, V: Grid<real>)
    requires Shaped(env, U) && Shaped(env, V) && SweptUpTo(env, W, U, V, env.height, 0)
    ensures W == V
  {
    GridExt(env, W, V);
  }

  // ---------------------------------------------------------------------
  // The loops

  /** Sums probability times utility over the entries of `d`, in order. */
  method SumExpected(d: Dist, U: Grid<real>) returns (q: real)
    requires Covers(U, d)
    ensures q == Expected(d, U)
  {
    q := 0.0;
    for i := 0 to |d|
      invariant Covers(U, d[i..])
      invariant q + Expected(d[i..], U) == Expected(d, U)
    {
      var e := d[i];
      assert d[i..][1..] == d[i + 1..];
      assert Expected(d[i..], U) == e.mass * U[e.dest.row][e.dest.col] + Expected(d[i + 1..], U);
      q := q + e.mass * U[e.dest.row][e.dest.col];
    }
  }

  /** Sums probability times utility over the transition dictionary of
      `action` at (row, col). */
  method ActionUtility(env: Environment, U: Grid<real>, row: int, col: int, action: Action)
    returns (q: real)
    requires Valid(env) && Shaped(env, U) && InBounds(env, Cell(row, col))
    ensures q == QValue(env, U, Cell(row, col), action)
  {
    var transitionModel := GetTransitionModel(env, row, col, action);
    ModelCovers(env, Cell(row, col), action, U);
    q := SumExpected(transitionModel, U);
  }

  /** The running maximum, from minus infinity, of the actions' expected
      utilities at (row, col). */
  method MaxActionUtility(env: Environment, U: Grid<real>, row: int, col: int)
    returns (optimal: ExtReal)
    requires Valid(env) && Shaped(env, U) && InBounds(env, Cell(row, col))
    ensures optimal == BestQ(env, U, Cell(row, col), |env.actions|)
  {
    optimal := NegInf;
    for i := 0 to |env.actions|
      invariant optimal == BestQ(env, U, Cell(row, col), i)
    {
      var q := ActionUtility(env, U, row, col, env.actions[i]);
      optimal := MaxWith(optimal, q);
    }
  }

  /** The running argmax with strict `>`, from minus infinity, over the
      actions at (row, col). */
  method BestAction(env: Environment, U: Grid<real>, row: int, col: int)
    returns (best: Action)
    requires Valid(env) && Shaped(env, U) && InBounds(env, Cell(row, col)) && |env.actions| > 0
    ensures best == GreedyAction(env, U, Cell(row, col))
  {
    ghost var bestIndex := 0;
    var optimalAction: Option<Action> := None;
    var optimalUtility: ExtReal := NegInf;
    for i := 0 to |env.actions|
      invariant i == 0 ==> optimalAction.None? && optimalUtility.NegInf?
      invariant 0 < i ==> bestIndex == BestIndex(env, U, Cell(row, col), i)
      invariant 0 < i ==> optimalAction == Some(env.actions[bestIndex])
      invariant 0 < i ==> optimalUtility == Fin(QValue(env, U, Cell(row, col), env.actions[bestIndex]))
    {
      var q := ActionUtility(env, U, row, col, env.actions[i]);
      if optimalUtility.NegInf? || q > optimalUtility.value {
        optimalAction := Some(env.actions[i]);
        optimalUtility := Fin(q);
        bestIndex := i;
      }
    }
    best := optimalAction.value;
  }

  /** Starting from `base`, overwrites every non-wall cell with its greedy
      action, row by row. */
  method GreedyFill(env: Environment, U: Grid<real>, base: Grid<Action>)
    returns (policy: Grid<Action>)
    requires Valid(env) && Shaped(env, U) && Shaped(env, base) && |env.actions| > 0
    ensures policy == Greedy(env, U, base)
  {
    policy := base;
    for row := 0 to env.height
      invariant Shaped(env, policy)
      invariant forall r, c :: 0 <= r < env.height && 0 <= c < env.width ==>
                  policy[r][c] == if r < row then GreedyCell(env, U, base, r, c) else base[r][c]
    {
      for col := 0 to env.width
        invariant Shaped(env, policy)
        invariant forall r, c :: 0 <= r < env.height && 0 <= c < env.width ==>
                    policy[r][c] == if Before(r, c, row, col)
                                    then GreedyCell(env, U, base, r, c) else base[r][c]
      {
        if !IsWall(env, row, col) {
          var optimalAction := BestAction(env, U, row, col);
          policy := policy[row := policy[row][col := optimalAction]];
        }
      }
    }
    GridExt(env, policy, Greedy(env, U, base));
  }
}
