/** The grid world of the Markov decision process: cells, actions, the
    environment, and the stochastic transition model in which the agent moves
    in the intended direction with probability 0.8 and slips to either side
    with probability 0.1 each. */
module GridWorld {

  /** A grid coordinate, 0-indexed: (row, col). */
  datatype Cell = Cell(row: int, col: int)

  /** A movement offset (dRow, dCol); the usual actions are up (-1, 0),
      down (1, 0), left (0, -1) and right (0, 1). */
  datatype Action = Action(dr: int, dc: int)

  /** A rectangular grid, stored row by row. */
  type Grid<T> = seq<seq<T>>

  /** The environment: the terrain symbol of each cell ("wall" marks a wall),
      the dimensions, the ordered list of actions and the reward of each cell. */
  datatype Environment = Environment(
    grid: Grid<string>,
    height: nat,
    width: nat,
    actions: seq<Action>,
    rewards: Grid<real>)

  /** `g` has the environment's height and width. */
  predicate Shaped<T>(env: Environment, g: Grid<T>)
  {
    |g| == env.height && forall r :: 0 <= r < |g| ==> |g[r]| == env.width
  }

  /** The terrain and reward grids agree with the stated dimensions. */
  predicate Valid(env: Environment)
  {
    Shaped(env, env.grid) && Shaped(env, env.rewards)
  }

  predicate InBounds(env: Environment, s: Cell)
  {
    0 <= s.row < env.height && 0 <= s.col < env.width
  }

  /** A grid with the environment's dimensions holding `x` in every cell. */
  function Fill<T>(env: Environment, x: T): (g: Grid<T>)
    ensures Shaped(env, g)
    ensures forall r, c :: 0 <= r < env.height && 0 <= c < env.width ==> g[r][c] == x
  {
    seq(env.height, _ => seq(env.width, _ => x))
  }

  /** The cell's terrain symbol is "wall". */
  function IsWall(env: Environment, row: int, col: int): (b: bool)
    requires Valid(env) && InBounds(env, Cell(row, col))
    ensures b <==> env.grid[row][col] == "wall"
  {
    env.grid[row][col] == "wall"
  }

  /** The reward of the cell, as stored. */
  function GetReward(env: Environment, row: int, col: int): (reward: real)
    requires Valid(env) && InBounds(env, Cell(row, col))
    ensures reward == env.rewards[row][col]
  {
    env.rewards[row][col]
  }

  /** A cell the agent can move into: inside the grid and not a wall. */
  predicate Open(env: Environment, s: Cell)
    requires Valid(env)
  {
    InBounds(env, s) && !IsWall(env, s.row, s.col)
  }

  function Target(s: Cell, d: Action): Cell
  {
    Cell(s.row + d.dr, s.col + d.dc)
  }

  /** Where a move from `s` along `d` ends: its target when that is open,
      otherwise (off the grid or onto a wall) the origin itself. */
  function Resolve(env: Environment, s: Cell, d: Action): (t: Cell)
    requires Valid(env) && InBounds(env, s)
    ensures InBounds(env, t)
    ensures t == s || (t == Target(s, d) && Open(env, t))
    ensures Open(env, Target(s, d)) ==> t == Target(s, d)
  {
    if Open(env, Target(s, d)) then Target(s, d) else s
  }

  /** One possible movement outcome: its probability and its direction. */
  datatype Slip = Slip(prob: real, dir: Action)

  /** The intended direction with 0.8 and the two perpendicular directions
      (-dc, -dr) and (dc, dr) with 0.1 each, in this order. */
  function Slips(a: Action): (ss: seq<Slip>)
    ensures |ss| == 3
  {
    [Slip(0.8, a), Slip(0.1, Action(-1 * a.dc, -1 * a.dr)), Slip(0.1, Action(a.dc, a.dr))]
  }

  /** One entry of a transition distribution: a destination and its mass. */
  datatype Entry = Entry(dest: Cell, mass: real)

  /** A transition distribution as an insertion-ordered dictionary from
      destination cells to probability mass. */
  type Dist = seq<Entry>

  /** Total probability mass of a distribution. */
  function Mass(d: Dist): real
  {
    if d == [] then 0.0 else d[0].mass + Mass(d[1..])
  }

  /** The mass at `x`, 0 when `x` is not a key (the default of a counting dictionary). */
  function MassAt(d: Dist, x: Cell): real
  {
    if d == [] then 0.0 else (if d[0].dest == x then d[0].mass else 0.0) + MassAt(d[1..], x)
  }

  function Dests(d: Dist): set<Cell>
  {
    if d == [] then {} else {d[0].dest} + Dests(d[1..])
  }

  /** Every destination occurs as a key at most once. */
  predicate DistinctDests(d: Dist)
  {
    forall i, j :: 0 <= i < j < |d| ==> d[i].dest != d[j].dest
  }

  /** `d[s] += p` on a counting dictionary: adds to the entry of `s` in place
      when there is one, and appends a new entry for `s` otherwise. */
  function AddMass(d: Dist, s: Cell, p: real): Dist
  {
    if d == [] then [Entry(s, p)]
    else if d[0].dest == s then [Entry(s, d[0].mass + p)] + d[1..]
    else [d[0]] + AddMass(d[1..], s, p)
  }

  /** The distribution after the first `i` of the three movement outcomes
      have been accumulated. */
  function PartialModel(env: Environment, s: Cell, a: Action, i: nat): Dist
    requires Valid(env) && InBounds(env, s) && i <= 3
  {
    if i == 0 then []
    else
      var slip := Slips(a)[i - 1];
      AddMass(PartialModel(env, s, a, i - 1), Resolve(env, s, slip.dir), slip.prob)
  }

  /** P(s' | s, a) for an origin `s` inside the grid. */
  function TransitionModel(env: Environment, s: Cell, a: Action): Dist
    requires Valid(env) && InBounds(env, s)
  {
    PartialModel(env, s, a, 3)
  }

  /** Builds the distribution over destinations of `action` taken at
      (row, col), one movement outcome at a time. */
  method GetTransitionModel(env: Environment, row: int, col: int, action: Action)
    returns (model: Dist)
    requires Valid(env) && InBounds(env, Cell(row, col))
    ensures model == TransitionModel(env, Cell(row, col), action)
  {
    model := [];
    var dirAndProbability := Slips(action);
    for i := 0 to 3
      invariant model == PartialModel(env, Cell(row, col), action, i)
    {
      var slip := dirAndProbability[i];
      var newRow := row + slip.dir.dr;
      var newCol := col + slip.dir.dc;
      if 0 <= newRow < env.height && 0 <= newCol < env.width {
        if env.grid[newRow][newCol] == "wall" {
          newRow, newCol := row, col;
        }
      } else {
        newRow, newCol := row, col;
      }
      model := AddMass(model, Cell(newRow, newCol), slip.prob);
    }
  }

  // ---------------------------------------------------------------------
  // The counting-dictionary update

  lemma {:induction false} AddMassTotal(d: Dist, s: Cell, p: real)
    ensures Mass(AddMass(d, s, p)) == Mass(d) + p
  {
    if d != [] && d[0].dest != s {
      AddMassTotal(d[1..], s, p);
    }
  }

  lemma {:induction false} AddMassAt(d: Dist, s: Cell, p: real, x: Cell)
    ensures MassAt(AddMass(d, s, p), x) == MassAt(d, x) + (if x == s then p else 0.0)
  {
    if d != [] && d[0].dest != s {
      AddMassAt(d[1..], s, p, x);
    }
  }

  /** The update adds `s` to the keys, keeps them distinct and grows the
      dictionary by at most one entry. */
  lemma {:induction false} AddMassKeys(d: Dist, s: Cell, p: real)
    ensures Dests(AddMass(d, s, p)) == Dests(d) + {s}
    ensures |AddMass(d, s, p)| <= |d| + 1
    ensures DistinctDests(d) ==> DistinctDests(AddMass(d, s, p))
  {
    if d != [] {
      if d[0].dest == s {
        DestsTail(d);
      } else {
        AddMassKeys(d[1..], s, p);
        DestsTail(d);
        var e := AddMass(d, s, p);
        if DistinctDests(d) {
          assert d[0].dest !in Dests(d[1..]) by { DestsMembers(d[1..], d[0].dest); }
          DestsMembers(e[1..], d[0].dest);
        }
      }
    }
  }

  lemma DestsTail(d: Dist)
    requires d != []
    ensures Dests(d) == {d[0].dest} + Dests(d[1..])
  {
  }

  /** The key set holds exactly the destinations of the entries. */
  lemma {:induction false} DestsMembers(d: Dist, x: Cell)
    ensures x in Dests(d) <==> exists i :: 0 <= i < |d| && d[i].dest == x
  {
    if d != [] {
      DestsMembers(d[1..], x);
      if x in Dests(d[1..]) {
        var i :| 0 <= i < |d[1..]| && d[1..][i].dest == x;
        assert d[i + 1].dest == x;
      }
      if exists i :: 0 <= i < |d| && d[i].dest == x {
        var i :| 0 <= i < |d| && d[i].dest == x;
        if i > 0 {
          assert d[1..][i - 1].dest == x;
        }
      }
    }
  }

  /** An update with a positive mass keeps every mass positive. */
  lemma {:induction false} AddMassPositive(d: Dist, s: Cell, p: real)
    requires 0.0 < p
    requires forall e :: e in d ==> 0.0 < e.mass
    ensures forall e :: e in AddMass(d, s, p) ==> 0.0 < e.mass
  {
    if d != [] && d[0].dest != s {
      AddMassPositive(d[1..], s, p);
    }
  }

  // ---------------------------------------------------------------------
  // Properties of the transition model

  /** The model is three counting-dictionary updates, one per outcome. */
  lemma ModelSteps(env: Environment, s: Cell, a: Action)
    requires Valid(env) && InBounds(env, s)
    ensures PartialModel(env, s, a, 1) == AddMass([], Resolve(env, s, a), 0.8)
    ensures PartialModel(env, s, a, 2) == AddMass(PartialModel(env, s, a, 1), Resolve(env, s, Action(-1 * a.dc, -1 * a.dr)), 0.1)
    ensures TransitionModel(env, s, a) == AddMass(PartialModel(env, s, a, 2), Resolve(env, s, Action(a.dc, a.dr)), 0.1)
  {
  }

  /** The three outcomes carry 0.8 + 0.1 + 0.1 == 1 in total. */
  lemma TransitionMassIsOne(env: Environment, s: Cell, a: Action)
    requires Valid(env) && InBounds(env, s)
    ensures Mass(TransitionModel(env, s, a)) == 1.0
  {
    var ss := Slips(a);
    var d1 := PartialModel(env, s, a, 1);
    var d2 := PartialModel(env, s, a, 2);
    ModelSteps(env, s, a);
    AddMassTotal([], Resolve(env, s, ss[0].dir), 0.8);
    AddMassTotal(d1, Resolve(env, s, ss[1].dir), 0.1);
    AddMassTotal(d2, Resolve(env, s, ss[2].dir), 0.1);
  }

  /** The mass at any cell is the sum of the probabilities of the outcomes
      that end there: masses of outcomes that collapse onto one cell add up. */
  lemma TransitionMassAt(env: Environment, s: Cell, a: Action, x: Cell)
    requires Valid(env) && InBounds(env, s)
    ensures MassAt(TransitionModel(env, s, a), x) ==
              (if Resolve(env, s, a) == x then 0.8 else 0.0)
            + (if Resolve(env, s, Action(-1 * a.dc, -1 * a.dr)) == x then 0.1 else 0.0)
            + (if Resolve(env, s, Action(a.dc, a.dr)) == x then 0.1 else 0.0)
  {
    var ss := Slips(a);
    var d1 := PartialModel(env, s, a, 1);
    var d2 := PartialModel(env, s, a, 2);
    ModelSteps(env, s, a);
    AddMassAt([], Resolve(env, s, ss[0].dir), 0.8, x);
    AddMassAt(d1, Resolve(env, s, ss[1].dir), 0.1, x);
    AddMassAt(d2, Resolve(env, s, ss[2].dir), 0.1, x);
  }

  /** The keys are distinct, at most three, and exactly the cells where the
      three outcomes end. */
  lemma TransitionKeys(env: Environment, s: Cell, a: Action)
    requires Valid(env) && InBounds(env, s)
    ensures var d := TransitionModel(env, s, a);
      && 1 <= |d| <= 3
      && DistinctDests(d)
      && Dests(d) == {Resolve(env, s, a), Resolve(env, s, Action(-1 * a.dc, -1 * a.dr)), Resolve(env, s, Action(a.dc, a.dr))}
  {
    var ss := Slips(a);
    var d1 := PartialModel(env, s, a, 1);
    var d2 := PartialModel(env, s, a, 2);
    ModelSteps(env, s, a);
    AddMassKeys([], Resolve(env, s, ss[0].dir), 0.8);
    AddMassKeys(d1, Resolve(env, s, ss[1].dir), 0.1);
    AddMassKeys(d2, Resolve(env, s, ss[2].dir), 0.1);
    DestsMembers(TransitionModel(env, s, a), Resolve(env, s, a));
  }

  /** Every entry has a positive mass and a key that is either the origin or
      an open cell one of the three offsets away from it; in particular every
      key lies inside the grid and no key is a wall other than the origin. */
  lemma TransitionDestinations(env: Environment, s: Cell, a: Action)
    requires Valid(env) && InBounds(env, s)
    ensures forall e :: e in TransitionModel(env, s, a) ==>
              && 0.0 < e.mass
              && InBounds(env, e.dest)
              && (e.dest == s
                  || (Open(env, e.dest)
                      && e.dest in {Target(s, a), Target(s, Action(-1 * a.dc, -1 * a.dr)), Target(s, Action(a.dc, a.dr))}))
  {
    var ss := Slips(a);
    var t0, t1, t2 := Resolve(env, s, ss[0].dir), Resolve(env, s, ss[1].dir), Resolve(env, s, ss[2].dir);
    var d1 := PartialModel(env, s, a, 1);
    var d2 := PartialModel(env, s, a, 2);
    var d := TransitionModel(env, s, a);
    TransitionKeys(env, s, a);
    ModelSteps(env, s, a);
    AddMassPositive([], t0, 0.8);
    AddMassPositive(d1, t1, 0.1);
    AddMassPositive(d2, t2, 0.1);
    forall e | e in d
      ensures e.dest in {t0, t1, t2}
    {
      var i :| 0 <= i < |d| && d[i] == e;
      DestsMembers(d, e.dest);
    }
  }

  /** An open intended target receives at least 0.8; a blocked one leaves at
      least 0.8 at the origin. */
  lemma IntendedTargetMass(env: Environment, s: Cell, a: Action)
    requires Valid(env) && InBounds(env, s)
    ensures Open(env, Target(s, a)) ==> MassAt(TransitionModel(env, s, a), Target(s, a)) >= 0.8
    ensures !Open(env, Target(s, a)) ==> MassAt(TransitionModel(env, s, a), s) >= 0.8
  {
    TransitionMassAt(env, s, a, Target(s, a));
    TransitionMassAt(env, s, a, s);
  }

  /** In the top-left corner, moving up or left leaves the grid both ahead
      and on one side, so the origin keeps at least 0.8 + 0.1. */
  lemma CornerKeepsMass(env: Environment, a: Action)
    requires Valid(env) && InBounds(env, Cell(0, 0))
    requires a == Action(-1, 0) || a == Action(0, -1)
    ensures MassAt(TransitionModel(env, Cell(0, 0), a), Cell(0, 0)) >= 0.9
  {
    var o := Cell(0, 0);
    assert !InBounds(env, Target(o, a));
    assert !InBounds(env, Target(o, Action(a.dc, a.dr)));
    TransitionMassAt(env, o, a, o);
    var p1 := if Resolve(env, o, Action(-1 * a.dc, -1 * a.dr)) == o then 0.1 else 0.0;
    assert MassAt(TransitionModel(env, o, a), o) == 0.8 + p1 + 0.1;
  }
}
