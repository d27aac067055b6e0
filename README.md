# Grid-world MDP solvers in Dafny

This project models the core of a grid-world Markov decision process solver. An
agent moves on a rectangular grid of cells. Some cells are walls, and every cell
has a reward. Each move goes in the intended direction with probability 0.8 and
slips to either perpendicular direction with probability 0.1 each. A move that
would leave the grid or enter a wall leaves the agent where it was. The model
covers three parts:

- **The environment** (`GridWorld`, `grid_world.dfy`). It holds the terrain,
  the dimensions, the ordered action list and the rewards. Its transition model
  builds, for one cell and one action, a dictionary from destination cell to
  probability mass. The dictionary is a counting dictionary: repeated
  destinations add their mass to one entry. `IsWall` and `GetReward` are the
  field reads `grid[r][c] == "wall"` and `rewards[r][c]`. The height, width and
  action getters are the datatype's fields.
- **Value Iteration** (`ValueIteration`, `value_iteration.dfy`). It runs
  synchronous sweeps of the Bellman optimality update, starting from all-zero
  utilities. Each sweep reads only the previous grid and writes a copy. Walls
  are skipped, and the sweep tracks the largest change over the non-wall cells.
  The sweeps stop once that change is strictly below
  `error * (1 - gamma) / gamma`. The greedy policy is then extracted: the first
  action in list order with maximal expected utility, and down `(1, 0)` at
  walls.
- **Policy Iteration** (`PolicyIteration`, `policy_iteration.dfy`). It starts
  from "right" `(0, 1)` everywhere and zero utilities. Each round runs exactly
  `k` synchronous policy-evaluation sweeps, carrying the utilities over from
  the previous round. Then it runs one greedy improvement step that leaves wall
  entries alone. The rounds stop when the improvement step reports that the
  policy did not change. The reported iteration count is rounds × `k`.

Both solvers share the per-cell computations in `Bellman` (`bellman.dfy`):

- the expected utility of an action;
- the running maximum from minus infinity;
- the running argmax with strict `>`;
- the greedy policy fill;
- the bookkeeping of a sweep that writes a copy while reading the original.

Each loop of the source is a Dafny `method` with its loop and invariants. Each
method is proved against a specification function:

- `TransitionModel` for the transition model;
- `QValue` and `BestQ` for the action loops;
- `Sweep`, `SweepN` and `ConvergedAt` for Value Iteration;
- `EvalSweep`, `EvalN`, `Greedy`, `Rounds` and `StableAt` for Policy Iteration.

Lemmas then state what the source promises about those functions.

Goal and penalty cells are ordinary cells in the code. Moves out of them follow
the transition model like any other move, and their utilities keep being
updated. In particular a lone goal cell is not absorbing: on a one-cell grid
each sweep gives `reward + gamma * U` rather than stopping at the reward
(`ValueIteration.SingleCellRecurrence`).

## Model

| member | source | states |
|---|---|---|
| GridWorld.Fill | Code/algorithms/value_iteration.py:85-86 | the starting grid has the environment's height and width and holds the given value (0 for utilities) at every cell |
| GridWorld.IsWall | Code/environment.py:212 | holds exactly when the cell's terrain symbol is "wall" |
| GridWorld.GetReward | Code/environment.py:102 | the cell's reward, read unchanged from the reward grid |
| GridWorld.Resolve | Code/environment.py:173-185 | where a move ends is always inside the grid; a move onto an open (in-bounds, non-wall) cell reaches it, and any other move (off the grid or onto a wall) stays at the origin |
| GridWorld.GetTransitionModel | Code/environment.py:160-191 | the loop over the three movement outcomes, with their bounds and wall checks and `+=` into the dictionary, returns exactly the specified transition distribution |
| GridWorld.AddMassTotal | Code/environment.py:188 | `d[s] += p` raises the total mass by exactly `p` |
| GridWorld.AddMassAt | Code/environment.py:188 | `d[s] += p` adds `p` to the mass at `s` and leaves every other cell's mass unchanged (missing keys count as 0) |
| GridWorld.AddMassKeys | Code/environment.py:188 | `d[s] += p` adds `s` to the key set, keeps the keys distinct and adds at most one entry |
| GridWorld.AddMassPositive | Code/environment.py:188 | adding a positive mass keeps every entry's mass positive |
| GridWorld.TransitionMassIsOne | Code/environment.py:165-169 | for every in-bounds origin and every action, the masses sum to exactly 1 |
| GridWorld.TransitionMassAt | Code/environment.py:165-188 | the mass at any cell is the sum of the probabilities of the outcomes that end there, so outcomes that collapse onto one cell add their masses |
| GridWorld.TransitionKeys | Code/environment.py:160-188 | the dictionary has between 1 and 3 distinct keys, and they are exactly the cells where the three outcomes end |
| GridWorld.TransitionDestinations | Code/environment.py:165-185 | every entry has positive mass and an in-bounds key; the key is the origin, or an open (non-wall) cell at offset `(dr, dc)`, `(-dc, -dr)` or `(dc, dr)` from it |
| GridWorld.IntendedTargetMass | Code/environment.py:165-188 | an open intended target receives at least 0.8; a blocked one leaves at least 0.8 at the origin |
| GridWorld.CornerKeepsMass | Code/environment.py:165-188 | in the top-left corner, moving up or left keeps at least 0.9 at the origin, because blocked outcomes add up there |
| Bellman.MaxWith | Code/algorithms/value_iteration.py:138-139 | `max(m, x)` starting from minus infinity is finite, is at least both arguments, and is one of them |
| Bellman.MaxOf | Code/algorithms/value_iteration.py:149-151 | the running maximum of a list stays minus infinity exactly when the list is empty |
| Bellman.MaxOfIsMaximum | Code/algorithms/value_iteration.py:149-151 | the running maximum of a non-empty list bounds every entry and equals one of them |
| Bellman.AllBelowAppend | Code/algorithms/value_iteration.py:149-151 | a concatenation is entirely below `t` exactly when both parts are |
| Bellman.BelowMaxOf | Code/algorithms/value_iteration.py:161 | the strict test `max < t` on the running maximum holds exactly when every entry is below `t`, including vacuously when nothing was seen |
| Bellman.ModelCovers | Code/algorithms/value_iteration.py:130-133 | every key of the transition dictionary indexes into a utility grid of the environment's shape |
| Bellman.AddMassExpected | Code/algorithms/value_iteration.py:130-136 | adding mass `p` for `s` adds `p * U[s]` to the sum of probability × utility |
| Bellman.OutcomesExpected | Code/algorithms/value_iteration.py:130-136 | three dictionary updates with 0.8, 0.1 and 0.1 give a sum of probability × utility equal to the weighted sum of the three destinations' utilities, even when destinations coincide |
| Bellman.QValueBySlips | Code/environment.py:165-188 | an action's expected utility is 0.8·U[intended end] + 0.1·U[end of `(-dc, -dr)`] + 0.1·U[end of `(dc, dr)`] |
| Bellman.BestQ | Code/algorithms/value_iteration.py:118-140 | the running maximum over the first `n` actions is minus infinity exactly when `n` is 0 |
| Bellman.BestQIsMaximum | Code/algorithms/value_iteration.py:118-140 | the running maximum over a non-empty action prefix bounds every action's expected utility and is attained by one of them |
| Bellman.BestIndex | Code/algorithms/value_iteration.py:206-233 | the running argmax over the first `n` actions is one of those `n` |
| Bellman.BestIndexIsFirstMaximiser | Code/algorithms/value_iteration.py:206-233 | with strict `>`, the argmax has maximal expected utility, and every action listed before it is strictly worse |
| Bellman.BestIndexAttainsBestQ | Code/algorithms/value_iteration.py:206-233 | the argmax's expected utility is the running maximum |
| Bellman.GreedyAttainsBestQ | Code/algorithms/policy_iteration.py:254-283 | the greedy action attains the best expected utility over all actions |
| Bellman.GreedyIsMaximal | Code/algorithms/policy_iteration.py:254-283 | no action has a larger expected utility than the greedy action |
| Bellman.GreedyIsFirst | Code/algorithms/policy_iteration.py:254-283 | the greedy action is in the action list, and every action listed before it is strictly worse |
| Bellman.Greedy | Code/algorithms/policy_iteration.py:243-283 | the improved grid has the environment's shape; each wall keeps its input entry and each other cell holds its greedy action |
| Bellman.SweptAll | Code/algorithms/value_iteration.py:158 | once every row is processed, the copy is the whole new grid |
| Bellman.SumExpected | Code/algorithms/value_iteration.py:130-136 | the loop over the dictionary's entries sums probability × utility |
| Bellman.ActionUtility | Code/algorithms/value_iteration.py:122-136 | building the transition dictionary and summing over it gives the action's expected utility |
| Bellman.MaxActionUtility | Code/algorithms/value_iteration.py:118-140 | the loop over the actions computes the running maximum of their expected utilities, starting from minus infinity |
| Bellman.BestAction | Code/algorithms/value_iteration.py:205-233 | the loop with strict `>`, starting from minus infinity, returns the greedy action (the first maximiser) |
| Bellman.GreedyFill | Code/algorithms/policy_iteration.py:243-283 | filling a copy of the input row by row, overwriting only non-wall cells with their argmax, yields the greedy grid |
| ValueIteration.Threshold | Code/algorithms/value_iteration.py:89 | threshold × gamma = error × (1 − gamma); the threshold is positive when 0 < gamma < 1 and the error is positive |
| ValueIteration.Sweep | Code/algorithms/value_iteration.py:104-158 | a sweep has the grid's shape, and each cell depends on the previous grid alone: walls keep their value, and other cells get reward + gamma × best expected utility |
| ValueIteration.RowChangesBelow | Code/algorithms/value_iteration.py:149-151 | the changes listed for a row prefix are all below `t` exactly when every non-wall cell of that prefix changed by less than `t` |
| ValueIteration.ChangesBelow | Code/algorithms/value_iteration.py:149-151 | the same holds for the changes of the first `n` rows |
| ValueIteration.MaxChangeTest | Code/algorithms/value_iteration.py:161 | the stopping test on the tracked maximum change holds exactly when every non-wall cell changed by strictly less than the threshold |
| ValueIteration.ChangeStep | Code/algorithms/value_iteration.py:113-151 | a wall adds nothing to the changes seen so far; a non-wall cell folds its change into the maximum |
| ValueIteration.SweepCellOnce | Code/algorithms/value_iteration.py:113-151 | processing one cell writes its new value into the copy and keeps the tracked maximum equal to the maximum change over the cells processed so far |
| ValueIteration.SweepRowOnce | Code/algorithms/value_iteration.py:106-151 | processing one row extends both facts to the end of that row |
| ValueIteration.SweepOnce | Code/algorithms/value_iteration.py:101-158 | one pass writes exactly the synchronous sweep of the previous grid, and the tracked value is the maximum change over the non-wall cells |
| ValueIteration.NextSweep | Code/algorithms/value_iteration.py:98-162 | after `n` sweeps from zero, one more pass gives sweep `n + 1`, and its stopping test is the convergence test of sweep `n + 1` |
| ValueIteration.GetOptimalPolicy | Code/algorithms/value_iteration.py:174-238 | the policy has the grid's shape, walls get down `(1, 0)`, and each other cell gets the first action with maximal expected utility |
| ValueIteration.SolveMdp | Code/algorithms/value_iteration.py:65-171 | the number of sweeps is at least 1; the utilities are the result of exactly that many sweeps from zero; the loop stops at the first sweep whose maximum change is below the threshold (or at the sweep bound); the policy is the greedy policy of the final utilities |
| ValueIteration.SweepNKeepsWalls | Code/algorithms/value_iteration.py:113-114 | walls keep their utility through any number of sweeps |
| ValueIteration.WallsStayZero | Code/algorithms/value_iteration.py:85-86 | starting from zero utilities, walls are 0 after any number of sweeps |
| ValueIteration.SweepIsBellmanOptimality | Code/algorithms/value_iteration.py:118-147 | a non-wall cell of a sweep is reward + gamma × the expected utility of the greedy action, and no action has a larger expected utility |
| ValueIteration.SingleCellQValue | Code/environment.py:177-185 | on a one-cell grid every outcome stays put, so every action's expected utility is the cell's own utility |
| ValueIteration.SingleCellBestQ | Code/algorithms/value_iteration.py:118-140 | on a one-cell grid the best expected utility is the cell's own utility |
| ValueIteration.SingleCellRecurrence | Code/algorithms/value_iteration.py:141-147 | a lone goal cell is not absorbing: each sweep gives reward + gamma × the previous utility |
| PolicyIteration.GetInitialPolicy | Code/algorithms/policy_iteration.py:90-92 | the starting policy has the grid's shape and holds right `(0, 1)` at every cell, walls included |
| PolicyIteration.EvalSweep | Code/algorithms/policy_iteration.py:172-215 | an evaluation sweep has the grid's shape, and each cell depends on the previous grid alone: walls keep their value, and other cells get reward + gamma × the expected utility of their policy action |
| PolicyIteration.EvalCellOnce | Code/algorithms/policy_iteration.py:181-208 | processing one cell writes its new value into the copy and leaves a wall alone |
| PolicyIteration.EvalRowOnce | Code/algorithms/policy_iteration.py:174-208 | processing one row writes that row's new values |
| PolicyIteration.EvaluationSweep | Code/algorithms/policy_iteration.py:172-215 | one pass writes exactly the synchronous evaluation sweep of the previous grid |
| PolicyIteration.EvaluatePolicy | Code/algorithms/policy_iteration.py:169-218 | the result is exactly `k` evaluation sweeps applied in turn; with `k` = 0 the utilities come back unchanged |
| PolicyIteration.GreedyFixpoint | Code/algorithms/policy_iteration.py:286 | improvement leaves a policy unchanged exactly when it already takes the greedy action at every non-wall cell |
| PolicyIteration.ImprovePolicy | Code/algorithms/policy_iteration.py:220-286 | the improved policy is the greedy grid over the input (walls kept); the flag is true exactly when that grid equals the input, that is, exactly when the input was already greedy |
| PolicyIteration.PolicyRound | Code/algorithms/policy_iteration.py:131-137 | one round is `k` evaluation sweeps from the carried-over utilities, followed by improvement against the new utilities; the flag reports an unchanged policy |
| PolicyIteration.NextRound | Code/algorithms/policy_iteration.py:129-137 | from the state after `n` rounds, one round gives the state after `n + 1` rounds, and its flag is the stability of round `n + 1` |
| PolicyIteration.SweepsAfterIsProduct | Code/algorithms/policy_iteration.py:123-133 | adding `k` per round from 0 counts rounds × `k` sweeps |
| PolicyIteration.SolveMdp | Code/algorithms/policy_iteration.py:94-143 | the iteration count is rounds × `k`; the utilities and policy are those after that many rounds from zero and all-right; the loop stops at the first round whose improvement left the policy unchanged (or at the round bound) |
| PolicyIteration.EvalNKeepsWalls | Code/algorithms/policy_iteration.py:181-182 | walls keep their utility through any number of evaluation sweeps |
| PolicyIteration.RoundsKeepWalls | Code/algorithms/policy_iteration.py:250-283 | after any number of rounds, walls still have utility 0 and action right `(0, 1)` |
| PolicyIteration.EvalSweepIsExpectation | Code/algorithms/policy_iteration.py:186-208 | a non-wall cell of an evaluation sweep is reward + gamma × (0.8 of the intended destination's utility + 0.1 of each slip destination's) |
| PolicyIteration.StableRoundIsGreedy | Code/algorithms/policy_iteration.py:250-286 | a round reports no change exactly when the policy it started from is greedy for the utilities it computed; the returned policy is then greedy for its own utilities |

Proof helpers that only unfold a definition one step, and state nothing beyond
the rows above, have no row of their own: `GridWorld.ModelSteps`,
`Bellman.SweepStep`, `Bellman.NextRow`, `ValueIteration.SweepValue`,
`ValueIteration.SweepCellValue`, `ValueIteration.MaxOfAppend`,
`ValueIteration.RowBoundary`, `ValueIteration.NoneConvergedStep` and
`PolicyIteration.EvalSweepValue`.

## Left out

- ValueIteration.SolveMdp: the source loops until convergence. The model takes a bound `maxSweeps` on the number of sweeps and reports whether it stopped on convergence. Termination of the source loop rests on a contraction argument that the code never checks.
- PolicyIteration.SolveMdp: the same, with a bound `maxRounds` on the number of rounds. The model also returns the round count as a ghost value.
- Floating point: utilities, rewards and probabilities are Dafny `real`. Rounding, overflow and NaN are not modelled.
- Both solvers require a non-empty action list. With no actions, Value Iteration writes `reward + gamma * -inf` into every non-wall cell. Policy Iteration stores `None` as the action of every non-wall cell; when `k > 0`, the next evaluation sweep then fails with a type error when it negates `action[1]` in the transition model (Code/environment.py:167).
- ValueIteration.SolveMdp requires `gamma != 0`, because the threshold divides by gamma (the source would raise a division error). Policy Iteration places no condition on gamma.
- The `analysis_data` trace (per-cell string keys and per-sweep appends) is left out. It is diagnostic only and does not influence any result.
- The solver objects only hold the discount factor and `k`. The model passes these as parameters instead of using a class.
- `deepcopy` is modelled as value semantics on immutable sequences. The sweep writes a copy and reads only the original.
- The user interface, the interactive menu, CSV export, random grid generation and the grid/reward constants are configuration and I/O, not part of the solver.
- Goal and penalty cells are not absorbing, as in the code.
- GridWorld.CornerKeepsMass: covers only the top-left corner with the actions up and left. At each corner, the two actions that point off the grid keep at least 0.9 at the origin; the other three corners are not stated separately. An action that points into the grid can keep as little as 0.1 at the origin.
