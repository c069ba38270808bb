# Civil violence on a torus — a Dafny model

This project models the core of a Python re-implementation of Epstein's
civil-violence model. Agents (citizens) and cops live on a wrapping
grid, a torus. Each agent has a hardship and a risk aversion. Its
grievance is `hardship * (1 - legitimacy)`. It turns active when the
grievance, less `risk_aversion * P(arrest)`, exceeds 0.1. The arrest
estimate `1 - exp(-k * floor(cops / (active + 1)))` counts the cops and
active agents within the agent's vision. Cops arrest one random active
agent within their vision and jail it. Every tick the model records how
many agents are quiet, jailed and active.

The repository contains five scripts of this model. The four grid-based
ones share one class, `GridModel.Simulation`. A `Variant` value switches
their differences on and off:

* `NeighbourInfluence` is the model of `src/model_v4_lc_extension2.py`
  and `scripts/extension1/extension1.py`. Before every tick, each agent's
  *adjusted hardship* becomes a blend of its own hardship and the average
  hardship of the agents in its neighbourhood. The blend is weighted by
  the influence share.
* `Replication` is the model of `scripts/replication/rep2.py`. Arrests
  jail for a fixed 1000 ticks. Legitimacy drops by 0.0045 after every tick
  while it is positive.
* `CopWithdrawal` is the model of `scripts/extension2/extension2.py`.
  Arrests jail for 1000 ticks. The recorded series starts with
  `[agents], [0], [0]`, and cops are counted too. After every tick the
  first cop in the shuffled list leaves the list and its cell.

The fifth script, `src/model_v4.5_lwz.py`, has no grid. It is modelled
separately by `ScanModel.Scan`, a class holding a list of entities on a
40×40 space:

* Neighbourhoods are Chebyshev squares with wrap-around.
* A mover keeps drawing random offsets until one lands on a cell that
  holds no cop and no free agent.
* Counts are taken during the turn loop.
* A cop only searches the first `num_agents` list entries for suspects.

Modules:

* `Wrappers`: `Option` and `Result`.
* `Torus`: the space, wrap-around, and the disk neighbourhood that
  `compute_neighborhoods` builds. It also holds a method that builds the
  neighbourhood table and is proved to produce exactly that neighbourhood
  for every cell.
* `Rules`: the per-agent arithmetic. This covers grievance, the
  activation test, the arrest estimate's ratio, the hardship blend,
  legitimacy decay, and population sizes from densities.
* `Census`: the per-tick tally over the entity list, and cop withdrawal.
* `GridModel`: the `Simulation` class. The grid is an `array2` of entity
  ids, the entities are a sequence of records indexed by id, and the
  Python entity list is a sequence of ids.
* `ScanModel`: the `Scan` class.

Randomness is passed in rather than drawn:

* `random.shuffle` becomes an `order` that is a permutation of the
  entity list.
* `random.choice(xs)` becomes `Pick(xs, r) = xs[r % |xs|]`.
* `randint(0, max_jail_term)` becomes a term no larger than
  `max_jail_term`.
* `random.random()` traits become a function from the entity index to a
  pair in [0, 1).
* Placement draws become a function from the entity index to a number.

A main invariant of both classes is that every recorded tick satisfies
`quiet + jail + active == number of agents`.

The grid variants keep a quirk of the code as written. An agent that
moves may move onto the cell of a jailed agent and overwrite it in the
grid. The jailed agent keeps its position although the grid no longer
shows it. `Simulation.Placed` therefore only states that whoever the grid
shows at a cell stands at that cell.

## Model

| member | source | states |
|---|---|---|
| Torus.Space.Wrap | src/model_v4_lc_extension2.py:62 | the wrapped coordinates `(x + dx) % width, (y + dy) % height` always lie on the grid |
| Torus.DiskOffsetsExact | src/model_v4_lc_extension2.py:57-60 | the offset list holds exactly the offsets with `dx² + dy² <= vision²` |
| Torus.OneEntryPerOffset | src/model_v4_lc_extension2.py:57-63 | the offset list has no repeats, and a neighbourhood has one entry per offset |
| Torus.NeighborhoodMembers | src/model_v4_lc_extension2.py:57-63 | a cell is in `c`'s neighbourhood iff some offset in the disk wraps `c` onto it |
| Torus.ReachedByOffset | src/model_v4_lc_extension2.py:60-63 | every in-disk offset's wrapped cell is in the neighbourhood |
| Torus.OffsetOf | src/model_v4_lc_extension2.py:60-63 | every neighbourhood member comes from an in-disk offset |
| Torus.NeighborhoodWellFormed | src/model_v4_lc_extension2.py:53-64 | all neighbourhood cells are on the grid, and a cell is in its own neighbourhood |
| Torus.NeighborhoodSymmetric | src/model_v4_lc_extension2.py:53-64 | `d` is in `c`'s neighbourhood iff `c` is in `d`'s |
| Torus.NeighborOneWay | src/model_v4_lc_extension2.py:53-64 | the one-direction half of the symmetry |
| Torus.CornerWraps | src/model_v4_lc_extension2.py:53-64 | the opposite corner `(W-1, H-1)` is in the neighbourhood of `(0, 0)` iff vision >= 2 |
| Torus.AllCellsExact | src/model_v4.5_lwz.py:45 | the list of all positions has `W*H` distinct entries, exactly the on-grid cells |
| Torus.FreeCellExists | src/model_v4_lc_extension2.py:96-99 | with fewer entities than cells, some cell is empty |
| Torus.CollectNeighborhood | src/model_v4_lc_extension2.py:56-63 | the loops over `dx, dy` build exactly `Neighborhood(c)` |
| Torus.CollectColumn | src/model_v4_lc_extension2.py:58-63 | the inner loop over `dy` appends exactly the wrapped cells of one column of the disk |
| Torus.ComputeNeighborhoods | src/model_v4_lc_extension2.py:53-64 | the table is fresh, `W × H`, and entry `(x, y)` equals `Neighborhood((x, y))` |
| Rules.Pick | src/model_v4_lc_extension2.py:149 | `random.choice` returns a member of the non-empty list |
| Rules.ArrestFactor | src/model_v4_lc_extension2.py:174 | the result is `floor(cops / (active + 1))`, stated by its bounds |
| Rules.ArrestFactorZero | src/model_v4_lc_extension2.py:174 | the factor is 0 iff cops <= active |
| Rules.NoRiskUnlessOutnumbered | src/model_v4_lc_extension2.py:174 | the arrest estimate is 0 unless the cops outnumber the active agents, and otherwise uses a factor >= 1 |
| Rules.ActivationMonotone | src/model_v4_lc_extension2.py:155-160 | a higher arrest probability never turns a quiet agent active; with no risk, activation is exactly grievance > 0.1 |
| Rules.BlendBetween | src/model_v4_lc_extension2.py:81-84 | the adjusted hardship lies between the average and the own hardship, is the own hardship at share 0 and the average at share 1, and stays in [0, 1] |
| Rules.AverageInUnit | src/model_v4_lc_extension2.py:79-80 | an average of at most `count` hardships in [0, 1] lies in [0, 1] |
| Rules.DecayOvershoots | scripts/replication/rep2.py:134-135 | with legitimacy 0.003, one decay step gives a negative legitimacy |
| Rules.DecayBounded | scripts/replication/rep2.py:134-135 | repeated decay never rises and never goes below `-0.0045`; a non-positive legitimacy stays fixed |
| Rules.Truncated | src/model_v4_lc_extension2.py:48 | the count is the exact floor of `density * cells / 100` (the script's float `int(density / 100 * cells)` can be one lower; see Left out) |
| Rules.Populations | src/model_v4_lc_extension2.py:35-48 | densities summing above 100 are rejected; otherwise both populations are the exact floors of their shares of the cells |
| Rules.PopulationsFit | src/model_v4_lc_extension2.py:35-48 | accepted densities give no more entities than cells |
| Census.Count | src/model_v4_lc_extension2.py:120-128 | the tally counts every listed entity once |
| Census.CountConserves | src/model_v4_lc_extension2.py:120-131 | when no cop is jailed or active, `quiet + jail + active` is the number of listed agents, and the rest are cops |
| Census.AgentsPermutation | src/model_v4_lc_extension2.py:106 | shuffling the list keeps the number of agents in it |
| Census.AgentsSameKinds | src/model_v4_lc_extension2.py:109-118 | turns, which never change an entity's kind, keep the number of agents |
| Census.AgentsRemoveAt | scripts/extension2/extension2.py:108 | removing one entry removes one agent exactly when that entry is an agent |
| Census.FirstCop | scripts/extension2/extension2.py:106-107 | the index found is the first cop in the list; `None` only when the list holds no cop |
| Census.WithoutFirstCopKeepsAgents | scripts/extension2/extension2.py:103-112 | removing the first cop keeps every agent and keeps ids unique; it shortens the list by one iff some cop is listed |
| Rules.Newcomer | src/model_v4_lc_extension2.py:86-94 | the first `agents` entities are agents, the rest cops, all quiet and free where placed; both classes create their entities with it |
| GridModel.ArrestKeepsOthers | src/model_v4_lc_extension2.py:186-194 | given a change limited to the target and the cop, no kind changes and every other quiet entity is untouched |
| GridModel.Simulation.Init | src/model_v4_lc_extension2.py:37-47 | an empty grid, the neighbourhood table filled in, no entities and the initial series |
| GridModel.Simulation.Create | src/model_v4_lc_extension2.py:33-50 | fails iff the densities sum above 100; otherwise holds the truncated populations, agents first, on distinct cells, with the variant's initial series |
| GridModel.Simulation.CreateEntities | src/model_v4_lc_extension2.py:86-94 | every entity is created in order, with its traits, and placed on a free cell |
| GridModel.Simulation.CreateEntity | src/model_v4_lc_extension2.py:87-94 | one more entity is enrolled and seated on the grid |
| GridModel.Simulation.AddEntity | src/model_v4_lc_extension2.py:96-101 | the entity lands on the chosen free cell and is appended; no occupied cell changes |
| GridModel.Simulation.Enlist | src/model_v4_lc_extension2.py:90 | appending keeps ids unique and raises the agent count by one for an agent |
| GridModel.Simulation.Vacancies | src/model_v4_lc_extension2.py:96-99 | exactly the empty on-grid cells |
| GridModel.Simulation.FreeCells | src/model_v4_lc_extension2.py:96-99 | the scan returns exactly the vacancies |
| GridModel.Simulation.FreeCellAvailable | src/model_v4_lc_extension2.py:97-99 | while entities are fewer than cells, an empty cell exists |
| GridModel.Simulation.HardshipNear | src/model_v4_lc_extension2.py:72-78 | at most one count per neighbourhood cell; the total lies in `[0, count]` |
| GridModel.Simulation.NeighbourHardship | src/model_v4_lc_extension2.py:74-78 | the loop computes `HardshipNear` |
| GridModel.Simulation.AdjustedTurtle | src/model_v4_lc_extension2.py:69-84 | only the adjusted hardship of an agent can change |
| GridModel.Simulation.AdjustedSound | src/model_v4_lc_extension2.py:79-84 | the adjusted hardship stays in [0, 1] when the share does |
| GridModel.Simulation.ComputeAdjustedHardship | src/model_v4_lc_extension2.py:67-84 | every listed entity gets `AdjustedTurtle` of the state before the pass (the grid is read, never written), the rest are unchanged |
| GridModel.Simulation.AdjustEntity | src/model_v4_lc_extension2.py:69-84 | one pass of the loop yields exactly `AdjustedTurtle` for that entity |
| GridModel.Simulation.AdjustAll | src/model_v4_lc_extension2.py:68-84 | the loop over the list leaves every listed entity adjusted from the records before the pass, and the rest unchanged |
| GridModel.Simulation.OpenCells | src/model_v4_lc_extension2.py:141-147 | exactly the neighbourhood cells that are empty, jailed-occupied or the mover's own |
| GridModel.Simulation.OpenNeighbours | src/model_v4_lc_extension2.py:138-147 | the loop computes `OpenCells` |
| GridModel.Simulation.OwnCellOpen | src/model_v4_lc_extension2.py:137-148 | the mover's own cell is always a candidate, so `potential_positions` is never empty |
| GridModel.Simulation.MoveAgent | src/model_v4_lc_extension2.py:133-151 | a jailed entity stays; otherwise it moves to the chosen open neighbourhood cell, the grid shows it there and its old cell empty, and nothing else changes |
| GridModel.Simulation.Vacate | src/model_v4_lc_extension2.py:137 | only the cell is cleared |
| GridModel.Simulation.Occupy | src/model_v4_lc_extension2.py:150-151 | only the cell and the mover's position change |
| GridModel.Simulation.Nearby | src/model_v4_lc_extension2.py:166-173 | cops plus active agents never exceed the cells scanned |
| GridModel.Simulation.EstimateArrestProbability | src/model_v4_lc_extension2.py:162-175 | the curve applied to the ratio of cops to active agents nearby, 0 unless the cops outnumber them |
| GridModel.Simulation.UnpolicedAgentRises | src/model_v4_lc_extension2.py:153-160 | when cops do not outnumber active agents nearby, the agent turns active iff its grievance exceeds 0.1 |
| GridModel.Simulation.ContentAgentStaysQuiet | src/model_v4_lc_extension2.py:153-160 | an agent whose grievance is at most 0.1 never turns active |
| GridModel.Simulation.DetermineBehavior | src/model_v4_lc_extension2.py:153-160 | only the agent's active flag changes, to the activation rule on its felt hardship (adjusted or plain, by variant) |
| GridModel.Simulation.Targets | src/model_v4_lc_extension2.py:182-185 | exactly the active entities shown on the neighbourhood's cells, with their cells |
| GridModel.Simulation.ActiveTargets | src/model_v4_lc_extension2.py:180-185 | the loop computes `Targets` |
| GridModel.Simulation.Jail | src/model_v4_lc_extension2.py:189-190 | the target becomes quiet and jailed for the drawn term (1000 under the fixed-term variants) |
| GridModel.Simulation.Enforce | src/model_v4_lc_extension2.py:178-194 | with no target nothing changes; otherwise the chosen active agent is jailed and the cop takes its cell; no kind changes, and no quiet entity other than the cop is touched |
| GridModel.Simulation.TakeTurn | src/model_v4_lc_extension2.py:109-118 | a jailed entity only serves one tick; a free agent moves to its landing cell (its own, or the drawn open cell of its neighbourhood), the grid shows it there and its old cell empty, and its flag becomes the decision taken on the state after the move; a free cop moves likewise, then either sees nobody active and stops, or jails an active entity of its new neighbourhood and takes its cell, with no other grid cell changed; no kind or trait changes; only active entities and the mover can change |
| GridModel.Simulation.Landing | src/model_v4_lc_extension2.py:133-151 | the cell `move_agent` lands on is the mover's own cell or a cell of its neighbourhood |
| GridModel.Simulation.AgentTurn | src/model_v4_lc_extension2.py:114-116 | a free agent moves to its landing cell and then decides on what it sees there, counting its own flag from before the decision; nobody else changes |
| GridModel.Simulation.CopTurn | src/model_v4_lc_extension2.py:114-118 | a free cop moves to its landing cell and then arrests or not as `Arrest` says, judged from that cell; on the grid only its start, landing and arrest cells change |
| GridModel.Simulation.Arrest | src/model_v4_lc_extension2.py:178-194 | names the arrested entity: none exactly when no active entity is in sight, else an active entity within the neighbourhood, jailed, whose cell the cop takes, with only the cop's two cells changed on the grid |
| GridModel.Simulation.TakeTurns | src/model_v4_lc_extension2.py:109-118 | over the shuffled list, every jailed entity serves exactly one tick, nobody's kind or traits change, and the invariants hold |
| GridModel.Simulation.TurnAt | src/model_v4_lc_extension2.py:109-118 | the `i`-th turn of the loop counts that entity's term down if it is jailed and touches no other jailed entity |
| GridModel.Simulation.CountEntities | src/model_v4_lc_extension2.py:120-128 | the loop computes `Count` over the list |
| GridModel.Simulation.TallyAgents | src/model_v4_lc_extension2.py:120-128 | the counting loop yields the tally over the list, whose quiet, jailed and active counts sum to the agent count |
| GridModel.Simulation.WithdrawCop | scripts/extension2/extension2.py:103-112 | the first cop in the list is removed and its cell cleared; without cops nothing changes |
| GridModel.Simulation.Logged | scripts/extension2/extension2.py:114-117 | one more entry per series (`cop` only under withdrawal) |
| GridModel.Simulation.LoggedRecorded | src/model_v4_lc_extension2.py:120-131 | appending a tally whose agents add up keeps every recorded tick summing to the agent count |
| GridModel.Simulation.RecordTick | scripts/extension2/extension2.py:91-117 | the counts over the list are appended, they sum to the agent count, and under withdrawal the first cop leaves and its cell, and only that cell, is cleared; otherwise the grid is unchanged |
| GridModel.Simulation.Conclude | src/model_v4_lc_extension2.py:120-131 | the tally over the list is appended and sums to the agent count, a cop is withdrawn (its cell alone cleared on the grid) and legitimacy decays where the variant does, and no record changes |
| GridModel.Simulation.Prepare | src/model_v4_lc_extension2.py:104-106 | hardships adjusted (when the variant does), then the list becomes the shuffled order |
| GridModel.Simulation.Turns | src/model_v4_lc_extension2.py:104-118 | preparation and every entity's turn; jailed entities serve one tick in place; every entity keeps the traits preparation gave it, the blended adjusted hardship where the variant adjusts |
| GridModel.Simulation.Advance | scripts/replication/rep2.py:133-137 | legitimacy decays under the replication variant, and the tick advances |
| GridModel.Simulation.Step | src/model_v4_lc_extension2.py:103-131 | one tick: the counts appended sum to the agent count, the list is the shuffle (less one cop under withdrawal), jailed entities serve one tick in place, traits are those preparation gave, the withdrawn cop's cell is left empty, legitimacy decays by variant |
| ScanModel.NeighborReflexive | src/model_v4.5_lwz.py:119-124 | every position is its own neighbour |
| ScanModel.NeighborSymmetric | src/model_v4.5_lwz.py:119-124 | the neighbour test is symmetric |
| ScanModel.CornersTouch | src/model_v4.5_lwz.py:119-124 | with vision >= 1, opposite corners are neighbours through the wrap |
| ScanModel.OffsetReachesNeighbor | src/model_v4.5_lwz.py:98-103 | every drawn offset lands on a neighbour in the sense of `is_neighbor` |
| ScanModel.NeighborOffset | src/model_v4.5_lwz.py:119-124 | every neighbour is reached by some offset the mover can draw |
| ScanModel.MoverLeaves | src/model_v4.5_lwz.py:88-96 | an allowed cell is never the free mover's own cell |
| ScanModel.DestinationAllowed | src/model_v4.5_lwz.py:97-107 | the cell chosen is allowed, on the space and a neighbour of the start |
| ScanModel.DestinationFound | src/model_v4.5_lwz.py:98-105 | a destination exists iff some try lands on an allowed cell |
| ScanModel.Seen | src/model_v4.5_lwz.py:127-137 | the counts never exceed the entities scanned |
| ScanModel.SelfCounted | src/model_v4.5_lwz.py:131-137 | an active agent counts itself among the active agents it sees |
| ScanModel.Suspects | src/model_v4.5_lwz.py:143-150 | exactly the active agents among the first `num_agents` entries within vision of the cop |
| ScanModel.Scan.Create | src/model_v4.5_lwz.py:28-42 | fails iff the densities sum above 100; otherwise the truncated populations, agents first, on distinct cells of the 40×40 space, with empty series |
| ScanModel.Scan.Init | src/model_v4.5_lwz.py:50-58 | creates every entity in order and spreads them over distinct cells |
| ScanModel.Scan.PlaceEntitiesRandomly | src/model_v4.5_lwz.py:44-48 | every entity gets a distinct on-space position and nothing else changes |
| ScanModel.Scan.Step | src/model_v4.5_lwz.py:62-83 | one entry is appended to each series and the old ones are kept, the new counts sum to the agent count, and every jailed entity serves one tick |
| ScanModel.Scan.TakeTurn | src/model_v4.5_lwz.py:65-79 | a jailed entity serves; a free entity moves to its first allowed landing (reporting whether one was found), then an agent takes the activation decision on the moved records and the outcome reports its new flag, and a cop polices from its new position; only active entities and the mover can change |
| ScanModel.Scan.MoveAgent | src/model_v4.5_lwz.py:85-107 | a jailed entity stays; otherwise it moves to the first try landing on an allowed cell, which is a different neighbouring cell |
| ScanModel.Scan.IsPositionValid | src/model_v4.5_lwz.py:88-96 | true iff no cop and no free agent stands on the cell |
| ScanModel.Scan.DetermineBehavior | src/model_v4.5_lwz.py:111-117 | only the agent's active flag changes, to the activation rule on its hardship and the Chebyshev counts |
| ScanModel.Scan.EstimateArrestProbability | src/model_v4.5_lwz.py:127-139 | the curve applied to the ratio of cops to active agents nearby, 0 unless the cops outnumber them |
| ScanModel.Scan.Enforce | src/model_v4.5_lwz.py:143-157 | with no suspect nothing changes; otherwise the chosen suspect is jailed for the drawn term and the cop moves to its position |

## Left out

- Plotting, peak detection, the experiment drivers and every `print` are left out: they are I/O around the model.
- `math.exp` is not modelled. The arrest curve `n => 1 - exp(-k * n)` is a parameter `curve` with `curve(0) == 0`, so the constant `k` does not appear.
- Floating point is modelled as exact reals. Rounding in the blend, the average and the decay is not captured.
- Rules.Truncated: the count is the exact floor of `density * cells / 100`. The script computes `int(density / 100 * cells)` in floating point, which can fall just below a whole number and truncate one lower for some densities: 29% of 1600 cells gives 464 here and 463 in the script, and 57% and 58% differ likewise. Densities are whole percentages here; the script accepts any number.
- Rules.Populations: both populations are exact floors, so for some densities one may be one higher than the script's float truncation (see `Rules.Truncated`). Densities are whole percentages.
- GridModel.Simulation.TakeTurns: each turn's effect is stated only by `TakeTurn`; the state after the loop is not given as a function of the order and the draws, beyond jailed entities, kinds and traits.
- GridModel.Simulation.Step: free entities' positions and flags after the tick are not stated, and of the grid only the withdrawn cop's cleared cell is.
- Random draws are parameters. The model says what happens for every draw; it does not model their distribution.
- GridModel.Simulation.AddEntity: the placement retry loop, `randint` until an empty cell, is modelled as a choice among the empty cells. Both end on a uniformly chosen empty cell; the number of retries is not modelled.
- ScanModel.Scan.MoveAgent: the unbounded retry loop is given a finite list of tries. When none lands, the mover stays and `done` is false, and `Step` reports `stuck`. The code would keep drawing forever, or hang when no allowed cell exists within vision.
- ScanModel.Scan.Step: free entities' positions and flags after the loop are not stated; each turn's effect is stated by `TakeTurn`.
- ScanModel.Scan.Step: the contract does not say which counts are appended. It states that they sum to the agent count and that the old entries are kept.
- ScanModel.Scan.PlaceEntitiesRandomly: `random.sample` plus `remove` is modelled as picking the `spots(i)`-th remaining position. The distribution is not modelled.
- The grid size is a parameter of `GridModel.Simulation`; the scripts fix it at 40×40. `ScanModel.Scan` keeps 40×40.
- Cops are created with a risk aversion and hardship of 0.0 instead of `None`. Cops never use these fields.
- Each entity's `agent_id` and `vision` copies are left out. The id is the entity's index, and vision is a model constant.
- `adjusted_hardship` exists in every grid variant. Only `NeighbourInfluence` reads it.
- `tick` is advanced in every grid variant. Only `rep2.py` has it, and nothing reads it.
- The Python squares `dx ** 2` are the recursive `Square`, proved equal to `n * n` by `Torus.SquareIsProduct`.
- The neighbourhood table is computed once, in `Init`. Its exact content is stated by `Tabled`. `Tabled` is kept out of the per-step invariant: no step writes the table, and only on-grid membership is needed there. The empty-candidate branch of `MoveAgent` is still modelled as the code has it, and `OwnCellOpen` shows that branch cannot happen.
- The averaging in `compute_adjusted_hardship` includes the agent's own cell, as the code does, since a cell is in its own neighbourhood.
- Legitimacy decay in `rep2.py` has no floor at 0, as the code has it. `Rules.DecayOvershoots` shows it can go negative.
- With a disk of radius `vision`, the corner `(39, 39)` is in the neighbourhood of `(0, 0)` only when vision is at least 2 (`Torus.CornerWraps`). The Chebyshev test of `model_v4.5_lwz.py` needs only vision 1 (`ScanModel.CornersTouch`).
