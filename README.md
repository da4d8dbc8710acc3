# Exploring maze agent: a Dafny model

This project models the exploration-and-planning core of a small maze agent
written in Python. The agent walks a grid of characters (`X` wall, `_` free,
`E` entry, `S` exit, `o` food). It keeps a belief map of the cells it has
seen through a 3x3 sensor and counts how often it has stood on each cell.
On each step it:

- follows a heading plan when it has one;
- otherwise plans one by breadth-first search over the known non-wall
  cells. It aims first for the nearest known food, then for the nearest
  exploration frontier, then, once it has collected enough food, for the
  nearest known exit;
- when no plan can be made, falls back to an ordering of the four headings
  that avoids going back where it came from and prefers less visited cells.

The model, module by module:

- `Utils` (`utils.dfy`): the direction table `N, S, E, W` and its inverse
  (`agent/utils.py`, and the copy at the top of `agent/agent.py`).
- `Belief` (`belief.dfy`): the belief map
  - the free-neighbour relation;
  - frontier cells;
  - the exact effect of one sensor refresh, `Refreshed`.
- `Search`, `Sorting`, `Paths` (`search.dfy`, `sorting.dfy`, `paths.dfy`):
  - what a breadth-first search promises: a shortest walk, or nothing
    exactly when no goal is reachable;
  - Python's stable `list.sort(key=...)`;
  - turning a walk into headings and back.
- `Planning` (`planning.dfy`): the loops shared by the agent and the
  standalone planner. These are the free-neighbour scan, the BFS with its
  queue and parent links, the path reconstruction and the path-to-headings
  translation. Each is a method proved against the functions above.
- `Ordering` (`ordering.dfy`): the anti-bounce ordering of candidate
  headings, and the two fallback searches over it.
- `Env` (`environment.dfy`): `Environment.get_perception`, written as a
  loop proved against the pure window function `Perception`. Also the
  environment oracle the agent calls.
- `AgentCore` (`agent.dfy`), class `Agent`: the agent's fields and methods
  (`_update_memory`, `set_direction`, `move`, the planning helpers,
  `_exploration_frontiers`, `_plan`, `_ordered_directions`, `step`,
  `finished`, `score`). Also the plan cascade, stated as the predicate
  `PlanAllows`.
- `StandalonePlanner` (`planner.dfy`), class `Planner`: `agent/planner.py`.
- `GridMemory` (`memory.dfy`), class `Memory`: the alternative fixed-size
  memory of `agent/memory.py`. It is an `array2` overwritten in place,
  specified by the pure `Overlay`. `IsVisited` is the membership test;
  the `UpdateMemory` contract states what it then returns.
- `Actuation` (`actuators.dfy`), class `Actuators`: the direction-name actuator.

Behaviour of the code that the model keeps as written:

- The refresh loop of `_update_memory` skips sensor entry `[2][2]`, the
  south-east corner, not the centre (agent/agent.py:51). So the south-east
  neighbour is never recorded, and whatever the sensor puts at its centre
  overwrites the ground truth just recorded for the current cell.
- Out-of-grid cells are written too: the agent's refresh does no bounds
  check.
- Walls are `X` for the agent and `#` outside the grid in `get_perception`.
- A heading that is not in the table is silently dropped by
  `set_direction`.
- A step of a path that does not go to a 4-neighbour is silently dropped by
  the path translation; the model keeps that.
- A failed move still consumes the planned heading.
- The standalone planner is handed the agent's dictionaries. The model gives
  it the values at construction, and it never changes them.

The environment's `cell`, `collect_if_food`, `get_sensor`, `entry`, `exits`
and `total_food` are not defined in `environment/environment.py`;
`environment/environment.py` is part of this model only for
`get_perception`. They are modelled as an oracle with the smallest
behaviour the agent needs, as assumptions:

- `Cell` is the grid cell, a wall outside the grid.
- `CollectIfFood` turns food into a free cell once and says whether it did.
- `Sensor` is the 3x3 window of `Cell` with the heading letter at the
  centre. The sensor's code is not in this repository, and the comment at
  agent/agent.py:52 says instead that `[2][2]` holds the letter. Under the
  model's assumption, the refresh quirk above has these consequences:
  - the current cell is recorded as the heading letter (`N`, `S`, `E` or
    `W`), whatever its ground truth, as `Belief.RefreshedQuirks` states;
  - a current cell recorded as `S` looks like an exit to the exit tier of
    the planner;
  - a current cell recorded as `E` looks like an entry.

## Model

| member | source | states |
|---|---|---|
| Utils.DirectionsKeys | agent/utils.py:2-7 | the table has exactly the keys N, S, E, W, iterated in that order, each once |
| Utils.DirectionsAreUnitSteps | agent/utils.py:2-7 | every delta is a single step in one compass direction, and the four deltas are pairwise distinct |
| Utils.DirectionsOpposite | agent/utils.py:3-6 | the N delta negates the S delta and the E delta negates the W delta |
| Utils.DeltaToDirTable | agent/utils.py:10 | the inverse table built by iterating the table is exactly the four unit deltas mapped to their letters |
| Utils.DeltaToDirKeys | agent/utils.py:10 | the inverse table has four entries, whose keys are exactly the unit deltas |
| Utils.DeltaToDirInverse | agent/agent.py:13 | the two tables are inverse to each other in both directions |
| Belief.FreeNeighboursExact | agent/agent.py:79-89 | the free neighbours of a cell are exactly its 4-neighbours that are known and not a wall, each listed once |
| Belief.HasUnknownNeighbourExact | agent/agent.py:132-136 | the scan of the four headings finds an unknown neighbour exactly when some 4-neighbour is not in the map |
| Belief.Footprint | agent/agent.py:47-53 | the cells a refresh writes are exactly the 3x3 window minus its south-east corner |
| Belief.RefreshedFrame | agent/agent.py:42-53 | a refresh keeps every key, adds exactly the written window, writes each such cell from its sensor entry, and leaves all other cells unchanged |
| Belief.RefreshedQuirks | agent/agent.py:45-53 | after a refresh the current cell holds the sensor centre (the heading letter), whatever ground truth was recorded first; the south-east neighbour is not written |
| Belief.RefreshedIdempotent | agent/agent.py:42-53 | refreshing twice with the same position, truth and reading gives the same map as refreshing once |
| Search.GoalAtFrontIsNearest | agent/agent.py:94-104 | a goal cell at the front of the queue gives a walk that is shortest among all walks to a goal, and `[start]` when start is a goal |
| Search.ExhaustedMeansUnreachable | agent/agent.py:94-112 | when the queue runs empty, no goal cell is reachable from start |
| Search.ExpansionKeepsInv | agent/agent.py:105-111 | expanding the front cell keeps the search invariant: parent links form a tree of edges, the queue is ordered by distance, and distances are tight |
| Search.ShortestAtGoalStart | agent/agent.py:96-104 | when start is itself a goal, the only shortest walk is `[start]` |
| Sorting.SortBy | agent/agent.py:107 | the sort returns a permutation of its input |
| Sorting.SortBySorted | agent/agent.py:107 | the sort orders its result by the key |
| Sorting.SortByTiesRanked | agent/agent.py:184 | the sort is stable: elements with equal keys keep their input order |
| Sorting.SortByMembers | agent/agent.py:184 | the sort keeps exactly the elements of its input |
| Search.ByVisitsPreorder | agent/agent.py:107 | ordering cells by visit count, zero when unvisited, is a total preorder |
| Paths.TranslatedShape | agent/agent.py:114-123 | every emitted heading is a compass letter; there are at most as many headings as steps, exactly as many when every step goes to a 4-neighbour |
| Paths.TranslatedDeltas | agent/agent.py:116-122 | for a path of 4-neighbour steps, the k-th heading's delta is the k-th step |
| Paths.FollowTranslated | agent/agent.py:114-123 | walking the translated headings from the first cell retraces the path |
| Paths.TranslatedFollow | agent/agent.py:114-123 | translating the cells of a walk of headings gives the headings back |
| Planning.FreeNeighboursOf | agent/agent.py:79-89 | the loop returns the known non-wall 4-neighbours in N, S, E, W order, each once |
| Planning.BreadthFirst | agent/agent.py:91-112 | the search returns a shortest walk over known non-wall cells to a goal, without repeated cells; `[start]` when start is a goal; nothing exactly when no goal is reachable |
| Planning.Expand | agent/agent.py:105-111 | one expansion appends to the queue exactly the newly discovered cells, in the order of the free neighbours sorted by visit count, so least visited first; each is a free neighbour of the expanded cell, which becomes its parent; every free neighbour ends up discovered |
| Planning.Discover | agent/agent.py:108-111 | every listed neighbour ends up discovered; the new ones get the expanded cell as parent and are appended to the queue, each once, in the order of the list |
| Planning.UnseenMembers | agent/agent.py:108-111 | the cells a pass over a list discovers are exactly the listed cells not yet discovered, each once |
| Planning.UnseenSorted | agent/agent.py:107-111 | a pass over a list sorted by a key discovers its new cells in that sorted order |
| Planning.Reconstruct | agent/agent.py:97-103 | following parent links back and reversing gives a walk from start to the cell, without repeats, one cell longer than its distance |
| Planning.TranslateSteps | agent/agent.py:114-123 | the loop emits the translated headings: compass letters, at most one per step, one per step of a 4-neighbour path, retracing it |
| Ordering.ByScorePreorder | agent/agent.py:184 | the lexicographic order on (bounce, visits) is a total preorder |
| Ordering.Ordered | agent/agent.py:173-187 | the fallback order lists compass letters only |
| Ordering.OrderedMembers | agent/agent.py:176-179 | a heading is in the fallback order exactly when its destination is not a wall |
| Ordering.OrderedExact | agent/agent.py:180-186 | along the fallback order, non-bouncing headings come first, visit counts ascend within each group, ties keep N, S, E, W order, and no heading repeats |
| Ordering.SortedCandidatesMembers | agent/agent.py:176-184 | the sorted candidates are exactly the candidates of the headings whose destination is not a wall |
| Ordering.SortedCandidatesOrder | agent/agent.py:184 | the sorted candidates are in score order, with ties in table order |
| Ordering.CandidatesAlongMembers | agent/agent.py:176-182 | the collected candidates are exactly those of the listed headings whose destination is not a wall |
| Ordering.CandidatesAlongRanked | agent/agent.py:176-182 | candidates collected along headings in table order are in table order |
| Ordering.FirstUnknown | agent/agent.py:201-207 | the first fallback finds the first heading of the order toward an unknown, non-wall cell, every heading before it leading to a known cell or a wall, and finds none only when there is none |
| Ordering.FirstKnownFree | agent/agent.py:210-216 | the second fallback finds the first heading of the order toward a known non-wall cell, every heading before it leading to an unknown cell or a wall, and finds none only when there is none |
| Env.Perception | environment/environment.py:55-75 | the perception is three rows of three entries |
| Env.SensorOf | agent/agent.py:39-40 | the sensor reading is three rows of three entries, with the heading letter at the centre |
| Env.Environment.constructor | environment/environment.py:2-3 | an environment holds the given grid, entry, exits and food total |
| Env.Environment.CollectIfFood | agent/agent.py:71-72 | there was food exactly when it reports so; the food cell becomes free and nothing else in the grid changes |
| Env.Environment.Sensor | agent/agent.py:39-40 | the agent's sensor reading is a 3x3 window with the heading letter at its centre |
| Env.Environment.GetPerception | environment/environment.py:25-77 | three rows of three entries; each entry is the grid cell at its offset when that is inside the grid (by its height and first-row width) and `#` otherwise; the grid is only read |
| Env.PerceptionCentre | environment/environment.py:62-70 | for a position inside the grid, the centre of the perception is the grid's own cell, with no heading marker |
| AgentCore.TierOutcome | agent/agent.py:145-148 | a tier's search yields a walk of at least one move exactly when the start is not a target and a target is reachable; its headings are then a plan toward the nearest target |
| AgentCore.NoTargetsNoYield | agent/agent.py:143 | a tier with no targets yields no plan |
| AgentCore.PlannedRetraces | agent/agent.py:145-148 | a tier's plan is a non-empty sequence of compass letters whose walk from the start is a shortest walk to a target |
| AgentCore.PlanAllowsShape | agent/agent.py:139-170 | the planner leaves no plan exactly when no tier yields, and every plan it makes consists of compass letters |
| AgentCore.WallHeadings | agent/agent.py:176-178 | a heading is blocked exactly when its destination is a wall in the ground truth |
| AgentCore.RefreshWindow | agent/agent.py:44-53 | the refresh loop, written entry by entry in row-major order, produces exactly `Refreshed` |
| AgentCore.Agent.constructor | agent/agent.py:16-36 | the agent starts at the entry with the given heading, no steps, food or plan, and a quota of the given target or else the total food; its memory is one refresh of the empty map, and the entry is visited once |
| AgentCore.Agent.UpdateMemory | agent/agent.py:42-56 | the belief map becomes the refresh of the old one from the sensor at the current cell, and the current cell is visited once more; position, steps, food and the ground truth are unchanged |
| AgentCore.Agent.Visit | agent/agent.py:55-56 | the current cell joins the visited set and its count rises by one |
| AgentCore.Agent.SetDirection | agent/agent.py:59-61 | the heading becomes the argument when that is a compass letter and is unchanged otherwise |
| AgentCore.Agent.Move | agent/agent.py:63-76 | the move succeeds exactly when the ground truth ahead is not a wall. On failure nothing changes. On success: the position shifts by the heading's delta; steps rise by one; the last position is the old one; food ahead is collected once and turned into a free cell, and no other cell of the ground truth changes; the belief map is refreshed from the sensor there; the new cell's visit count rises by one; the score changes by +9 or -1 |
| AgentCore.Agent.Advance | agent/agent.py:68-73 | the agent stands on the destination, one step more, with the old position as last position, and one more food exactly when the destination held food, which is consumed; the rest of the ground truth is unchanged |
| AgentCore.Agent.Forward | agent/agent.py:68-75 | walking onto a non-wall cell ahead is a successful attempt: it walks onto the cell, then refreshes the belief map and counts the visit there |
| AgentCore.AttemptScore | agent/agent.py:70-72 | a successful move lowers the score by one, and raises it by ten more when food was eaten |
| AgentCore.Agent.FreeNeighborsInMemory | agent/agent.py:79-89 | the known non-wall 4-neighbours in N, S, E, W order, each once |
| AgentCore.Agent.BfsUntilPredicate | agent/agent.py:91-112 | a shortest walk without repeats to a goal over the belief map, `[start]` for a goal start, nothing exactly when no goal is reachable |
| AgentCore.Agent.TranslatePathToDirections | agent/agent.py:114-123 | the translated headings: compass letters that retrace any 4-neighbour path |
| AgentCore.Agent.ExplorationFrontiers | agent/agent.py:125-137 | a cell is listed exactly when it is known, of kind `_`, `E`, `S` or `o`, and has a 4-neighbour missing from the map; no cell is listed twice |
| AgentCore.Agent.PlanToward | agent/agent.py:143-148 | a tier succeeds exactly when it yields, and then its plan is toward the nearest target; otherwise the plan is untouched |
| AgentCore.Agent.Plan | agent/agent.py:139-170 | the plan follows the cascade: nearest food when reachable in at least one move, else nearest frontier, else, once the quota is met, nearest exit, else empty |
| AgentCore.Agent.OrderedDirections | agent/agent.py:173-187 | the loop and sort give the fallback order: exactly the headings whose destination is not a wall, ordered by (bounce, visits), ties in N, S, E, W order |
| AgentCore.Agent.FirstUnknownIn | agent/agent.py:201-207 | the loop returns the first heading of the order toward an unknown, non-wall cell |
| AgentCore.Agent.FirstKnownFreeIn | agent/agent.py:210-216 | the loop returns the first heading of the order toward a known non-wall cell |
| AgentCore.Agent.FallbackHeading | agent/agent.py:200-216 | the fallback picks the first heading of the order toward an unknown non-wall cell when there is one, else the first toward a cell the belief map has as non-wall, else none; a picked heading never leads into a ground-truth wall |
| AgentCore.Agent.Step | agent/agent.py:190-216 | one step. With a plan: pops its head, turns to it and attempts the move. Without one: plans; when a tier yields, follows the new plan's first heading the same way; else, with a fallback heading, turns to it and moves, which always succeeds; with none, nothing changes. Each attempt succeeds exactly when the ground truth ahead is not a wall, and its new position, steps, last position, food, ground truth, belief map and visits are those of `Move`; the plan stays compass letters, and knowledge only grows |
| AgentCore.Agent.PlanAndAct | agent/agent.py:191-216 | without a plan: makes one, then follows its first heading as one attempted move, or takes the fallback heading, which always moves, or leaves everything unchanged |
| AgentCore.Agent.FollowPlan | agent/agent.py:194-198 | pops the first planned heading even when the move then fails, turns to it, and attempts the move with the full effect of `Move` |
| AgentCore.Agent.Fallback | agent/agent.py:200-216 | turns to the fallback heading and moves, always successfully, with the full effect of `Move`; with no fallback heading nothing changes |
| StandalonePlanner.Planner.constructor | agent/planner.py:7-9 | the planner holds the given map and visit counts |
| StandalonePlanner.Planner.Bfs | agent/planner.py:11-31 | a shortest walk without repeats to a goal, `[start]` for a goal start, nothing exactly when no goal is reachable; the map is only read |
| StandalonePlanner.Planner.TranslatePath | agent/planner.py:33-42 | compass letters, at most one per step, retracing any 4-neighbour path |
| StandalonePlanner.Planner.FreeNeighbors | agent/planner.py:45-56 | the known non-wall 4-neighbours in N, S, E, W order, each once |
| GridMemory.OverlayIdempotent | agent/memory.py:57 | copying the same window twice gives the same grid as copying it once |
| GridMemory.OverlayRecordsTruth | agent/memory.py:37-57 | when the map has the ground truth's dimensions, copying the environment's perception there makes every window cell inside the map hold its ground-truth character, never the outside marker, and leaves every other cell unchanged |
| GridMemory.Memory.constructor | agent/memory.py:2-10 | a map of `rows` by `cols` unknown cells (none for a negative count) and an empty visited set |
| GridMemory.Memory.UpdateMemory | agent/memory.py:13-59 | the map becomes the overlay of the old one; the position becomes visited, even out of bounds, and the visited set only grows |
| Actuation.HeadingOf | agent/actuators.py:28-35 | the four names stand for compass letters of the table, and exactly the other names stand for none |
| Actuation.Actuators.constructor | agent/actuators.py:2-6 | a new actuator faces `UP` |
| Actuation.Actuators.SetDirection | agent/actuators.py:9-14 | the direction becomes the argument verbatim |
| Actuation.Actuators.Move | agent/actuators.py:16-37 | a named direction moves one cell by the table's delta for its letter (UP row -1, DOWN row +1, LEFT column -1, RIGHT column +1); any other name leaves the position; the direction is only read |

## Left out

- main.py, the console driver, is not part of this model: rendering, sleeping and the iteration cap are I/O and orchestration.
- `Environment.load_map` (environment/environment.py:5-23) reads a file. The constructor takes the grid as a value.
- agent/sensors.py is not part of this model: it only delegates to `get_perception`.
- `Memory.print_memory` (agent/memory.py:69-74) only prints.
- Env.Environment.Cell, Env.Environment.CollectIfFood, Env.Environment.Sensor: assumed behaviour of environment methods whose code is not in `environment/environment.py`; see above.
- AgentCore.Agent.ExplorationFrontiers: the order of the list follows Python's dictionary order, which the model leaves unspecified (any order is allowed). The contract states membership and distinctness, not order.
- AgentCore.Agent.Move: `move` raises `KeyError` when the heading is not a compass letter. The model requires a compass letter instead; `step` only moves after turning to one.
- AgentCore.Agent.Step: requires the pending plan to consist of compass letters, as every plan the planner makes does, and preserves that. A plan holding another letter, which `step` would pass to `set_direction` and then `move` with the old heading, is not modelled. The initial heading may be any letter.
- AgentCore.Agent.Move: the contract states the new belief map as the refresh of the old. That the map only gains keys follows from `Belief.RefreshedFrame`, and `Step` states it.
- AgentCore.Agent.Finished and AgentCore.Agent.Score are definitions with no contract of their own: `Finished` is the quota-and-exit test of agent/agent.py:219-221 and `Score` the formula of agent/agent.py:223-224. `Move` states how a move changes the score.
- AgentCore.Agent.Step: the fallback loops of the source, each of which turns and moves inside the loop, are written as a choice of heading (`FallbackHeading`) followed by one move. This is the same behaviour, since a loop turns and moves at most once and then returns.
- StandalonePlanner.Planner: the source shares the agent's dictionaries by reference, so a planner sees later changes to them. The model takes the values when the planner is made.
- Default arguments of the agent's constructor (`'N'`, no target) are not modelled; callers pass both.
