/** The exploring agent: it keeps a belief map of the maze built from its
    3x3 sensor, plans by breadth-first search toward the nearest known food,
    then the nearest exploration frontier, then (once enough food is
    collected) the nearest known exit, and falls back to an anti-bounce
    ordering of the four headings when nothing can be planned. */
module AgentCore {
  import opened Utils
  import opened Belief
  import opened Search
  import opened Paths
  import opened Ordering
  import opened Env
  import Planning
  import Sorting

  // ---- What a plan is ----

  /** Searching from `start` for `targets` gives a walk of at least one move. */
  ghost predicate Yields(mem: Memory, start: Pos, targets: set<Pos>) {
    start !in targets && Reachable(mem, start, InSet(targets))
  }

  /** `hs` are the headings of a shortest walk from `start` to one of
      `targets`, of at least one move. */
  ghost predicate PlannedToward(mem: Memory, start: Pos, targets: set<Pos>, hs: seq<char>) {
    exists p :: Shortest(mem, start, InSet(targets), p) && |p| > 1 && hs == Translated(p)
  }

  /** No tier of the planner yields a walk. */
  ghost predicate Stuck(mem: Memory, cur: Pos, quotaMet: bool) {
    && !Yields(mem, cur, CellsOf(mem, Food))
    && !Yields(mem, cur, FrontierSet(mem))
    && !(quotaMet && Yields(mem, cur, CellsOf(mem, Exit)))
  }

  /** The plan the planner may choose from `cur`: toward the nearest known
      food if any is reachable, else toward the nearest frontier, else,
      when the food quota is met, toward the nearest known exit, else
      nothing. */
  ghost predicate PlanAllows(mem: Memory, cur: Pos, quotaMet: bool, hs: seq<char>) {
    if Yields(mem, cur, CellsOf(mem, Food)) then PlannedToward(mem, cur, CellsOf(mem, Food), hs)
    else if Yields(mem, cur, FrontierSet(mem)) then PlannedToward(mem, cur, FrontierSet(mem), hs)
    else if quotaMet && Yields(mem, cur, CellsOf(mem, Exit)) then PlannedToward(mem, cur, CellsOf(mem, Exit), hs)
    else hs == []
  }

  /** One tier of the planner: the search result is a walk of at least one
      move exactly when the tier yields, and its headings are then a plan
      toward the tier's targets. */
  lemma TierOutcome(mem: Memory, start: Pos, targets: set<Pos>, path: Option<seq<Pos>>)
    requires path.Some? ==> Shortest(mem, start, InSet(targets), path.value)
    requires path.None? <==> !Reachable(mem, start, InSet(targets))
    requires start in targets ==> path == Some([start])
    ensures (path.Some? && |path.value| > 1) <==> Yields(mem, start, targets)
    ensures path.Some? && |path.value| > 1 ==> PlannedToward(mem, start, targets, Translated(path.value))
  {
  }

  lemma NoTargetsNoYield(mem: Memory, start: Pos)
    ensures !Yields(mem, start, {})
  {
  }

  /** A plan of one tier is a non-empty sequence of compass headings;
      walked from `start`, it is a shortest walk over known non-wall cells
      to one of the targets. */
  lemma PlannedRetraces(mem: Memory, start: Pos, targets: set<Pos>, hs: seq<char>)
    requires PlannedToward(mem, start, targets, hs)
    ensures hs != [] && AllHeadings(hs)
    ensures Shortest(mem, start, InSet(targets), Follow(start, hs))
  {
    var p :| Shortest(mem, start, InSet(targets), p) && |p| > 1 && hs == Translated(p);
    WalkIsAdjacentPath(mem, p);
    FollowTranslated(p);
    TranslatedShape(p);
  }

  /** The planner is left without a plan exactly when no tier yields, and a
      plan it makes is a non-empty sequence of compass headings. */
  lemma PlanAllowsShape(mem: Memory, cur: Pos, quotaMet: bool, hs: seq<char>)
    requires PlanAllows(mem, cur, quotaMet, hs)
    ensures hs == [] <==> Stuck(mem, cur, quotaMet)
    ensures AllHeadings(hs)
  {
    if Yields(mem, cur, CellsOf(mem, Food)) {
      PlannedRetraces(mem, cur, CellsOf(mem, Food), hs);
    } else if Yields(mem, cur, FrontierSet(mem)) {
      PlannedRetraces(mem, cur, FrontierSet(mem), hs);
    } else if quotaMet && Yields(mem, cur, CellsOf(mem, Exit)) {
      PlannedRetraces(mem, cur, CellsOf(mem, Exit), hs);
    }
  }

  /** The headings whose destination from `cur` is a wall in grid `g`. */
  function WallHeadings(g: seq<seq<char>>, cur: Pos): (b: set<char>)
    ensures forall d :: d in b <==> d in Directions && CellOf(g, Step(cur, Directions[d])) == Wall
  {
    DirectionsKeys();
    (if CellOf(g, Step(cur, Directions['N'])) == Wall then {'N'} else {}) +
    (if CellOf(g, Step(cur, Directions['S'])) == Wall then {'S'} else {}) +
    (if CellOf(g, Step(cur, Directions['E'])) == Wall then {'E'} else {}) +
    (if CellOf(g, Step(cur, Directions['W'])) == Wall then {'W'} else {})
  }

  /** The loop of one refresh: records `truth` for `current`, then copies
      each sensor entry in row-major order over the cell it stands for,
      skipping the south-east corner. */
  method RefreshWindow(memory: Memory, current: Pos, truth: char, sensor: seq<seq<char>>) returns (mem: Memory)
    requires IsWindow(sensor)
    ensures mem == Refreshed(memory, current, truth, sensor)
  {
    mem := memory[current := truth];
    ghost var base := mem;
    for r := 0 to 3
      invariant Partial(mem, base, current, sensor, 3 * r)
    {
      for c := 0 to 3
        invariant Partial(mem, base, current, sensor, 3 * r + c)
      {
        var ai := current.0 + (r - 1);
        var aj := current.1 + (c - 1);
        PartialStep(mem, base, current, sensor, r, c);
        if r == 2 && c == 2 {
          continue;
        }
        mem := mem[(ai, aj) := sensor[r][c]];
      }
    }
    PartialDone(mem, base, current, sensor);
  }

  /** The part of the agent's state, and of the ground truth, that a move
      can change. */
  datatype Snapshot = Snapshot(pos: Pos, steps: nat, lastPosition: Option<Pos>, collectedFood: nat,
                               grid: seq<seq<char>>, memory: Memory, visited: set<Pos>, visits: map<Pos, nat>)

  /** `s` after walking onto `dest`: one step more, the old position as
      last position, and the food at `dest`, if any, eaten and turned into
      a free cell, no other cell of the ground truth changing. */
  function Advanced(s: Snapshot, dest: Pos): Snapshot {
    var food := CellOf(s.grid, dest) == Food;
    s.(pos := dest, steps := s.steps + 1, lastPosition := Some(s.pos),
       collectedFood := s.collectedFood + (if food then 1 else 0),
       grid := if food then s.grid[dest.0 := s.grid[dest.0][dest.1 := Free]] else s.grid)
  }

  /** `s` after the sensor at its position, facing `d`, refreshes the
      belief map, and the position is visited once more. */
  function Sensed(s: Snapshot, d: char): Snapshot {
    s.(memory := Refreshed(s.memory, s.pos, CellOf(s.grid, s.pos), SensorOf(s.grid, s.pos.0, s.pos.1, d)),
       visited := s.visited + {s.pos}, visits := s.visits[s.pos := Count(s.visits, s.pos) + 1])
  }

  /** One move along heading `d` was attempted from `s`, leaving `t`: it
      succeeds, as `moved` says, exactly when the ground truth there is not
      a wall. A failed attempt changes nothing; a successful one walks onto
      the destination and senses there. */
  ghost predicate Attempt(s: Snapshot, t: Snapshot, d: char, moved: bool) {
    && d in Directions
    && var dest := Step(s.pos, Directions[d]);
       && moved == (CellOf(s.grid, dest) != Wall)
       && t == if moved then Sensed(Advanced(s, dest), d) else s
  }

  /** A successful move costs one point of score, and eating food there
      earns ten. */
  lemma AttemptScore(s: Snapshot, t: Snapshot, d: char)
    requires Attempt(s, t, d, true)
    ensures t.collectedFood * 10 - t.steps ==
      s.collectedFood * 10 - s.steps + (if CellOf(s.grid, Step(s.pos, Directions[d])) == Food then 9 else -1)
  {
  }

  class Agent {
    const env: Environment
    /** The current position (row, column) and heading letter. */
    var i: int
    var j: int
    var dir: char
    var steps: nat
    var collectedFood: nat
    const targetFood: int
    /** The belief map, the cells stood on, and how often each was stood on. */
    var memory: Memory
    var visited: set<Pos>
    var visits: map<Pos, nat>
    /** Headings still to follow. */
    var plan: seq<char>
    /** Where the last successful move started. */
    var lastPosition: Option<Pos>

    /** Starts at the environment's entry with no plan and one refresh of
        the belief map; the food quota is `targetFood` when given, the
        environment's total food otherwise. */
    constructor (environment: Environment, initialDirection: char, targetFood: Option<int>)
      ensures env == environment && (i, j) == environment.entry && dir == initialDirection
      ensures steps == 0 && collectedFood == 0 && plan == [] && lastPosition == None
      ensures this.targetFood == if targetFood.Some? then targetFood.value else environment.totalFood
      ensures memory == Refreshed(map[], environment.entry, environment.Cell(environment.entry),
                                  environment.Sensor(environment.entry.0, environment.entry.1, initialDirection))
      ensures visited == {environment.entry} && visits == map[environment.entry := 1]
    {
      env := environment;
      i, j := environment.entry.0, environment.entry.1;
      dir := initialDirection;
      steps := 0;
      collectedFood := 0;
      this.targetFood := if targetFood.Some? then targetFood.value else environment.totalFood;
      memory := map[];
      visited := {};
      visits := map[];
      plan := [];
      lastPosition := None;
      new;
      UpdateMemory();
    }

    /** The cell one move ahead along the current heading. */
    function Ahead(): Pos
      reads this`i, this`j, this`dir
      requires dir in Directions
    {
      Utils.Step((i, j), Directions[dir])
    }

    /** The headings whose destination is a wall in the ground truth. */
    function Blocked(): set<char>
      reads this`i, this`j, env
    {
      WallHeadings(env.grid, (i, j))
    }

    /** The fallback order of headings from the current state. */
    ghost function Options(): seq<char>
      reads this`i, this`j, this`lastPosition, this`visits, env
    {
      Ordered((i, j), lastPosition, visits, Blocked())
    }

    function Score(): int
      reads this`collectedFood, this`steps
    {
      collectedFood * 10 - steps
    }

    predicate Finished()
      reads this`i, this`j, this`collectedFood, env
    {
      collectedFood >= targetFood && (i, j) in env.exits
    }

    /** Refreshes the belief map from the sensor at the current position,
        and counts the position as visited once more. */
    method UpdateMemory()
      modifies this`memory, this`visited, this`visits
      ensures State() == Sensed(old(State()), dir)
    {
      var sensor := env.Sensor(i, j, dir);
      var current := (i, j);
      memory := RefreshWindow(memory, current, env.Cell(current), sensor);
      Visit(current);
    }

    /** Counts `current` as visited once more. */
    method Visit(current: Pos)
      modifies this`visited, this`visits
      ensures visited == old(visited) + {current}
      ensures visits == old(visits)[current := Count(old(visits), current) + 1]
    {
      visited := visited + {current};
      visits := visits[current := Count(visits, current) + 1];
    }

    /** Turns to `newDir` when it is a compass letter; otherwise keeps the heading. */
    method SetDirection(newDir: char)
      modifies this`dir
      ensures dir == if newDir in Directions then newDir else old(dir)
    {
      if newDir in Directions {
        dir := newDir;
      }
    }

    /** What a move can change: position, steps, last position, food, the
        ground truth, the belief map and the visits. */
    function State(): Snapshot
      reads this`i, this`j, this`steps, this`lastPosition, this`collectedFood, env`grid
      reads this`memory, this`visited, this`visits
    {
      Snapshot((i, j), steps, lastPosition, collectedFood, env.grid, memory, visited, visits)
    }

    /** Moves one cell along the heading unless the ground truth has a wall
        there; on a move, counts the step, collects any food, remembers
        where it came from and refreshes the belief map. The score drops by
        one per move and rises by ten per food. */
    method Move() returns (moved: bool)
      requires dir in Directions
      modifies this, env
      ensures moved == (old(env.Cell(Ahead())) != Wall)
      ensures Attempt(old(State()), State(), old(dir), moved)
      ensures !moved ==> unchanged(this) && unchanged(env)
      ensures dir == old(dir) && plan == old(plan)
      ensures moved ==> Score() == old(Score()) + (if old(env.Cell(Ahead())) == Food then 9 else -1)
    {
      var dest := Ahead();
      if env.Cell(dest) != Wall {
        Forward(dest);
        AttemptScore(old(State()), State(), dir);
        return true;
      }
      return false;
    }

    /** Walks onto the free cell ahead and refreshes the belief map there. */
    method Forward(dest: Pos)
      requires dir in Directions && dest == Ahead() && env.Cell(dest) != Wall
      modifies this`i, this`j, this`steps, this`lastPosition, this`collectedFood, env
      modifies this`memory, this`visited, this`visits
      ensures Attempt(old(State()), State(), dir, true)
    {
      Advance(dest);
      UpdateMemory();
    }

    /** Walks onto `dest`, eating the food there if any. */
    method Advance(dest: Pos)
      modifies this`i, this`j, this`steps, this`lastPosition, this`collectedFood, env
      ensures (i, j) == dest && steps == old(steps) + 1 && lastPosition == Some(old((i, j)))
      ensures collectedFood == old(collectedFood) + (if old(env.Cell(dest)) == Food then 1 else 0)
      ensures old(env.Cell(dest)) == Food ==> env.Cell(dest) == Free
      ensures env.grid == if old(env.Cell(dest)) == Food then old(env.grid)[dest.0 := old(env.grid)[dest.0][dest.1 := Free]] else old(env.grid)
      ensures State() == Advanced(old(State()), dest)
    {
      var found := env.CollectIfFood(dest);
      i, j, steps, lastPosition, collectedFood :=
        dest.0, dest.1, steps + 1, Some((i, j)), if found then collectedFood + 1 else collectedFood;
    }

    /** The known non-wall 4-neighbours of `p`, in N, S, E, W order, each once. */
    method FreeNeighborsInMemory(p: Pos) returns (res: seq<Pos>)
      ensures res == FreeNeighbours(memory, p)
      ensures forall q :: q in res <==> Edge(memory, p, q)
      ensures Distinct(res)
    {
      res := Planning.FreeNeighboursOf(memory, p);
    }

    /** A shortest walk over the belief map from `start` to a cell
        satisfying `goal`, without repeated cells; `[start]` when `start`
        is a goal; nothing exactly when no goal cell is reachable. */
    method BfsUntilPredicate(start: Pos, goal: Pos -> bool) returns (path: Option<seq<Pos>>)
      ensures path.Some? ==> Shortest(memory, start, goal, path.value) && Distinct(path.value)
      ensures path.None? <==> !Reachable(memory, start, goal)
      ensures goal(start) ==> path == Some([start])
    {
      path := Planning.BreadthFirst(memory, visits, start, goal);
    }

    /** The headings of the steps of `path`; for a path of 4-neighbour steps,
        one per step, and walking them from the first cell retraces it. */
    method TranslatePathToDirections(path: seq<Pos>) returns (directions: seq<char>)
      ensures directions == Translated(path)
      ensures AllHeadings(directions)
      ensures |path| >= 1 && AdjacentPath(path) ==>
        |directions| == |path| - 1 && Follow(path[0], directions) == path
    {
      directions := Planning.TranslateSteps(path);
    }

    /** The frontier cells of the belief map, each listed once, in the
        map's iteration order (left unspecified). */
    method ExplorationFrontiers() returns (frontiers: seq<Pos>)
      ensures forall p :: p in frontiers <==> IsFrontier(memory, p)
      ensures Distinct(frontiers)
    {
      DirectionsKeys();
      frontiers := [];
      var rest := memory.Keys;
      while rest != {}
        invariant rest <= memory.Keys
        invariant forall p :: p in frontiers <==> p in memory && p !in rest && IsFrontier(memory, p)
        invariant Distinct(frontiers)
        decreases |rest|
      {
        var p :| p in rest;
        rest := rest - {p};
        var ch := memory[p];
        if ch == Wall {
          continue;
        }
        if ch !in Open {
          continue;
        }
        var (pi, pj) := p;
        for k := 0 to |Order|
          invariant forall m :: 0 <= m < k ==> Utils.Step(p, Directions[Order[m]]) in memory
        {
          var (di, dj) := Directions[Order[k]];
          var q := (pi + di, pj + dj);
          if q !in memory {
            frontiers := frontiers + [p];
            break;
          }
        }
      }
    }

    /** One tier of the planner: when `targets` is non-empty, searches for
        the nearest of them and, when the walk found has at least one move,
        makes its headings the plan. */
    method PlanToward(targets: set<Pos>) returns (planned: bool)
      modifies this`plan
      ensures planned <==> Yields(memory, (i, j), targets)
      ensures planned ==> PlannedToward(memory, (i, j), targets, plan)
      ensures !planned ==> plan == old(plan)
    {
      NoTargetsNoYield(memory, (i, j));
      if targets == {} {
        return false;
      }
      var path := BfsUntilPredicate((i, j), InSet(targets));
      TierOutcome(memory, (i, j), targets, path);
      if path.Some? && |path.value| > 1 {
        plan := TranslatePathToDirections(path.value);
        return true;
      }
      return false;
    }

    /** Chooses the plan: the headings of a shortest walk to the nearest
        known food, else to the nearest frontier, else, once the food quota
        is met, to the nearest known exit; a tier is skipped when it has no
        targets or its walk would not move; no plan when every tier is
        skipped. */
    method Plan()
      modifies this`plan
      ensures PlanAllows(memory, (i, j), collectedFood >= targetFood, plan)
    {
      var foods := CellsOf(memory, Food);
      var planned := PlanToward(foods);
      if planned {
        return;
      }
      var frontiers := ExplorationFrontiers();
      var targetSet := set p | p in frontiers;
      assert targetSet == FrontierSet(memory);
      planned := PlanToward(targetSet);
      if planned {
        return;
      }
      if collectedFood >= targetFood {
        var exits := CellsOf(memory, Exit);
        planned := PlanToward(exits);
        if planned {
          return;
        }
      }
      plan := [];
    }

    /** The headings whose destination is not a wall in the ground truth,
        those leading back to the previous position last and otherwise the
        least visited destination first, ties in N, S, E, W order. */
    method OrderedDirections() returns (ds: seq<char>)
      ensures ds == Options()
      ensures forall d :: d in ds <==> d in Directions && env.Cell(Utils.Step((i, j), Directions[d])) != Wall
    {
      DirectionsKeys();
      var cur, last, counts := (i, j), lastPosition, visits;
      ghost var blocked := Blocked();
      var candidates: seq<Candidate> := [];
      for k := 0 to |Order|
        invariant candidates == CandidatesAlong(cur, last, counts, blocked, Order[..k])
      {
        var d := Order[k];
        var q := Utils.Step(cur, Directions[d]);
        assert Order[..k + 1][..k] == Order[..k];
        if env.Cell(q) == Wall {
          continue;
        }
        var bounce := if last.None? || q != last.value then 0 else 1;
        candidates := candidates + [Candidate(bounce, Count(counts, q), d, q)];
      }
      assert Order[..|Order|] == Order;
      var sorted := Sorting.SortBy(candidates, ByScore());
      ds := seq(|sorted|, k requires 0 <= k < |sorted| => sorted[k].heading);
      OrderedMembers(cur, last, counts, blocked);
    }

    /** The first heading of `order` whose destination is unknown in the
        belief map and is not a wall in the ground truth. */
    method FirstUnknownIn(order: seq<char>) returns (r: Option<char>)
      requires forall k :: 0 <= k < |order| ==> order[k] in Directions
      ensures r == FirstUnknown(order, (i, j), memory, Blocked())
    {
      var cur, mem := (i, j), memory;
      ghost var blocked := Blocked();
      ghost var r0 := FirstUnknown(order, cur, mem, blocked);
      for k := 0 to |order|
        invariant r0 == FirstUnknown(order[k..], cur, mem, blocked)
      {
        var d := order[k];
        var q := Utils.Step(cur, Directions[d]);
        assert order[k..][1..] == order[k + 1..];
        if q !in mem && env.Cell(q) != Wall {
          return Some(d);
        }
      }
      return None;
    }

    /** The first heading of `order` whose destination is known and is not
        a wall in the belief map. */
    method FirstKnownFreeIn(order: seq<char>) returns (r: Option<char>)
      requires forall k :: 0 <= k < |order| ==> order[k] in Directions
      ensures r == FirstKnownFree(order, (i, j), memory)
    {
      var cur, mem := (i, j), memory;
      ghost var r0 := FirstKnownFree(order, cur, mem);
      for k := 0 to |order|
        invariant r0 == FirstKnownFree(order[k..], cur, mem)
      {
        var d := order[k];
        var q := Utils.Step(cur, Directions[d]);
        assert order[k..][1..] == order[k + 1..];
        if q in mem && mem[q] != Wall {
          return Some(d);
        }
      }
      return None;
    }

    /** The heading the fallback moves take: the first of the fallback
        order whose destination is unknown and not a wall, else the first
        whose destination the belief map knows and has as no wall. */
    ghost function FallbackChoice(): Option<char>
      reads this`i, this`j, this`lastPosition, this`visits, this`memory, env
    {
      Choice(Options(), (i, j), memory, Blocked())
    }

    /** Picks the fallback heading: a heading toward an unknown cell that is
        not a wall when there is one, otherwise one toward a known non-wall
        cell, otherwise none. Nothing changes. */
    method FallbackHeading() returns (h: Option<char>)
      ensures h == FallbackChoice()
      ensures h.Some? ==> h.value in Directions
      ensures FirstUnknown(Options(), (i, j), memory, Blocked()).Some? ==>
        h.Some? && Utils.Step((i, j), Directions[h.value]) !in memory &&
        env.Cell(Utils.Step((i, j), Directions[h.value])) != Wall
      ensures FirstUnknown(Options(), (i, j), memory, Blocked()).None? && h.Some? ==>
        Traversable(memory, Utils.Step((i, j), Directions[h.value]))
      ensures h.Some? ==> env.Cell(Utils.Step((i, j), Directions[h.value])) != Wall
    {
      ghost var opts := Options();
      var order := OrderedDirections();
      assert order == opts;
      h := FirstUnknownIn(order);
      if h.None? {
        order := OrderedDirections();
        h := FirstKnownFreeIn(order);
      }
      assert h == Choice(opts, (i, j), memory, Blocked());
      OrderedMembers((i, j), lastPosition, visits, Blocked());
    }

    /** One step: plans when there is no plan; follows the next planned
        heading when there is one; otherwise takes the fallback heading.
        Every heading it turns to is then attempted as one move; a
        fallback heading always moves, since the fallback order leaves out
        the headings whose destination is a wall. */
    method Step() returns (moved: bool)
      requires AllHeadings(plan)
      modifies this, env
      ensures AllHeadings(plan)
      ensures old(memory).Keys <= memory.Keys && old(visited) <= visited
      ensures old(plan) != [] ==>
        plan == old(plan)[1..] && dir == old(plan)[0] && Attempt(old(State()), State(), dir, moved)
      ensures old(plan) == [] && !Stuck(old(memory), old((i, j)), old(collectedFood) >= targetFood) ==>
        && (exists hs :: PlanAllows(old(memory), old((i, j)), old(collectedFood) >= targetFood, hs) &&
              hs != [] && plan == hs[1..] && dir == hs[0])
        && Attempt(old(State()), State(), dir, moved)
      ensures old(plan) == [] && Stuck(old(memory), old((i, j)), old(collectedFood) >= targetFood) ==>
        && plan == []
        && (moved <==> old(FallbackChoice()).Some?)
        && (old(FallbackChoice()).Some? ==> dir == old(FallbackChoice()).value && Attempt(old(State()), State(), dir, moved))
        && (old(FallbackChoice()).None? ==> dir == old(dir) && State() == old(State()))
    {
      if plan != [] {
        moved := FollowPlan();
      } else {
        moved := PlanAndAct();
      }
    }

    /** Without a plan: plans, then follows the new plan's first heading,
        or takes the fallback heading when no tier yields. */
    method PlanAndAct() returns (moved: bool)
      requires plan == []
      modifies this, env
      ensures AllHeadings(plan)
      ensures old(memory).Keys <= memory.Keys && old(visited) <= visited
      ensures !Stuck(old(memory), old((i, j)), old(collectedFood) >= targetFood) ==>
        && (exists hs :: PlanAllows(old(memory), old((i, j)), old(collectedFood) >= targetFood, hs) &&
              hs != [] && plan == hs[1..] && dir == hs[0])
        && Attempt(old(State()), State(), dir, moved)
      ensures Stuck(old(memory), old((i, j)), old(collectedFood) >= targetFood) ==>
        && plan == []
        && (moved <==> old(FallbackChoice()).Some?)
        && (old(FallbackChoice()).Some? ==> dir == old(FallbackChoice()).value && Attempt(old(State()), State(), dir, moved))
        && (old(FallbackChoice()).None? ==> dir == old(dir) && State() == old(State()))
    {
      Plan();
      PlanAllowsShape(memory, (i, j), collectedFood >= targetFood, plan);
      if plan != [] {
        moved := FollowPlan();
      } else {
        moved := Fallback();
      }
    }

    /** Pops the next planned heading, turns to it and attempts the move;
        the heading is consumed even when the move fails. */
    method FollowPlan() returns (moved: bool)
      requires plan != [] && AllHeadings(plan)
      modifies this, env
      ensures plan == old(plan)[1..] && dir == old(plan)[0]
      ensures Attempt(old(State()), State(), dir, moved)
    {
      var next := plan[0];
      plan := plan[1..];
      SetDirection(next);
      moved := Move();
    }

    /** Turns to the fallback heading, when there is one, and moves, which
        always succeeds; with no fallback heading nothing changes. */
    method Fallback() returns (moved: bool)
      modifies this, env
      ensures plan == old(plan)
      ensures moved <==> old(FallbackChoice()).Some?
      ensures old(FallbackChoice()).Some? ==> dir == old(FallbackChoice()).value && Attempt(old(State()), State(), dir, moved)
      ensures old(FallbackChoice()).None? ==> dir == old(dir) && State() == old(State())
    {
      var heading := FallbackHeading();
      moved := false;
      if heading.Some? {
        SetDirection(heading.value);
        moved := Move();
      }
    }
  }
}
