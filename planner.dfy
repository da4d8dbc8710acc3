/** The standalone planner: a breadth-first search over a belief map and a
    visit counter that it is handed at construction. */
module StandalonePlanner {
  import opened Utils
  import opened Belief
  import opened Search
  import opened Paths
  import Planning

  class Planner {
    /** The belief map and visit counter the planner searches; it never
        changes them. */
    const memory: Memory
    const visits: map<Pos, nat>

    constructor (memory: Memory, visits: map<Pos, nat>)
      ensures this.memory == memory && this.visits == visits
    {
      this.memory := memory;
      this.visits := visits;
    }

    /** A shortest walk over known non-wall cells from `start` to a cell
        satisfying `goal`, without repeated cells; `[start]` when `start`
        is a goal; nothing exactly when no goal cell is reachable. */
    method Bfs(start: Pos, goal: Pos -> bool) returns (path: Option<seq<Pos>>)
      ensures path.Some? ==> Shortest(memory, start, goal, path.value) && Distinct(path.value)
      ensures path.None? <==> !Reachable(memory, start, goal)
      ensures goal(start) ==> path == Some([start])
    {
      path := Planning.BreadthFirst(memory, visits, start, goal);
    }

    /** The headings of the steps of `path`, steps that are not to a
        4-neighbour being dropped; for a path of 4-neighbour steps, one
        heading per step, and walking them from the first cell retraces
        the path. */
    method TranslatePath(path: seq<Pos>) returns (directions: seq<char>)
      ensures directions == Translated(path)
      ensures AllHeadings(directions)
      ensures |path| >= 1 ==> |directions| <= |path| - 1
      ensures |path| >= 1 && AdjacentPath(path) ==>
        |directions| == |path| - 1 && Follow(path[0], directions) == path
    {
      directions := Planning.TranslateSteps(path);
    }

    /** The known non-wall 4-neighbours of `p`, in N, S, E, W order, each once. */
    method FreeNeighbors(p: Pos) returns (res: seq<Pos>)
      ensures res == FreeNeighbours(memory, p)
      ensures forall q :: q in res <==> Edge(memory, p, q)
      ensures Distinct(res)
    {
      res := Planning.FreeNeighboursOf(memory, p);
    }
  }
}
