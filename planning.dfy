/** The loops that the agent and the standalone planner share: the free
    neighbours of a cell, the breadth-first search over the belief map and
    the translation of a cell path into headings. Both classes carry an
    identical copy of each; here each is written once, over the belief map
    and visit counter it reads. */
module Planning {
  import opened Utils
  import opened Belief
  import opened Search
  import opened Paths
  import Sorting

  /** The free neighbours of `p`: for each heading in N, S, E, W order, the
      neighbour is kept when the map knows it and it is not a wall. */
  method FreeNeighboursOf(memory: Memory, p: Pos) returns (res: seq<Pos>)
    ensures res == FreeNeighbours(memory, p)
    ensures forall q :: q in res <==> Edge(memory, p, q)
    ensures Distinct(res)
  {
    DirectionsKeys();
    var (i, j) := p;
    res := [];
    for k := 0 to |Order|
      invariant res == FreeAlong(memory, p, Order[..k])
    {
      var (di, dj) := Directions[Order[k]];
      var q := (i + di, j + dj);
      assert Order[..k + 1][..k] == Order[..k];
      if q !in memory {
        continue;
      }
      if memory[q] != Wall {
        res := res + [q];
      }
    }
    assert Order[..|Order|] == Order;
    FreeNeighboursExact(memory, p);
  }

  /** Breadth-first search from `start` to the nearest cell satisfying
      `goal`, over known non-wall cells, expanding neighbours in ascending
      order of visit count. The result is a shortest walk to a goal cell
      without repeated cells, `[start]` when `start` itself is a goal, and
      nothing exactly when no goal cell is reachable. */
  method BreadthFirst(memory: Memory, visits: map<Pos, nat>, start: Pos, goal: Pos -> bool)
    returns (path: Option<seq<Pos>>)
    ensures path.Some? ==> Shortest(memory, start, goal, path.value) && Distinct(path.value)
    ensures path.None? <==> !Reachable(memory, start, goal)
    ensures goal(start) ==> path == Some([start])
  {
    var queue := [start];
    var cameFrom: map<Pos, Option<Pos>> := map[start := None];
    ghost var dist: map<Pos, nat> := map[start := 0];
    InitialSearchInv(memory, start, goal);
    ByVisitsPreorder(visits);
    while queue != []
      invariant SearchInv(memory, start, goal, cameFrom, dist, queue)
      decreases (memory.Keys + {start}) - cameFrom.Keys, |queue|
    {
      ghost var queue0 := queue;
      var u := queue[0];
      queue := queue[1..];
      if goal(u) {
        var p := Reconstruct(memory, start, cameFrom, dist, u);
        GoalAtFrontIsNearest(memory, start, goal, cameFrom, dist, queue0, p);
        return Some(p);
      }
      ghost var cf0, dist0 := cameFrom, dist;
      ghost var added;
      cameFrom, dist, queue, added := Expand(memory, visits, cameFrom, dist, queue, u);
      ExpansionKeepsInv(memory, start, goal, cf0, dist0, queue0, cameFrom, dist, added);
      ExpansionProgress(memory.Keys + {start}, cf0, queue0, cameFrom, added);
    }
    ExhaustedMeansUnreachable(memory, start, goal, cameFrom, dist);
    return None;
  }

  /** The cells of `vs` that are not in `seen`, each once, in the order
      in which `vs` first lists them. */
  function Unseen(seen: set<Pos>, vs: seq<Pos>): seq<Pos> {
    if vs == [] then []
    else
      var init := Unseen(seen, vs[..|vs| - 1]);
      var v := vs[|vs| - 1];
      if v in seen || v in init then init else init + [v]
  }

  /** `Unseen` keeps exactly the cells of `vs` outside `seen`, each once. */
  lemma {:induction false} UnseenMembers(seen: set<Pos>, vs: seq<Pos>)
    ensures forall x :: x in Unseen(seen, vs) <==> x in vs && x !in seen
    ensures Distinct(Unseen(seen, vs))
  {
    if vs != [] {
      var init := vs[..|vs| - 1];
      UnseenMembers(seen, init);
      assert vs == init + [vs[|vs| - 1]];
    }
  }

  /** `Unseen` keeps the order of `vs`: when `vs` is sorted, so is it. */
  lemma {:induction false} UnseenSorted(seen: set<Pos>, vs: seq<Pos>, le: (Pos, Pos) -> bool)
    requires Sorting.Sorted(vs, le)
    ensures Sorting.Sorted(Unseen(seen, vs), le)
  {
    if vs != [] {
      var init := vs[..|vs| - 1];
      var v := vs[|vs| - 1];
      assert Sorting.Sorted(init, le) by {
        forall a, b | 0 <= a < b < |init| ensures le(init[a], init[b]) {
          assert init[a] == vs[a] && init[b] == vs[b];
        }
      }
      UnseenSorted(seen, init, le);
      UnseenMembers(seen, init);
      var us := Unseen(seen, init);
      forall x | x in us ensures le(x, v) {
        var a :| 0 <= a < |init| && init[a] == x;
        assert vs[a] == x;
      }
      var r := Unseen(seen, vs);
      forall a, b | 0 <= a < b < |r| ensures le(r[a], r[b]) {
        if b < |us| {
          assert r[a] == us[a] && r[b] == us[b];
        } else {
          assert r[a] == us[a] && us[a] in us;
        }
      }
    }
  }

  /** Expands the front cell `u`: its free neighbours, least visited
      first, that are not yet discovered get `u` as their parent and join
      the back of the queue, in that order. */
  method Expand(memory: Memory, visits: map<Pos, nat>, cf0: map<Pos, Option<Pos>>, ghost dist0: map<Pos, nat>,
                rest: seq<Pos>, u: Pos)
    returns (cameFrom: map<Pos, Option<Pos>>, ghost dist: map<Pos, nat>, queue: seq<Pos>, ghost added: seq<Pos>)
    requires dist0.Keys == cf0.Keys && u in dist0
    ensures queue == rest + added
    ensures Extends(cf0, dist0, u, cameFrom, dist) && NewCells(cf0, cameFrom, added)
    ensures forall v :: v in cameFrom && v !in cf0 ==> Edge(memory, u, v)
    ensures forall w :: Edge(memory, u, w) ==> w in cameFrom
    ensures added == Unseen(cf0.Keys, Sorting.SortBy(FreeNeighbours(memory, u), ByVisits(visits)))
    ensures Sorting.Sorted(added, ByVisits(visits))
  {
    var neighbors := FreeNeighboursOf(memory, u);
    neighbors := Sorting.SortBy(neighbors, ByVisits(visits));
    Sorting.SortByMembers(FreeNeighbours(memory, u), ByVisits(visits));
    ByVisitsPreorder(visits);
    Sorting.SortBySorted(FreeNeighbours(memory, u), ByVisits(visits));
    UnseenSorted(cf0.Keys, neighbors, ByVisits(visits));
    cameFrom, dist, queue, added := Discover(cf0, dist0, rest, u, neighbors);
  }

  /** The inner loop of one expansion: every listed neighbour of `u` that
      is not yet discovered gets `u` as its parent, one move beyond it, and
      joins the back of the queue, in the order of `neighbors`. */
  method Discover(cf0: map<Pos, Option<Pos>>, ghost dist0: map<Pos, nat>, queue1: seq<Pos>, u: Pos, neighbors: seq<Pos>)
    returns (cameFrom: map<Pos, Option<Pos>>, ghost dist: map<Pos, nat>, queue: seq<Pos>, ghost added: seq<Pos>)
    requires dist0.Keys == cf0.Keys && u in dist0
    ensures queue == queue1 + added
    ensures Extends(cf0, dist0, u, cameFrom, dist) && NewCells(cf0, cameFrom, added)
    ensures forall v :: v in cameFrom && v !in cf0 ==> v in neighbors
    ensures forall m :: 0 <= m < |neighbors| ==> neighbors[m] in cameFrom
    ensures added == Unseen(cf0.Keys, neighbors)
  {
    cameFrom, dist, queue, added := cf0, dist0, queue1, [];
    for k := 0 to |neighbors|
      invariant queue == queue1 + added
      invariant added == Unseen(cf0.Keys, neighbors[..k])
      invariant Extends(cf0, dist0, u, cameFrom, dist) && NewCells(cf0, cameFrom, added)
      invariant forall v :: v in cameFrom && v !in cf0 ==> v in neighbors
      invariant forall m :: 0 <= m < k ==> neighbors[m] in cameFrom
    {
      var v := neighbors[k];
      assert neighbors[..k + 1][..k] == neighbors[..k];
      if v !in cameFrom {
        cameFrom := cameFrom[v := Some(u)];
        dist := dist[v := dist0[u] + 1];
        queue := queue + [v];
        added := added + [v];
      }
    }
    assert neighbors[..|neighbors|] == neighbors;
  }

  /** Walks the parent links back from the discovered cell `u` to `start`
      and reverses the result: a walk from `start` to `u` of `dist[u]`
      moves, with no repeated cell. */
  method Reconstruct(memory: Memory, start: Pos, cameFrom: map<Pos, Option<Pos>>, ghost dist: map<Pos, nat>, u: Pos)
    returns (path: seq<Pos>)
    requires Tree(memory, start, cameFrom, dist) && u in cameFrom
    ensures IsWalk(memory, path) && path[0] == start && Last(path) == u
    ensures |path| == dist[u] + 1 && Distinct(path)
  {
    var back: seq<Pos> := [];
    var v: Option<Pos> := Some(u);
    while v.Some?
      invariant BackChain(memory, start, cameFrom, dist, u, back, v)
      decreases dist[u] + 1 - |back|
    {
      BackChainStep(memory, start, cameFrom, dist, u, back, v.value);
      back := back + [v.value];
      v := cameFrom[v.value];
    }
    ChainIsWalk(memory, start, cameFrom, dist, u, back);
    path := Reversed(back);
  }

  /** The headings of the consecutive pairs of `path`, skipping any pair
      whose difference is not a unit step. */
  method TranslateSteps(path: seq<Pos>) returns (directions: seq<char>)
    ensures directions == Translated(path)
    ensures AllHeadings(directions)
    ensures |path| >= 1 ==> |directions| <= |path| - 1
    ensures AdjacentPath(path) ==> forall k :: 0 <= k < |directions| ==>
      Directions[directions[k]] == Diff(path[k], path[k + 1])
    ensures |path| >= 1 && AdjacentPath(path) ==>
      |directions| == |path| - 1 && Follow(path[0], directions) == path
  {
    directions := [];
    var k := 1;
    while k < |path|
      invariant 1 <= k
      invariant k <= |path| || |path| == 0
      invariant directions == Translated(path[..if k <= |path| then k else 0])
    {
      assert path[..k + 1][..k] == path[..k];
      var (i0, j0) := path[k - 1];
      var (i1, j1) := path[k];
      var (di, dj) := (i1 - i0, j1 - j0);
      if (di, dj) in DeltaToDir {
        directions := directions + [DeltaToDir[(di, dj)]];
      }
      k := k + 1;
    }
    assert directions == Translated(path) by {
      if |path| > 0 {
        assert path[..|path|] == path;
      }
    }
    TranslatedShape(path);
    if AdjacentPath(path) {
      TranslatedDeltas(path);
      if |path| >= 1 {
        FollowTranslated(path);
      }
    }
  }
}
