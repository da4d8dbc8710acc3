/** What a breadth-first search over the belief map promises, and the
    invariants that both copies of the search (the agent's and the
    planner's) keep. The search graph has an edge from `p` to every free
    neighbour of `p`: a 4-neighbour that is known and is not a wall. */
module Search {
  import opened Utils
  import opened Belief
  import Sorting

  function Last<T>(s: seq<T>): T
    requires |s| > 0
  {
    s[|s| - 1]
  }

  predicate Distinct<T(==)>(s: seq<T>) {
    forall a, b :: 0 <= a < b < |s| ==> s[a] != s[b]
  }

  function Reversed<T>(s: seq<T>): (r: seq<T>)
    ensures |r| == |s|
    ensures forall k :: 0 <= k < |s| ==> r[k] == s[|s| - 1 - k]
  {
    if s == [] then [] else Reversed(s[1..]) + [s[0]]
  }

  /** A non-empty sequence of cells, each the free neighbour of the one before. */
  ghost predicate IsWalk(mem: Memory, p: seq<Pos>) {
    |p| >= 1 && forall k :: 0 < k < |p| ==> Edge(mem, p[k - 1], p[k])
  }

  /** `p` is a walk from `start` to a cell satisfying `goal`. */
  ghost predicate Reaches(mem: Memory, start: Pos, goal: Pos -> bool, p: seq<Pos>) {
    IsWalk(mem, p) && p[0] == start && goal(Last(p))
  }

  /** `p` reaches a goal cell in the fewest moves of any walk from `start`. */
  ghost predicate Shortest(mem: Memory, start: Pos, goal: Pos -> bool, p: seq<Pos>) {
    Reaches(mem, start, goal, p) && forall q :: Reaches(mem, start, goal, q) ==> |p| <= |q|
  }

  ghost predicate Reachable(mem: Memory, start: Pos, goal: Pos -> bool) {
    exists p :: Reaches(mem, start, goal, p)
  }

  /** The goal predicate of a target set, as the agent builds it. */
  function InSet(targets: set<Pos>): Pos -> bool {
    p => p in targets
  }

  /** The expansion order: neighbours sorted by ascending visit count. */
  function ByVisits(visits: map<Pos, nat>): (Pos, Pos) -> bool {
    (a: Pos, b: Pos) => Count(visits, a) <= Count(visits, b)
  }

  lemma ByVisitsPreorder(visits: map<Pos, nat>)
    ensures Sorting.TotalPreorder(ByVisits(visits))
  {
  }

  // ---- Invariants of the search loop ----
  //
  // `cameFrom` is the search's parent map; `dist`, a ghost companion with the
  // same keys, is the number of moves from `start` along parent links.

  /** Parent links form a tree rooted at `start`, each link one edge long. */
  ghost predicate Tree(mem: Memory, start: Pos, cameFrom: map<Pos, Option<Pos>>, dist: map<Pos, nat>) {
    && dist.Keys == cameFrom.Keys
    && start in cameFrom && cameFrom[start] == None && dist[start] == 0
    && forall v :: v in cameFrom && v != start ==>
         && cameFrom[v].Some? && cameFrom[v].value in cameFrom
         && Edge(mem, cameFrom[v].value, v)
         && dist[v] == dist[cameFrom[v].value] + 1
  }

  /** The queue holds distinct discovered cells, ordered by distance, and
      spans at most two consecutive distances. */
  ghost predicate Layered(cameFrom: map<Pos, Option<Pos>>, dist: map<Pos, nat>, queue: seq<Pos>)
    requires dist.Keys == cameFrom.Keys
  {
    && (forall k :: 0 <= k < |queue| ==> queue[k] in cameFrom)
    && Distinct(queue)
    && (forall a, b :: 0 <= a <= b < |queue| ==> dist[queue[a]] <= dist[queue[b]])
    && (|queue| > 0 ==> dist[Last(queue)] <= dist[queue[0]] + 1)
  }

  /** Every discovered cell that has left the queue failed the goal test and
      has had all its free neighbours discovered. */
  ghost predicate Expanded(mem: Memory, goal: Pos -> bool, cameFrom: map<Pos, Option<Pos>>, queue: seq<Pos>) {
    forall v :: v in cameFrom && v !in queue ==>
      !goal(v) && forall w :: Edge(mem, v, w) ==> w in cameFrom
  }

  /** No walk reaches a discovered cell in fewer moves than its distance. */
  ghost predicate Tight(mem: Memory, start: Pos, dist: map<Pos, nat>) {
    forall p :: IsWalk(mem, p) && p[0] == start && Last(p) in dist ==> dist[Last(p)] <= |p| - 1
  }

  ghost predicate SearchInv(mem: Memory, start: Pos, goal: Pos -> bool,
                            cameFrom: map<Pos, Option<Pos>>, dist: map<Pos, nat>, queue: seq<Pos>) {
    && Tree(mem, start, cameFrom, dist)
    && Layered(cameFrom, dist, queue)
    && Expanded(mem, goal, cameFrom, queue)
    && Tight(mem, start, dist)
    && cameFrom.Keys <= mem.Keys + {start}
  }

  lemma InitialSearchInv(mem: Memory, start: Pos, goal: Pos -> bool)
    ensures SearchInv(mem, start, goal, map[start := None], map[start := 0], [start])
  {
  }

  /** Any walk from `start` to an undiscovered cell is longer, by at least
      one move, than the distance at the front of the queue; in particular
      the queue is not empty. */
  lemma {:induction false} UndiscoveredIsFar(mem: Memory, start: Pos, goal: Pos -> bool,
                                              cameFrom: map<Pos, Option<Pos>>, dist: map<Pos, nat>,
                                              queue: seq<Pos>, p: seq<Pos>)
    requires SearchInv(mem, start, goal, cameFrom, dist, queue)
    requires IsWalk(mem, p) && p[0] == start && Last(p) !in cameFrom
    ensures |queue| > 0 && dist[queue[0]] + 1 <= |p| - 1
  {
    var pre := p[..|p| - 1];
    var x := Last(pre);
    assert IsWalk(mem, pre) && pre[0] == start;
    if x in cameFrom {
      assert Edge(mem, x, Last(p));
      assert x in queue;
      var k :| 0 <= k < |queue| && queue[k] == x;
      assert dist[queue[0]] <= dist[x];
    } else {
      UndiscoveredIsFar(mem, start, goal, cameFrom, dist, queue, pre);
    }
  }

  /** The cell at the front of the queue is no farther than any goal cell
      reachable from `start`. */
  lemma FrontIsNearest(mem: Memory, start: Pos, goal: Pos -> bool,
                       cameFrom: map<Pos, Option<Pos>>, dist: map<Pos, nat>,
                       queue: seq<Pos>, q: seq<Pos>)
    requires SearchInv(mem, start, goal, cameFrom, dist, queue)
    requires |queue| > 0 && Reaches(mem, start, goal, q)
    ensures dist[queue[0]] + 1 <= |q|
  {
    var g := Last(q);
    if g in cameFrom {
      assert g in queue;
      var k :| 0 <= k < |queue| && queue[k] == g;
      assert dist[queue[0]] <= dist[g];
    } else {
      UndiscoveredIsFar(mem, start, goal, cameFrom, dist, queue, q);
    }
  }

  /** A goal cell at the front of the queue, reached along parent links in
      its distance, is reached by a shortest goal walk; when `start` is a
      goal that walk is `[start]`. */
  lemma GoalAtFrontIsNearest(mem: Memory, start: Pos, goal: Pos -> bool,
                             cameFrom: map<Pos, Option<Pos>>, dist: map<Pos, nat>,
                             queue: seq<Pos>, p: seq<Pos>)
    requires SearchInv(mem, start, goal, cameFrom, dist, queue)
    requires |queue| > 0 && goal(queue[0])
    requires IsWalk(mem, p) && p[0] == start && Last(p) == queue[0] && |p| == dist[queue[0]] + 1
    ensures Shortest(mem, start, goal, p) && Reachable(mem, start, goal)
    ensures goal(start) ==> p == [start]
  {
    assert Reaches(mem, start, goal, p);
    forall q | Reaches(mem, start, goal, q) ensures |p| <= |q| {
      FrontIsNearest(mem, start, goal, cameFrom, dist, queue, q);
    }
    if goal(start) {
      ShortestAtGoalStart(mem, start, goal, p);
    }
  }

  /** Once the queue is empty, no goal cell is reachable from `start`. */
  lemma ExhaustedMeansUnreachable(mem: Memory, start: Pos, goal: Pos -> bool,
                                  cameFrom: map<Pos, Option<Pos>>, dist: map<Pos, nat>)
    requires SearchInv(mem, start, goal, cameFrom, dist, [])
    ensures !Reachable(mem, start, goal) && !goal(start)
  {
    if q :| Reaches(mem, start, goal, q) {
      if Last(q) !in cameFrom {
        UndiscoveredIsFar(mem, start, goal, cameFrom, dist, [], q);
      }
    }
  }

  /** Any walk from `start` to an undiscovered cell is longer, by at least
      one move, than the distance at the front of the queue. */
  lemma UndiscoveredAllFar(mem: Memory, start: Pos, goal: Pos -> bool,
                           cameFrom: map<Pos, Option<Pos>>, dist: map<Pos, nat>, queue: seq<Pos>)
    requires SearchInv(mem, start, goal, cameFrom, dist, queue) && |queue| > 0
    ensures forall p :: IsWalk(mem, p) && p[0] == start && Last(p) !in cameFrom ==>
      dist[queue[0]] + 1 <= |p| - 1
  {
    forall p | IsWalk(mem, p) && p[0] == start && Last(p) !in cameFrom
      ensures dist[queue[0]] + 1 <= |p| - 1
    {
      UndiscoveredIsFar(mem, start, goal, cameFrom, dist, queue, p);
    }
  }

  // ---- One expansion of the front cell ----
  //
  // Expanding `u` gives each of its undiscovered free neighbours the parent
  // `u` and the distance one beyond `u`, and appends them, in the order
  // met, as `added` to the rest of the queue.

  /** `cameFrom`/`dist` extend `cf0`/`dist0` by cells whose parent is `u`. */
  ghost predicate Extends(cf0: map<Pos, Option<Pos>>, dist0: map<Pos, nat>, u: Pos,
                          cameFrom: map<Pos, Option<Pos>>, dist: map<Pos, nat>) {
    && dist0.Keys == cf0.Keys && u in dist0
    && dist.Keys == cameFrom.Keys && cf0.Keys <= cameFrom.Keys
    && (forall v :: v in cf0 ==> cameFrom[v] == cf0[v] && dist[v] == dist0[v])
    && (forall v :: v in cameFrom && v !in cf0 ==> cameFrom[v] == Some(u) && dist[v] == dist0[u] + 1)
  }

  /** `added` lists each newly discovered cell once. */
  ghost predicate NewCells(cf0: map<Pos, Option<Pos>>, cameFrom: map<Pos, Option<Pos>>, added: seq<Pos>) {
    && (forall m :: 0 <= m < |added| ==> added[m] in cameFrom && added[m] !in cf0)
    && Distinct(added)
    && (forall v :: v in cameFrom && v !in cf0 ==> v in added)
  }

  lemma TreeAfterExpansion(mem: Memory, start: Pos, cf0: map<Pos, Option<Pos>>, dist0: map<Pos, nat>, u: Pos,
                           cameFrom: map<Pos, Option<Pos>>, dist: map<Pos, nat>)
    requires Tree(mem, start, cf0, dist0) && Extends(cf0, dist0, u, cameFrom, dist)
    requires forall v :: v in cameFrom && v !in cf0 ==> Edge(mem, u, v)
    ensures Tree(mem, start, cameFrom, dist)
  {
  }

  lemma TightAfterExpansion(mem: Memory, start: Pos, cf0: map<Pos, Option<Pos>>, dist0: map<Pos, nat>, u: Pos,
                            cameFrom: map<Pos, Option<Pos>>, dist: map<Pos, nat>)
    requires Tight(mem, start, dist0) && Extends(cf0, dist0, u, cameFrom, dist)
    requires forall p :: IsWalk(mem, p) && p[0] == start && Last(p) !in cf0 ==> dist0[u] + 1 <= |p| - 1
    ensures Tight(mem, start, dist)
  {
    forall p | IsWalk(mem, p) && p[0] == start && Last(p) in dist
      ensures dist[Last(p)] <= |p| - 1
    {
      if Last(p) in cf0 {
        assert dist[Last(p)] == dist0[Last(p)];
      }
    }
  }

  lemma LayeredAfterExpansion(cf0: map<Pos, Option<Pos>>, dist0: map<Pos, nat>, queue0: seq<Pos>,
                              cameFrom: map<Pos, Option<Pos>>, dist: map<Pos, nat>, added: seq<Pos>)
    requires |queue0| > 0 && Extends(cf0, dist0, queue0[0], cameFrom, dist) && Layered(cf0, dist0, queue0)
    requires NewCells(cf0, cameFrom, added)
    ensures Layered(cameFrom, dist, queue0[1..] + added)
  {
    var queue := queue0[1..] + added;
    var D := dist0[queue0[0]];
    var n := |queue0| - 1;
    forall m | 0 <= m < |queue| ensures queue[m] in cameFrom && D <= dist[queue[m]] <= D + 1 {
      if m < n {
        assert queue[m] == queue0[m + 1];
      } else {
        assert queue[m] == added[m - n];
      }
    }
    forall a, b | 0 <= a < b < |queue| ensures queue[a] != queue[b] {
      if b < n {
        assert queue[a] == queue0[a + 1] && queue[b] == queue0[b + 1];
      } else if a < n {
        assert queue[a] == queue0[a + 1] && queue[b] == added[b - n];
      } else {
        assert queue[a] == added[a - n] && queue[b] == added[b - n];
      }
    }
    forall a, b | 0 <= a <= b < |queue| ensures dist[queue[a]] <= dist[queue[b]] {
      if b < n {
        assert queue[a] == queue0[a + 1] && queue[b] == queue0[b + 1];
      } else {
        assert queue[b] == added[b - n];
      }
    }
  }

  lemma ExpandedAfterExpansion(mem: Memory, goal: Pos -> bool, cf0: map<Pos, Option<Pos>>, queue0: seq<Pos>,
                               cameFrom: map<Pos, Option<Pos>>, added: seq<Pos>)
    requires |queue0| > 0 && Expanded(mem, goal, cf0, queue0) && !goal(queue0[0])
    requires cf0.Keys <= cameFrom.Keys && NewCells(cf0, cameFrom, added)
    requires forall w :: Edge(mem, queue0[0], w) ==> w in cameFrom
    ensures Expanded(mem, goal, cameFrom, queue0[1..] + added)
  {
    var queue := queue0[1..] + added;
    forall v | v in cameFrom && v !in queue
      ensures !goal(v) && forall w :: Edge(mem, v, w) ==> w in cameFrom
    {
      if v != queue0[0] {
        assert v !in queue0 by {
          forall m | 0 < m < |queue0| ensures queue0[m] != v {
            assert queue[m - 1] == queue0[m];
          }
        }
      }
    }
  }

  /** An expansion either discovers a cell of `bound`, or discovers nothing
      and shortens the queue by the expanded cell. */
  lemma ExpansionProgress(bound: set<Pos>, cf0: map<Pos, Option<Pos>>, queue0: seq<Pos>,
                          cameFrom: map<Pos, Option<Pos>>, added: seq<Pos>)
    requires |queue0| > 0 && cf0.Keys <= cameFrom.Keys <= bound && NewCells(cf0, cameFrom, added)
    ensures || bound - cameFrom.Keys < bound - cf0.Keys
            || (bound - cameFrom.Keys == bound - cf0.Keys && |queue0[1..] + added| < |queue0|)
  {
    if added == [] {
      assert cameFrom.Keys == cf0.Keys;
    } else {
      assert added[0] in bound - cf0.Keys;
      assert added[0] !in bound - cameFrom.Keys;
    }
  }

  /** One expansion of the front cell, which is not a goal, keeps the search
      invariant once all its free neighbours are discovered. */
  lemma ExpansionKeepsInv(mem: Memory, start: Pos, goal: Pos -> bool,
                          cf0: map<Pos, Option<Pos>>, dist0: map<Pos, nat>, queue0: seq<Pos>,
                          cameFrom: map<Pos, Option<Pos>>, dist: map<Pos, nat>, added: seq<Pos>)
    requires SearchInv(mem, start, goal, cf0, dist0, queue0) && |queue0| > 0 && !goal(queue0[0])
    requires Extends(cf0, dist0, queue0[0], cameFrom, dist) && NewCells(cf0, cameFrom, added)
    requires forall v :: v in cameFrom && v !in cf0 ==> Edge(mem, queue0[0], v)
    requires forall w :: Edge(mem, queue0[0], w) ==> w in cameFrom
    ensures SearchInv(mem, start, goal, cameFrom, dist, queue0[1..] + added)
  {
    var u := queue0[0];
    UndiscoveredAllFar(mem, start, goal, cf0, dist0, queue0);
    TreeAfterExpansion(mem, start, cf0, dist0, u, cameFrom, dist);
    TightAfterExpansion(mem, start, cf0, dist0, u, cameFrom, dist);
    LayeredAfterExpansion(cf0, dist0, queue0, cameFrom, dist, added);
    ExpandedAfterExpansion(mem, goal, cf0, queue0, cameFrom, added);
  }

  /** `back` lists the cells met so far when following parent links from
      `u`, and `v` is the link still to follow: `None` once `start` is
      listed. Each listed cell is one move nearer to `start` than the one
      before it. */
  ghost predicate BackChain(mem: Memory, start: Pos, cameFrom: map<Pos, Option<Pos>>, dist: map<Pos, nat>,
                            u: Pos, back: seq<Pos>, v: Option<Pos>) {
    && dist.Keys == cameFrom.Keys && u in dist
    && (v.Some? ==> v.value in cameFrom)
    && |back| + (if v.Some? then dist[v.value] + 1 else 0) == dist[u] + 1
    && (|back| == 0 ==> v == Some(u))
    && (|back| > 0 ==> back[0] == u)
    && (forall k :: 0 <= k < |back| ==> back[k] in dist && dist[back[k]] == dist[u] - k)
    && (forall k :: 0 < k < |back| ==> Edge(mem, back[k], back[k - 1]))
    && (v.Some? && |back| > 0 ==> Edge(mem, v.value, Last(back)))
    && (v.None? ==> |back| > 0 && Last(back) == start)
  }

  /** Following one more parent link keeps the chain. */
  lemma BackChainStep(mem: Memory, start: Pos, cameFrom: map<Pos, Option<Pos>>, dist: map<Pos, nat>,
                      u: Pos, back: seq<Pos>, x: Pos)
    requires Tree(mem, start, cameFrom, dist) && BackChain(mem, start, cameFrom, dist, u, back, Some(x))
    ensures BackChain(mem, start, cameFrom, dist, u, back + [x], cameFrom[x])
    ensures |back| < dist[u] + 1
  {
    var back' := back + [x];
    assert Last(back') == x && (|back| == 0 ==> x == u);
    assert dist[x] == dist[u] - |back|;
    forall k | 0 <= k < |back'| ensures back'[k] in dist && dist[back'[k]] == dist[u] - k {
      if k < |back| {
        assert back'[k] == back[k];
      }
    }
    forall k | 0 < k < |back'| ensures Edge(mem, back'[k], back'[k - 1]) {
      if k < |back| {
        assert back'[k] == back[k] && back'[k - 1] == back[k - 1];
      } else {
        assert back'[k - 1] == Last(back);
      }
    }
    if x != start {
      var w := cameFrom[x].value;
      assert Edge(mem, w, x) && dist[x] == dist[w] + 1;
    }
  }

  /** Following parent links from a discovered cell back to `start`, and
      reversing, gives a walk of exactly its distance, with no repeated cell. */
  lemma ChainIsWalk(mem: Memory, start: Pos, cameFrom: map<Pos, Option<Pos>>, dist: map<Pos, nat>,
                    u: Pos, back: seq<Pos>)
    requires Tree(mem, start, cameFrom, dist)
    requires u in dist && |back| == dist[u] + 1 && back[0] == u && Last(back) == start
    requires forall k :: 0 <= k < |back| ==> back[k] in dist && dist[back[k]] == dist[u] - k
    requires forall k :: 0 < k < |back| ==> Edge(mem, back[k], back[k - 1])
    ensures var p := Reversed(back);
      IsWalk(mem, p) && p[0] == start && Last(p) == u && |p| == dist[u] + 1 && Distinct(p)
  {
    var p := Reversed(back);
    forall k | 0 < k < |p| ensures Edge(mem, p[k - 1], p[k]) {
      var m := |back| - 1 - k;
      assert p[k] == back[m] && p[k - 1] == back[m + 1];
    }
    forall a, b | 0 <= a < b < |p| ensures p[a] != p[b] {
      assert dist[p[a]] == dist[u] - (|back| - 1 - a);
      assert dist[p[b]] == dist[u] - (|back| - 1 - b);
    }
  }

  /** A search result of `[start]` is what a goal at `start` demands: any
      shortest goal walk from a goal cell is that cell alone. */
  lemma ShortestAtGoalStart(mem: Memory, start: Pos, goal: Pos -> bool, p: seq<Pos>)
    requires goal(start) && Shortest(mem, start, goal, p)
    ensures p == [start]
  {
    assert Reaches(mem, start, goal, [start]);
  }
}
