/** The agent's belief map: what it has seen of the maze, keyed by position.
    A position with no entry is unknown. This module holds the meaning of the
    map that the agent and the planner both rely on: which cells may be
    walked on, which are frontiers, and how one perception refresh changes
    the map. */
module Belief {
  import opened Utils

  type Memory = map<Pos, char>

  /** Cell characters, as the agent compares them. */
  const Wall: char := 'X'
  const Free: char := '_'
  const Entry: char := 'E'
  const Exit: char := 'S'
  const Food: char := 'o'

  /** The known kinds the agent treats as walkable when looking for frontiers. */
  const Open: set<char> := {Free, Entry, Exit, Food}

  /** Visit count of `p`, zero when it was never visited. */
  function Count(visits: map<Pos, nat>, p: Pos): nat {
    if p in visits then visits[p] else 0
  }

  /** `q` is known and is not a wall. */
  predicate Traversable(mem: Memory, q: Pos) { q in mem && mem[q] != Wall }

  /** One move of the search graph: a 4-neighbour that is known and is not a wall. */
  predicate Edge(mem: Memory, p: Pos, q: Pos) { Adjacent(p, q) && Traversable(mem, q) }

  /** The neighbours of `p` along the headings `ds`, in the order of `ds`,
      keeping those that are known and are not walls. */
  function FreeAlong(mem: Memory, p: Pos, ds: seq<char>): seq<Pos>
    requires forall d :: d in ds ==> d in Directions
  {
    if ds == [] then []
    else
      var q := Step(p, Directions[ds[|ds| - 1]]);
      FreeAlong(mem, p, ds[..|ds| - 1]) + (if Traversable(mem, q) then [q] else [])
  }

  /** The free neighbours of `p` in the order N, S, E, W. */
  function FreeNeighbours(mem: Memory, p: Pos): seq<Pos> {
    FreeAlong(mem, p, Order)
  }

  lemma {:induction false} FreeAlongMembers(mem: Memory, p: Pos, ds: seq<char>)
    requires forall d :: d in ds ==> d in Directions
    ensures forall q :: q in FreeAlong(mem, p, ds) <==>
      Traversable(mem, q) && exists d :: d in ds && q == Step(p, Directions[d])
  {
    if ds != [] {
      var init := ds[..|ds| - 1];
      FreeAlongMembers(mem, p, init);
      assert ds == init + [ds[|ds| - 1]];
    }
  }

  lemma {:induction false} FreeAlongDistinct(mem: Memory, p: Pos, ds: seq<char>)
    requires forall d :: d in ds ==> d in Directions
    requires forall a, b :: 0 <= a < b < |ds| ==> ds[a] != ds[b]
    ensures forall a, b :: 0 <= a < b < |FreeAlong(mem, p, ds)| ==> FreeAlong(mem, p, ds)[a] != FreeAlong(mem, p, ds)[b]
  {
    if ds != [] {
      var init := ds[..|ds| - 1];
      var d := ds[|ds| - 1];
      FreeAlongDistinct(mem, p, init);
      FreeAlongMembers(mem, p, init);
      DirectionsAreUnitSteps();
      assert d !in init;
    }
  }

  /** The free neighbours of `p` are exactly its 4-neighbours that are known
      and are not walls, each listed once. */
  lemma FreeNeighboursExact(mem: Memory, p: Pos)
    ensures forall q :: q in FreeNeighbours(mem, p) <==> Edge(mem, p, q)
    ensures forall a, b :: 0 <= a < b < |FreeNeighbours(mem, p)| ==> FreeNeighbours(mem, p)[a] != FreeNeighbours(mem, p)[b]
  {
    DirectionsKeys();
    FreeAlongMembers(mem, p, Order);
    FreeAlongDistinct(mem, p, Order);
    forall q ensures Adjacent(p, q) <==> exists d :: d in Order && q == Step(p, Directions[d]) {
      if Adjacent(p, q) {
        var v := Diff(p, q);
        if v == (-1, 0) { assert q == Step(p, Directions['N']); }
        else if v == (1, 0) { assert q == Step(p, Directions['S']); }
        else if v == (0, 1) { assert q == Step(p, Directions['E']); }
        else {
          assert v.0 != 0 ==> v.1 == 0;
          assert v == (0, -1);
          assert q == Step(p, Directions['W']);
        }
      }
    }
  }

  /** Some 4-neighbour of `p` has no entry in the map. */
  predicate HasUnknownNeighbour(mem: Memory, p: Pos) {
    exists d :: d in Order && Step(p, Directions[d]) !in mem
  }

  /** A frontier is a known cell of an open kind (free, entry, exit or food)
      next to at least one unknown cell. */
  predicate IsFrontier(mem: Memory, p: Pos) {
    p in mem && mem[p] != Wall && mem[p] in Open && HasUnknownNeighbour(mem, p)
  }

  function FrontierSet(mem: Memory): set<Pos> {
    set p | p in mem && IsFrontier(mem, p)
  }

  /** The known cells of kind `ch`. */
  function CellsOf(mem: Memory, ch: char): set<Pos> {
    set p | p in mem && mem[p] == ch
  }

  /** The headings-based test for an unknown neighbour is the geometric one. */
  lemma HasUnknownNeighbourExact(mem: Memory, p: Pos)
    ensures HasUnknownNeighbour(mem, p) <==> exists q :: Adjacent(p, q) && q !in mem
  {
    DirectionsKeys();
    DirectionsAreUnitSteps();
    if q :| Adjacent(p, q) && q !in mem {
      var v := Diff(p, q);
      if v == (-1, 0) { assert Step(p, Directions['N']) == q; }
      else if v == (1, 0) { assert Step(p, Directions['S']) == q; }
      else if v == (0, 1) { assert Step(p, Directions['E']) == q; }
      else {
        assert v.0 != 0 ==> v.1 == 0;
        assert Step(p, Directions['W']) == q;
      }
    }
    if HasUnknownNeighbour(mem, p) {
      var d :| d in Order && Step(p, Directions[d]) !in mem;
      assert Adjacent(p, Step(p, Directions[d]));
    }
  }

  /** A sensor reading: three rows of three cells. */
  predicate IsWindow(w: seq<seq<char>>) {
    |w| == 3 && forall r :: 0 <= r < 3 ==> |w[r]| == 3
  }

  /** The window offsets (r, c), each in 0..2, stand for the cell
      (cur.0 + r - 1, cur.1 + c - 1). */
  predicate InWindow(cur: Pos, p: Pos) {
    -1 <= p.0 - cur.0 <= 1 && -1 <= p.1 - cur.1 <= 1
  }

  /** The cells a refresh around `cur` writes: the whole 3x3 window except
      its south-east corner, whose sensor entry the loop skips. */
  predicate Written(cur: Pos, p: Pos) {
    InWindow(cur, p) && p != (cur.0 + 1, cur.1 + 1)
  }

  function Footprint(cur: Pos): (f: set<Pos>)
    ensures forall p :: p in f <==> Written(cur, p)
  {
    var (i, j) := cur;
    var f := {(i - 1, j - 1), (i - 1, j), (i - 1, j + 1), (i, j - 1), (i, j), (i, j + 1), (i + 1, j - 1), (i + 1, j)};
    assert forall p :: Written(cur, p) ==> p in f by {
      forall p | Written(cur, p) ensures p in f {
        assert p.0 == i - 1 || p.0 == i || p.0 == i + 1;
        assert p.1 == j - 1 || p.1 == j || p.1 == j + 1;
      }
    }
    f
  }

  /** The sensor entry that stands for `p`. */
  function SensorAt(w: seq<seq<char>>, cur: Pos, p: Pos): char
    requires IsWindow(w) && InWindow(cur, p)
  {
    w[p.0 - cur.0 + 1][p.1 - cur.1 + 1]
  }

  /** The map after one refresh at `cur`: first the ground truth `truth` of
      `cur` is recorded, then every window entry but the south-east corner is
      copied over its cell, the centre included. */
  function Refreshed(mem: Memory, cur: Pos, truth: char, w: seq<seq<char>>): Memory
    requires IsWindow(w)
  {
    mem[cur := truth] + map p | p in Footprint(cur) :: SensorAt(w, cur, p)
  }

  /** A refresh never forgets a cell, writes exactly the footprint and leaves
      every other entry as it was. */
  lemma RefreshedFrame(mem: Memory, cur: Pos, truth: char, w: seq<seq<char>>)
    requires IsWindow(w)
    ensures Refreshed(mem, cur, truth, w).Keys == mem.Keys + Footprint(cur)
    ensures forall p :: Written(cur, p) ==> Refreshed(mem, cur, truth, w)[p] == SensorAt(w, cur, p)
    ensures forall p :: p in mem && !Written(cur, p) ==> Refreshed(mem, cur, truth, w)[p] == mem[p]
  {
    assert Written(cur, cur);
  }

  /** The ground truth recorded for the current cell is overwritten by the
      centre of the sensor window, and the south-east neighbour is never
      recorded: it keeps whatever the map held before, or stays unknown. */
  lemma RefreshedQuirks(mem: Memory, cur: Pos, truth: char, w: seq<seq<char>>)
    requires IsWindow(w)
    ensures Refreshed(mem, cur, truth, w)[cur] == w[1][1]
    ensures forall t :: Refreshed(mem, cur, t, w) == Refreshed(mem, cur, truth, w)
    ensures var se := (cur.0 + 1, cur.1 + 1);
      (se in Refreshed(mem, cur, truth, w) <==> se in mem) &&
      (se in mem ==> Refreshed(mem, cur, truth, w)[se] == mem[se])
  {
    assert Written(cur, cur);
    var se := (cur.0 + 1, cur.1 + 1);
    assert !Written(cur, se);
    forall t ensures Refreshed(mem, cur, t, w) == Refreshed(mem, cur, truth, w) {
      RefreshedFrame(mem, cur, t, w);
      RefreshedFrame(mem, cur, truth, w);
    }
  }

  /** Refreshing twice with the same position, truth and reading leaves the
      map as one refresh did. */
  lemma RefreshedIdempotent(mem: Memory, cur: Pos, truth: char, w: seq<seq<char>>)
    requires IsWindow(w)
    ensures Refreshed(Refreshed(mem, cur, truth, w), cur, truth, w) == Refreshed(mem, cur, truth, w)
  {
    var once := Refreshed(mem, cur, truth, w);
    RefreshedFrame(mem, cur, truth, w);
    RefreshedFrame(once, cur, truth, w);
  }

  // ---- The refresh loop, one window entry at a time ----

  /** Row-major index of `p`'s entry in the window around `cur`. */
  function Rank(cur: Pos, p: Pos): int {
    3 * (p.0 - cur.0 + 1) + (p.1 - cur.1 + 1)
  }

  /** `mem` is `base` with the first `n` window entries, in row-major
      order and except the south-east corner, copied over their cells. */
  ghost predicate Partial(mem: Memory, base: Memory, cur: Pos, w: seq<seq<char>>, n: int)
    requires IsWindow(w)
  {
    && (forall p :: p in mem <==> p in base || (Written(cur, p) && Rank(cur, p) < n))
    && (forall p :: p in mem ==>
          mem[p] == if Written(cur, p) && Rank(cur, p) < n then SensorAt(w, cur, p) else base[p])
  }

  /** Handling entry (r, c): the south-east corner is skipped, any other
      entry is copied over the cell it stands for. */
  lemma PartialStep(mem: Memory, base: Memory, cur: Pos, w: seq<seq<char>>, r: int, c: int)
    requires IsWindow(w) && 0 <= r < 3 && 0 <= c < 3 && Partial(mem, base, cur, w, 3 * r + c)
    ensures var p := (cur.0 + (r - 1), cur.1 + (c - 1));
      if r == 2 && c == 2 then Partial(mem, base, cur, w, 3 * r + c + 1)
      else Partial(mem[p := w[r][c]], base, cur, w, 3 * r + c + 1)
  {
    var p0 := (cur.0 + (r - 1), cur.1 + (c - 1));
    assert Rank(cur, p0) == 3 * r + c;
    forall p | InWindow(cur, p) && Rank(cur, p) == 3 * r + c ensures p == p0 {
      assert p.1 - cur.1 + 1 == c;
    }
  }

  /** After the whole window, the map is the refreshed one. */
  lemma PartialDone(mem: Memory, base: Memory, cur: Pos, w: seq<seq<char>>)
    requires IsWindow(w) && Partial(mem, base, cur, w, 9)
    ensures mem == base + map p | p in Footprint(cur) :: SensorAt(w, cur, p)
  {
    var m := base + map p | p in Footprint(cur) :: SensorAt(w, cur, p);
    forall p | Written(cur, p) ensures Rank(cur, p) < 9 {
    }
    assert mem.Keys == m.Keys;
  }
}
