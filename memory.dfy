/** The alternative agent memory: a fixed grid of believed characters,
    initially all unknown, overwritten in place from 3x3 perception windows,
    together with the set of positions the agent has stood on. */
module GridMemory {
  import opened Utils
  import Belief
  import Env

  /** What an undiscovered cell holds. */
  const Unknown: char := '?'

  /** Python's list repetition makes an empty list for a negative count. */
  function Clamp(n: int): nat { if n < 0 then 0 else n }

  /** The value a cell (r, c) holds after the window `perception` centred on
      `position` is copied over a cell that held `v`: the perception entry
      at the matching offset when (r, c) is within one row and one column of
      `position`, `v` otherwise. */
  function OverlayCell(v: char, r: int, c: int, position: Pos, perception: seq<seq<char>>): (w: char)
    requires Belief.IsWindow(perception)
    ensures -1 <= r - position.0 <= 1 && -1 <= c - position.1 <= 1 ==>
      w == perception[r - position.0 + 1][c - position.1 + 1]
    ensures !(-1 <= r - position.0 <= 1 && -1 <= c - position.1 <= 1) ==> w == v
  {
    var (di, dj) := (r - position.0, c - position.1);
    if -1 <= di <= 1 && -1 <= dj <= 1 then perception[di + 1][dj + 1] else v
  }

  /** A grid after the window `perception` centred on `position` is copied
      over it, window entries falling outside the grid being dropped. */
  function Overlay(g: seq<seq<char>>, position: Pos, perception: seq<seq<char>>): (h: seq<seq<char>>)
    requires Belief.IsWindow(perception)
    ensures |h| == |g| && forall r :: 0 <= r < |g| ==> |h[r]| == |g[r]|
    ensures forall r, c :: 0 <= r < |g| && 0 <= c < |g[r]| ==>
      h[r][c] == OverlayCell(g[r][c], r, c, position, perception)
  {
    seq(|g|, r requires 0 <= r < |g| =>
      seq(|g[r]|, c requires 0 <= c < |g[r]| => OverlayCell(g[r][c], r, c, position, perception)))
  }

  /** Copying the same window twice leaves the grid as copying it once. */
  lemma OverlayIdempotent(g: seq<seq<char>>, position: Pos, perception: seq<seq<char>>)
    requires Belief.IsWindow(perception)
    ensures Overlay(Overlay(g, position, perception), position, perception) == Overlay(g, position, perception)
  {
    var once := Overlay(g, position, perception);
    var twice := Overlay(once, position, perception);
    forall r | 0 <= r < |g| ensures twice[r] == once[r] {
      assert |twice[r]| == |once[r]|;
      forall c | 0 <= c < |g[r]| ensures twice[r][c] == once[r][c] {
        assert twice[r][c] == OverlayCell(once[r][c], r, c, position, perception);
      }
    }
  }

  /** When the map has the dimensions of the ground-truth grid `g`,
      copying the environment's perception of `g` at `position` makes every
      cell of the window that lies inside the map hold its ground truth
      (never the out-of-grid marker), and leaves every other cell as it was. */
  lemma OverlayRecordsTruth(m: seq<seq<char>>, g: seq<seq<char>>, position: Pos)
    requires Env.Rectangular(g) && |m| == |g| && forall r :: 0 <= r < |m| ==> |m[r]| == |g[0]|
    ensures var h := Overlay(m, position, Env.Perception(g, position));
      forall r, c :: 0 <= r < |m| && 0 <= c < |m[r]| ==>
        h[r][c] == if -1 <= r - position.0 <= 1 && -1 <= c - position.1 <= 1 then g[r][c] else m[r][c]
  {
    var w := Env.Perception(g, position);
    forall r, c | 0 <= r < |m| && 0 <= c < |m[r]| && -1 <= r - position.0 <= 1 && -1 <= c - position.1 <= 1
      ensures OverlayCell(m[r][c], r, c, position, w) == g[r][c]
    {
      assert w[r - position.0 + 1][c - position.1 + 1]
          == Env.PerceptionAt(g, position.0, position.1, r - position.0 + 1, c - position.1 + 1);
    }
  }

  class Memory {
    /** The discovered map; its dimensions never change. */
    const discoveredMap: array2<char>
    /** The positions passed to `UpdateMemory`, in bounds or not. */
    var visitedPositions: set<Pos>

    /** The discovered map as rows of characters. */
    function Grid(): (g: seq<seq<char>>)
      reads discoveredMap
      ensures |g| == discoveredMap.Length0
      ensures forall r :: 0 <= r < |g| ==> |g[r]| == discoveredMap.Length1
      ensures forall r, c :: 0 <= r < discoveredMap.Length0 && 0 <= c < discoveredMap.Length1 ==>
        g[r][c] == discoveredMap[r, c]
    {
      seq(discoveredMap.Length0, r requires 0 <= r < discoveredMap.Length0 reads discoveredMap =>
        seq(discoveredMap.Length1, c requires 0 <= c < discoveredMap.Length1 reads discoveredMap =>
          discoveredMap[r, c]))
    }

    /** A `rows` x `cols` map of unknown cells and no visited position. */
    constructor (rows: int, cols: int)
      ensures discoveredMap.Length0 == Clamp(rows) && discoveredMap.Length1 == Clamp(cols)
      ensures forall r, c :: 0 <= r < discoveredMap.Length0 && 0 <= c < discoveredMap.Length1 ==>
        discoveredMap[r, c] == Unknown
      ensures visitedPositions == {}
      ensures fresh(discoveredMap)
    {
      discoveredMap := new char[Clamp(rows), Clamp(cols)]((r, c) => Unknown);
      visitedPositions := {};
    }

    /** Copies the 3x3 `perception` centred on `position` into the map,
        dropping the entries that fall outside it, and records `position`
        as visited. */
    method UpdateMemory(position: Pos, perception: seq<seq<char>>)
      requires Belief.IsWindow(perception)
      modifies discoveredMap, this`visitedPositions
      ensures Grid() == Overlay(old(Grid()), position, perception)
      ensures visitedPositions == old(visitedPositions) + {position}
      ensures IsVisited(position) && old(visitedPositions) <= visitedPositions
    {
      var (x, y) := position;
      var m, n := discoveredMap.Length0, discoveredMap.Length1;
      for i := -1 to 2
        invariant visitedPositions == old(visitedPositions)
        invariant forall r, c :: 0 <= r < m && 0 <= c < n ==>
          discoveredMap[r, c] ==
            if x - 1 <= r < x + i then OverlayCell(old(discoveredMap[r, c]), r, c, position, perception)
            else old(discoveredMap[r, c])
      {
        for j := -1 to 2
          invariant visitedPositions == old(visitedPositions)
          invariant forall r, c :: 0 <= r < m && 0 <= c < n ==>
            discoveredMap[r, c] ==
              if x - 1 <= r < x + i || (r == x + i && y - 1 <= c < y + j)
              then OverlayCell(old(discoveredMap[r, c]), r, c, position, perception)
              else old(discoveredMap[r, c])
        {
          var (mapX, mapY) := (x + i, y + j);
          if 0 <= mapX < m && 0 <= mapY < n {
            discoveredMap[mapX, mapY] := perception[i + 1][j + 1];
          }
        }
      }
      visitedPositions := visitedPositions + {position};
      assert Grid() == Overlay(old(Grid()), position, perception) by {
        var g, h := old(Grid()), Grid();
        forall r | 0 <= r < m ensures h[r] == Overlay(g, position, perception)[r] {
        }
      }
    }

    /** Whether `position` has been passed to `UpdateMemory`. */
    predicate IsVisited(position: Pos)
      reads this`visitedPositions
    {
      position in visitedPositions
    }
  }
}
