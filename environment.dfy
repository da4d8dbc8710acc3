/** The maze the agent moves in. `GetPerception` is the environment's 3x3
    reading of its grid. The other members are the oracle the agent calls
    (`cell`, `collect_if_food`, `get_sensor`, `entry`, `exits`,
    `total_food`), whose code is not part of this model: each is given the
    smallest behaviour the agent's use of it needs, stated as an assumption. */
module Env {
  import opened Utils
  import opened Belief

  /** Out-of-bounds cells of a perception read as this. */
  const Outside: char := '#'

  predicate Rectangular(g: seq<seq<char>>) {
    forall r :: 0 <= r < |g| ==> |g[r]| == |g[0]|
  }

  /** Inside the grid, measured by its height and the width of its first row. */
  predicate InBounds(g: seq<seq<char>>, p: Pos) {
    0 <= p.0 < |g| && 0 <= p.1 < |g[0]|
  }

  /** Entry (a, b) of the perception at (x, y): the cell (x - 1 + a, y - 1 + b). */
  function PerceptionAt(g: seq<seq<char>>, x: int, y: int, a: int, b: int): char
    requires Rectangular(g)
  {
    var p := (x - 1 + a, y - 1 + b);
    if InBounds(g, p) then g[p.0][p.1] else Outside
  }

  /** The 3x3 perception window around `position`, walls outside the grid. */
  function Perception(g: seq<seq<char>>, position: Pos): (w: seq<seq<char>>)
    requires Rectangular(g)
    ensures IsWindow(w)
  {
    seq(3, a => seq(3, b => PerceptionAt(g, position.0, position.1, a, b)))
  }

  /** The ground-truth cell of grid `g` at `p`, a wall outside the grid. */
  function CellOf(g: seq<seq<char>>, p: Pos): char {
    if 0 <= p.0 < |g| && 0 <= p.1 < |g[p.0]| then g[p.0][p.1] else Wall
  }

  /** The sensor reading of grid `g` around (i, j): the ground truth around
      the centre and the heading letter `d` at the centre. */
  function SensorOf(g: seq<seq<char>>, i: int, j: int, d: char): (w: seq<seq<char>>)
    ensures IsWindow(w) && w[1][1] == d
  {
    seq(3, r => seq(3, c => if r == 1 && c == 1 then d else CellOf(g, (i - 1 + r, j - 1 + c))))
  }

  class Environment {
    /** The ground-truth grid; only food collection changes it. */
    var grid: seq<seq<char>>
    const entry: Pos
    const exits: set<Pos>
    const totalFood: int

    /** Stands for a grid already loaded from its file. */
    constructor (grid: seq<seq<char>>, entry: Pos, exits: set<Pos>, totalFood: int)
      ensures this.grid == grid && this.entry == entry && this.exits == exits && this.totalFood == totalFood
    {
      this.grid := grid;
      this.entry := entry;
      this.exits := exits;
      this.totalFood := totalFood;
    }

    /** Assumed oracle: the ground-truth cell, a wall outside the grid. */
    function Cell(p: Pos): char
      reads this
    {
      CellOf(grid, p)
    }

    /** Assumed oracle: consumes the food at `p`, if any, turning it into a
        free cell, and says whether there was food. */
    method CollectIfFood(p: Pos) returns (found: bool)
      modifies this
      ensures found == (old(Cell(p)) == Food)
      ensures grid == if found then old(grid)[p.0 := old(grid)[p.0][p.1 := Free]] else old(grid)
      ensures found ==> Cell(p) == Free
    {
      found := Cell(p) == Food;
      if found {
        grid := grid[p.0 := grid[p.0][p.1 := Free]];
      }
    }

    /** Assumed oracle: the 3x3 sensor reading around (i, j). */
    function Sensor(i: int, j: int, d: char): (w: seq<seq<char>>)
      reads this
      ensures IsWindow(w) && w[1][1] == d
    {
      SensorOf(grid, i, j, d)
    }

    /** The 3x3 window of the grid around `position`: three rows of three
        entries, each the grid cell at its offset when that is inside the
        grid and a wall marker otherwise. The grid is only read. */
    method GetPerception(position: Pos) returns (perception: seq<seq<char>>)
      requires Rectangular(grid)
      ensures perception == Perception(grid, position)
      ensures |perception| == 3 && forall a :: 0 <= a < 3 ==> |perception[a]| == 3
      ensures forall a, b :: 0 <= a < 3 && 0 <= b < 3 ==>
        var p := (position.0 - 1 + a, position.1 - 1 + b);
        perception[a][b] == if InBounds(grid, p) then grid[p.0][p.1] else Outside
    {
      var (x, y) := position;
      perception := [];
      for i := x - 1 to x + 2
        invariant |perception| == i - (x - 1)
        invariant forall a :: 0 <= a < |perception| ==> perception[a] == Perception(grid, position)[a]
      {
        var row: seq<char> := [];
        for j := y - 1 to y + 2
          invariant |row| == j - (y - 1)
          invariant forall b :: 0 <= b < |row| ==> row[b] == PerceptionAt(grid, x, y, i - (x - 1), b)
        {
          if 0 <= i < |grid| && 0 <= j < |grid[0]| {
            row := row + [grid[i][j]];
          } else {
            row := row + [Outside];
          }
        }
        perception := perception + [row];
      }
    }
  }

  /** Inside the grid, the centre of the perception is the grid's own cell:
      no heading marker is written into it. */
  lemma PerceptionCentre(g: seq<seq<char>>, position: Pos)
    requires Rectangular(g) && InBounds(g, position)
    ensures Perception(g, position)[1][1] == g[position.0][position.1]
  {
  }
}
