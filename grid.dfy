/** The village grid as the pathfinder sees it (ui/js/village.js): a
    character per cell, a terrain cost per character, 4-neighbour moves,
    the Manhattan heuristic, and routes with their total cost. */
module Grid {
  import opened Wrappers
  import opened Buildings
  import opened Tiles

  /** `TOWN_MAP_GRID`: one row of characters per map line. */
  type Map = seq<seq<char>>

  /** A grid cell; column `x`, row `y`. */
  datatype Cell = Cell(x: int, y: int)

  /** The cost of entering a cell holding `c`, or `None` (`Infinity`) when
      the character is not walkable. */
  function CharCost(c: char): (r: Option<nat>)
    ensures r.Some? ==> 1 <= r.value <= 5
  {
    if c == ':' || c == '+' || c == '=' || IsBuildingChar(c) then Some(1)
    else if c == '#' then Some(2)
    else if c == '.' || c == 'A' || c == 'K' then Some(5)
    else None
  }

  /** The walkable characters are those drawn with a tile other than
      water, pond and stone wall, plus grass `.` and the fountain `K`,
      which have none. */
  lemma CostAgreesWithTiles(c: char)
    ensures CharCost(c).Some? <==>
      (TileForChar(c, 0, 0).Some? && TileForChar(c, 0, 0).value.kind !in {Water, Pond, StoneWall})
      || c == '.' || c == 'K'
  {
    BuildingCharsListed();
    if c == '~' || c == 'P' || c == '%' {
      assert CharCost(c).None?;
    } else if c == '#' || c == ':' || c == '+' || c == '=' || c == 'A' {
      assert CharCost(c).Some?;
    } else if IsBuildingChar(c) {
      assert TileForChar(c, 0, 0) == Some(Placed(Plaza, 0, 0));
    } else {
      assert TileForChar(c, 0, 0).None?;
    }
  }

  /** The cost classes of `getCost`: 1 for the building characters, 2 for
      the path, 5 for grass, farm and fountain, and every other character
      impassable. */
  lemma CostClasses(c: char)
    ensures CharCost(c) == Some(1) <==> c in ":+=" || IsBuildingChar(c)
    ensures CharCost(c) == Some(2) <==> c == '#'
    ensures CharCost(c) == Some(5) <==> c in ".AK"
    ensures CharCost(c).None? <==> !(c in ":+=#.AK" || IsBuildingChar(c))
  {
    BuildingCharsListed();
    if IsBuildingChar(c) {
      assert c in "BLIFCHWSM";
    } else {
      assert c !in "BLIFCHWSM";
    }
  }

  /** The width `findPath` uses: the length of the first row. */
  function Width(grid: Map): nat {
    if |grid| == 0 then 0 else |grid[0]|
  }

  predicate InBounds(grid: Map, c: Cell) {
    0 <= c.x < Width(grid) && 0 <= c.y < |grid|
  }

  /** `getCost(x, y)`: out of the `w` by `h` box is impassable; inside it a
      ragged row shorter than the first reads `undefined`, also impassable. */
  function Cost(grid: Map, c: Cell): (r: Option<nat>)
    ensures r.Some? ==> InBounds(grid, c) && c.x < |grid[c.y]| && r == CharCost(grid[c.y][c.x])
    ensures r.Some? ==> r.value >= 1
  {
    if !InBounds(grid, c) then None
    else if c.x >= |grid[c.y]| then None
    else CharCost(grid[c.y][c.x])
  }

  predicate Passable(grid: Map, c: Cell) {
    Cost(grid, c).Some?
  }

  function Abs(n: int): nat {
    if n < 0 then -n else n
  }

  /** `heuristic(x, y)`: the Manhattan distance to the goal. */
  function Heuristic(c: Cell, goal: Cell): nat {
    Abs(c.x - goal.x) + Abs(c.y - goal.y)
  }

  predicate Adjacent(a: Cell, b: Cell) {
    Abs(a.x - b.x) + Abs(a.y - b.y) == 1
  }

  /** The four neighbours in the order `findPath` visits them. */
  function Neighbors(c: Cell): (ns: seq<Cell>)
    ensures |ns| == 4
    ensures forall i :: 0 <= i < 4 ==> Adjacent(c, ns[i])
  {
    [Cell(c.x + 1, c.y), Cell(c.x - 1, c.y), Cell(c.x, c.y + 1), Cell(c.x, c.y - 1)]
  }

  /** The neighbour list is exactly the set of 4-adjacent cells. */
  lemma AdjacentIsNeighbor(a: Cell, b: Cell)
    ensures Adjacent(a, b) <==> b in Neighbors(a)
  {
  }

  /** The heuristic is consistent: one step changes it by at most one,
      and every step costs at least one. */
  lemma HeuristicConsistent(grid: Map, a: Cell, b: Cell, goal: Cell)
    requires Adjacent(a, b) && Passable(grid, b)
    ensures Heuristic(a, goal) <= Cost(grid, b).value + Heuristic(b, goal)
  {
  }

  /** The cell a route from `from` ends at. */
  function EndOf(from: Cell, p: seq<Cell>): Cell {
    if |p| == 0 then from else p[|p| - 1]
  }

  /** `p` is a walk from `from`: every cell is passable and 4-adjacent to
      the one before it (`from` itself is not part of `p`). */
  ghost predicate IsRoute(grid: Map, from: Cell, p: seq<Cell>)
    decreases |p|
  {
    |p| == 0 ||
    (IsRoute(grid, from, p[..|p| - 1]) && Passable(grid, p[|p| - 1]) &&
     Adjacent(EndOf(from, p[..|p| - 1]), p[|p| - 1]))
  }

  /** The sum of the costs of the cells a route enters. */
  ghost function RouteCost(grid: Map, p: seq<Cell>): nat
    decreases |p|
  {
    if |p| == 0 then 0
    else RouteCost(grid, p[..|p| - 1]) + Cost(grid, p[|p| - 1]).GetOr(0)
  }

  /** A route can be extended at its start by one passable adjacent cell. */
  lemma {:induction false} RoutePrepend(grid: Map, from: Cell, c: Cell, p: seq<Cell>)
    requires Adjacent(from, c) && Passable(grid, c) && IsRoute(grid, c, p)
    ensures IsRoute(grid, from, [c] + p)
    ensures EndOf(from, [c] + p) == EndOf(c, p)
    ensures RouteCost(grid, [c] + p) == Cost(grid, c).value + RouteCost(grid, p)
    decreases |p|
  {
    if |p| == 0 {
      assert ([c] + p)[..0] == [];
    } else {
      var q := p[..|p| - 1];
      assert ([c] + p)[..|p|] == [c] + q;
      RoutePrepend(grid, from, c, q);
      if |q| == 0 {
        assert EndOf(from, [c] + q) == c == EndOf(c, q);
      }
    }
  }

  /** The route to `goal` exists (the empty one when `goal` is `from`). */
  ghost predicate Reachable(grid: Map, from: Cell, goal: Cell) {
    exists p :: IsRoute(grid, from, p) && EndOf(from, p) == goal
  }

  /** In a grid with no columns no cell is passable, so the only route is
      the empty one. */
  lemma NoRoutesInEmptyGrid(grid: Map, from: Cell, p: seq<Cell>)
    requires Width(grid) == 0 && IsRoute(grid, from, p)
    ensures p == []
  {
  }
}
