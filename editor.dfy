/**
 * The map editor: a fixed 25 x 60 grid of map characters that is loaded
 * from the textual map format, exported back to it, and painted one cell
 * at a time with the current brush.
 */
module Editor {
  import opened Text
  import opened Tiles

  const GridW: nat := 60
  const GridH: nat := 25

  /** A grid as a value: GridH rows of GridW characters. */
  type Grid = seq<seq<char>>

  predicate WellFormed(g: Grid) {
    |g| == GridH && forall y :: 0 <= y < |g| ==> |g[y]| == GridW
  }

  /** The cell a load puts at (y, x): the x-th character of the y-th non-empty line, or grass. */
  function LoadedCell(lines: seq<string>, y: nat, x: nat): char {
    if y < |lines| && x < |lines[y]| then lines[y][x] else '.'
  }

  /** The grid a load of `str` produces. */
  function LoadedGrid(str: string): (g: Grid)
    ensures WellFormed(g)
  {
    var lines := TextLines(str);
    seq(GridH, y requires 0 <= y < GridH => seq(GridW, x requires 0 <= x < GridW => LoadedCell(lines, y, x)))
  }

  /** exportMapString on a grid value: the rows joined by line breaks. */
  function Export(g: Grid): (s: string)
    requires WellFormed(g)
    ensures |s| == GridH * GridW + GridH - 1
  {
    ExportLength(g);
    Join(g, "\n")
  }

  lemma {:induction false} JoinedLength(rows: seq<string>, w: nat)
    requires |rows| >= 1
    requires forall y :: 0 <= y < |rows| ==> |rows[y]| == w
    ensures |Join(rows, "\n")| == |rows| * w + |rows| - 1
  {
    if |rows| > 1 {
      JoinedLength(rows[1..], w);
    }
  }

  lemma ExportLength(g: Grid)
    requires WellFormed(g)
    ensures |Join(g, "\n")| == GridH * GridW + GridH - 1
  {
    JoinedLength(g, GridW);
  }

  /** Every cell holds a character that survives trimming and line splitting. */
  predicate Printable(g: Grid) {
    forall y, x :: 0 <= y < |g| && 0 <= x < |g[y]| ==> !IsWhitespace(g[y][x])
  }

  /** Loading an export gives back the grid, as long as no cell holds white space. */
  lemma LoadExport(g: Grid)
    requires WellFormed(g) && Printable(g)
    ensures LoadedGrid(Export(g)) == g
  {
    var s := Join(g, "\n");
    ExportEnds(g);
    TrimKeeps(s);
    forall y | 0 <= y < |g| ensures '\n' !in g[y] {
      forall x | 0 <= x < |g[y]| ensures g[y][x] != '\n' {
        assert !IsWhitespace(g[y][x]);
      }
    }
    SplitJoin(g, '\n');
    NonEmptyKeeps(g);
    assert TextLines(s) == g;
    var r := LoadedGrid(s);
    forall y | 0 <= y < GridH ensures r[y] == g[y] {
      assert |r[y]| == |g[y]|;
    }
  }

  /** An export of a grid without white space neither starts nor ends with white space. */
  lemma ExportEnds(g: Grid)
    requires WellFormed(g) && Printable(g)
    ensures var s := Join(g, "\n"); |s| > 0 && !IsWhitespace(s[0]) && !IsWhitespace(s[|s| - 1])
  {
    var s := Join(g, "\n");
    ExportLength(g);
    JoinFirst(g);
    JoinLast(g);
    assert s[0] == g[0][0];
    assert s[|s| - 1] == g[GridH - 1][GridW - 1];
  }

  lemma {:induction false} JoinFirst(rows: seq<string>)
    requires |rows| >= 1 && |rows[0]| >= 1
    ensures |Join(rows, "\n")| >= 1 && Join(rows, "\n")[0] == rows[0][0]
  {
  }

  lemma {:induction false} JoinLast(rows: seq<string>)
    requires |rows| >= 1 && |rows[|rows| - 1]| >= 1
    ensures var s := Join(rows, "\n"); |s| >= 1 && s[|s| - 1] == rows[|rows| - 1][|rows[|rows| - 1]| - 1]
  {
    if |rows| > 1 {
      JoinLast(rows[1..]);
    }
  }

  /** The grid after painting (y, x) with `brush`: only in range, only that cell. */
  function Painted(g: Grid, y: int, x: int, brush: char): (p: Grid)
    requires WellFormed(g)
    ensures WellFormed(p)
    ensures forall yy, xx :: 0 <= yy < GridH && 0 <= xx < GridW && (yy != y || xx != x) ==> p[yy][xx] == g[yy][xx]
    ensures 0 <= y < GridH && 0 <= x < GridW ==> p[y][x] == brush
    ensures !(0 <= y < GridH && 0 <= x < GridW) ==> p == g
  {
    if 0 <= y < GridH && 0 <= x < GridW then g[y := g[y][x := brush]] else g
  }

  /** Painting the same cell twice with the same brush changes nothing the second time. */
  lemma PaintIdempotent(g: Grid, y: int, x: int, brush: char)
    requires WellFormed(g)
    ensures Painted(Painted(g, y, x, brush), y, x, brush) == Painted(g, y, x, brush)
  {
    var p := Painted(g, y, x, brush);
    if 0 <= y < GridH && 0 <= x < GridW {
      assert p[y][x := brush] == p[y];
    }
  }

  /** `Math.floor(p / TILE_SIZE)`: the cell index of a canvas coordinate. */
  function CellOf(p: real): (i: int)
    ensures (i * TileSize) as real <= p < ((i + 1) * TileSize) as real
  {
    (p / TileSize as real).Floor
  }

  /**
   * The fountain test of the editor canvas: a 'K' cell whose left and upper
   * neighbours are not 'K', or which lies on that edge of the grid, marks the
   * top-left corner where the fountain is drawn.
   */
  predicate IsFountainTopLeft(g: Grid, y: nat, x: nat)
    requires WellFormed(g) && y < GridH && x < GridW
  {
    g[y][x] == 'K' && (x == 0 || g[y][x - 1] != 'K') && (y == 0 || g[y - 1][x] != 'K')
  }

  /** A block of 'K' cells with clear left and upper sides is drawn once, from its top-left cell. */
  lemma FountainBlockDrawnOnce(g: Grid, y0: nat, x0: nat, h: nat, w: nat)
    requires WellFormed(g) && h >= 1 && w >= 1 && y0 + h <= GridH && x0 + w <= GridW
    requires forall y, x :: y0 <= y < y0 + h && x0 <= x < x0 + w ==> g[y][x] == 'K'
    requires x0 == 0 || g[y0][x0 - 1] != 'K'
    requires y0 == 0 || g[y0 - 1][x0] != 'K'
    ensures IsFountainTopLeft(g, y0, x0)
    ensures forall y: nat, x: nat :: y0 <= y < y0 + h && x0 <= x < x0 + w && (y, x) != (y0, x0) ==>
      !IsFountainTopLeft(g, y, x)
  {
    forall y: nat, x: nat | y0 <= y < y0 + h && x0 <= x < x0 + w && (y, x) != (y0, x0)
      ensures !IsFountainTopLeft(g, y, x)
    {
      if x > x0 {
        assert g[y][x - 1] == 'K';
      } else {
        assert g[y - 1][x] == 'K';
      }
    }
  }

  /** The loop invariant of loadMapString: rows before y and cells before x on row y are loaded, the rest is grass. */
  ghost predicate LoadedUpTo(grid: array2<char>, lines: seq<string>, y: nat, x: nat)
    reads grid
    requires grid.Length0 == GridH && grid.Length1 == GridW
  {
    forall yy, xx :: 0 <= yy < GridH && 0 <= xx < GridW ==>
      grid[yy, xx] == (if yy < y || (yy == y && xx < x) then LoadedCell(lines, yy, xx) else '.')
  }

  /** loadMapString's copy loops over a fresh all-grass grid. */
  method CopyLines(grid: array2<char>, lines: seq<string>)
    requires grid.Length0 == GridH && grid.Length1 == GridW
    requires forall y, x :: 0 <= y < GridH && 0 <= x < GridW ==> grid[y, x] == '.'
    modifies grid
    ensures forall y, x :: 0 <= y < GridH && 0 <= x < GridW ==> grid[y, x] == LoadedCell(lines, y, x)
  {
    var rows := if |lines| < GridH then |lines| else GridH;
    var y := 0;
    while y < rows
      invariant 0 <= y <= rows
      invariant LoadedUpTo(grid, lines, y, 0)
    {
      var cols := if |lines[y]| < GridW then |lines[y]| else GridW;
      var x := 0;
      while x < cols
        invariant 0 <= x <= cols
        invariant LoadedUpTo(grid, lines, y, x)
      {
        grid[y, x] := lines[y][x];
        x := x + 1;
      }
      assert LoadedUpTo(grid, lines, y + 1, 0);
      y := y + 1;
    }
    assert LoadedUpTo(grid, lines, GridH, 0);
  }

  /** Two grids with the same cells are the same grid. */
  lemma SameCells(g: Grid, h: Grid)
    requires WellFormed(g) && WellFormed(h)
    requires forall y, x :: 0 <= y < GridH && 0 <= x < GridW ==> g[y][x] == h[y][x]
    ensures g == h
  {
    forall y | 0 <= y < GridH ensures g[y] == h[y] {
      assert |g[y]| == |h[y]|;
    }
  }

  /** The editor page's state: the grid and the brush. */
  class MapEditor {
    var grid: array2<char>
    var brush: char

    ghost predicate Valid()
      reads this
    {
      grid.Length0 == GridH && grid.Length1 == GridW
    }

    /** The grid as a value. */
    function Cells(): (g: Grid)
      reads this, grid
      requires Valid()
      ensures WellFormed(g)
      ensures forall y, x :: 0 <= y < GridH && 0 <= x < GridW ==> g[y][x] == grid[y, x]
    {
      var a := grid;
      seq(GridH, y requires 0 <= y < GridH reads a =>
        seq(GridW, x requires 0 <= x < GridW reads a => a[y, x]))
    }

    /** The page starts with an all-grass grid and the dirt-path brush. */
    constructor ()
      ensures Valid() && brush == '#'
      ensures forall y, x :: 0 <= y < GridH && 0 <= x < GridW ==> grid[y, x] == '.'
    {
      grid := new char[GridH, GridW]((y, x) => '.');
      brush := '#';
    }

    /** A palette click selects the brush. */
    method SelectBrush(c: char)
      modifies this
      ensures brush == c && grid == old(grid)
    {
      brush := c;
    }

    /**
     * loadMapString: a fresh all-grass grid, then the first 25 non-empty lines
     * of the trimmed text copied in, each cut to 60 characters.
     */
    method LoadMapString(str: string)
      modifies this
      ensures Valid() && fresh(grid) && brush == old(brush)
      ensures Cells() == LoadedGrid(str)
    {
      var blank := new char[GridH, GridW]((y, x) => '.');
      CopyLines(blank, TextLines(str));
      grid := blank;
      SameCells(Cells(), LoadedGrid(str));
    }

    /** exportMapString. */
    function ExportMapString(): (s: string)
      reads this, grid
      requires Valid()
      ensures s == Export(Cells())
      ensures Printable(Cells()) ==> LoadedGrid(s) == Cells()
    {
      if Printable(Cells()) then
        LoadExport(Cells());
        Export(Cells())
      else Export(Cells())
    }

    /**
     * paintTile after the mouse position is mapped to a cell: an in-range cell that
     * differs from the brush is set to it and the canvas is redrawn.
     */
    method PaintTile(y: int, x: int) returns (redrawn: bool)
      requires Valid()
      modifies grid
      ensures Valid()
      ensures Cells() == Painted(old(Cells()), y, x, brush)
      ensures redrawn <==> 0 <= y < GridH && 0 <= x < GridW && old(grid[y, x]) != brush
    {
      redrawn := false;
      if 0 <= x < GridW && 0 <= y < GridH {
        if grid[y, x] != brush {
          grid[y, x] := brush;
          redrawn := true;
        }
      }
      var g := Cells();
      var p := Painted(old(Cells()), y, x, brush);
      forall yy | 0 <= yy < GridH ensures g[yy] == p[yy] {
        assert |g[yy]| == |p[yy]|;
      }
    }

    /** paintTile from canvas coordinates. */
    method PaintAt(px: real, py: real) returns (redrawn: bool)
      requires Valid()
      modifies grid
      ensures Valid()
      ensures Cells() == Painted(old(Cells()), CellOf(py), CellOf(px), brush)
    {
      redrawn := PaintTile(CellOf(py), CellOf(px));
    }

    /** The cells where the canvas draws a fountain, in row order. */
    method FountainAnchors() returns (cells: seq<(nat, nat)>)
      requires Valid()
      ensures forall y: nat, x: nat :: (y, x) in cells <==>
        y < GridH && x < GridW && IsFountainTopLeft(Cells(), y, x)
    {
      cells := [];
      var g := Cells();
      var y := 0;
      while y < GridH
        invariant 0 <= y <= GridH
        invariant forall yy: nat, xx: nat :: (yy, xx) in cells <==>
          yy < y && xx < GridW && IsFountainTopLeft(g, yy, xx)
      {
        var x := 0;
        while x < GridW
          invariant 0 <= x <= GridW
          invariant forall yy: nat, xx: nat :: (yy, xx) in cells <==>
            (yy < y && xx < GridW && IsFountainTopLeft(g, yy, xx)) ||
            (yy == y && xx < x && IsFountainTopLeft(g, yy, xx))
        {
          if grid[y, x] == 'K' && (x == 0 || grid[y, x - 1] != 'K') && (y == 0 || grid[y - 1, x] != 'K') {
            cells := cells + [(y, x)];
          }
          x := x + 1;
        }
        y := y + 1;
      }
    }
  }
}
