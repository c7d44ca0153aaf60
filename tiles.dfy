/** The character classification shared by the village view and the
    editor (ui/js/tiles.js): which terrain tile and which decoration a
    map character is drawn with, and where. The SVG markup is replaced
    by the kind of tile or decoration and its anchor point. */
module Tiles {
  import opened Wrappers
  import opened Buildings

  /** `TILE_SIZE`: the side of one map cell in pixels. */
  const TileSize: nat := 40

  datatype TileKind = Water | Pond | Path | Cobble | Plaza | StoneWall | Bridge | Farm

  datatype DecoKind = Pine | Oak | Bush | Rock | Lamp | Pipes | Gear

  /** A tile or decoration of kind `kind` drawn with its anchor at (x, y). */
  datatype Placed<K> = Placed(kind: K, x: int, y: int)

  /** The eight terrain characters and their tiles, in `switch` order. */
  const TerrainTiles: seq<(char, TileKind)> :=
    [('~', Water), ('P', Pond), ('#', Path), (':', Cobble),
     ('+', Plaza), ('%', StoneWall), ('=', Bridge), ('A', Farm)]

  /** `tileForChar(char, px, py)`. */
  function TileForChar(c: char, px: int, py: int): Option<Placed<TileKind>> {
    match c
    case '~' => Some(Placed(Water, px, py))
    case 'P' => Some(Placed(Pond, px, py))
    case '#' => Some(Placed(Path, px, py))
    case ':' => Some(Placed(Cobble, px, py))
    case '+' => Some(Placed(Plaza, px, py))
    case '%' => Some(Placed(StoneWall, px, py))
    case '=' => Some(Placed(Bridge, px, py))
    case 'A' => Some(Placed(Farm, px, py))
    case _ => if IsBuildingChar(c) then Some(Placed(Plaza, px, py)) else None
  }

  /** The tile of the first entry of `t`, from index `i` on, keyed by `c`. */
  function TerrainLookup(t: seq<(char, TileKind)>, c: char, i: nat := 0): Option<TileKind>
    decreases |t| - i
  {
    if i >= |t| then None else if t[i].0 == c then Some(t[i].1) else TerrainLookup(t, c, i + 1)
  }

  /** A character has a tile exactly when it is one of the terrain
      characters, whose tile the terrain table gives, or a building
      character, drawn as plaza; the tile sits at the cell's corner. */
  lemma TileForCharFollowsTables(c: char, px: int, py: int)
    ensures TerrainLookup(TerrainTiles, c).Some? ==>
      TileForChar(c, px, py) == Some(Placed(TerrainLookup(TerrainTiles, c).value, px, py))
    ensures TerrainLookup(TerrainTiles, c).None? && IsBuildingChar(c) ==>
      TileForChar(c, px, py) == Some(Placed(Plaza, px, py))
    ensures TerrainLookup(TerrainTiles, c).None? && !IsBuildingChar(c) ==>
      TileForChar(c, px, py).None?
  {
    var t := TerrainTiles;
    assert TerrainLookup(t, c, 8).None?;
    assert TerrainLookup(t, c, 7) == if c == 'A' then Some(Farm) else None;
    assert TerrainLookup(t, c, 6) == if c == '=' then Some(Bridge) else TerrainLookup(t, c, 7);
    assert TerrainLookup(t, c, 5) == if c == '%' then Some(StoneWall) else TerrainLookup(t, c, 6);
    assert TerrainLookup(t, c, 4) == if c == '+' then Some(Plaza) else TerrainLookup(t, c, 5);
    assert TerrainLookup(t, c, 3) == if c == ':' then Some(Cobble) else TerrainLookup(t, c, 4);
    assert TerrainLookup(t, c, 2) == if c == '#' then Some(Path) else TerrainLookup(t, c, 3);
    assert TerrainLookup(t, c, 1) == if c == 'P' then Some(Pond) else TerrainLookup(t, c, 2);
  }

  /** Neither `.` (grass) nor `K` (the fountain) has a terrain tile. */
  lemma GrassAndFountainHaveNoTile(px: int, py: int)
    ensures TileForChar('.', px, py).None? && TileForChar('K', px, py).None?
  {
    BuildingCharsListed();
  }

  /** `(px * 7 + py * 13) & 0xFFFF`: on integers, masking the low sixteen
      bits of the two's-complement value is the Euclidean remainder. */
  function PineSeed(px: int, py: int): (seed: int)
    ensures 0 <= seed < 65536
  {
    (px * 7 + py * 13) % 65536
  }

  /** `decoForChar(char, px, py)`; the seed is non-negative, so `>> 4` is
      division by 16 and `%` agrees with the JavaScript operator. */
  function DecoForChar(c: char, px: int, py: int): Option<Placed<DecoKind>> {
    match c
    case 'T' =>
      var seed := PineSeed(px, py);
      Some(Placed(Pine, px + (seed % 10 - 5), py + ((seed / 16) % 10 - 5) - 20))
    case 'O' => Some(Placed(Oak, px, py - 15))
    case '*' => Some(Placed(Bush, px, py))
    case 'R' => Some(Placed(Rock, px, py))
    case 'l' => Some(Placed(Lamp, px, py))
    case 'p' => Some(Placed(Pipes, px, py))
    case 'G' => Some(Placed(Gear, px, py))
    case _ => None
  }

  /** Exactly the seven decoration characters are decorated (the fountain
      `K` is not); the oak is raised by 15 pixels, every decoration other
      than the pine sits on the anchor, and the pine stays within a
      10-by-10 box up to 5 pixels left and 16 to 25 pixels above it. */
  lemma DecorationPlacement(c: char, px: int, py: int)
    ensures DecoForChar(c, px, py).Some? <==> c in ['T', 'O', '*', 'R', 'l', 'p', 'G']
    ensures c == 'O' ==> DecoForChar(c, px, py) == Some(Placed(Oak, px, py - 15))
    ensures c in ['*', 'R', 'l', 'p', 'G'] ==>
      DecoForChar(c, px, py).value.x == px && DecoForChar(c, px, py).value.y == py
    ensures c == 'T' ==>
      var d := DecoForChar(c, px, py).value;
      d.kind == Pine && px - 5 <= d.x <= px + 4 && py - 25 <= d.y <= py - 16
  {
  }

  /** The pine's offset depends only on the anchor modulo the seed's
      period: shifting the anchor so that the seed is unchanged shifts
      the pine by the same amount. */
  lemma {:induction false} PineJitterIsTranslationInvariant(px: int, py: int, dx: int, dy: int)
    requires (dx * 7 + dy * 13) % 65536 == 0
    ensures DecoForChar('T', px + dx, py + dy).value.x - (px + dx) ==
            DecoForChar('T', px, py).value.x - px
    ensures DecoForChar('T', px + dx, py + dy).value.y - (py + dy) ==
            DecoForChar('T', px, py).value.y - py
  {
    var a := px * 7 + py * 13;
    var b := dx * 7 + dy * 13;
    assert (px + dx) * 7 + (py + dy) * 13 == a + b;
    ModAddMultiple(a, b);
  }

  lemma ModAddMultiple(a: int, b: int)
    requires b % 65536 == 0
    ensures (a + b) % 65536 == a % 65536
  {
    var k := b / 65536;
    assert b == 65536 * k;
    assert a + b == a + 65536 * k;
  }
}
