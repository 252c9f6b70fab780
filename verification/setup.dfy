/**
  Building a fresh board. The random draw that decides each tile's mine is
  replaced by an input grid of booleans, `layout[x][y]`.
 */
module Setup {
  import opened Geometry
  import opened Board

  /** layout has sizeX rows of sizeY booleans each. */
  predicate LayoutShape(layout: seq<seq<bool>>, sizeX: nat, sizeY: nat) {
    |layout| == sizeX && forall x :: 0 <= x < sizeX ==> |layout[x]| == sizeY
  }

  /** The mines the layout asks for, as board positions. */
  function LayoutMines(layout: seq<seq<bool>>, sizeX: nat, sizeY: nat): set<Pos>
    requires LayoutShape(layout, sizeX, sizeY)
  {
    set p | p in Grid(sizeX, sizeY) && layout[p.x][p.y]
  }

  /** The tile the first pass places at p: untouched, its mine taken from the
      layout, its count not yet filled in. */
  function Placed(layout: seq<seq<bool>>, sizeX: nat, sizeY: nat, p: Pos): Tile
    requires LayoutShape(layout, sizeX, sizeY) && InGrid(sizeX, sizeY, p)
  {
    Tile(layout[p.x][p.y], Default, 0)
  }

  /** Adding a tile at a new cell adds one mine exactly when it is a mine. */
  lemma MineCountAdd(tiles: Tiles, p: Pos, t: Tile)
    requires p !in tiles
    ensures |MineCells(tiles[p := t])| == |MineCells(tiles)| + (if t.isMine then 1 else 0)
  {
    MineCellsUpdate(tiles, p, t);
    assert MineCells(tiles) - {p} == MineCells(tiles);
  }

  /** Places the tiles of row x, counting the mines as they are placed. */
  method PlaceRow(x: nat, sizeX: nat, sizeY: nat, layout: seq<seq<bool>>, start: Tiles, count: int)
    returns (tiles: Tiles, mines: int)
    requires LayoutShape(layout, sizeX, sizeY) && x < sizeX
    requires forall p :: p in start <==> InGrid(x, sizeY, p)
    requires forall p :: p in start ==> InGrid(sizeX, sizeY, p) && start[p] == Placed(layout, sizeX, sizeY, p)
    requires count == |MineCells(start)|
    ensures forall p :: p in tiles <==> InGrid(x + 1, sizeY, p)
    ensures forall p :: p in tiles ==> InGrid(sizeX, sizeY, p) && tiles[p] == Placed(layout, sizeX, sizeY, p)
    ensures mines == |MineCells(tiles)|
  {
    tiles, mines := start, count;
    var y := 0;
    while y < sizeY
      invariant 0 <= y <= sizeY
      invariant forall p :: p in tiles <==> InGrid(x, sizeY, p) || (p.x == x && 0 <= p.y < y)
      invariant forall p :: p in tiles ==> InGrid(sizeX, sizeY, p) && tiles[p] == Placed(layout, sizeX, sizeY, p)
      invariant mines == |MineCells(tiles)|
    {
      var p := Pos(x, y);
      var isMine := false;
      if layout[x][y] {
        isMine := true;
        mines := mines + 1;
      }
      var tile := Tile(isMine, Default, 0);
      assert tile == Placed(layout, sizeX, sizeY, p);
      MineCountAdd(tiles, p, tile);
      tiles := tiles[p := tile];
      y := y + 1;
    }
  }

  /** The first pass over the grid: one untouched tile per cell, with its mine
      taken from the layout, counting the mines as they are placed. */
  method PlaceMines(sizeX: nat, sizeY: nat, layout: seq<seq<bool>>) returns (tiles: Tiles, mines: int)
    requires LayoutShape(layout, sizeX, sizeY)
    ensures tiles.Keys == Grid(sizeX, sizeY)
    ensures forall p :: p in tiles ==> InGrid(sizeX, sizeY, p) && tiles[p] == Tile(layout[p.x][p.y], Default, 0)
    ensures mines == |MineCells(tiles)|
  {
    tiles := map[];
    mines := 0;
    var x := 0;
    while x < sizeX
      invariant 0 <= x <= sizeX
      invariant forall p :: p in tiles <==> InGrid(x, sizeY, p)
      invariant forall p :: p in tiles ==> InGrid(sizeX, sizeY, p) && tiles[p] == Placed(layout, sizeX, sizeY, p)
      invariant mines == |MineCells(tiles)|
    {
      tiles, mines := PlaceRow(x, sizeX, sizeY, layout, tiles, mines);
      x := x + 1;
    }
    assert tiles.Keys == Grid(sizeX, sizeY);
  }

  /** The mines among the listed cells. */
  function MinesIn(tiles: Tiles, s: seq<Pos>): set<Pos> {
    set q | q in s && q in tiles && tiles[q].isMine
  }

  lemma MinesInSnoc(tiles: Tiles, s: seq<Pos>, q: Pos)
    ensures MinesIn(tiles, s + [q]) == MinesIn(tiles, s) + (if q in tiles && tiles[q].isMine then {q} else {})
  {
  }

  /** Counts the mines in p's neighbour list. */
  method CountNeighborMines(tiles: Tiles, p: Pos) returns (mc: int)
    ensures mc == |AdjacentMines(tiles, p)|
  {
    var ns := Neighbors(tiles, p);
    mc := 0;
    var i := 0;
    while i < |ns|
      invariant 0 <= i <= |ns|
      invariant mc == |MinesIn(tiles, ns[..i])|
    {
      assert ns[..i + 1] == ns[..i] + [ns[i]];
      assert ns[i] !in ns[..i];
      MinesInSnoc(tiles, ns[..i], ns[i]);
      if tiles[ns[i]].isMine {
        mc := mc + 1;
      }
      i := i + 1;
    }
    assert ns[..|ns|] == ns;
    assert MinesIn(tiles, ns) == AdjacentMines(tiles, p);
  }

  /** The tile at p with its count of adjacent mines filled in. */
  function Counted(placed: Tiles, p: Pos): Tile
    requires p in placed
  {
    placed[p].(mines := |AdjacentMines(placed, p)|)
  }

  /** Fills in the counts of row x. */
  method CountRow(x: int, sizeX: nat, sizeY: nat, placed: Tiles, start: Tiles) returns (tiles: Tiles)
    requires placed.Keys == Grid(sizeX, sizeY) && 0 <= x < sizeX
    requires start.Keys == placed.Keys && SameMines(start, placed)
    requires forall p :: p in start ==> start[p] == if p.x < x then Counted(placed, p) else placed[p]
    ensures tiles.Keys == placed.Keys && SameMines(tiles, placed)
    ensures forall p :: p in tiles ==> tiles[p] == if p.x <= x then Counted(placed, p) else placed[p]
  {
    tiles := start;
    var y := 0;
    while y < sizeY
      invariant 0 <= y <= sizeY
      invariant tiles.Keys == placed.Keys && SameMines(tiles, placed)
      invariant forall p :: p in tiles ==>
        tiles[p] == if p.x < x || (p.x == x && p.y < y) then Counted(placed, p) else placed[p]
    {
      var p := Pos(x, y);
      MinesDetermineAdjacencyAt(tiles, placed, p);
      var mc := CountNeighborMines(tiles, p);
      tiles := tiles[p := tiles[p].(mines := mc)];
      y := y + 1;
    }
  }

  /** The second pass over the grid: store in every tile the number of mines
      around it. */
  method ComputeAdjacency(sizeX: nat, sizeY: nat, placed: Tiles) returns (tiles: Tiles)
    requires placed.Keys == Grid(sizeX, sizeY)
    ensures tiles.Keys == placed.Keys
    ensures forall p :: p in tiles ==> tiles[p] == placed[p].(mines := |AdjacentMines(placed, p)|)
  {
    tiles := placed;
    var x := 0;
    while x < sizeX
      invariant 0 <= x <= sizeX
      invariant tiles.Keys == placed.Keys && SameMines(tiles, placed)
      invariant forall p :: p in tiles ==> tiles[p] == if p.x < x then Counted(placed, p) else placed[p]
    {
      tiles := CountRow(x, sizeX, sizeY, placed, tiles);
      x := x + 1;
    }
  }

  /** A new game on the given mine layout. Counters start at zero; the score
      is carried over from the previous game, because a restart rebuilds the
      board without resetting it. */
  method NewGame(sizeX: nat, sizeY: nat, layout: seq<seq<bool>>, score: int) returns (g: Game)
    requires LayoutShape(layout, sizeX, sizeY)
    ensures Valid(g)
    ensures g.sizeX == sizeX && g.sizeY == sizeY
    ensures forall p :: p in g.tiles ==> g.tiles[p].isMine == layout[p.x][p.y] && g.tiles[p].state == Default
    ensures forall p :: p in g.tiles ==> 0 <= g.tiles[p].mines <= 8
    ensures g.mines == |LayoutMines(layout, sizeX, sizeY)|
    ensures g.flagCount == 0 && g.correctFlagCount == 0 && g.clickedCount == 0 && g.score == score
  {
    var placed, mines := PlaceMines(sizeX, sizeY, layout);
    var tiles := ComputeAdjacency(sizeX, sizeY, placed);
    MinesDetermineAdjacency(placed, tiles);
    assert MineCells(placed) == LayoutMines(layout, sizeX, sizeY);
    assert CellsIn(tiles, Clicked) == {};
    assert CellsIn(tiles, Flagged) == {};
    assert CorrectFlags(tiles) == {};
    g := Game(sizeX, sizeY, tiles, mines, 0, 0, 0, score);
    forall p | p in g.tiles
      ensures 0 <= g.tiles[p].mines <= 8
    {
      CountsInRange(g.tiles, p);
    }
  }
}
