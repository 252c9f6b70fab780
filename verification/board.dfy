/**
  The board of one game: its tiles, the counters the game keeps beside them,
  and the invariant that ties the two together.
 */
module Board {
  import opened Geometry

  /** The three tile states: untouched, revealed, flagged. */
  datatype State = Default | Clicked | Flagged

  /** One tile. `isMine` and `mines` (the number of adjacent mines) are fixed
      when the board is built; only `state` changes during play. The tile's
      coordinates are its key in the board's map. */
  datatype Tile = Tile(isMine: bool, state: State, mines: int)

  type Tiles = map<Pos, Tile>

  /** A game in progress. `mines` is the number of mines on the board;
      `flagCount`, `correctFlagCount` and `clickedCount` are the running
      counters the game updates as tiles change; `score` counts clicks on
      tiles with no adjacent mine. */
  datatype Game = Game(
    sizeX: nat,
    sizeY: nat,
    tiles: Tiles,
    mines: int,
    flagCount: int,
    correctFlagCount: int,
    clickedCount: int,
    score: int)

  function MineCells(tiles: Tiles): set<Pos> {
    set p | p in tiles && tiles[p].isMine
  }

  function CellsIn(tiles: Tiles, s: State): set<Pos> {
    set p | p in tiles && tiles[p].state == s
  }

  function CorrectFlags(tiles: Tiles): set<Pos> {
    set p | p in tiles && tiles[p].isMine && tiles[p].state == Flagged
  }

  /** The mines among the cells around p. */
  function AdjacentMines(tiles: Tiles, p: Pos): set<Pos> {
    set q | q in tiles && tiles[q].isMine && Adjacent(p, q)
  }

  /** The tiles cover exactly the sizeX-by-sizeY grid. */
  predicate Shaped(g: Game) {
    g.tiles.Keys == Grid(g.sizeX, g.sizeY)
  }

  /** Every tile's stored count is the number of mines around it. */
  predicate AdjacencyHolds(tiles: Tiles) {
    forall p :: p in tiles ==> tiles[p].mines == |AdjacentMines(tiles, p)|
  }

  predicate NoMineClicked(tiles: Tiles) {
    forall p :: p in tiles && tiles[p].state == Clicked ==> !tiles[p].isMine
  }

  /** Each running counter equals the number of tiles it claims to count. */
  predicate CountersAgree(g: Game) {
    && g.clickedCount == |CellsIn(g.tiles, Clicked)|
    && g.flagCount == |CellsIn(g.tiles, Flagged)|
    && g.correctFlagCount == |CorrectFlags(g.tiles)|
  }

  /** The invariant of a game between two user actions. */
  predicate Valid(g: Game) {
    && Shaped(g)
    && AdjacencyHolds(g.tiles)
    && g.mines == |MineCells(g.tiles)|
    && CountersAgree(g)
    && NoMineClicked(g.tiles)
  }

  // How each counted set changes when one tile is replaced.

  lemma MineCellsUpdate(tiles: Tiles, p: Pos, t: Tile)
    ensures MineCells(tiles[p := t]) == (MineCells(tiles) - {p}) + (if t.isMine then {p} else {})
  {
  }

  lemma CellsInUpdate(tiles: Tiles, p: Pos, t: Tile, s: State)
    ensures CellsIn(tiles[p := t], s) == (CellsIn(tiles, s) - {p}) + (if t.state == s then {p} else {})
  {
  }

  lemma CorrectFlagsUpdate(tiles: Tiles, p: Pos, t: Tile)
    ensures CorrectFlags(tiles[p := t]) ==
      (CorrectFlags(tiles) - {p}) + (if t.isMine && t.state == Flagged then {p} else {})
  {
  }

  /** Two tile maps over the same cells with the same mines and counts. */
  predicate SameLayout(a: Tiles, b: Tiles) {
    && a.Keys == b.Keys
    && forall p :: p in a ==> b[p].isMine == a[p].isMine && b[p].mines == a[p].mines
  }

  /** b arises from a by revealing some untouched tiles and nothing else. */
  predicate Reveals(a: Tiles, b: Tiles) {
    && a.Keys == b.Keys
    && forall p :: p in a ==> b[p] == a[p] || (a[p].state == Default && b[p] == a[p].(state := Clicked))
  }

  /** The tile at p went from untouched to revealed between a and b. */
  predicate Changed(a: Tiles, b: Tiles, p: Pos) {
    p in a && p in b && a[p].state == Default && b[p].state == Clicked
  }

  lemma RevealsTransitive(a: Tiles, b: Tiles, c: Tiles)
    requires Reveals(a, b) && Reveals(b, c)
    ensures Reveals(a, c)
  {
  }

  lemma RevealsKeepsLayout(a: Tiles, b: Tiles)
    requires Reveals(a, b)
    ensures SameLayout(a, b)
  {
  }

  /** Two tile maps over the same cells with the same mines. */
  predicate SameMines(a: Tiles, b: Tiles) {
    && a.Keys == b.Keys
    && forall p :: p in a ==> b[p].isMine == a[p].isMine
  }

  /** The set of mines, and the mines around every cell, depend on nothing
      but where the mines are. */
  lemma {:induction false} MinesDetermineAdjacency(a: Tiles, b: Tiles)
    requires SameMines(a, b)
    ensures MineCells(a) == MineCells(b)
    ensures forall p :: AdjacentMines(a, p) == AdjacentMines(b, p)
  {
    forall p
      ensures AdjacentMines(a, p) == AdjacentMines(b, p)
    {
    }
  }

  /** The mines around one cell depend on nothing but where the mines are. */
  lemma MinesDetermineAdjacencyAt(a: Tiles, b: Tiles, p: Pos)
    requires SameMines(a, b)
    ensures AdjacentMines(a, p) == AdjacentMines(b, p)
  {
  }

  /** Changing tile states never breaks the adjacency invariant. */
  lemma LayoutKeepsAdjacency(a: Tiles, b: Tiles)
    requires SameLayout(a, b)
    ensures MineCells(a) == MineCells(b)
    ensures AdjacencyHolds(a) ==> AdjacencyHolds(b)
  {
    MinesDetermineAdjacency(a, b);
  }

  /** A tile whose count is zero has no mine around it. */
  lemma ZeroCountHasSafeNeighbors(tiles: Tiles, z: Pos, p: Pos)
    requires AdjacencyHolds(tiles)
    requires z in tiles && tiles[z].mines == 0
    requires p in tiles && Adjacent(z, p)
    ensures !tiles[p].isMine
  {
    var around := AdjacentMines(tiles, z);
    assert |around| == 0;
    assert p !in around;
  }

  /** No tile has more than eight adjacent mines. */
  lemma AdjacentMinesBound(tiles: Tiles, p: Pos)
    ensures 0 <= |AdjacentMines(tiles, p)| <= 8
  {
    AdjacentSetBound(tiles, p, AdjacentMines(tiles, p));
  }

  /** On a board whose counts are correct, every count lies in 0..8. */
  lemma CountsInRange(tiles: Tiles, p: Pos)
    requires AdjacencyHolds(tiles) && p in tiles
    ensures 0 <= tiles[p].mines <= 8
  {
    AdjacentMinesBound(tiles, p);
  }
}
