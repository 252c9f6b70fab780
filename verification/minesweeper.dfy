/**
  The player's actions on a board: a left click reveals a tile (opening the
  area around it when it has no adjacent mine), a right click toggles a flag,
  and at the end of a game every tile is shown with its final image.
 */
module Minesweeper {
  import opened Geometry
  import opened Board
  import opened Cascade

  /** What a left click reports. `Ignored`: the tile is flagged, so the click
      does not reach the board. `Lost`: the tile is a mine. `Won`: every safe
      tile is now revealed. `Playing`: the game goes on. */
  datatype Outcome = Ignored | Lost | Won | Playing

  /** The tiles revealed between boards a and b spread out from p through
      s: s is a chain of revealed zero-count tiles that starts next to p, and
      every revealed tile is p itself or a neighbour of p or of a cell of s. */
  ghost predicate OpenedFrom(a: Tiles, b: Tiles, p: Pos, s: seq<Pos>) {
    && Chained([p], s)
    && (forall z :: z in s ==> Changed(a, b, z) && b[z].mines == 0)
    && (forall q :: Changed(a, b, q) ==> q == p || exists z :: (z == p || z in s) && Adjacent(z, q))
  }

  lemma OpenedFromWorklist(w: Work, r: Work, origin: Pos)
    requires w.queue == [origin] && StaysNear(w, r)
    requires Chained([origin], r.appended)
    requires forall z :: z in r.appended ==> Changed(w.game.tiles, r.game.tiles, z) && r.game.tiles[z].mines == 0
    requires forall q :: Changed(w.game.tiles, r.game.tiles, q) && r.game.tiles[q].mines == 0 ==> q in r.appended
    ensures OpenedFrom(w.game.tiles, r.game.tiles, origin, r.appended)
  {
  }

  /** The cascade started from one clicked tile. The returned work record
      holds the board after the cascade and every cell the cascade appended
      to its worklist. */
  function ClearSurroundingTiles(g: Game, origin: Pos): (r: Work)
    ensures r.queue == []
    ensures r.game == g.(tiles := r.game.tiles, clickedCount := r.game.clickedCount)
    ensures Reveals(g.tiles, r.game.tiles)
    ensures Surplus(r.game) == Surplus(g)
    ensures Settled(r.game.tiles, origin)
    ensures forall p :: Changed(g.tiles, r.game.tiles, p) && r.game.tiles[p].mines == 0 ==> Settled(r.game.tiles, p)
    ensures NoDup(r.appended)
    ensures forall a :: a in r.appended ==> Changed(g.tiles, r.game.tiles, a) && r.game.tiles[a].mines == 0
    ensures forall p :: Changed(g.tiles, r.game.tiles, p) && r.game.tiles[p].mines == 0 ==> p in r.appended
    ensures OpenedFrom(g.tiles, r.game.tiles, origin, r.appended)
    ensures AdjacencyHolds(g.tiles) && origin in g.tiles && g.tiles[origin].mines == 0 ==>
      forall p :: Changed(g.tiles, r.game.tiles, p) ==> !r.game.tiles[p].isMine
  {
    var w := Work(g, [origin], []);
    DrainAppends(w);
    DrainSettles(w);
    DrainStaysNear(w);
    DrainChains([origin], w);
    assert Drain(w).appended[|w.appended|..] == Drain(w).appended;
    OpenedFromWorklist(w, Drain(w), origin);
    if AdjacencyHolds(g.tiles) && origin in g.tiles && g.tiles[origin].mines == 0 then
      DrainRevealsNoMine(w);
      Drain(w)
    else
      Drain(w)
  }

  /** The board after the part of a safe click that precedes marking the
      tile: a tile with no adjacent mine starts the cascade and scores a
      point; a numbered tile leaves the board as it is. */
  function Cleared(g: Game, p: Pos): (r: Game)
    requires p in g.tiles
    ensures r == g.(tiles := r.tiles, clickedCount := r.clickedCount, score := r.score)
    ensures Reveals(g.tiles, r.tiles)
    ensures Surplus(r) == Surplus(g)
    ensures r.score == g.score + (if g.tiles[p].mines == 0 then 1 else 0)
    ensures g.tiles[p].mines != 0 ==> r == g
    ensures AdjacencyHolds(g.tiles) && g.tiles[p].mines == 0 ==>
      forall q :: Changed(g.tiles, r.tiles, q) ==> !r.tiles[q].isMine
  {
    if g.tiles[p].mines == 0 then
      var w := ClearSurroundingTiles(g, p);
      w.game.(score := w.game.score + 1)
    else
      g
  }

  /** Marks the clicked tile revealed, counting it only if the cascade has
      not already revealed (and counted) it. */
  function MarkClicked(g: Game, p: Pos): (r: Game)
    requires p in g.tiles && g.tiles[p].state != Flagged
    ensures r == g.(tiles := r.tiles, clickedCount := r.clickedCount)
    ensures Reveals(g.tiles, r.tiles)
    ensures Surplus(r) == Surplus(g)
    ensures r.tiles[p].state == Clicked
    ensures forall q :: Changed(g.tiles, r.tiles, q) ==> q == p
  {
    var tile := g.tiles[p];
    if tile.state != Clicked then
      var revealed := tile.(state := Clicked);
      CellsInUpdate(g.tiles, p, revealed, Clicked);
      g.(tiles := g.tiles[p := revealed], clickedCount := g.clickedCount + 1)
    else
      g
  }

  /** The total number of safe tiles the win check compares against. */
  function SafeTarget(g: Game): int {
    g.sizeX * g.sizeY - g.mines
  }

  /** A left click on tile p. */
  function Click(g: Game, p: Pos): (r: (Outcome, Game))
    requires p in g.tiles
    ensures r.0 == Ignored <==> g.tiles[p].state == Flagged
    ensures r.0 == Lost <==> g.tiles[p].state != Flagged && g.tiles[p].isMine
    ensures r.0 == Ignored || r.0 == Lost ==> r.1 == g
    ensures r.0 == Won || r.0 == Playing ==>
      && r.1 == g.(tiles := r.1.tiles, clickedCount := r.1.clickedCount, score := r.1.score)
      && Reveals(g.tiles, r.1.tiles)
      && r.1.tiles[p].state == Clicked
      && Surplus(r.1) == Surplus(g)
      && r.1.score == g.score + (if g.tiles[p].mines == 0 then 1 else 0)
    ensures r.0 == Won ==> r.1.clickedCount == SafeTarget(r.1)
    ensures r.0 == Playing ==> r.1.clickedCount != SafeTarget(r.1)
  {
    var tile := g.tiles[p];
    if tile.state == Flagged then (Ignored, g)
    else if tile.isMine then (Lost, g)
    else
      var h := MarkClicked(Cleared(g, p), p);
      (if h.clickedCount == SafeTarget(h) then Won else Playing, h)
  }

  /** Reveals(a, b) keeps both flag sets. */
  lemma RevealsKeepsFlags(a: Tiles, b: Tiles)
    requires Reveals(a, b)
    ensures CellsIn(a, Flagged) == CellsIn(b, Flagged)
    ensures CorrectFlags(a) == CorrectFlags(b)
  {
  }

  /** A reveal that counts each tile once and reveals no mine keeps a game
      valid. */
  lemma RevealKeepsValid(g: Game, h: Game)
    requires Valid(g)
    requires h == g.(tiles := h.tiles, clickedCount := h.clickedCount, score := h.score)
    requires Reveals(g.tiles, h.tiles)
    requires Surplus(h) == Surplus(g)
    requires forall q :: Changed(g.tiles, h.tiles, q) ==> !h.tiles[q].isMine
    ensures Valid(h)
  {
    RevealsKeepsLayout(g.tiles, h.tiles);
    LayoutKeepsAdjacency(g.tiles, h.tiles);
    RevealsKeepsFlags(g.tiles, h.tiles);
  }

  /** Two reveals that uncover no mine, the second only at a safe cell p,
      together uncover no mine. */
  lemma NoMineCompose(a: Tiles, b: Tiles, c: Tiles, p: Pos)
    requires Reveals(a, b) && Reveals(b, c)
    requires forall q :: Changed(a, b, q) ==> !b[q].isMine
    requires forall q :: Changed(b, c, q) ==> q == p
    requires p in a && !a[p].isMine
    ensures forall q :: Changed(a, c, q) ==> !c[q].isMine
  {
    forall q | Changed(a, c, q)
      ensures !c[q].isMine
    {
      ChangedSplit(a, b, c, q);
    }
  }

  /** A click on a safe tile reveals no mine. */
  lemma SafeClickRevealsNoMine(g: Game, p: Pos)
    requires Valid(g) && p in g.tiles
    requires g.tiles[p].state != Flagged && !g.tiles[p].isMine
    ensures forall q :: Changed(g.tiles, Click(g, p).1.tiles, q) ==> !Click(g, p).1.tiles[q].isMine
  {
    var c := Cleared(g, p);
    var h := MarkClicked(c, p);
    assert Click(g, p).1 == h;
    NoMineCompose(g.tiles, c.tiles, h.tiles, p);
  }

  /** Every click keeps the game invariant: the counters keep agreeing with
      the tiles (the clicked tile is counted once, whether the cascade or the
      click itself reveals it), and no mine is ever revealed. */
  lemma ClickKeepsValid(g: Game, p: Pos)
    requires Valid(g) && p in g.tiles
    ensures Valid(Click(g, p).1)
  {
    var tile := g.tiles[p];
    if tile.state != Flagged && !tile.isMine {
      SafeClickRevealsNoMine(g, p);
      RevealKeepsValid(g, Click(g, p).1);
    }
  }

  /** Two sets of which one contains the other and which have the same size
      are equal. */
  lemma SubsetSameSize<T>(a: set<T>, b: set<T>)
    requires a <= b && |a| == |b|
    ensures a == b
  {
    assert b == a + (b - a);
    assert a * (b - a) == {};
    assert |b - a| == 0;
  }

  /** Removing a subset removes its size. */
  lemma DifferenceSize<T>(a: set<T>, b: set<T>)
    requires b <= a
    ensures |a - b| == |a| - |b|
  {
    assert a == b + (a - b);
    assert b * (a - b) == {};
  }

  /** Counting the revealed cells decides whether they are all the safe
      cells. */
  lemma CountDecidesCover<T>(all: set<T>, mines: set<T>, clicked: set<T>)
    requires mines <= all && clicked <= all - mines
    ensures |clicked| == |all| - |mines| <==> clicked == all - mines
  {
    DifferenceSize(all, mines);
    if |clicked| == |all| - |mines| {
      SubsetSameSize(clicked, all - mines);
    }
  }

  /** Every safe tile is revealed. */
  predicate AllSafeRevealed(g: Game) {
    forall p :: p in g.tiles && !g.tiles[p].isMine ==> g.tiles[p].state == Clicked
  }

  /** When no mine is revealed, the revealed cells are the safe cells exactly
      when every safe tile is revealed. */
  lemma CoverMeansAllSafe(g: Game)
    requires NoMineClicked(g.tiles)
    ensures CellsIn(g.tiles, Clicked) == g.tiles.Keys - MineCells(g.tiles) <==> AllSafeRevealed(g)
  {
    var safe := g.tiles.Keys - MineCells(g.tiles);
    if AllSafeRevealed(g) {
      assert forall p :: p in safe ==> p in CellsIn(g.tiles, Clicked);
      assert CellsIn(g.tiles, Clicked) == safe;
    }
    if CellsIn(g.tiles, Clicked) == safe {
      forall p | p in g.tiles && !g.tiles[p].isMine
        ensures g.tiles[p].state == Clicked
      {
        assert p in safe;
      }
    }
  }

  /** On a valid board the win check, which compares a counter with the
      number of cells minus the number of mines, holds exactly when every
      safe tile is revealed. */
  lemma WinCheckMeansAllSafeRevealed(g: Game)
    requires Valid(g)
    ensures g.clickedCount == SafeTarget(g) <==> AllSafeRevealed(g)
  {
    GridSize(g.sizeX, g.sizeY);
    CountDecidesCover(g.tiles.Keys, MineCells(g.tiles), CellsIn(g.tiles, Clicked));
    CoverMeansAllSafe(g);
  }

  /** On a valid board a safe click wins exactly when it leaves every safe
      tile revealed. */
  lemma ClickWinsIffAllSafeRevealed(g: Game, p: Pos)
    requires Valid(g) && p in g.tiles
    requires g.tiles[p].state != Flagged && !g.tiles[p].isMine
    ensures Click(g, p).0 == Won <==> AllSafeRevealed(Click(g, p).1)
  {
    ClickKeepsValid(g, p);
    WinCheckMeansAllSafeRevealed(Click(g, p).1);
  }

  /** Marking the clicked tile after the cascade keeps the revealed region
      spreading out from it. */
  lemma OpenedFromCompose(a: Tiles, b: Tiles, c: Tiles, p: Pos, s: seq<Pos>)
    requires Reveals(a, b) && Reveals(b, c)
    requires OpenedFrom(a, b, p, s)
    requires forall q :: Changed(b, c, q) ==> q == p
    ensures OpenedFrom(a, c, p, s)
  {
    forall z | z in s
      ensures Changed(a, c, z) && c[z].mines == 0
    {
      ChangedSplit(a, b, c, z);
    }
    forall q | Changed(a, c, q) && q != p
      ensures exists z :: (z == p || z in s) && Adjacent(z, q)
    {
      ChangedSplit(a, b, c, q);
    }
  }

  /** Marking one more tile keeps the cells a cascade settled settled. */
  lemma SettledCompose(a: Tiles, b: Tiles, c: Tiles, p: Pos)
    requires Reveals(a, b) && Reveals(b, c)
    requires Settled(b, p)
    requires forall q :: Changed(a, b, q) && b[q].mines == 0 ==> Settled(b, q)
    requires forall q :: Changed(b, c, q) ==> q == p
    ensures Settled(c, p)
    ensures forall q :: Changed(a, c, q) && c[q].mines == 0 ==> Settled(c, q)
  {
    RevealsKeepsSettled(b, c, p);
    forall q | Changed(a, c, q) && c[q].mines == 0
      ensures Settled(c, q)
    {
      ChangedSplit(a, b, c, q);
      if q != p {
        RevealsKeepsSettled(b, c, q);
      }
    }
  }

  /** A click on a zero-count tile opens a connected region: afterwards the
      clicked tile and every zero-count tile the click revealed have no
      untouched neighbour, and every tile it revealed is the clicked tile or
      a neighbour of it or of a tile on the chain of revealed zero-count
      tiles that the cascade walked outward from it. */
  lemma ClickOpensRegion(g: Game, p: Pos)
    requires p in g.tiles
    requires g.tiles[p].state != Flagged && !g.tiles[p].isMine && g.tiles[p].mines == 0
    ensures var h := Click(g, p).1;
      && Settled(h.tiles, p)
      && (forall q :: Changed(g.tiles, h.tiles, q) && h.tiles[q].mines == 0 ==> Settled(h.tiles, q))
      && OpenedFrom(g.tiles, h.tiles, p, ClearSurroundingTiles(g, p).appended)
  {
    var c := Cleared(g, p);
    var h := MarkClicked(c, p);
    assert Click(g, p).1 == h;
    assert c.tiles == ClearSurroundingTiles(g, p).game.tiles;
    SettledCompose(g.tiles, c.tiles, h.tiles, p);
    OpenedFromCompose(g.tiles, c.tiles, h.tiles, p, ClearSurroundingTiles(g, p).appended);
  }

  /** A click on a numbered tile reveals that tile and nothing else. */
  lemma ClickOnNumberRevealsOnlyIt(g: Game, p: Pos)
    requires p in g.tiles
    requires g.tiles[p].state != Flagged && !g.tiles[p].isMine && g.tiles[p].mines != 0
    ensures forall q :: Changed(g.tiles, Click(g, p).1.tiles, q) ==> q == p
    ensures Click(g, p).1.score == g.score
  {
    assert Click(g, p).1 == MarkClicked(g, p);
  }

  /** The clicked tile is still untouched while its cascade runs, so when it
      has an untouched zero-count neighbour, that neighbour reveals it and
      appends it to the worklist a second time. (Marking it afterwards does
      not count it again: see ClickKeepsValid.) */
  lemma OriginAppendedAgain(g: Game, o: Pos, n: Pos)
    requires o in g.tiles && g.tiles[o].state == Default && g.tiles[o].mines == 0
    requires n in g.tiles && g.tiles[n].state == Default && g.tiles[n].mines == 0
    requires Adjacent(o, n)
    ensures o in ClearSurroundingTiles(g, o).appended
  {
    var r := ClearSurroundingTiles(g, o);
    AdjacentSymmetric(o, n);
    assert r.game.tiles[n].state != Default;
    assert Changed(g.tiles, r.game.tiles, n);
    assert r.game.tiles[o].state != Default;
    assert Changed(g.tiles, r.game.tiles, o);
  }

  /** A right click on tile p: an untouched tile becomes flagged, a flagged
      tile untouched, and a revealed tile stays as it is. */
  function ToggleFlag(g: Game, p: Pos): (r: Game)
    requires p in g.tiles
    ensures r.tiles.Keys == g.tiles.Keys
    ensures forall q :: q in g.tiles && q != p ==> r.tiles[q] == g.tiles[q]
    ensures r.tiles[p].isMine == g.tiles[p].isMine && r.tiles[p].mines == g.tiles[p].mines
    ensures r == g.(tiles := r.tiles, flagCount := r.flagCount, correctFlagCount := r.correctFlagCount)
    ensures g.tiles[p].state == Default ==>
      && r.tiles[p].state == Flagged
      && r.flagCount == g.flagCount + 1
      && (r.correctFlagCount == g.correctFlagCount + 1 <==> g.tiles[p].isMine)
      && (r.correctFlagCount == g.correctFlagCount <==> !g.tiles[p].isMine)
    ensures g.tiles[p].state == Flagged ==>
      && r.tiles[p].state == Default
      && r.flagCount == g.flagCount - 1
      && (r.correctFlagCount == g.correctFlagCount - 1 <==> g.tiles[p].isMine)
      && (r.correctFlagCount == g.correctFlagCount <==> !g.tiles[p].isMine)
    ensures g.tiles[p].state == Clicked ==> r == g
  {
    var tile := g.tiles[p];
    match tile.state
    case Default =>
      g.(tiles := g.tiles[p := tile.(state := Flagged)],
         correctFlagCount := if tile.isMine then g.correctFlagCount + 1 else g.correctFlagCount,
         flagCount := g.flagCount + 1)
    case Flagged =>
      g.(tiles := g.tiles[p := tile.(state := Default)],
         correctFlagCount := if tile.isMine then g.correctFlagCount - 1 else g.correctFlagCount,
         flagCount := g.flagCount - 1)
    case Clicked => g
  }

  /** Moving one tile between untouched and flagged changes neither the
      layout nor the revealed tiles. */
  lemma FlagChangeKeepsReveals(a: Tiles, p: Pos, t: Tile)
    requires p in a && a[p].state != Clicked
    requires t == a[p].(state := t.state) && t.state != Clicked
    ensures SameLayout(a, a[p := t])
    ensures CellsIn(a[p := t], Clicked) == CellsIn(a, Clicked)
    ensures NoMineClicked(a) ==> NoMineClicked(a[p := t])
  {
    CellsInUpdate(a, p, t, Clicked);
  }

  /** A right click keeps each flag counter equal to the number of flags it
      counts. */
  lemma ToggleFlagCounts(g: Game, p: Pos)
    requires p in g.tiles
    requires g.flagCount == |CellsIn(g.tiles, Flagged)|
    requires g.correctFlagCount == |CorrectFlags(g.tiles)|
    ensures ToggleFlag(g, p).flagCount == |CellsIn(ToggleFlag(g, p).tiles, Flagged)|
    ensures ToggleFlag(g, p).correctFlagCount == |CorrectFlags(ToggleFlag(g, p).tiles)|
  {
    var h := ToggleFlag(g, p);
    assert h.tiles == g.tiles[p := h.tiles[p]];
    CellsInUpdate(g.tiles, p, h.tiles[p], Flagged);
    CorrectFlagsUpdate(g.tiles, p, h.tiles[p]);
  }

  /** A right click keeps the game invariant. */
  lemma ToggleFlagKeepsValid(g: Game, p: Pos)
    requires Valid(g) && p in g.tiles
    ensures Valid(ToggleFlag(g, p))
  {
    var h := ToggleFlag(g, p);
    if g.tiles[p].state != Clicked {
      var t := h.tiles[p];
      assert h.tiles == g.tiles[p := t];
      FlagChangeKeepsReveals(g.tiles, p, t);
      LayoutKeepsAdjacency(g.tiles, h.tiles);
      ToggleFlagCounts(g, p);
    }
  }

  /** Two right clicks on the same tile restore the tile and both counters. */
  lemma ToggleFlagTwice(g: Game, p: Pos)
    requires p in g.tiles
    ensures ToggleFlag(ToggleFlag(g, p), p) == g
  {
    var once := ToggleFlag(g, p);
    var twice := ToggleFlag(once, p);
    assert twice.tiles == g.tiles;
  }

  /** The image a tile shows while the game runs. */
  datatype Image = Plain | Blank | Number(count: int) | Flag | Wrong | MineShown

  function Shown(t: Tile): (r: Image)
    ensures r == Plain <==> t.state == Default
    ensures r == Flag <==> t.state == Flagged
    ensures r == Blank <==> t.state == Clicked && t.mines == 0
    ensures r.Number? <==> t.state == Clicked && t.mines != 0
    ensures r.Number? ==> r.count == t.mines
    ensures r != Wrong && r != MineShown
  {
    match t.state
    case Default => Plain
    case Flagged => Flag
    case Clicked => if t.mines == 0 then Blank else Number(t.mines)
  }

  /** A revealed numbered tile on a valid board shows one of the eight number
      images. */
  lemma NumberImageInRange(g: Game, p: Pos)
    requires Valid(g) && p in g.tiles
    ensures Shown(g.tiles[p]).Number? ==> 1 <= Shown(g.tiles[p]).count <= 8
  {
    CountsInRange(g.tiles, p);
  }

  /** The image a tile shows once the game is over: a flag on a safe tile is
      shown as wrong, an unflagged mine is shown as a mine, and every other
      tile keeps its image. */
  function GameOverImage(t: Tile): (r: Image)
    ensures r == Wrong <==> !t.isMine && t.state == Flagged
    ensures r == MineShown <==> t.isMine && t.state != Flagged
    ensures r != Wrong && r != MineShown ==> r == Shown(t)
  {
    if !t.isMine && t.state == Flagged then Wrong
    else if t.isMine && t.state != Flagged then MineShown
    else Shown(t)
  }

  /** At the end of a game on a valid board every mine is visible, as a mine
      or under its flag, and no safe tile is shown as a mine. */
  lemma GameOverShowsMines(g: Game, p: Pos)
    requires Valid(g) && p in g.tiles
    ensures g.tiles[p].isMine ==> GameOverImage(g.tiles[p]) in {MineShown, Flag}
    ensures !g.tiles[p].isMine ==> GameOverImage(g.tiles[p]) != MineShown
    ensures GameOverImage(g.tiles[p]).Number? ==> !g.tiles[p].isMine && 1 <= GameOverImage(g.tiles[p]).count <= 8
  {
    CountsInRange(g.tiles, p);
  }
}
