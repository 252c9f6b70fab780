/**
  The cascade that opens the area around a tile with no adjacent mine: a
  breadth-first worklist of cells. Each popped cell has every untouched
  neighbour revealed; a revealed neighbour with no adjacent mine is appended
  to the worklist, a numbered one is revealed but not expanded.
 */
module Cascade {
  import opened Geometry
  import opened Board

  /** The worklist state: the game, the cells waiting to be expanded, and
      every cell a reveal has appended to the worklist so far. */
  datatype Work = Work(game: Game, queue: seq<Pos>, appended: seq<Pos>)

  function DefaultCount(g: Game): nat {
    |CellsIn(g.tiles, Default)|
  }

  /** How far the click counter is ahead of the number of revealed tiles. An
      operation that keeps it fixed counts each tile it reveals exactly once. */
  function Surplus(g: Game): int {
    g.clickedCount - |CellsIn(g.tiles, Clicked)|
  }

  /** Every untouched cell around p has been revealed (or p has no untouched
      neighbours at all). */
  predicate Settled(tiles: Tiles, p: Pos) {
    forall q :: q in tiles && Adjacent(p, q) ==> tiles[q].state != Default
  }

  /** Reveals one neighbour if it is untouched, counting it and, when it has
      no adjacent mine, appending it to the worklist. */
  function ClearTile(w: Work, t: Pos): (r: Work)
    requires t in w.game.tiles
    ensures r.game == w.game.(tiles := r.game.tiles, clickedCount := r.game.clickedCount)
    ensures Reveals(w.game.tiles, r.game.tiles)
    ensures Surplus(r.game) == Surplus(w.game)
    ensures r.game.tiles[t].state != Default
    ensures DefaultCount(r.game) <= DefaultCount(w.game)
    ensures DefaultCount(r.game) == DefaultCount(w.game) ==> r.queue == w.queue && r.appended == w.appended
    ensures forall q :: Changed(w.game.tiles, r.game.tiles, q) ==> q == t
    ensures Changed(w.game.tiles, r.game.tiles, t) <==> w.game.tiles[t].state == Default
    ensures var grows := Changed(w.game.tiles, r.game.tiles, t) && w.game.tiles[t].mines == 0;
      && r.queue == (if grows then w.queue + [t] else w.queue)
      && r.appended == (if grows then w.appended + [t] else w.appended)
  {
    var tile := w.game.tiles[t];
    if tile.state != Default then w
    else
      var revealed := tile.(state := Clicked);
      CellsInUpdate(w.game.tiles, t, revealed, Default);
      CellsInUpdate(w.game.tiles, t, revealed, Clicked);
      var game := w.game.(tiles := w.game.tiles[t := revealed], clickedCount := w.game.clickedCount + 1);
      if tile.mines == 0 then Work(game, w.queue + [t], w.appended + [t])
      else Work(game, w.queue, w.appended)
  }

  /** Clears every cell of a neighbour list in order. */
  function ClearTiles(w: Work, ns: seq<Pos>): (r: Work)
    requires forall t :: t in ns ==> t in w.game.tiles
    ensures r.game == w.game.(tiles := r.game.tiles, clickedCount := r.game.clickedCount)
    ensures Reveals(w.game.tiles, r.game.tiles)
    ensures Surplus(r.game) == Surplus(w.game)
    ensures forall t :: t in ns ==> r.game.tiles[t].state != Default
    ensures DefaultCount(r.game) <= DefaultCount(w.game)
    ensures DefaultCount(r.game) == DefaultCount(w.game) ==> r.queue == w.queue && r.appended == w.appended
    decreases |ns|
  {
    if ns == [] then w
    else ClearTiles(ClearTile(w, ns[0]), ns[1..])
  }

  /** One round of the worklist: pop the first cell and clear its
      neighbours. */
  function Round(w: Work): (r: Work)
    requires w.queue != []
    ensures r.game == w.game.(tiles := r.game.tiles, clickedCount := r.game.clickedCount)
    ensures Reveals(w.game.tiles, r.game.tiles)
    ensures Surplus(r.game) == Surplus(w.game)
    ensures DefaultCount(r.game) <= DefaultCount(w.game)
    ensures DefaultCount(r.game) == DefaultCount(w.game) ==> r.queue == w.queue[1..]
  {
    ClearTiles(w.(queue := w.queue[1..]), Neighbors(w.game.tiles, w.queue[0]))
  }

  /** Runs the worklist until it is empty. Each round either reveals a tile
      or shortens the worklist, so the pair (untouched tiles, worklist length)
      decreases. */
  function Drain(w: Work): (r: Work)
    ensures r.queue == []
    ensures r.game == w.game.(tiles := r.game.tiles, clickedCount := r.game.clickedCount)
    ensures Reveals(w.game.tiles, r.game.tiles)
    ensures Surplus(r.game) == Surplus(w.game)
    decreases DefaultCount(w.game), |w.queue|
  {
    if w.queue == [] then w else Drain(Round(w))
  }

  /** A cell the cascade started from or opened: the neighbours of such a cell
      are the only ones it may reveal. */
  predicate Expanded(w: Work, r: Work, z: Pos) {
    z in w.queue || (Changed(w.game.tiles, r.game.tiles, z) && r.game.tiles[z].mines == 0)
  }

  lemma RevealsKeepsSettled(a: Tiles, b: Tiles, p: Pos)
    requires Reveals(a, b) && Settled(a, p)
    ensures Settled(b, p)
  {
  }

  /** A change across two reveals happened in the first or in the second. */
  lemma ChangedSplit(a: Tiles, b: Tiles, c: Tiles, p: Pos)
    requires Reveals(a, b) && Reveals(b, c)
    ensures Changed(a, c, p) <==> Changed(a, b, p) || Changed(b, c, p)
  {
  }

  /** The cells appended to the worklist between w and r. */
  function Fresh(w: Work, r: Work): seq<Pos>
    requires |w.queue| <= |r.queue|
  {
    r.queue[|w.queue|..]
  }

  /** Between w and r the worklist (and the record of appended cells) only
      grew at the end. */
  ghost predicate QueueGrows(w: Work, r: Work) {
    && |w.queue| <= |r.queue|
    && r.queue[..|w.queue|] == w.queue
    && r.appended == w.appended + Fresh(w, r)
  }

  /** The appended cells are distinct zero-count cells revealed between w
      and r. */
  ghost predicate FreshAreZeros(w: Work, r: Work)
    requires |w.queue| <= |r.queue|
  {
    && NoDup(Fresh(w, r))
    && forall a :: a in Fresh(w, r) ==> Changed(w.game.tiles, r.game.tiles, a) && r.game.tiles[a].mines == 0
  }

  /** Every zero-count cell revealed between w and r was appended. */
  ghost predicate ZerosAreFresh(w: Work, r: Work)
    requires |w.queue| <= |r.queue|
  {
    forall p :: Changed(w.game.tiles, r.game.tiles, p) && r.game.tiles[p].mines == 0 ==> p in Fresh(w, r)
  }

  /** Only cells of ns were revealed between w and r. */
  ghost predicate ChangedWithin(w: Work, r: Work, ns: seq<Pos>) {
    forall p :: Changed(w.game.tiles, r.game.tiles, p) ==> p in ns
  }

  /** What a pass over the cells ns did between w and r: it revealed only
      cells of ns, and appended to the worklist, once each, exactly the
      zero-count cells it revealed. */
  ghost predicate PassFacts(w: Work, r: Work, ns: seq<Pos>) {
    && Reveals(w.game.tiles, r.game.tiles)
    && QueueGrows(w, r)
    && FreshAreZeros(w, r)
    && ZerosAreFresh(w, r)
    && ChangedWithin(w, r, ns)
  }

  lemma ClearTileEffect(w: Work, t: Pos)
    requires t in w.game.tiles
    ensures PassFacts(w, ClearTile(w, t), [t])
  {
    var r := ClearTile(w, t);
    assert r.queue[..|w.queue|] == w.queue;
    if Changed(w.game.tiles, r.game.tiles, t) && r.game.tiles[t].mines == 0 {
      assert Fresh(w, r) == [t];
    } else {
      assert Fresh(w, r) == [];
    }
  }

  lemma QueueCompose(w: Work, w1: Work, r: Work)
    requires QueueGrows(w, w1) && QueueGrows(w1, r)
    ensures QueueGrows(w, r)
    ensures Fresh(w, r) == Fresh(w, w1) + Fresh(w1, r)
  {
    assert w1.queue == w.queue + Fresh(w, w1);
    assert r.queue == w1.queue + Fresh(w1, r);
    assert r.queue == w.queue + (Fresh(w, w1) + Fresh(w1, r));
    assert r.queue[..|w.queue|] == w.queue;
  }

  lemma FreshCompose(w: Work, w1: Work, r: Work)
    requires Reveals(w.game.tiles, w1.game.tiles) && Reveals(w1.game.tiles, r.game.tiles)
    requires QueueGrows(w, w1) && QueueGrows(w1, r)
    requires FreshAreZeros(w, w1) && FreshAreZeros(w1, r)
    requires Fresh(w, r) == Fresh(w, w1) + Fresh(w1, r)
    ensures FreshAreZeros(w, r)
  {
    var a1, a2 := Fresh(w, w1), Fresh(w1, r);
    assert forall a :: a in a1 ==> w1.game.tiles[a].state == Clicked;
    assert forall a :: a in a2 ==> w1.game.tiles[a].state == Default;
    NoDupConcat(a1, a2);
    forall a | a in a1 + a2
      ensures Changed(w.game.tiles, r.game.tiles, a) && r.game.tiles[a].mines == 0
    {
      if a in a1 {
        assert Changed(w.game.tiles, w1.game.tiles, a) && w1.game.tiles[a].mines == 0;
      } else {
        assert a in a2;
        ChangedSplit(w.game.tiles, w1.game.tiles, r.game.tiles, a);
      }
    }
  }

  lemma ZerosCompose(w: Work, w1: Work, r: Work)
    requires Reveals(w.game.tiles, w1.game.tiles) && Reveals(w1.game.tiles, r.game.tiles)
    requires QueueGrows(w, w1) && QueueGrows(w1, r)
    requires ZerosAreFresh(w, w1) && ZerosAreFresh(w1, r)
    requires Fresh(w, r) == Fresh(w, w1) + Fresh(w1, r)
    ensures ZerosAreFresh(w, r)
  {
    forall p | Changed(w.game.tiles, r.game.tiles, p) && r.game.tiles[p].mines == 0
      ensures p in Fresh(w, r)
    {
      ChangedSplit(w.game.tiles, w1.game.tiles, r.game.tiles, p);
      if Changed(w.game.tiles, w1.game.tiles, p) {
        assert w1.game.tiles[p].mines == 0;
        assert p in Fresh(w, w1);
      } else {
        assert p in Fresh(w1, r);
      }
    }
  }

  lemma WithinCompose(w: Work, w1: Work, r: Work, ns1: seq<Pos>, ns2: seq<Pos>)
    requires Reveals(w.game.tiles, w1.game.tiles) && Reveals(w1.game.tiles, r.game.tiles)
    requires ChangedWithin(w, w1, ns1) && ChangedWithin(w1, r, ns2)
    ensures ChangedWithin(w, r, ns1 + ns2)
  {
    forall p | Changed(w.game.tiles, r.game.tiles, p)
      ensures p in ns1 + ns2
    {
      ChangedSplit(w.game.tiles, w1.game.tiles, r.game.tiles, p);
    }
  }

  /** Two passes in a row make one pass over both lists. */
  lemma PassCompose(w: Work, w1: Work, r: Work, ns1: seq<Pos>, ns2: seq<Pos>)
    requires PassFacts(w, w1, ns1) && PassFacts(w1, r, ns2)
    ensures PassFacts(w, r, ns1 + ns2)
  {
    QueueCompose(w, w1, r);
    FreshCompose(w, w1, r);
    ZerosCompose(w, w1, r);
    WithinCompose(w, w1, r, ns1, ns2);
    RevealsTransitive(w.game.tiles, w1.game.tiles, r.game.tiles);
  }

  lemma PassEmpty(w: Work)
    ensures PassFacts(w, w, [])
  {
    assert Fresh(w, w) == [];
    assert w.queue[..|w.queue|] == w.queue;
  }

  /** A pass over a neighbour list. */
  lemma {:induction false} ClearTilesEffect(w: Work, ns: seq<Pos>)
    requires forall t :: t in ns ==> t in w.game.tiles
    ensures PassFacts(w, ClearTiles(w, ns), ns)
    decreases |ns|
  {
    if ns == [] {
      PassEmpty(w);
    } else {
      var w1 := ClearTile(w, ns[0]);
      var r := ClearTiles(w1, ns[1..]);
      assert ClearTiles(w, ns) == r;
      assert [ns[0]] + ns[1..] == ns;
      ClearTileEffect(w, ns[0]);
      ClearTilesEffect(w1, ns[1..]);
      PassCompose(w, w1, r, [ns[0]], ns[1..]);
    }
  }

  /** What one round does to the worklist, stated without the functions
      that compute it. */
  ghost predicate RoundFacts(w: Work, w1: Work) {
    && w.queue != []
    && Reveals(w.game.tiles, w1.game.tiles)
    && |w.queue| - 1 <= |w1.queue|
    && w1.queue[..|w.queue| - 1] == w.queue[1..]
    && w1.appended == w.appended + w1.queue[|w.queue| - 1..]
    && NoDup(w1.queue[|w.queue| - 1..])
    && (forall a :: a in w1.queue[|w.queue| - 1..] ==>
          Changed(w.game.tiles, w1.game.tiles, a) && w1.game.tiles[a].mines == 0)
    && (forall p :: Changed(w.game.tiles, w1.game.tiles, p) && w1.game.tiles[p].mines == 0 ==>
          p in w1.queue[|w.queue| - 1..])
    && (forall p :: Changed(w.game.tiles, w1.game.tiles, p) ==> Adjacent(w.queue[0], p))
    && Settled(w1.game.tiles, w.queue[0])
  }

  lemma RoundEffect(w: Work)
    requires w.queue != []
    ensures RoundFacts(w, Round(w))
  {
    var w0 := w.(queue := w.queue[1..]);
    var ns := Neighbors(w.game.tiles, w.queue[0]);
    ClearTilesEffect(w0, ns);
    assert Round(w) == ClearTiles(w0, ns);
    assert PassFacts(w0, Round(w), ns);
  }

  /** A round keeps the appended cells duplicate-free and revealed. */
  lemma AppendsTracked(w: Work, w1: Work)
    requires RoundFacts(w, w1)
    requires NoDup(w.appended)
    requires forall a :: a in w.appended ==> a in w.game.tiles && w.game.tiles[a].state != Default
    ensures NoDup(w1.appended)
    ensures forall a :: a in w1.appended ==> a in w1.game.tiles && w1.game.tiles[a].state != Default
  {
    var f := w1.queue[|w.queue| - 1..];
    assert forall a :: a in w.appended ==> a !in f;
    NoDupConcat(w.appended, f);
    forall a | a in w1.appended
      ensures a in w1.game.tiles && w1.game.tiles[a].state != Default
    {
      if a !in w.appended {
        assert a in f;
        assert Changed(w.game.tiles, w1.game.tiles, a);
      } else {
        assert w1.game.tiles[a] == w.game.tiles[a];
      }
    }
  }

  /** The appended cells of one round, combined with those of the rounds
      after it. */
  lemma AppendsStep(w: Work, w1: Work, r: Work)
    requires RoundFacts(w, w1)
    requires Reveals(w1.game.tiles, r.game.tiles)
    requires |w1.appended| <= |r.appended| && r.appended[..|w1.appended|] == w1.appended
    requires forall a :: a in r.appended[|w1.appended|..] ==> Changed(w1.game.tiles, r.game.tiles, a) && r.game.tiles[a].mines == 0
    requires forall p :: Changed(w1.game.tiles, r.game.tiles, p) && r.game.tiles[p].mines == 0 ==> p in r.appended[|w1.appended|..]
    ensures |w.appended| <= |r.appended| && r.appended[..|w.appended|] == w.appended
    ensures forall a :: a in r.appended[|w.appended|..] ==> Changed(w.game.tiles, r.game.tiles, a) && r.game.tiles[a].mines == 0
    ensures forall p :: Changed(w.game.tiles, r.game.tiles, p) && r.game.tiles[p].mines == 0 ==> p in r.appended[|w.appended|..]
  {
    var f := w1.queue[|w.queue| - 1..];
    var g := r.appended[|w1.appended|..];
    assert r.appended == w1.appended + g;
    assert r.appended == w.appended + (f + g);
    assert r.appended[..|w.appended|] == w.appended;
    assert r.appended[|w.appended|..] == f + g;
    forall a | a in f + g
      ensures Changed(w.game.tiles, r.game.tiles, a) && r.game.tiles[a].mines == 0
    {
      ChangedSplit(w.game.tiles, w1.game.tiles, r.game.tiles, a);
      if a in f {
        assert Changed(w.game.tiles, w1.game.tiles, a) && w1.game.tiles[a].mines == 0;
      } else {
        assert a in g;
      }
    }
    forall p | Changed(w.game.tiles, r.game.tiles, p) && r.game.tiles[p].mines == 0
      ensures p in f + g
    {
      ChangedSplit(w.game.tiles, w1.game.tiles, r.game.tiles, p);
      if Changed(w.game.tiles, w1.game.tiles, p) {
        assert w1.game.tiles[p].mines == 0;
        assert p in f;
      } else {
        assert p in g;
      }
    }
  }

  /** The worklist only ever receives revealed zero-count cells, each at most
      once, and every zero-count cell the cascade reveals is received. */
  lemma {:induction false} DrainAppends(w: Work)
    requires NoDup(w.appended)
    requires forall a :: a in w.appended ==> a in w.game.tiles && w.game.tiles[a].state != Default
    ensures var r := Drain(w);
      && |w.appended| <= |r.appended| && r.appended[..|w.appended|] == w.appended
      && NoDup(r.appended)
      && (forall a :: a in r.appended[|w.appended|..] ==> Changed(w.game.tiles, r.game.tiles, a) && r.game.tiles[a].mines == 0)
      && (forall p :: Changed(w.game.tiles, r.game.tiles, p) && r.game.tiles[p].mines == 0 ==> p in r.appended[|w.appended|..])
    decreases DefaultCount(w.game), |w.queue|
  {
    var r := Drain(w);
    if w.queue == [] {
      assert r.appended[|w.appended|..] == [];
    } else {
      var w1 := Round(w);
      RoundEffect(w);
      assert r == Drain(w1);
      AppendsTracked(w, w1);
      DrainAppends(w1);
      AppendsStep(w, w1, r);
    }
  }

  /** Each cell of s lies next to one of the starting cells or to a cell
      earlier in s: s grows outward from the starting cells, one neighbour at
      a time. */
  ghost predicate Chained(starts: seq<Pos>, s: seq<Pos>) {
    forall i :: 0 <= i < |s| ==> exists z :: (z in starts || z in s[..i]) && Adjacent(z, s[i])
  }

  /** Every cell on w's worklist is a starting cell or was appended. */
  ghost predicate Fed(starts: seq<Pos>, w: Work) {
    forall q :: q in w.queue ==> q in starts || q in w.appended
  }

  /** One round extends the chain: the cells it appends are neighbours of the
      cell it popped, which was a starting cell or appended earlier. */
  lemma ChainStep(starts: seq<Pos>, w: Work, w1: Work)
    requires RoundFacts(w, w1)
    requires Fed(starts, w) && Chained(starts, w.appended)
    ensures Fed(starts, w1) && Chained(starts, w1.appended)
  {
    var f := w1.queue[|w.queue| - 1..];
    var head := w.queue[0];
    assert w1.queue == w.queue[1..] + f;
    assert head in starts || head in w.appended;
    forall i | 0 <= i < |w1.appended|
      ensures exists z :: (z in starts || z in w1.appended[..i]) && Adjacent(z, w1.appended[i])
    {
      if i < |w.appended| {
        assert w1.appended[..i] == w.appended[..i];
        assert w1.appended[i] == w.appended[i];
      } else {
        assert w1.appended[i] in f;
        assert Changed(w.game.tiles, w1.game.tiles, w1.appended[i]);
        assert w.appended == w1.appended[..|w.appended|];
        assert head in starts || head in w1.appended[..i];
      }
    }
    forall q | q in w1.queue
      ensures q in starts || q in w1.appended
    {
      if q !in f {
        assert q in w.queue[1..];
      }
    }
  }

  /** The cells a cascade appends form a chain that starts next to the cells
      it started from. */
  lemma {:induction false} DrainChains(starts: seq<Pos>, w: Work)
    requires Fed(starts, w) && Chained(starts, w.appended)
    ensures Chained(starts, Drain(w).appended)
    decreases DefaultCount(w.game), |w.queue|
  {
    if w.queue != [] {
      var w1 := Round(w);
      RoundEffect(w);
      ChainStep(starts, w, w1);
      DrainChains(starts, w1);
      assert Drain(w) == Drain(w1);
    }
  }

  /** The settledness of one round, combined with that of the rounds after
      it. */
  lemma SettlesStep(w: Work, w1: Work, r: Work)
    requires RoundFacts(w, w1)
    requires Reveals(w1.game.tiles, r.game.tiles)
    requires forall p :: p in w1.queue ==> Settled(r.game.tiles, p)
    requires forall p :: Changed(w1.game.tiles, r.game.tiles, p) && r.game.tiles[p].mines == 0 ==> Settled(r.game.tiles, p)
    ensures forall p :: p in w.queue ==> Settled(r.game.tiles, p)
    ensures forall p :: Changed(w.game.tiles, r.game.tiles, p) && r.game.tiles[p].mines == 0 ==> Settled(r.game.tiles, p)
  {
    RevealsKeepsSettled(w1.game.tiles, r.game.tiles, w.queue[0]);
    forall p | p in w.queue
      ensures Settled(r.game.tiles, p)
    {
      if p != w.queue[0] {
        assert p in w.queue[1..];
        assert p in w1.queue;
      }
    }
    forall p | Changed(w.game.tiles, r.game.tiles, p) && r.game.tiles[p].mines == 0
      ensures Settled(r.game.tiles, p)
    {
      ChangedSplit(w.game.tiles, w1.game.tiles, r.game.tiles, p);
      if Changed(w.game.tiles, w1.game.tiles, p) {
        assert p in w1.queue[|w.queue| - 1..];
        assert p in w1.queue;
      }
    }
  }

  /** When the worklist is empty, every cell that was on it, and every
      zero-count cell the cascade revealed, has no untouched neighbour left. */
  lemma {:induction false} DrainSettles(w: Work)
    ensures var r := Drain(w);
      && (forall p :: p in w.queue ==> Settled(r.game.tiles, p))
      && (forall p :: Changed(w.game.tiles, r.game.tiles, p) && r.game.tiles[p].mines == 0 ==> Settled(r.game.tiles, p))
    decreases DefaultCount(w.game), |w.queue|
  {
    var r := Drain(w);
    if w.queue != [] {
      var w1 := Round(w);
      RoundEffect(w);
      DrainSettles(w1);
      assert r == Drain(w1);
      SettlesStep(w, w1, r);
    }
  }

  /** The nearness of one round, combined with that of the rounds after it. */
  lemma NearStep(w: Work, w1: Work, r: Work, p: Pos)
    requires RoundFacts(w, w1)
    requires Reveals(w1.game.tiles, r.game.tiles)
    requires StaysNear(w1, r)
    requires Changed(w.game.tiles, r.game.tiles, p)
    ensures exists z :: Expanded(w, r, z) && Adjacent(z, p)
  {
    ChangedSplit(w.game.tiles, w1.game.tiles, r.game.tiles, p);
    if Changed(w.game.tiles, w1.game.tiles, p) {
      assert Expanded(w, r, w.queue[0]) && Adjacent(w.queue[0], p);
    } else {
      var z :| Expanded(w1, r, z) && Adjacent(z, p);
      ChangedSplit(w.game.tiles, w1.game.tiles, r.game.tiles, z);
      if z in w1.queue && z !in w.queue {
        assert w1.queue == w1.queue[..|w.queue| - 1] + w1.queue[|w.queue| - 1..];
        assert z !in w1.queue[..|w.queue| - 1];
        assert z in w1.queue[|w.queue| - 1..];
      }
      assert Expanded(w, r, z);
    }
  }

  /** Every cell revealed between w and r is a neighbour of a cell on w's
      worklist or of a zero-count cell revealed between them. */
  ghost predicate StaysNear(w: Work, r: Work) {
    forall p :: Changed(w.game.tiles, r.game.tiles, p) ==> exists z :: Expanded(w, r, z) && Adjacent(z, p)
  }

  /** The cascade reveals only neighbours of the cells it started from and of
      the zero-count cells it revealed. */
  lemma {:induction false} DrainStaysNear(w: Work)
    ensures StaysNear(w, Drain(w))
    decreases DefaultCount(w.game), |w.queue|
  {
    var r := Drain(w);
    if w.queue != [] {
      var w1 := Round(w);
      RoundEffect(w);
      DrainStaysNear(w1);
      assert r == Drain(w1);
      forall p | Changed(w.game.tiles, r.game.tiles, p)
        ensures exists z :: Expanded(w, r, z) && Adjacent(z, p)
      {
        NearStep(w, w1, r, p);
      }
    }
  }

  /** Reveals that stay next to zero-count cells reveal no mine. */
  lemma NearRevealsNoMine(w: Work, r: Work)
    requires AdjacencyHolds(w.game.tiles)
    requires Reveals(w.game.tiles, r.game.tiles)
    requires forall q :: q in w.queue ==> q in w.game.tiles && w.game.tiles[q].mines == 0
    requires StaysNear(w, r)
    ensures forall p :: Changed(w.game.tiles, r.game.tiles, p) ==> !r.game.tiles[p].isMine
  {
    forall p | Changed(w.game.tiles, r.game.tiles, p)
      ensures !r.game.tiles[p].isMine
    {
      var z :| Expanded(w, r, z) && Adjacent(z, p);
      ZeroCountHasSafeNeighbors(w.game.tiles, z, p);
    }
  }

  /** A cascade started from zero-count cells never reveals a mine. */
  lemma DrainRevealsNoMine(w: Work)
    requires AdjacencyHolds(w.game.tiles)
    requires forall q :: q in w.queue ==> q in w.game.tiles && w.game.tiles[q].mines == 0
    ensures var r := Drain(w);
      forall p :: Changed(w.game.tiles, r.game.tiles, p) ==> !r.game.tiles[p].isMine
  {
    DrainStaysNear(w);
    NearRevealsNoMine(w, Drain(w));
  }
}
