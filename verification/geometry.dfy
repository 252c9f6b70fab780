/**
  Board geometry: cell positions, the rectangular grid of a board and the
  neighbourhood of a cell.

  The board stores its tiles in a dictionary keyed by coordinates, so a
  neighbour lookup that falls off the board simply misses (there is no
  wrap-around for an index of -1). `Neighbors` models that lookup on any map
  keyed by positions.
 */
module Geometry {

  datatype Pos = Pos(x: int, y: int)

  predicate InGrid(sizeX: int, sizeY: int, p: Pos) {
    0 <= p.x < sizeX && 0 <= p.y < sizeY
  }

  /** q is one of the (at most eight) cells around p: it differs by at most one
      in each coordinate and is not p itself. */
  predicate Adjacent(p: Pos, q: Pos) {
    p != q && -1 <= q.x - p.x <= 1 && -1 <= q.y - p.y <= 1
  }

  lemma AdjacentSymmetric(p: Pos, q: Pos)
    ensures Adjacent(p, q) <==> Adjacent(q, p)
  {
  }

  /** All positions of a sizeX-by-sizeY board. */
  function Grid(sizeX: nat, sizeY: nat): (r: set<Pos>)
    ensures forall p :: p in r <==> InGrid(sizeX, sizeY, p)
  {
    var r := set x, y | 0 <= x < sizeX && 0 <= y < sizeY :: Pos(x, y);
    assert forall p :: InGrid(sizeX, sizeY, p) ==> Pos(p.x, p.y) in r;
    r
  }

  /** The cells of row x of a board with sizeY columns. */
  function Row(x: int, sizeY: nat): (r: set<Pos>)
    ensures forall p: Pos :: p in r <==> p.x == x && 0 <= p.y < sizeY
  {
    var r := set y | 0 <= y < sizeY :: Pos(x, y);
    assert forall p: Pos :: p.x == x && 0 <= p.y < sizeY ==> Pos(x, p.y) in r;
    r
  }

  lemma {:induction false} RowSize(x: int, sizeY: nat)
    ensures |Row(x, sizeY)| == sizeY
  {
    if sizeY > 0 {
      RowSize(x, sizeY - 1);
      assert Row(x, sizeY) == Row(x, sizeY - 1) + {Pos(x, sizeY - 1)};
    } else {
      assert Row(x, 0) == {};
    }
  }

  /** A board is the board one row shorter plus its last row. */
  lemma GridLastRow(sizeX: nat, sizeY: nat)
    requires sizeX > 0
    ensures Grid(sizeX, sizeY) == Grid(sizeX - 1, sizeY) + Row(sizeX - 1, sizeY)
    ensures Grid(sizeX - 1, sizeY) !! Row(sizeX - 1, sizeY)
  {
  }

  lemma MulPred(a: nat, b: nat)
    requires a > 0
    ensures (a - 1) * b + b == a * b
  {
  }

  /** The board has exactly sizeX * sizeY cells. */
  lemma {:induction false} GridSize(sizeX: nat, sizeY: nat)
    ensures |Grid(sizeX, sizeY)| == sizeX * sizeY
  {
    if sizeX > 0 {
      GridSize(sizeX - 1, sizeY);
      RowSize(sizeX - 1, sizeY);
      GridLastRow(sizeX, sizeY);
      MulPred(sizeX, sizeY);
    } else {
      assert Grid(0, sizeY) == {};
    }
  }

  predicate NoDup<T(==)>(s: seq<T>) {
    forall i, j :: 0 <= i < j < |s| ==> s[i] != s[j]
  }

  lemma NoDupConcat<T>(a: seq<T>, b: seq<T>)
    requires NoDup(a) && NoDup(b)
    requires forall x :: x in a ==> x !in b
    ensures NoDup(a + b)
  {
    forall i, j | 0 <= i < j < |a + b|
      ensures (a + b)[i] != (a + b)[j]
    {
      if j < |a| {
        assert (a + b)[i] == a[i] && (a + b)[j] == a[j];
      } else if i < |a| {
        assert (a + b)[i] == a[i] && (a + b)[j] == b[j - |a|];
        assert a[i] in a;
      } else {
        assert (a + b)[i] == b[i - |a|] && (a + b)[j] == b[j - |a|];
      }
    }
  }

  /** The eight candidate positions around p, in the order the board visits
      them: the row above, the two sides, the row below. */
  function Around(p: Pos): seq<Pos> {
    [Pos(p.x - 1, p.y - 1), Pos(p.x - 1, p.y), Pos(p.x - 1, p.y + 1),
     Pos(p.x, p.y - 1), Pos(p.x, p.y + 1),
     Pos(p.x + 1, p.y - 1), Pos(p.x + 1, p.y), Pos(p.x + 1, p.y + 1)]
  }

  lemma AroundIsAdjacency(p: Pos)
    ensures forall q :: q in Around(p) <==> Adjacent(p, q)
    ensures NoDup(Around(p))
  {
    forall q | Adjacent(p, q)
      ensures q in Around(p)
    {
      var dx, dy := q.x - p.x, q.y - p.y;
      assert q == Pos(p.x + dx, p.y + dy);
    }
  }

  /** Keeps, in order, the candidates that are keys of `tiles`: a lookup of a
      missing key is dropped, as the board's KeyError handler does. */
  function Present<T>(tiles: map<Pos, T>, s: seq<Pos>): (r: seq<Pos>)
    ensures forall q :: q in r <==> q in s && q in tiles
    ensures NoDup(s) ==> NoDup(r)
    ensures |r| <= |s|
  {
    if s == [] then []
    else if s[0] in tiles then [s[0]] + Present(tiles, s[1..])
    else Present(tiles, s[1..])
  }

  /** The neighbour list of p on a board whose cells are the keys of `tiles`. */
  function Neighbors<T>(tiles: map<Pos, T>, p: Pos): (r: seq<Pos>)
    ensures forall q :: q in r <==> q in tiles && Adjacent(p, q)
    ensures NoDup(r)
    ensures |r| <= 8
  {
    AroundIsAdjacency(p);
    Present(tiles, Around(p))
  }

  /** The distinct elements of a sequence are at most as many as its length. */
  lemma {:induction false} ElementsBound<T>(s: seq<T>, e: set<T>)
    requires forall x :: x in e ==> x in s
    ensures |e| <= |s|
  {
    if s != [] {
      var e' := e - {s[0]};
      forall x | x in e'
        ensures x in s[1..]
      {
        assert x in s && x != s[0];
      }
      ElementsBound(s[1..], e');
    } else {
      assert e == {};
    }
  }

  /** Any set of cells adjacent to p has at most eight members. */
  lemma AdjacentSetBound<T>(tiles: map<Pos, T>, p: Pos, e: set<Pos>)
    requires forall q :: q in e ==> q in tiles && Adjacent(p, q)
    ensures |e| <= 8
  {
    ElementsBound(Neighbors(tiles, p), e);
  }
}
