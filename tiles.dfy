/** The solver's per-tile record (TileInfo in sweeper.cpp) and the read-only
    neighbourhood queries over the grid of them (getAdjecent, countAdjecent). */
module Tiles {
  import opened Geometry

  datatype Tile = Tile(
    checked: bool,                 // opened through the oracle
    flagged: bool,                 // deduced to be a mine
    restricted: bool,              // unopened tile next to an opened number
    adjacentMines: int,            // the oracle's count, once opened
    restrictedGroup: int,          // index of its restricted group, or -1
    restrictedSolutionMines: int,  // accepted assignments marking it a mine
    testMine: bool)                // the assignment currently being tested

  /** A tile before the solver has touched it. */
  const Untouched := Tile(false, false, false, -1, -1, 0, false)

  /** m_tiles[x][y]: the outer sequence is indexed by x, the inner ones by y. */
  type Grid = seq<seq<Tile>>

  predicate Rect(g: Grid, w: int, h: int) {
    |g| == w && forall i :: 0 <= i < |g| ==> |g[i]| == h
  }

  predicate Has(g: Grid, c: Coord) {
    0 <= c.x < |g| && 0 <= c.y < |g[c.x]|
  }

  /** The tile at c (an untouched tile off the grid, which no caller asks for). */
  function At(g: Grid, c: Coord): Tile {
    if Has(g, c) then g[c.x][c.y] else Untouched
  }

  lemma RectHas(g: Grid, w: int, h: int)
    requires Rect(g, w, h)
    ensures forall c :: Has(g, c) <==> InBounds(w, h, c)
  {
    forall c ensures Has(g, c) <==> InBounds(w, h, c) {
      if 0 <= c.x < |g| { assert |g[c.x]| == h; }
    }
  }

  /** Applies f to every tile, keeping the shape of the grid. */
  function MapGrid(g: Grid, f: (Coord, Tile) -> Tile): (r: Grid)
    ensures |r| == |g| && forall i :: 0 <= i < |g| ==> |r[i]| == |g[i]|
    ensures forall c :: Has(r, c) <==> Has(g, c)
    ensures forall c :: Has(g, c) ==> At(r, c) == f(c, At(g, c))
  {
    seq(|g|, i requires 0 <= i < |g| =>
      seq(|g[i]|, j requires 0 <= j < |g[i]| => f(Coord(i, j), g[i][j])))
  }

  /** Replaces the tile at c. */
  function Put(g: Grid, c: Coord, t: Tile): (r: Grid)
    requires Has(g, c)
    ensures |r| == |g| && forall i :: 0 <= i < |g| ==> |r[i]| == |g[i]|
    ensures forall d :: Has(r, d) <==> Has(g, d)
    ensures forall d :: At(r, d) == if d == c then t else At(g, d)
  {
    g[c.x := g[c.x][c.y := t]]
  }

  /** Two grids of the same shape holding the same tiles are equal. */
  lemma GridExt(g1: Grid, g2: Grid)
    requires |g1| == |g2| && forall i :: 0 <= i < |g1| ==> |g1[i]| == |g2[i]|
    requires forall c :: Has(g1, c) ==> At(g1, c) == At(g2, c)
    ensures g1 == g2
  {
    forall i | 0 <= i < |g1| ensures g1[i] == g2[i] {
      forall j | 0 <= j < |g1[i]| ensures g1[i][j] == g2[i][j] {
        assert At(g1, Coord(i, j)) == At(g2, Coord(i, j));
      }
    }
  }

  /** g is g0 with upd applied to the tiles at cs, and nothing else changed:
      what a loop over cs that rewrites each tile in place leaves behind. */
  ghost predicate Updated(g0: Grid, g: Grid, w: int, h: int, cs: seq<Coord>, upd: Tile -> Tile) {
    && Rect(g, w, h)
    && forall d :: At(g, d) == if d in cs then upd(At(g0, d)) else At(g0, d)
  }

  /** One more round of such a loop, on a list without repeats. */
  lemma UpdateStep(g0: Grid, g: Grid, w: int, h: int, cs: seq<Coord>, i: int, upd: Tile -> Tile)
    requires 0 <= i < |cs| && Distinct(cs) && InBounds(w, h, cs[i])
    requires Updated(g0, g, w, h, cs[..i], upd)
    ensures Has(g, cs[i])
    ensures Updated(g0, Put(g, cs[i], upd(At(g, cs[i]))), w, h, cs[..i + 1], upd)
  {
    assert cs[i] !in cs[..i];
    assert cs[..i + 1] == cs[..i] + [cs[i]];
    RectHas(g, w, h);
  }

  /** getAdjecent(x, y, pred): the on-board neighbours of c whose tiles
      satisfy pred, each once, in probing order. */
  function Adjacent(g: Grid, w: int, h: int, c: Coord, pred: Tile -> bool): (r: seq<Coord>)
    ensures forall d {:trigger d in r} :: d in r <==> InBounds(w, h, d) && IsNeighbour(d, c) && pred(At(g, d))
    ensures Distinct(r) && |r| <= 8
    ensures c !in r
  {
    Filter(Around(w, h, c), d => pred(At(g, d)))
  }

  /** The same tiles as a set. */
  function NeighboursWhere(g: Grid, w: int, h: int, c: Coord, pred: Tile -> bool): set<Coord> {
    set d | d in Cells(w, h) && IsNeighbour(d, c) && pred(At(g, d))
  }

  /** countAdjecent(x, y, pred): how many neighbours of c satisfy pred. */
  function CountAdjacent(g: Grid, w: int, h: int, c: Coord, pred: Tile -> bool): (n: nat)
    ensures n <= 8
  {
    |Adjacent(g, w, h, c, pred)|
  }

  /** The count is the number of neighbours satisfying pred. */
  lemma CountAdjacentSize(g: Grid, w: int, h: int, c: Coord, pred: Tile -> bool)
    ensures CountAdjacent(g, w, h, c, pred) == |NeighboursWhere(g, w, h, c, pred)|
  {
    var r := Adjacent(g, w, h, c, pred);
    ElementsSize(r);
    assert Elements(r) == NeighboursWhere(g, w, h, c, pred);
  }

  // The three counts the solver asks for by name.
  function FlagsAround(g: Grid, w: int, h: int, c: Coord): nat { CountAdjacent(g, w, h, c, IsFlagged) }
  function ClosedAround(g: Grid, w: int, h: int, c: Coord): nat { CountAdjacent(g, w, h, c, Unopened) }
  function TestMinesAround(g: Grid, w: int, h: int, c: Coord): nat { CountAdjacent(g, w, h, c, IsTestMine) }

  // The predicates the solver passes to getAdjecent and countAdjecent.
  predicate Any(t: Tile) { true }
  predicate IsChecked(t: Tile) { t.checked }
  predicate IsFlagged(t: Tile) { t.flagged }
  predicate Unopened(t: Tile) { !t.checked && !t.flagged }
  predicate IsTestMine(t: Tile) { t.testMine }

  /** The tiles that are opened, flagged, or neither. */
  function CheckedSet(g: Grid, w: int, h: int): set<Coord> {
    set c | c in Cells(w, h) && At(g, c).checked
  }

  function FlaggedSet(g: Grid, w: int, h: int): set<Coord> {
    set c | c in Cells(w, h) && At(g, c).flagged
  }

  function UnresolvedSet(g: Grid, w: int, h: int): set<Coord> {
    set c | c in Cells(w, h) && Unopened(At(g, c))
  }

  /** A tile is never both opened and flagged, and a restricted tile is neither. */
  predicate TileOk(t: Tile) {
    !(t.checked && t.flagged) && (t.restricted ==> !t.checked && !t.flagged)
  }

  /** When no tile is both opened and flagged, every tile is counted exactly
      once among the opened, the flagged and the unresolved ones. */
  lemma PartitionSize(g: Grid, w: nat, h: nat)
    requires forall c :: InBounds(w, h, c) ==> TileOk(At(g, c))
    ensures |CheckedSet(g, w, h)| + |FlaggedSet(g, w, h)| + |UnresolvedSet(g, w, h)| == w * h
  {
    var cs, fs, us := CheckedSet(g, w, h), FlaggedSet(g, w, h), UnresolvedSet(g, w, h);
    assert Cells(w, h) == cs + fs + us;
    assert cs !! fs && (cs + fs) !! us;
    CellsSize(w, h);
  }

  /** Opened and flagged tiles stay so. */
  ghost predicate Monotone(g0: Grid, g1: Grid, w: int, h: int) {
    forall c :: InBounds(w, h, c) ==>
      (At(g0, c).checked ==> At(g1, c).checked) && (At(g0, c).flagged ==> At(g1, c).flagged)
  }

  lemma MonotoneTrans(g0: Grid, g1: Grid, g2: Grid, w: int, h: int)
    requires Monotone(g0, g1, w, h) && Monotone(g1, g2, w, h)
    ensures Monotone(g0, g2, w, h)
  {
  }
}
