/** Board geometry shared by the mine oracle and the solver: coordinates,
    bounds, the 8-neighbourhood, and the order in which the solver lists
    the neighbours of a tile. */
module Geometry {

  datatype Coord = Coord(x: int, y: int)

  predicate InBounds(w: int, h: int, c: Coord) {
    0 <= c.x < w && 0 <= c.y < h
  }

  /** Chebyshev distance exactly 1: one of the (up to) eight tiles around `b`. */
  predicate IsNeighbour(a: Coord, b: Coord) {
    a != b && -1 <= a.x - b.x <= 1 && -1 <= a.y - b.y <= 1
  }

  /** All tiles of a w×h board. */
  function Cells(w: int, h: int): (r: set<Coord>)
    ensures forall c :: c in r <==> InBounds(w, h, c)
  {
    set x, y | 0 <= x < w && 0 <= y < h :: Coord(x, y)
  }

  /** The tiles of column x below row h. */
  function Column(x: int, h: int): (r: set<Coord>)
    ensures forall c :: c in r <==> c.x == x && 0 <= c.y < h
  {
    set y | 0 <= y < h :: Coord(x, y)
  }

  lemma {:induction false} ColumnSize(x: int, h: nat)
    ensures |Column(x, h)| == h
  {
    if h > 0 {
      ColumnSize(x, h - 1);
      assert Column(x, h) == Column(x, h - 1) + {Coord(x, h - 1)};
    }
  }

  /** A w×h board has exactly w*h tiles. */
  lemma {:induction false} CellsSize(w: nat, h: nat)
    ensures |Cells(w, h)| == w * h
  {
    if w > 0 {
      var left, last := Cells(w - 1, h), Column(w - 1, h);
      CellsSize(w - 1, h);
      ColumnSize(w - 1, h);
      assert Cells(w, h) == left + last;
      assert left !! last;
      assert |left + last| == |left| + |last|;
      ProductStep(w, h);
    }
  }

  lemma ProductStep(w: int, h: int)
    ensures (w - 1) * h + h == w * h
  {
  }

  /** Tile d comes before column x, row y in an x-major scan of the board
      (the order of the constructor's counting loop and of groupRestricted). */
  predicate Before(d: Coord, x: int, y: int) {
    d.x < x || (d.x == x && d.y < y)
  }

  predicate Distinct<T(==)>(s: seq<T>) {
    forall i, j :: 0 <= i < j < |s| ==> s[i] != s[j]
  }

  function Elements<T(==)>(s: seq<T>): set<T> {
    set e | e in s
  }

  /** A sequence has at least as many entries as distinct elements,
      and exactly as many when no element repeats. */
  lemma {:induction false} ElementsSize<T>(s: seq<T>)
    ensures |Elements(s)| <= |s|
    ensures Distinct(s) ==> |Elements(s)| == |s|
  {
    if s != [] {
      var t := s[..|s| - 1];
      ElementsSize(t);
      assert s == t + [s[|s| - 1]];
      assert Elements(s) == Elements(t) + {s[|s| - 1]};
      if Distinct(s) {
        assert Distinct(t);
        assert s[|s| - 1] !in Elements(t);
      }
    }
  }

  /** A subset is no larger than its superset. */
  lemma SubsetCard<T>(a: set<T>, b: set<T>)
    requires a <= b
    ensures |a| <= |b|
  {
    assert b == a + (b - a);
  }

  /** The elements of s that satisfy p, in their original order. */
  function Filter(s: seq<Coord>, p: Coord -> bool): (r: seq<Coord>)
    ensures forall e {:trigger e in r} :: e in r <==> e in s && p(e)
    ensures Distinct(s) ==> Distinct(r)
    ensures |r| <= |s|
  {
    if s == [] then []
    else
      var rest := Filter(s[1..], p);
      assert forall e :: e in s <==> e == s[0] || e in s[1..];
      assert Distinct(s) ==> s[0] !in s[1..] by {
        if Distinct(s) {
          forall i | 0 <= i < |s| - 1 ensures s[1..][i] != s[0] {
            assert s[1..][i] == s[i + 1];
          }
        }
      }
      assert Distinct(s) ==> s[0] !in rest && Distinct(s[1..]);
      assert Distinct(s) && p(s[0]) ==> Distinct([s[0]] + rest) by {
        if Distinct(s) && p(s[0]) {
          var r := [s[0]] + rest;
          forall i, j | 0 <= i < j < |r| ensures r[i] != r[j] {
            assert r[j] == rest[j - 1] && r[j] in rest;
            if i > 0 { assert r[i] == rest[i - 1]; }
          }
        }
      }
      if p(s[0]) then [s[0]] + rest else rest
  }

  /** The eight tiles around c, in the order the solver probes them
      (sweeper.cpp getAdjecent): below/above first, then the column to the
      left, then the column to the right. */
  function Candidates(c: Coord): (r: seq<Coord>)
    ensures forall d :: d in r <==> IsNeighbour(d, c)
    ensures Distinct(r)
  {
    var x, y := c.x, c.y;
    [Coord(x, y - 1), Coord(x, y + 1),
     Coord(x - 1, y), Coord(x - 1, y - 1), Coord(x - 1, y + 1),
     Coord(x + 1, y), Coord(x + 1, y - 1), Coord(x + 1, y + 1)]
  }

  /** The neighbours of c that lie on a w×h board, in probing order. The
      source tests each bound before touching a tile; keeping the in-bounds
      candidates yields the same list. */
  function Around(w: int, h: int, c: Coord): (r: seq<Coord>)
    ensures forall d :: d in r <==> InBounds(w, h, d) && IsNeighbour(d, c)
    ensures Distinct(r)
    ensures |r| <= 8
  {
    Filter(Candidates(c), d => InBounds(w, h, d))
  }

  /** The set of on-board neighbours of c. */
  function Neighbourhood(w: int, h: int, c: Coord): (r: set<Coord>)
    ensures forall d :: d in r <==> InBounds(w, h, d) && IsNeighbour(d, c)
  {
    set d | d in Cells(w, h) && IsNeighbour(d, c)
  }

  /** The list the solver enumerates and the set the board counts over are
      the same tiles, each listed once, at most eight of them. */
  lemma AroundIsNeighbourhood(w: int, h: int, c: Coord)
    ensures Elements(Around(w, h, c)) == Neighbourhood(w, h, c)
    ensures |Neighbourhood(w, h, c)| == |Around(w, h, c)| <= 8
  {
    ElementsSize(Around(w, h, c));
  }
}
