/** The mine oracle (board.cpp): a fixed grid of tiles, each either a mine
    or holding the number of mines around it. */
module Board {
  import opened Geometry

  /** How many mines lie on the tiles around c. */
  function MineCount(mines: set<Coord>, c: Coord): nat {
    |set d | d in mines && IsNeighbour(d, c)|
  }

  /** No tile has more than eight mined neighbours. */
  lemma MineCountBound(w: int, h: int, mines: set<Coord>, c: Coord)
    requires forall m :: m in mines ==> InBounds(w, h, m)
    ensures MineCount(mines, c) <= 8
  {
    var near := set d | d in mines && IsNeighbour(d, c);
    AroundIsNeighbourhood(w, h, c);
    assert near <= Neighbourhood(w, h, c);
    SubsetCard(near, Neighbourhood(w, h, c));
  }

  /** The mines around c that the counting scan has visited before (x, y). */
  function CountBefore(mines: set<Coord>, c: Coord, x: int, y: int): nat {
    |set d | d in mines && Before(d, x, y) && IsNeighbour(d, c)|
  }

  /** Visiting tile (x, y) adds one to the count of each of its neighbours
      if it is a mine, and changes no other count. */
  lemma CountBeforeStep(mines: set<Coord>, c: Coord, x: int, y: int)
    ensures CountBefore(mines, c, x, y + 1)
         == CountBefore(mines, c, x, y)
            + (if Coord(x, y) in mines && IsNeighbour(Coord(x, y), c) then 1 else 0)
  {
    var s0 := set d | d in mines && Before(d, x, y) && IsNeighbour(d, c);
    var s1 := set d | d in mines && Before(d, x, y + 1) && IsNeighbour(d, c);
    if Coord(x, y) in mines && IsNeighbour(Coord(x, y), c) {
      assert s1 == s0 + {Coord(x, y)};
    } else {
      assert s1 == s0;
    }
  }

  /** Finishing column x of an h-row board is starting column x + 1. */
  lemma CountBeforeColumn(w: int, h: int, mines: set<Coord>, c: Coord, x: int)
    requires forall m :: m in mines ==> InBounds(w, h, m)
    ensures CountBefore(mines, c, x, h) == CountBefore(mines, c, x + 1, 0)
  {
    assert (set d | d in mines && Before(d, x, h) && IsNeighbour(d, c))
        == (set d | d in mines && Before(d, x + 1, 0) && IsNeighbour(d, c));
  }

  /** Once every column is visited, the scan has counted every mine around c. */
  lemma CountBeforeAll(w: int, h: int, mines: set<Coord>, c: Coord)
    requires forall m :: m in mines ==> InBounds(w, h, m)
    ensures CountBefore(mines, c, w, 0) == MineCount(mines, c)
  {
    assert (set d | d in mines && Before(d, w, 0) && IsNeighbour(d, c))
        == (set d | d in mines && IsNeighbour(d, c));
  }

  class Board {
    const width: nat
    const height: nat
    const mineCount: nat
    const mine: array2<bool>
    const adjacentMineCount: array2<int>
    /** The mined tiles. */
    ghost const Mines: set<Coord>

    ghost predicate Valid()
      reads this, mine, adjacentMineCount
    {
      && mine.Length0 == width && mine.Length1 == height
      && adjacentMineCount.Length0 == width && adjacentMineCount.Length1 == height
      && (forall m :: m in Mines ==> InBounds(width, height, m))
      && (forall x, y {:trigger mine[x, y]} :: 0 <= x < width && 0 <= y < height ==>
            (mine[x, y] <==> Coord(x, y) in Mines))
      && (forall x, y {:trigger adjacentMineCount[x, y]} :: 0 <= x < width && 0 <= y < height ==>
            adjacentMineCount[x, y] == MineCount(Mines, Coord(x, y)))
    }

    /** The number of tiles. */
    function Size(): nat {
      width * height
    }

    /** Places a mine on each tile named in `placement` (the positions the
        random generator would draw; two draws may name the same tile), then
        counts, for every tile, the mines around it. */
    constructor (width: nat, height: nat, placement: seq<Coord>)
      requires forall i :: 0 <= i < |placement| ==> InBounds(width, height, placement[i])
      ensures Valid()
      ensures this.width == width && this.height == height && mineCount == |placement|
      ensures Mines == Elements(placement) && |Mines| <= mineCount
      ensures fresh(mine) && fresh(adjacentMineCount)
    {
      var m := new bool[width, height]((_, _) => false);
      var cnt := new int[width, height]((_, _) => 0);
      PlaceMines(m, placement);
      ghost var mines := Elements(placement);
      ElementsSize(placement);
      CountMines(m, cnt, mines);
      this.width := width;
      this.height := height;
      mineCount := |placement|;
      mine := m;
      adjacentMineCount := cnt;
      Mines := mines;
    }

    /** The placement loop: every drawn position becomes a mine. */
    static method PlaceMines(m: array2<bool>, placement: seq<Coord>)
      requires forall i :: 0 <= i < |placement| ==> InBounds(m.Length0, m.Length1, placement[i])
      requires forall x, y :: 0 <= x < m.Length0 && 0 <= y < m.Length1 ==> !m[x, y]
      modifies m
      ensures forall x, y :: 0 <= x < m.Length0 && 0 <= y < m.Length1 ==>
                (m[x, y] <==> Coord(x, y) in Elements(placement))
    {
      for i := 0 to |placement|
        invariant forall x, y :: 0 <= x < m.Length0 && 0 <= y < m.Length1 ==>
                    (m[x, y] <==> Coord(x, y) in placement[..i])
      {
        assert placement[..i + 1] == placement[..i] + [placement[i]];
        m[placement[i].x, placement[i].y] := true;
      }
      assert placement[..|placement|] == placement;
    }

    /** The counting loop: scanning the tiles column by column, each mine adds
        one to the count of every neighbour that lies on the board. On exit
        every count is the number of mines around its tile. */
    static method CountMines(m: array2<bool>, cnt: array2<int>, ghost mines: set<Coord>)
      requires m.Length0 == cnt.Length0 && m.Length1 == cnt.Length1
      requires forall d :: d in mines ==> InBounds(m.Length0, m.Length1, d)
      requires forall x, y :: 0 <= x < m.Length0 && 0 <= y < m.Length1 ==>
                 (m[x, y] <==> Coord(x, y) in mines)
      requires forall x, y :: 0 <= x < cnt.Length0 && 0 <= y < cnt.Length1 ==> cnt[x, y] == 0
      modifies cnt
      ensures forall a, b :: 0 <= a < cnt.Length0 && 0 <= b < cnt.Length1 ==>
                cnt[a, b] == MineCount(mines, Coord(a, b))
    {
      var width, height := m.Length0, m.Length1;
      forall a, b | 0 <= a < width && 0 <= b < height
        ensures cnt[a, b] == CountBefore(mines, Coord(a, b), 0, 0)
      {
        var none := set d | d in mines && Before(d, 0, 0) && IsNeighbour(d, Coord(a, b));
        assert none == {};
      }
      for x := 0 to width
        invariant forall a, b :: 0 <= a < width && 0 <= b < height ==>
                    cnt[a, b] == CountBefore(mines, Coord(a, b), x, 0)
      {
        CountColumn(m, cnt, mines, x);
      }
      forall a, b | 0 <= a < width && 0 <= b < height
        ensures cnt[a, b] == MineCount(mines, Coord(a, b))
      {
        CountBeforeAll(width, height, mines, Coord(a, b));
      }
    }

    /** The inner loop of the scan: column x, row by row. */
    static method CountColumn(m: array2<bool>, cnt: array2<int>, ghost mines: set<Coord>, x: int)
      requires m.Length0 == cnt.Length0 && m.Length1 == cnt.Length1 && 0 <= x < m.Length0
      requires forall d :: d in mines ==> InBounds(m.Length0, m.Length1, d)
      requires forall y :: 0 <= y < m.Length1 ==> (m[x, y] <==> Coord(x, y) in mines)
      requires forall a, b :: 0 <= a < cnt.Length0 && 0 <= b < cnt.Length1 ==>
                 cnt[a, b] == CountBefore(mines, Coord(a, b), x, 0)
      modifies cnt
      ensures forall a, b :: 0 <= a < cnt.Length0 && 0 <= b < cnt.Length1 ==>
                cnt[a, b] == CountBefore(mines, Coord(a, b), x + 1, 0)
    {
      var width, height := cnt.Length0, cnt.Length1;
      for y := 0 to height
        invariant forall a, b :: 0 <= a < width && 0 <= b < height ==>
                    cnt[a, b] == CountBefore(mines, Coord(a, b), x, y)
      {
        CountTile(m, cnt, mines, x, y);
      }
      forall a, b | 0 <= a < width && 0 <= b < height
        ensures cnt[a, b] == CountBefore(mines, Coord(a, b), x + 1, 0)
      {
        CountBeforeColumn(width, height, mines, Coord(a, b), x);
      }
    }

    /** One step of the scan: tile (x, y) is visited. */
    static method CountTile(m: array2<bool>, cnt: array2<int>, ghost mines: set<Coord>, x: int, y: int)
      requires m.Length0 == cnt.Length0 && m.Length1 == cnt.Length1
      requires 0 <= x < m.Length0 && 0 <= y < m.Length1
      requires m[x, y] <==> Coord(x, y) in mines
      requires forall a, b :: 0 <= a < cnt.Length0 && 0 <= b < cnt.Length1 ==>
                 cnt[a, b] == CountBefore(mines, Coord(a, b), x, y)
      modifies cnt
      ensures forall a, b :: 0 <= a < cnt.Length0 && 0 <= b < cnt.Length1 ==>
                cnt[a, b] == CountBefore(mines, Coord(a, b), x, y + 1)
    {
      if m[x, y] {
        MarkAround(cnt, x, y);
      }
      forall a, b | 0 <= a < cnt.Length0 && 0 <= b < cnt.Length1
        ensures cnt[a, b] == CountBefore(mines, Coord(a, b), x, y + 1)
      {
        CountBeforeStep(mines, Coord(a, b), x, y);
      }
    }

    /** One mined tile (x, y): increment each on-board neighbour's count. */
    static method MarkAround(cnt: array2<int>, x: int, y: int)
      requires 0 <= x < cnt.Length0 && 0 <= y < cnt.Length1
      modifies cnt
      ensures forall a, b :: 0 <= a < cnt.Length0 && 0 <= b < cnt.Length1 ==>
                cnt[a, b] == old(cnt[a, b]) + (if IsNeighbour(Coord(x, y), Coord(a, b)) then 1 else 0)
    {
      var width, height := cnt.Length0, cnt.Length1;
      if x > 0 {
        cnt[x - 1, y] := cnt[x - 1, y] + 1;
        if y > 0 {
          cnt[x - 1, y - 1] := cnt[x - 1, y - 1] + 1;
        }
        if y < height - 1 {
          cnt[x - 1, y + 1] := cnt[x - 1, y + 1] + 1;
        }
      }
      if x < width - 1 {
        cnt[x + 1, y] := cnt[x + 1, y] + 1;
        if y > 0 {
          cnt[x + 1, y - 1] := cnt[x + 1, y - 1] + 1;
        }
        if y < height - 1 {
          cnt[x + 1, y + 1] := cnt[x + 1, y + 1] + 1;
        }
      }
      if y > 0 {
        cnt[x, y - 1] := cnt[x, y - 1] + 1;
      }
      if y < height - 1 {
        cnt[x, y + 1] := cnt[x, y + 1] + 1;
      }
    }

    /** Reveals a tile: -1 for a mine, otherwise the number of mines around it. */
    function Check(x: int, y: int): (r: int)
      reads this, mine, adjacentMineCount
      requires Valid() && InBounds(width, height, Coord(x, y))
      ensures r == -1 <==> Coord(x, y) in Mines
      ensures r != -1 ==> r == MineCount(Mines, Coord(x, y)) && 0 <= r <= 8
    {
      MineCountBound(width, height, Mines, Coord(x, y));
      if mine[x, y] then -1 else adjacentMineCount[x, y]
    }
  }
}
