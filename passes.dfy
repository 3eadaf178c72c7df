/** The deduction passes of sweeper.cpp as transitions of the solver state:
    the single-tile rules of solveSingles, the blank expansion of
    solveBlanks, and what they keep and achieve. */
module Passes {
  import opened Geometry
  import opened Tiles
  import opened Engine

  /** solveSingles at one tile c. An opened number that already sees as many
      flags as it counts has its other neighbours checked; one whose flags
      plus unopened neighbours make up its count has those neighbours
      flagged; anything else is left alone. */
  function SingleStep(f: Field, s: State, c: Coord): State {
    var t := At(s.tiles, c);
    if !t.checked || t.adjacentMines == 0 then s
    else
      var flags := FlagsAround(s.tiles, f.width, f.height, c);
      var open := ClosedAround(s.tiles, f.width, f.height, c);
      if flags == t.adjacentMines && open > 0 then CheckEach(f, s, Around(f.width, f.height, c), Unopened)
      else if open > 0 && flags + open == t.adjacentMines then FlagEach(s, Around(f.width, f.height, c))
      else s
  }

  /** What every deduction pass promises: the invariant and every expanded
      blank are kept, nothing opened or flagged is undone, no mine is hit,
      and m_checked and m_flagged grow by exactly the tiles opened and flagged. */
  ghost predicate Deduces(f: Field, s: State, s1: State) {
    && Inv(f, s1)
    && Monotone(s.tiles, s1.tiles, f.width, f.height)
    && (Drained(f, s) ==> Drained(f, s1))
    && Hits(f, s1) == Hits(f, s)
    && s1.flagged - s.flagged
       == |FlaggedSet(s1.tiles, f.width, f.height)| - |FlaggedSet(s.tiles, f.width, f.height)|
  }

  lemma DeducesRefl(f: Field, s: State)
    requires Inv(f, s)
    ensures Deduces(f, s, s)
  {
  }

  lemma DeducesTrans(f: Field, s0: State, s1: State, s2: State)
    requires Deduces(f, s0, s1) && Deduces(f, s1, s2)
    ensures Deduces(f, s0, s2)
  {
    MonotoneTrans(s0.tiles, s1.tiles, s2.tiles, f.width, f.height);
  }

  /** Both single-tile rules are sound: the first opens no mine and the
      second flags only mines. */
  lemma SingleStepSound(f: Field, s: State, c: Coord)
    requires Inv(f, s) && InBounds(f.width, f.height, c)
    ensures Deduces(f, s, SingleStep(f, s, c))
  {
    var w, h := f.width, f.height;
    var t := At(s.tiles, c);
    if t.checked && t.adjacentMines != 0 {
      var flags := FlagsAround(s.tiles, w, h, c);
      var open := ClosedAround(s.tiles, w, h, c);
      var cs := Around(w, h, c);
      if flags == t.adjacentMines && open > 0 {
        SinglesOpenSafe(f, s, c);
        CheckEachInv(f, s, cs, Unopened, {});
        CheckEachNoHits(f, s, cs, Unopened);
      } else if open > 0 && flags + open == t.adjacentMines {
        SinglesFlagSound(f, s, c);
        FlagEachInv(f, s, cs, {});
      }
    }
  }

  /** solveSingles's two loops as one scan: tile (x, y), then the rest of
      column x, then the columns after it. */
  function SinglesPass(f: Field, s: State, x: int, y: int): State
    decreases f.width - x, f.height - y
  {
    if x >= f.width then s
    else if y >= f.height then SinglesPass(f, s, x + 1, 0)
    else SinglesPass(f, SingleStep(f, s, Coord(x, y)), x, y + 1)
  }

  /** Past the last row the scan moves to the next column. */
  lemma ColumnEnd(f: Field, s: State, x: int, y: int)
    requires 0 <= x < f.width && f.height <= y
    ensures SinglesPass(f, s, x, y) == SinglesPass(f, s, x + 1, 0)
  {
  }

  /** Tile (x, y) of the scan, and what it deduces. */
  lemma TileStep(f: Field, s: State, x: int, y: int) returns (s1: State)
    requires Inv(f, s) && 0 <= x < f.width && 0 <= y < f.height
    ensures Deduces(f, s, s1) && SinglesPass(f, s, x, y) == SinglesPass(f, s1, x, y + 1)
  {
    s1 := SingleStep(f, s, Coord(x, y));
    SingleStepSound(f, s, Coord(x, y));
  }

  /** The scan from tile (x, y) to the end of the board deduces soundly. */
  lemma {:induction false} SinglesPassSound(f: Field, s: State, x: int, y: int)
    requires Inv(f, s) && 0 <= x && 0 <= y
    ensures Deduces(f, s, SinglesPass(f, s, x, y))
    decreases f.width - x, f.height - y, 1
  {
    if x >= f.width {
      DeducesRefl(f, s);
    } else if y >= f.height {
      SinglesPassNext(f, s, x, y);
    } else {
      SinglesPassFrom(f, s, x, y);
    }
  }

  /** The scan past the last row of a column: the next column. */
  lemma {:induction false} SinglesPassNext(f: Field, s: State, x: int, y: int)
    requires Inv(f, s) && 0 <= x < f.width && f.height <= y
    ensures Deduces(f, s, SinglesPass(f, s, x, y))
    decreases f.width - x, f.height - y, 0
  {
    ColumnEnd(f, s, x, y);
    SinglesPassSound(f, s, x + 1, 0);
  }

  /** The scan from an on-board tile: that tile, then the rest. */
  lemma {:induction false} SinglesPassFrom(f: Field, s: State, x: int, y: int)
    requires Inv(f, s) && 0 <= x < f.width && 0 <= y < f.height
    ensures Deduces(f, s, SinglesPass(f, s, x, y))
    decreases f.width - x, f.height - y, 0
  {
    var s1 := TileStep(f, s, x, y);
    SinglesPassSound(f, s1, x, y + 1);
    DeducesTrans(f, s, s1, SinglesPass(f, s1, x, y + 1));
  }

  /** A pass's return value, the growth of m_checked plus that of m_flagged,
      is the number of tiles it opened or flagged; neither counter shrinks. */
  lemma DeducesCount(f: Field, s: State, s1: State)
    requires Inv(f, s) && Deduces(f, s, s1)
    ensures (s1.checked - s.checked) + (s1.flagged - s.flagged)
      == (|CheckedSet(s1.tiles, f.width, f.height)| - |CheckedSet(s.tiles, f.width, f.height)|)
       + (|FlaggedSet(s1.tiles, f.width, f.height)| - |FlaggedSet(s.tiles, f.width, f.height)|)
    ensures s.checked <= s1.checked && s.flagged <= s1.flagged
  {
    var w, h := f.width, f.height;
    assert CheckedSet(s.tiles, w, h) <= CheckedSet(s1.tiles, w, h);
    assert FlaggedSet(s.tiles, w, h) <= FlaggedSet(s1.tiles, w, h);
    SubsetCard(CheckedSet(s.tiles, w, h), CheckedSet(s1.tiles, w, h));
    SubsetCard(FlaggedSet(s.tiles, w, h), FlaggedSet(s1.tiles, w, h));
  }

  /** A step that closes no tile and loses no hit makes no fewer queries:
      m_checked counts the open tiles plus the hits. */
  lemma QueriesGrow(f: Field, s: State, s1: State)
    requires Monotone(s.tiles, s1.tiles, f.width, f.height) && Hits(f, s) <= Hits(f, s1)
    ensures s.checked <= s1.checked
  {
    var w, h := f.width, f.height;
    assert CheckedSet(s.tiles, w, h) <= CheckedSet(s1.tiles, w, h);
    SubsetCard(CheckedSet(s.tiles, w, h), CheckedSet(s1.tiles, w, h));
  }

  /** No more tiles than the board has are ever open. */
  lemma CheckedBound(f: Field, g: Grid)
    ensures |CheckedSet(g, f.width, f.height)| <= f.width * f.height
  {
    CellsSize(f.width, f.height);
    SubsetCard(CheckedSet(g, f.width, f.height), Cells(f.width, f.height));
  }

  /** When the counters account for every tile and no query hit a mine,
      every tile is open or flagged, the flags are exactly the mines and
      the open tiles exactly the others: solve reporting success from a
      fresh solver that never hit a mine has cleared the board. */
  lemma SolvedBoard(f: Field, s: State)
    requires Inv(f, s) && Hits(f, s) == 0 && s.checked + s.flagged >= f.width * f.height
    ensures UnresolvedSet(s.tiles, f.width, f.height) == {}
    ensures FlaggedSet(s.tiles, f.width, f.height) == f.mines
    ensures forall c :: InBounds(f.width, f.height, c) ==> (At(s.tiles, c).checked <==> c !in f.mines)
  {
    var w, h := f.width, f.height;
    PartitionSize(s.tiles, w, h);
    var us := UnresolvedSet(s.tiles, w, h);
    assert |us| == 0;
    forall c | InBounds(w, h, c)
      ensures At(s.tiles, c).checked || At(s.tiles, c).flagged
      ensures At(s.tiles, c).checked <==> c !in f.mines
    {
      assert Good(f, At(s.tiles, c), c);
      assert c in Cells(w, h);
      assert c !in us;
    }
    forall m | m in f.mines ensures m in FlaggedSet(s.tiles, w, h) {
      assert InBounds(w, h, m);
      assert m in Cells(w, h);
    }
    forall c | c in FlaggedSet(s.tiles, w, h) ensures c in f.mines {
      assert Good(f, At(s.tiles, c), c);
    }
  }

  /** The state with the top of the blank stack popped. */
  function Pop(s: State): State
    requires s.blanks != []
  {
    s.(blanks := s.blanks[..|s.blanks| - 1])
  }

  lemma PopInv(f: Field, s: State)
    requires Inv(f, s) && s.blanks != []
    ensures Inv(f, Pop(s))
    ensures var c := s.blanks[|s.blanks| - 1];
      IsBlank(f, s.tiles, c) && (Drained(f, s) ==> DrainedBut(f, Pop(s), {c}))
  {
    var n := |s.blanks| - 1;
    assert forall i :: 0 <= i < n ==> Pop(s).blanks[i] == s.blanks[i];
    assert s.blanks == Pop(s).blanks + [s.blanks[n]];
  }

  /** solveBlanks: pop the most recently opened blank and check all its
      closed neighbours, until the stack is empty. Each round either opens a
      tile or shortens the stack. */
  ghost function BlanksPass(f: Field, s: State): State
    requires Inv(f, s)
    decreases f.width * f.height - |CheckedSet(s.tiles, f.width, f.height)|, |s.blanks|
  {
    if s.blanks == [] then s
    else
      var s2 := BlankStep(f, s);
      BlankStepShrinks(f, s);
      BlanksPass(f, s2)
  }

  /** One round of solveBlanks's loop. */
  function BlankStep(f: Field, s: State): State
    requires s.blanks != []
  {
    CheckEach(f, Pop(s), Around(f.width, f.height, s.blanks[|s.blanks| - 1]), Unopened)
  }

  /** A round keeps the invariant and either opens a tile or shortens the stack. */
  lemma BlankStepShrinks(f: Field, s: State)
    requires Inv(f, s) && s.blanks != []
    ensures Inv(f, BlankStep(f, s))
    ensures var n0, n1 := |CheckedSet(s.tiles, f.width, f.height)|, |CheckedSet(BlankStep(f, s).tiles, f.width, f.height)|;
      n1 <= f.width * f.height
      && (n0 < n1 || (n0 == n1 && |BlankStep(f, s).blanks| < |s.blanks|))
  {
    var c := s.blanks[|s.blanks| - 1];
    var s1 := Pop(s);
    var s2 := BlankStep(f, s);
    PopInv(f, s);
    CheckEachInv(f, s1, Around(f.width, f.height, c), Unopened, {});
    CheckedBound(f, s2.tiles);
    GrowsOrSame(CheckedSet(s.tiles, f.width, f.height), CheckedSet(s2.tiles, f.width, f.height));
  }

  lemma GrowsOrSame<T>(a: set<T>, b: set<T>)
    requires a <= b
    ensures a == b || |a| < |b|
  {
    if a != b {
      assert |b| == |a| + |b - a|;
      var d :| d in b - a;
    }
  }

  /** One round of solveBlanks: every neighbour of the popped blank ends up
      open, no mine is hit, and every other blank stays accounted for. */
  lemma BlankRound(f: Field, s: State)
    requires Inv(f, s) && Drained(f, s) && s.blanks != []
    ensures Deduces(f, s, BlankStep(f, s)) && Drained(f, BlankStep(f, s))
    ensures BlankStep(f, s).flagged == s.flagged
  {
    var w, h := f.width, f.height;
    var c := s.blanks[|s.blanks| - 1];
    var s1 := Pop(s);
    var cs := Around(w, h, c);
    PopInv(f, s);
    BlankHasNoMinedNeighbour(f, s, c);
    CheckEachInv(f, s1, cs, Unopened, {c});
    CheckEachNoHits(f, s1, cs, Unopened);
    var s2 := CheckEach(f, s1, cs, Unopened);
    ExpandedSurrounded(f, s1, c);
    DrainedClose(f, s2, c);
    SameFlags(s.tiles, s2.tiles, w, h);
  }

  /** Checking every closed neighbour of a tile with no mine around it
      opens all of them. */
  lemma ExpandedSurrounded(f: Field, s: State, c: Coord)
    requires Inv(f, s) && forall d :: IsNeighbour(d, c) ==> d !in f.mines
    ensures Surrounded(f, CheckEach(f, s, Around(f.width, f.height, c), Unopened).tiles, c)
  {
    var w, h := f.width, f.height;
    var cs := Around(w, h, c);
    var s2 := CheckEach(f, s, cs, Unopened);
    CheckEachInv(f, s, cs, Unopened, {});
    CheckEachResolves(f, s, cs);
    forall d | InBounds(w, h, d) && IsNeighbour(d, c) ensures At(s2.tiles, d).checked {
      assert d in cs;
      assert Good(f, At(s2.tiles, d), d);
    }
  }

  /** A blank excused from being accounted for, once surrounded, is accounted for. */
  lemma DrainedClose(f: Field, s: State, c: Coord)
    requires DrainedBut(f, s, {c}) && Surrounded(f, s.tiles, c)
    ensures Drained(f, s)
  {
  }

  lemma SameFlags(g0: Grid, g1: Grid, w: int, h: int)
    requires forall d :: InBounds(w, h, d) ==> At(g1, d).flagged == At(g0, d).flagged
    ensures FlaggedSet(g1, w, h) == FlaggedSet(g0, w, h)
  {
  }

  /** What solveBlanks's loop needs of one round: the invariant and every
      expanded blank are kept, the remaining passes agree, and the loop's
      measure goes down. */
  lemma BlankLoopStep(f: Field, s: State)
    requires Inv(f, s) && Drained(f, s) && s.blanks != []
    ensures var s2 := BlankStep(f, s);
      && Inv(f, s2) && Drained(f, s2)
      && BlanksPass(f, s2) == BlanksPass(f, s)
      && var n0, n1 := |CheckedSet(s.tiles, f.width, f.height)|, |CheckedSet(s2.tiles, f.width, f.height)|;
         n1 <= f.width * f.height && (n0 < n1 || (n0 == n1 && |s2.blanks| < |s.blanks|))
  {
    BlankStepShrinks(f, s);
    BlankRound(f, s);
  }

  /** solveBlanks is sound, empties the stack, and leaves every opened blank
      with all its neighbours open; its result (the growth of m_checked) is
      the number of tiles it opened. */
  lemma {:induction false} BlanksPassSound(f: Field, s: State)
    requires Inv(f, s) && Drained(f, s)
    ensures var s1 := BlanksPass(f, s);
      && Deduces(f, s, s1)
      && s1.blanks == []
      && s1.flagged == s.flagged
      && (forall c :: IsBlank(f, s1.tiles, c) ==> Surrounded(f, s1.tiles, c))
    decreases f.width * f.height - |CheckedSet(s.tiles, f.width, f.height)|, |s.blanks|
  {
    if s.blanks == [] {
      DeducesRefl(f, s);
    } else {
      var s2 := BlankStep(f, s);
      assert BlanksPass(f, s) == BlanksPass(f, s2) by {
        BlankStepShrinks(f, s);
      }
      BlankRound(f, s);
      BlankStepShrinks(f, s);
      BlanksPassSound(f, s2);
      DeducesTrans(f, s, s2, BlanksPass(f, s2));
    }
  }
}
