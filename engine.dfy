/** The solver's state as a value, the transitions that Sweeper::check and the
    flagging loop of Sweeper::solveSingles perform on it, and the facts that
    make the single-tile rule sound. */
module Engine {
  import opened Geometry
  import opened Board
  import opened Tiles

  /** The board as the proofs see it: its size and, hidden from the solver, where the mines are. */
  datatype Field = Field(width: nat, height: nat, mines: set<Coord>)

  /** The solver's mutable state: the tile grid, the stack of opened blanks
      still to expand (m_blanks) and the counters m_checked and m_flagged. */
  datatype State = State(tiles: Grid, blanks: seq<Coord>, checked: int, flagged: int)

  ghost predicate MinesOnBoard(f: Field) {
    forall m :: m in f.mines ==> InBounds(f.width, f.height, m)
  }

  /** What an opened or flagged tile claims agrees with the board. */
  predicate Sound(f: Field, t: Tile, c: Coord) {
    && (t.checked ==> c !in f.mines && t.adjacentMines == MineCount(f.mines, c))
    && (t.flagged ==> c in f.mines)
  }

  /** A settled tile: consistent marks, claims that agree with the board,
      and no trial assignment left on it. */
  predicate Good(f: Field, t: Tile, c: Coord) {
    TileOk(t) && Sound(f, t, c) && !t.testMine
  }

  ghost predicate AllGood(f: Field, g: Grid) {
    forall c :: InBounds(f.width, f.height, c) ==> Good(f, At(g, c), c)
  }

  /** An opened tile without mines around it. */
  predicate IsBlank(f: Field, g: Grid, c: Coord) {
    InBounds(f.width, f.height, c) && At(g, c).checked && At(g, c).adjacentMines == 0
  }

  ghost predicate BlanksOk(f: Field, g: Grid, blanks: seq<Coord>) {
    forall i :: 0 <= i < |blanks| ==> IsBlank(f, g, blanks[i])
  }

  /** The state invariant that every operation of the solver keeps: the grid
      has the board's shape, every tile is settled, the stack holds opened
      blanks, m_flagged counts the flags and m_checked is at least the
      number of opened tiles. */
  ghost predicate Inv(f: Field, s: State) {
    && Rect(s.tiles, f.width, f.height)
    && MinesOnBoard(f)
    && AllGood(f, s.tiles)
    && BlanksOk(f, s.tiles, s.blanks)
    && s.flagged == |FlaggedSet(s.tiles, f.width, f.height)|
    && |CheckedSet(s.tiles, f.width, f.height)| <= s.checked
  }

  /** Every tile around c is open. */
  ghost predicate Surrounded(f: Field, g: Grid, c: Coord) {
    forall d :: InBounds(f.width, f.height, d) && IsNeighbour(d, c) ==> At(g, d).checked
  }

  /** Every opened blank outside e is either still on the stack or has all its neighbours open. */
  ghost predicate DrainedBut(f: Field, s: State, e: set<Coord>) {
    forall c :: IsBlank(f, s.tiles, c) ==> c in s.blanks || Surrounded(f, s.tiles, c) || c in e
  }

  /** No opened blank is left unexpanded without being on the stack. */
  ghost predicate Drained(f: Field, s: State) {
    DrainedBut(f, s, {})
  }

  /** Oracle queries that hit a mine: m_checked counts every query. */
  function Hits(f: Field, s: State): int {
    s.checked - |CheckedSet(s.tiles, f.width, f.height)|
  }

  /** The grid of a freshly constructed solver. */
  function InitialTiles(w: nat, h: nat): (g: Grid)
    ensures Rect(g, w, h)
    ensures forall c :: InBounds(w, h, c) ==> At(g, c) == Untouched
  {
    seq(w, _ => seq(h, _ => Untouched))
  }

  lemma InitialInv(f: Field)
    requires MinesOnBoard(f)
    ensures Inv(f, State(InitialTiles(f.width, f.height), [], 0, 0))
    ensures Drained(f, State(InitialTiles(f.width, f.height), [], 0, 0))
  {
    var g := InitialTiles(f.width, f.height);
    assert FlaggedSet(g, f.width, f.height) == {};
    assert CheckedSet(g, f.width, f.height) == {};
  }

  /** g1 agrees with g0 on everything but the group labels and vote counts. */
  ghost predicate SameSettled(g0: Grid, g1: Grid, w: int, h: int) {
    && Rect(g1, w, h)
    && forall d :: InBounds(w, h, d) ==>
         At(g1, d) == At(g0, d).(restrictedGroup := At(g1, d).restrictedGroup,
                                 restrictedSolutionMines := At(g1, d).restrictedSolutionMines)
  }

  /** Relabelling tiles and changing their votes keeps the invariant and
      changes nothing the solver has concluded. */
  lemma SameSettledInv(f: Field, s: State, g1: Grid)
    requires Inv(f, s) && SameSettled(s.tiles, g1, f.width, f.height)
    ensures var s1 := s.(tiles := g1);
      && Inv(f, s1)
      && Monotone(s.tiles, g1, f.width, f.height)
      && (Drained(f, s) ==> Drained(f, s1))
      && CheckedSet(g1, f.width, f.height) == CheckedSet(s.tiles, f.width, f.height)
      && FlaggedSet(g1, f.width, f.height) == FlaggedSet(s.tiles, f.width, f.height)
  {
    var w, h := f.width, f.height;
    var s1 := s.(tiles := g1);
    assert AllGood(f, g1) by {
      forall d | InBounds(w, h, d) ensures Good(f, At(g1, d), d) {
        assert Good(f, At(s.tiles, d), d);
      }
    }
    assert BlanksOk(f, g1, s.blanks) by {
      forall i | 0 <= i < |s.blanks| ensures IsBlank(f, g1, s.blanks[i]) {
        assert IsBlank(f, s.tiles, s.blanks[i]);
      }
    }
    assert CheckedSet(g1, w, h) == CheckedSet(s.tiles, w, h);
    assert FlaggedSet(g1, w, h) == FlaggedSet(s.tiles, w, h);
    if Drained(f, s) {
      forall c | IsBlank(f, g1, c) ensures c in s.blanks || Surrounded(f, g1, c) {
        assert IsBlank(f, s.tiles, c);
        if !(c in s.blanks) {
          assert Surrounded(f, s.tiles, c);
        }
      }
    }
  }

  /** The grid after a safe tile c with n mines around it is opened: c is
      checked, no longer restricted and stores n; if n is not zero every
      unopened neighbour becomes restricted. Nothing else changes. */
  function Opened(g: Grid, c: Coord, n: int): (r: Grid)
    ensures |r| == |g| && forall i :: 0 <= i < |g| ==> |r[i]| == |g[i]|
    ensures forall d :: Has(r, d) <==> Has(g, d)
  {
    MapGrid(g, (d: Coord, t: Tile) =>
      if d == c then t.(checked := true, restricted := false, adjacentMines := n)
      else if n != 0 && IsNeighbour(d, c) && Unopened(t) then t.(restricted := true)
      else t)
  }

  /** g1 differs from g0 in openness at most at c, keeps every flag, and
      keeps every other tile's number. */
  ghost predicate OpensOnly(g0: Grid, g1: Grid, w: int, h: int, c: Coord) {
    forall d :: InBounds(w, h, d) ==>
      && At(g1, d).flagged == At(g0, d).flagged
      && (d != c ==> At(g1, d).checked == At(g0, d).checked
                     && At(g1, d).adjacentMines == At(g0, d).adjacentMines)
  }

  /** Opening a safe unopened tile keeps every tile settled and touches
      nothing the solver has concluded about other tiles. */
  lemma OpenedGood(f: Field, g: Grid, c: Coord)
    requires Rect(g, f.width, f.height) && MinesOnBoard(f) && AllGood(f, g)
    requires InBounds(f.width, f.height, c) && !At(g, c).checked && c !in f.mines
    ensures var g1 := Opened(g, c, MineCount(f.mines, c));
      && Rect(g1, f.width, f.height)
      && AllGood(f, g1)
      && OpensOnly(g, g1, f.width, f.height, c)
      && At(g1, c).checked && At(g1, c).adjacentMines == MineCount(f.mines, c)
  {
    var n := MineCount(f.mines, c);
    var g1 := Opened(g, c, n);
    RectHas(g, f.width, f.height);
    forall d | InBounds(f.width, f.height, d)
      ensures At(g1, d) ==
        if d == c then At(g, d).(checked := true, restricted := false, adjacentMines := n)
        else if n != 0 && IsNeighbour(d, c) && Unopened(At(g, d)) then At(g, d).(restricted := true)
        else At(g, d)
    {
    }
    forall d | InBounds(f.width, f.height, d) ensures Good(f, At(g1, d), d) {
      assert Good(f, At(g, d), d);
    }
  }

  /** After opening c alone, the opened set has gained c and the flags are the same. */
  lemma OpensOnlySets(g0: Grid, g1: Grid, w: int, h: int, c: Coord)
    requires OpensOnly(g0, g1, w, h, c) && InBounds(w, h, c) && At(g1, c).checked
    ensures CheckedSet(g1, w, h) == CheckedSet(g0, w, h) + {c}
    ensures FlaggedSet(g1, w, h) == FlaggedSet(g0, w, h)
    ensures Monotone(g0, g1, w, h)
  {
  }

  /** After opening c alone, the old stack still holds opened blanks, and
      every blank other than c was one before. */
  lemma OpensOnlyBlanks(f: Field, g0: Grid, g1: Grid, blanks: seq<Coord>, c: Coord)
    requires OpensOnly(g0, g1, f.width, f.height, c) && !At(g0, c).checked
    requires BlanksOk(f, g0, blanks)
    ensures BlanksOk(f, g1, blanks)
    ensures forall d :: IsBlank(f, g1, d) && d != c ==> IsBlank(f, g0, d)
  {
    forall i | 0 <= i < |blanks| ensures IsBlank(f, g1, blanks[i]) {
      assert IsBlank(f, g0, blanks[i]);
    }
  }

  /** Sweeper::check(x, y) as a transition. An opened tile is left alone; a
      query counts in m_checked; a mine changes nothing else; a safe tile is
      opened and, when blank, pushed on the stack. */
  function CheckStep(f: Field, s: State, c: Coord): State {
    if At(s.tiles, c).checked then s
    else if c in f.mines then s.(checked := s.checked + 1)
    else
      var n := MineCount(f.mines, c);
      s.(tiles := Opened(s.tiles, c, n),
         blanks := if n == 0 then s.blanks + [c] else s.blanks,
         checked := s.checked + 1)
  }

  /** check's result: false exactly when it revealed a mine. */
  predicate CheckOk(f: Field, s: State, c: Coord) {
    At(s.tiles, c).checked || c !in f.mines
  }

  /** check keeps the invariant, never closes an open or flagged tile, keeps
      every blank accounted for, and counts a hit exactly when it queried a mine. */
  lemma CheckStepInv(f: Field, s: State, c: Coord, e: set<Coord>)
    requires Inv(f, s) && InBounds(f.width, f.height, c)
    ensures var s1 := CheckStep(f, s, c);
      && Inv(f, s1)
      && Monotone(s.tiles, s1.tiles, f.width, f.height)
      && (DrainedBut(f, s, e) ==> DrainedBut(f, s1, e))
      && s1.flagged == s.flagged
      && (forall d :: InBounds(f.width, f.height, d) ==> At(s1.tiles, d).flagged == At(s.tiles, d).flagged)
      && CheckedSet(s1.tiles, f.width, f.height)
         == CheckedSet(s.tiles, f.width, f.height) + (if CheckOk(f, s, c) then {c} else {})
      && Hits(f, s1) == Hits(f, s) + (if CheckOk(f, s, c) then 0 else 1)
      && s.blanks <= s1.blanks
  {
    var w, h := f.width, f.height;
    if At(s.tiles, c).checked {
      assert CheckedSet(s.tiles, w, h) + {c} == CheckedSet(s.tiles, w, h);
    } else if c !in f.mines {
      OpenStepInv(f, s, c, e);
    }
  }

  /** The case of CheckStepInv where a safe tile is opened. */
  lemma OpenStepInv(f: Field, s: State, c: Coord, e: set<Coord>)
    requires Inv(f, s) && InBounds(f.width, f.height, c)
    requires !At(s.tiles, c).checked && c !in f.mines
    ensures var s1 := CheckStep(f, s, c);
      && Inv(f, s1)
      && Monotone(s.tiles, s1.tiles, f.width, f.height)
      && (DrainedBut(f, s, e) ==> DrainedBut(f, s1, e))
      && s1.flagged == s.flagged
      && (forall d :: InBounds(f.width, f.height, d) ==> At(s1.tiles, d).flagged == At(s.tiles, d).flagged)
      && CheckedSet(s1.tiles, f.width, f.height) == CheckedSet(s.tiles, f.width, f.height) + {c}
      && Hits(f, s1) == Hits(f, s)
      && s.blanks <= s1.blanks
  {
    var w, h := f.width, f.height;
    var s1 := CheckStep(f, s, c);
    var g, g1 := s.tiles, s1.tiles;
    OpenedGood(f, g, c);
    OpensOnlySets(g, g1, w, h, c);
    AddOneCard(CheckedSet(g, w, h), c);
    OpenedStack(f, s, c, e);
  }

  lemma AddOneCard(a: set<Coord>, c: Coord)
    requires c !in a
    ensures |a + {c}| == |a| + 1
  {
  }

  /** check on a tile that is not open makes exactly one query, which is a
      hit exactly when the tile is a mine. */
  lemma GuessStep(f: Field, s: State, c: Coord)
    requires Inv(f, s) && Drained(f, s) && InBounds(f.width, f.height, c) && !At(s.tiles, c).checked
    ensures var s1 := CheckStep(f, s, c);
      && Inv(f, s1) && Drained(f, s1)
      && s1.checked == s.checked + 1
      && (CheckOk(f, s, c) <==> c !in f.mines)
      && Hits(f, s1) == Hits(f, s) + (if c in f.mines then 1 else 0)
  {
    CheckStepInv(f, s, c, {});
  }

  /** The part of CheckStepInv that the solver object carries from call to call. */
  lemma CheckStepKeeps(f: Field, s: State, c: Coord)
    requires Inv(f, s) && InBounds(f.width, f.height, c)
    ensures Inv(f, CheckStep(f, s, c)) && (Drained(f, s) ==> Drained(f, CheckStep(f, s, c)))
  {
    CheckStepInv(f, s, c, {});
  }

  /** Opening a safe tile keeps the stack made of opened blanks and every blank accounted for. */
  lemma OpenedStack(f: Field, s: State, c: Coord, e: set<Coord>)
    requires Inv(f, s) && InBounds(f.width, f.height, c)
    requires !At(s.tiles, c).checked && c !in f.mines
    ensures var s1 := CheckStep(f, s, c);
      BlanksOk(f, s1.tiles, s1.blanks) && (DrainedBut(f, s, e) ==> DrainedBut(f, s1, e))
  {
    var s1 := CheckStep(f, s, c);
    var g, g1 := s.tiles, s1.tiles;
    OpenedGood(f, g, c);
    OpensOnlyBlanks(f, g, g1, s.blanks, c);
    assert BlanksOk(f, g1, s1.blanks) by {
      forall i | 0 <= i < |s1.blanks| ensures IsBlank(f, g1, s1.blanks[i]) {
        if i < |s.blanks| {
          assert IsBlank(f, g1, s.blanks[i]);
        }
      }
    }
    if DrainedBut(f, s, e) {
      forall d | IsBlank(f, g1, d) ensures d in s1.blanks || Surrounded(f, g1, d) || d in e {
        if d != c {
          assert IsBlank(f, g, d);
        }
      }
    }
  }

  /** check changes another tile at most by marking it restricted, and
      changes no tile's vote count. */
  lemma CheckStepFrame(f: Field, s: State, c: Coord)
    ensures forall d :: d != c ==>
      At(CheckStep(f, s, c).tiles, d) == At(s.tiles, d)
      || At(CheckStep(f, s, c).tiles, d) == At(s.tiles, d).(restricted := true)
    ensures forall d :: At(CheckStep(f, s, c).tiles, d).restrictedSolutionMines == At(s.tiles, d).restrictedSolutionMines
  {
    if !At(s.tiles, c).checked && c !in f.mines {
      var n := MineCount(f.mines, c);
      var g1 := Opened(s.tiles, c, n);
      forall d ensures (d != c ==> At(g1, d) == At(s.tiles, d) || At(g1, d) == At(s.tiles, d).(restricted := true))
                    && At(g1, d).restrictedSolutionMines == At(s.tiles, d).restrictedSolutionMines
      {
        if Has(s.tiles, d) {
          OpenedAt(s.tiles, c, n, d);
        }
      }
    }
  }

  lemma OpenedAt(g: Grid, c: Coord, n: int, d: Coord)
    requires Has(g, d)
    ensures At(Opened(g, c, n), d) ==
      if d == c then At(g, d).(checked := true, restricted := false, adjacentMines := n)
      else if n != 0 && IsNeighbour(d, c) && Unopened(At(g, d)) then At(g, d).(restricted := true)
      else At(g, d)
  {
  }

  /** Check every tile of cs whose tile satisfies pick when its turn comes,
      ignoring the results: the loop of Sweeper::checkAdjecent (pick is
      "neither open nor flagged") and the opening loop of
      Sweeper::solveRestricted (pick is "no votes"). */
  function CheckEach(f: Field, s: State, cs: seq<Coord>, pick: Tile -> bool): State
    decreases |cs|
  {
    if cs == [] then s
    else
      var s1 := if pick(At(s.tiles, cs[0])) then CheckStep(f, s, cs[0]) else s;
      CheckEach(f, s1, cs[1..], pick)
  }

  ghost predicate AllOnBoard(f: Field, cs: seq<Coord>) {
    forall i :: 0 <= i < |cs| ==> InBounds(f.width, f.height, cs[i])
  }

  /** The tiles of cs that are neither open nor flagged. */
  function UnopenedAmong(g: Grid, cs: seq<Coord>): set<Coord> {
    set d | d in cs && Unopened(At(g, d))
  }

  /** Checking a list of tiles keeps the invariant, never closes an open or
      flagged tile, changes no flag, keeps every blank accounted for, and
      never unmakes a mine hit. The stack only grows, and it grows only when
      some tile was opened. */
  lemma {:induction false} CheckEachInv(f: Field, s: State, cs: seq<Coord>, pick: Tile -> bool, e: set<Coord>)
    requires Inv(f, s) && AllOnBoard(f, cs)
    ensures var s1 := CheckEach(f, s, cs, pick);
      && Inv(f, s1)
      && Monotone(s.tiles, s1.tiles, f.width, f.height)
      && (DrainedBut(f, s, e) ==> DrainedBut(f, s1, e))
      && s1.flagged == s.flagged
      && (forall d :: InBounds(f.width, f.height, d) ==> At(s1.tiles, d).flagged == At(s.tiles, d).flagged)
      && Hits(f, s) <= Hits(f, s1)
      && s.blanks <= s1.blanks
      && CheckedSet(s.tiles, f.width, f.height) <= CheckedSet(s1.tiles, f.width, f.height)
      && (CheckedSet(s1.tiles, f.width, f.height) == CheckedSet(s.tiles, f.width, f.height) ==> s1.blanks == s.blanks)
    decreases |cs|
  {
    if cs != [] {
      var c := cs[0];
      var s1 := if pick(At(s.tiles, c)) then CheckStep(f, s, c) else s;
      CheckStepInv(f, s, c, e);
      CheckEachInv(f, s1, cs[1..], pick, e);
      MonotoneTrans(s.tiles, s1.tiles, CheckEach(f, s1, cs[1..], pick).tiles, f.width, f.height);
    }
  }

  /** After checkAdjecent's loop, each listed tile is open, flagged, or a mine. */
  lemma {:induction false} CheckEachResolves(f: Field, s: State, cs: seq<Coord>)
    requires Inv(f, s) && AllOnBoard(f, cs)
    ensures forall d :: d in cs ==>
      var t := At(CheckEach(f, s, cs, Unopened).tiles, d);
      t.checked || t.flagged || d in f.mines
    decreases |cs|
  {
    if cs != [] {
      var c := cs[0];
      var s1 := if Unopened(At(s.tiles, c)) then CheckStep(f, s, c) else s;
      CheckStepInv(f, s, c, {});
      CheckEachInv(f, s1, cs[1..], Unopened, {});
      CheckEachResolves(f, s1, cs[1..]);
    }
  }

  /** Taking one tile off the front of a list of distinct tiles. */
  lemma UnopenedAmongStep(g0: Grid, g1: Grid, c: Coord, rest: seq<Coord>)
    requires c !in rest
    requires forall d :: d in rest ==> Unopened(At(g1, d)) == Unopened(At(g0, d))
    ensures |UnopenedAmong(g0, [c] + rest)|
         == |UnopenedAmong(g1, rest)| + (if Unopened(At(g0, c)) then 1 else 0)
  {
    assert UnopenedAmong(g1, rest) == UnopenedAmong(g0, rest);
    if Unopened(At(g0, c)) {
      assert UnopenedAmong(g0, [c] + rest) == UnopenedAmong(g0, rest) + {c};
    } else {
      assert UnopenedAmong(g0, [c] + rest) == UnopenedAmong(g0, rest);
    }
  }

  /** checkAdjecent's loop adds one to m_checked for each distinct listed
      tile that was neither open nor flagged. */
  lemma {:induction false} CheckEachCount(f: Field, s: State, cs: seq<Coord>)
    requires Distinct(cs)
    ensures CheckEach(f, s, cs, Unopened).checked == s.checked + |UnopenedAmong(s.tiles, cs)|
    decreases |cs|
  {
    if cs != [] {
      var c := cs[0];
      var rest := cs[1..];
      var s1 := if Unopened(At(s.tiles, c)) then CheckStep(f, s, c) else s;
      CheckStepFrame(f, s, c);
      assert Distinct(rest) && c !in rest by {
        forall i | 0 <= i < |rest| ensures rest[i] == cs[i + 1] { }
      }
      CheckEachCount(f, s1, rest);
      assert cs == [c] + rest;
      UnopenedAmongStep(s.tiles, s1.tiles, c, rest);
    }
  }

  /** pick does not look at the restricted mark. */
  ghost predicate IgnoresRestricted(pick: Tile -> bool) {
    forall t: Tile :: pick(t.(restricted := true)) == pick(t)
  }

  /** When pick rejects every listed mine, checking the list hits no mine. */
  lemma {:induction false} CheckEachNoHits(f: Field, s: State, cs: seq<Coord>, pick: Tile -> bool)
    requires Inv(f, s) && AllOnBoard(f, cs) && IgnoresRestricted(pick)
    requires forall d :: d in cs && d in f.mines ==> !pick(At(s.tiles, d))
    ensures Hits(f, CheckEach(f, s, cs, pick)) == Hits(f, s)
    decreases |cs|
  {
    if cs != [] {
      var s1 := if pick(At(s.tiles, cs[0])) then CheckStep(f, s, cs[0]) else s;
      NoHitsStep(f, s, cs, pick);
      CheckEachNoHits(f, s1, cs[1..], pick);
    }
  }

  /** One step of CheckEachNoHits: the first tile is no mine (or is not
      picked), and the mines further on stay unpicked. */
  lemma NoHitsStep(f: Field, s: State, cs: seq<Coord>, pick: Tile -> bool)
    requires Inv(f, s) && AllOnBoard(f, cs) && IgnoresRestricted(pick) && cs != []
    requires forall d :: d in cs && d in f.mines ==> !pick(At(s.tiles, d))
    ensures var s1 := if pick(At(s.tiles, cs[0])) then CheckStep(f, s, cs[0]) else s;
      && Inv(f, s1) && AllOnBoard(f, cs[1..]) && Hits(f, s1) == Hits(f, s)
      && forall d :: d in cs[1..] && d in f.mines ==> !pick(At(s1.tiles, d))
  {
    var c := cs[0];
    var rest := cs[1..];
    assert c in cs;
    assert forall i :: 0 <= i < |rest| ==> rest[i] == cs[i + 1];
    if pick(At(s.tiles, c)) {
      CheckStepHits(f, s, c);
      forall d | d in rest && d in f.mines ensures !pick(At(CheckStep(f, s, c).tiles, d)) {
        assert d in cs;
        UnpickedKept(f, s, c, pick, d);
      }
    }
  }

  /** check keeps the invariant and counts a hit exactly when it queried a mine. */
  lemma CheckStepHits(f: Field, s: State, c: Coord)
    requires Inv(f, s) && InBounds(f.width, f.height, c)
    ensures Inv(f, CheckStep(f, s, c))
    ensures Hits(f, CheckStep(f, s, c)) == Hits(f, s) + (if CheckOk(f, s, c) then 0 else 1)
  {
    CheckStepInv(f, s, c, {});
  }

  /** check at c does not make pick accept any other tile it rejected. */
  lemma UnpickedKept(f: Field, s: State, c: Coord, pick: Tile -> bool, d: Coord)
    requires IgnoresRestricted(pick) && d != c && !pick(At(s.tiles, d))
    ensures !pick(At(CheckStep(f, s, c).tiles, d))
  {
    CheckStepFrame(f, s, c);
    var s1 := CheckStep(f, s, c);
    if At(s1.tiles, d) != At(s.tiles, d) {
      assert At(s1.tiles, d) == At(s.tiles, d).(restricted := true);
    }
  }

  /** The tiles that checking a list opens: a tile ends up open exactly
      when it already was, or it is listed, chosen by pick and safe. */
  lemma {:induction false} CheckEachOpens(f: Field, s: State, cs: seq<Coord>, pick: Tile -> bool, d: Coord)
    requires IgnoresRestricted(pick) && Rect(s.tiles, f.width, f.height) && AllOnBoard(f, cs)
    ensures At(CheckEach(f, s, cs, pick).tiles, d).checked
      <==> At(s.tiles, d).checked || (d in cs && pick(At(s.tiles, d)) && d !in f.mines)
    decreases |cs|
  {
    if cs != [] {
      var c := cs[0];
      var rest := cs[1..];
      var s1 := if pick(At(s.tiles, c)) then CheckStep(f, s, c) else s;
      CheckStepFrame(f, s, c);
      CheckEachOpens(f, s1, rest, pick, d);
      assert pick(At(s1.tiles, d)) == pick(At(s.tiles, d)) || d == c;
      RectHas(s.tiles, f.width, f.height);
      if d == c && pick(At(s.tiles, c)) && !At(s.tiles, c).checked && c !in f.mines {
        OpenedAt(s.tiles, c, MineCount(f.mines, c), c);
      }
      assert d in cs <==> d == c || d in rest;
    }
  }

  /** One step of the flagging loop in Sweeper::solveSingles: flag c, clear
      its restricted mark and count it in m_flagged. */
  function FlagStep(s: State, c: Coord): State
    requires Has(s.tiles, c)
  {
    s.(tiles := Put(s.tiles, c, At(s.tiles, c).(flagged := true, restricted := false)),
       flagged := s.flagged + 1)
  }

  /** Flagging an unopened c adds c to the flagged set and opens nothing. */
  lemma FlagSets(g: Grid, w: int, h: int, c: Coord)
    requires Has(g, c) && InBounds(w, h, c) && Unopened(At(g, c))
    ensures var g1 := Put(g, c, At(g, c).(flagged := true, restricted := false));
      && FlaggedSet(g1, w, h) == FlaggedSet(g, w, h) + {c}
      && c !in FlaggedSet(g, w, h)
      && CheckedSet(g1, w, h) == CheckedSet(g, w, h)
  {
    var g1 := Put(g, c, At(g, c).(flagged := true, restricted := false));
    assert FlaggedSet(g1, w, h) == FlaggedSet(g, w, h) + {c};
    assert CheckedSet(g1, w, h) == CheckedSet(g, w, h);
  }

  /** Flagging an unopened mine keeps the invariant and changes nothing
      about the opened tiles or the stack. */
  lemma FlagStepInv(f: Field, s: State, c: Coord, e: set<Coord>)
    requires Inv(f, s) && InBounds(f.width, f.height, c)
    requires Unopened(At(s.tiles, c)) && c in f.mines
    ensures Has(s.tiles, c)
    ensures var s1 := FlagStep(s, c);
      && Inv(f, s1)
      && Monotone(s.tiles, s1.tiles, f.width, f.height)
      && (DrainedBut(f, s, e) ==> DrainedBut(f, s1, e))
      && s1.checked == s.checked && s1.blanks == s.blanks
      && At(s1.tiles, c).flagged
      && CheckedSet(s1.tiles, f.width, f.height) == CheckedSet(s.tiles, f.width, f.height)
      && (forall d :: d != c ==> At(s1.tiles, d) == At(s.tiles, d))
  {
    var w, h := f.width, f.height;
    RectHas(s.tiles, w, h);
    var s1 := FlagStep(s, c);
    var g, g1 := s.tiles, s1.tiles;
    FlagSets(g, w, h, c);
    AddOneCard(FlaggedSet(g, w, h), c);
    assert AllGood(f, g1) by {
      forall d | InBounds(w, h, d) ensures Good(f, At(g1, d), d) {
        assert Good(f, At(g, d), d);
      }
    }
    assert BlanksOk(f, g1, s1.blanks) by {
      forall i | 0 <= i < |s1.blanks| ensures IsBlank(f, g1, s1.blanks[i]) {
        assert IsBlank(f, g, s.blanks[i]);
      }
    }
    if DrainedBut(f, s, e) {
      forall d | IsBlank(f, g1, d) ensures d in s1.blanks || Surrounded(f, g1, d) || d in e {
        assert IsBlank(f, g, d);
      }
    }
  }

  /** The whole flagging loop: flag every tile of cs that is neither open nor flagged. */
  function FlagEach(s: State, cs: seq<Coord>): State
    decreases |cs|
  {
    if cs == [] then s
    else
      var s1 := if Has(s.tiles, cs[0]) && Unopened(At(s.tiles, cs[0])) then FlagStep(s, cs[0]) else s;
      FlagEach(s1, cs[1..])
  }

  /** Flagging only mines keeps the invariant and changes nothing about
      the opened tiles, the stack or m_checked. */
  lemma {:induction false} FlagEachInv(f: Field, s: State, cs: seq<Coord>, e: set<Coord>)
    requires Inv(f, s) && AllOnBoard(f, cs)
    requires forall d :: d in cs && Unopened(At(s.tiles, d)) ==> d in f.mines
    ensures var s1 := FlagEach(s, cs);
      && Inv(f, s1)
      && Monotone(s.tiles, s1.tiles, f.width, f.height)
      && (DrainedBut(f, s, e) ==> DrainedBut(f, s1, e))
      && s1.checked == s.checked && s1.blanks == s.blanks
      && CheckedSet(s1.tiles, f.width, f.height) == CheckedSet(s.tiles, f.width, f.height)
    decreases |cs|
  {
    RectHas(s.tiles, f.width, f.height);
    if cs != [] {
      var c := cs[0];
      var rest := cs[1..];
      assert forall d :: d in rest ==> d in cs;
      var s1 := if Has(s.tiles, c) && Unopened(At(s.tiles, c)) then FlagStep(s, c) else s;
      if Unopened(At(s.tiles, c)) {
        FlagStepInv(f, s, c, e);
      }
      FlagEachInv(f, s1, rest, e);
      MonotoneTrans(s.tiles, s1.tiles, FlagEach(s1, rest).tiles, f.width, f.height);
    }
  }

  /** The flagging loop never unflags or closes a tile. */
  lemma {:induction false} FlagEachKeeps(s: State, cs: seq<Coord>, d: Coord)
    ensures At(s.tiles, d).checked ==> At(FlagEach(s, cs).tiles, d).checked
    ensures At(s.tiles, d).flagged ==> At(FlagEach(s, cs).tiles, d).flagged
    decreases |cs|
  {
    if cs != [] {
      var s1 := if Has(s.tiles, cs[0]) && Unopened(At(s.tiles, cs[0])) then FlagStep(s, cs[0]) else s;
      FlagEachKeeps(s1, cs[1..], d);
    }
  }

  /** After the flagging loop each listed tile is open or flagged, and
      m_flagged has grown by the number of distinct listed tiles that were
      neither. */
  lemma {:induction false} FlagEachCount(s: State, cs: seq<Coord>)
    requires forall i :: 0 <= i < |cs| ==> Has(s.tiles, cs[i])
    ensures forall d :: d in cs ==> At(FlagEach(s, cs).tiles, d).checked || At(FlagEach(s, cs).tiles, d).flagged
    ensures Distinct(cs) ==> FlagEach(s, cs).flagged == s.flagged + |UnopenedAmong(s.tiles, cs)|
    decreases |cs|
  {
    if cs != [] {
      var c := cs[0];
      var rest := cs[1..];
      var s1 := if Has(s.tiles, c) && Unopened(At(s.tiles, c)) then FlagStep(s, c) else s;
      assert forall d :: d != c ==> At(s1.tiles, d) == At(s.tiles, d);
      assert forall i :: 0 <= i < |rest| ==> Has(s1.tiles, rest[i]);
      FlagEachCount(s1, rest);
      FlagEachKeeps(s1, rest, c);
      if Distinct(cs) {
        assert Distinct(rest) && c !in rest by {
          forall i | 0 <= i < |rest| ensures rest[i] == cs[i + 1] { }
        }
        assert cs == [c] + rest;
        UnopenedAmongStep(s.tiles, s1.tiles, c, rest);
      }
    }
  }

  /** The mined tiles around c. */
  function MinedAround(f: Field, c: Coord): set<Coord> {
    set d | d in f.mines && IsNeighbour(d, c)
  }

  lemma SameSizeSubset<T>(a: set<T>, b: set<T>)
    requires a <= b && |a| == |b|
    ensures a == b
  {
    assert |b - a| == |b| - |a|;
  }

  /** The first single-tile rule is safe: when an opened tile sees as many
      flags as its number, none of its unflagged neighbours is a mine. */
  lemma SinglesOpenSafe(f: Field, s: State, c: Coord)
    requires Inv(f, s) && InBounds(f.width, f.height, c) && At(s.tiles, c).checked
    requires FlagsAround(s.tiles, f.width, f.height, c) == At(s.tiles, c).adjacentMines
    ensures forall d :: IsNeighbour(d, c) && d in f.mines ==> At(s.tiles, d).flagged
  {
    var flags := NeighboursWhere(s.tiles, f.width, f.height, c, IsFlagged);
    CountAdjacentSize(s.tiles, f.width, f.height, c, IsFlagged);
    var mined := MinedAround(f, c);
    assert Sound(f, At(s.tiles, c), c);
    assert |flags| == |mined|;
    forall d | d in flags ensures d in mined {
      assert Sound(f, At(s.tiles, d), d);
    }
    SameSizeSubset(flags, mined);
    forall d | IsNeighbour(d, c) && d in f.mines ensures At(s.tiles, d).flagged {
      assert d in mined;
      assert d in flags;
    }
  }

  /** The second single-tile rule is sound: when an opened tile's number
      equals its flags plus its unopened neighbours, every unopened
      neighbour is a mine. */
  lemma SinglesFlagSound(f: Field, s: State, c: Coord)
    requires Inv(f, s) && InBounds(f.width, f.height, c) && At(s.tiles, c).checked
    requires FlagsAround(s.tiles, f.width, f.height, c)
             + ClosedAround(s.tiles, f.width, f.height, c)
             == At(s.tiles, c).adjacentMines
    ensures forall d :: InBounds(f.width, f.height, d) && IsNeighbour(d, c) && Unopened(At(s.tiles, d))
              ==> d in f.mines
  {
    var w, h := f.width, f.height;
    var flags := NeighboursWhere(s.tiles, w, h, c, IsFlagged);
    var open := NeighboursWhere(s.tiles, w, h, c, Unopened);
    CountAdjacentSize(s.tiles, w, h, c, IsFlagged);
    CountAdjacentSize(s.tiles, w, h, c, Unopened);
    var mined := MinedAround(f, c);
    assert Sound(f, At(s.tiles, c), c);
    assert |mined| == |flags| + |open|;
    forall d | d in mined ensures d in flags + open {
      assert InBounds(w, h, d);
      assert Sound(f, At(s.tiles, d), d);
    }
    assert flags !! open;
    assert |flags + open| == |flags| + |open|;
    SameSizeSubset(mined, flags + open);
    forall d | InBounds(w, h, d) && IsNeighbour(d, c) && Unopened(At(s.tiles, d)) ensures d in f.mines {
      assert d in open;
    }
  }

  /** No mine lies next to an opened blank. */
  lemma BlankHasNoMinedNeighbour(f: Field, s: State, c: Coord)
    requires Inv(f, s) && IsBlank(f, s.tiles, c)
    ensures forall d :: IsNeighbour(d, c) ==> d !in f.mines
  {
    assert Sound(f, At(s.tiles, c), c);
    var mined := MinedAround(f, c);
    assert mined == {};
    forall d | IsNeighbour(d, c) ensures d !in f.mines {
      assert d !in mined;
    }
  }
}
