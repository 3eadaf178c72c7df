/** The solver object of sweeper.cpp: its tile grid, blank stack, counters
    and restricted groups, and the methods that update them in place. Check,
    Guess and the pass methods are proved against the value-level
    transitions of Engine, Passes and Restricted; the loops of solve are
    stated through the states of each round. */
module Sweeper {
  import opened Geometry
  import opened Board
  import opened Tiles
  import opened Engine
  import opened Passes
  import opened Groups
  import opened Trials
  import opened Restricted

  /** How solve ends: every tile resolved, a guess that hit the mine at
      `at`, or the guesses or the step budget ran out. */
  datatype Outcome = Solved | Detonated(at: Coord) | Exhausted

  /** The grid part of check for a safe tile c with n mines around it:
      open c and store n; unless n is zero, mark every neighbour that is
      neither open nor flagged restricted. */
  method OpenTile(g0: Grid, w: int, h: int, c: Coord, n: int) returns (g: Grid)
    requires Rect(g0, w, h) && InBounds(w, h, c)
    ensures g == Opened(g0, c, n)
  {
    RectHas(g0, w, h);
    g := Put(g0, c, At(g0, c).(checked := true, restricted := false, adjacentMines := n));
    ghost var g1 := g;
    var adjacent := [];
    if n != 0 {
      adjacent := Adjacent(g, w, h, c, Unopened);
      var i := 0;
      while i < |adjacent|
        invariant 0 <= i <= |adjacent|
        invariant Updated(g1, g, w, h, adjacent[..i], Restrict)
      {
        assert adjacent[i] in adjacent;
        UpdateStep(g1, g, w, h, adjacent, i, Restrict);
        g := Put(g, adjacent[i], Restrict(At(g, adjacent[i])));
        i := i + 1;
      }
    }
    assert adjacent[..|adjacent|] == adjacent;
    OpenedByMarks(g0, g, w, h, c, n, adjacent);
  }

  function Restrict(t: Tile): Tile {
    t.(restricted := true)
  }

  /** Marking exactly the unopened neighbours of the freshly opened c gives Opened. */
  lemma OpenedByMarks(g0: Grid, g: Grid, w: int, h: int, c: Coord, n: int, cs: seq<Coord>)
    requires Rect(g0, w, h) && InBounds(w, h, c)
    requires var g1 := Put(g0, c, At(g0, c).(checked := true, restricted := false, adjacentMines := n));
      Updated(g1, g, w, h, cs, Restrict)
      && cs == (if n != 0 then Adjacent(g1, w, h, c, Unopened) else [])
    ensures g == Opened(g0, c, n)
  {
    RectHas(g0, w, h);
    forall d | Has(g, d) ensures At(g, d) == At(Opened(g0, c, n), d) {
      OpenedAt(g0, c, n, d);
    }
    GridExt(g, Opened(g0, c, n));
  }

  /** check past the early return, on the solver state: count the query,
      and for a safe tile with n mines around it open it, pushing it on the
      stack when n is zero. */
  method Probe(ghost f: Field, s: State, w: int, h: int, c: Coord, n: int) returns (s1: State)
    requires w == f.width && h == f.height && Rect(s.tiles, w, h) && InBounds(w, h, c)
    requires !At(s.tiles, c).checked
    requires (n < 0 <==> c in f.mines) && (n >= 0 ==> n == MineCount(f.mines, c))
    ensures s1 == CheckStep(f, s, c)
  {
    if n < 0 {
      return s.(checked := s.checked + 1);
    }
    var g := OpenTile(s.tiles, w, h, c, n);
    s1 := s.(tiles := g, blanks := if n == 0 then s.blanks + [c] else s.blanks, checked := s.checked + 1);
  }

  /** Every guess before index n names a tile that is open or flagged. */
  ghost predicate Spent(g: Grid, guesses: seq<Coord>, n: int) {
    forall i :: 0 <= i < n && i < |guesses| ==> !Unopened(At(g, guesses[i]))
  }

  /** Tiles stay open and flagged, so guesses stay spent. */
  lemma SpentKept(g0: Grid, g1: Grid, w: int, h: int, guesses: seq<Coord>, n: int)
    requires Spent(g0, guesses, n) && Monotone(g0, g1, w, h)
    requires forall i :: 0 <= i < |guesses| ==> InBounds(w, h, guesses[i])
    ensures Spent(g1, guesses, n)
  {
    forall i | 0 <= i < n && i < |guesses| ensures !Unopened(At(g1, guesses[i])) {
      assert InBounds(w, h, guesses[i]);
    }
  }

  /** Guesses the skipping loop passed over are spent. */
  lemma SpentSkipped(g: Grid, guesses: seq<Coord>, from: int, next: int)
    requires Spent(g, guesses, from) && 0 <= from <= next <= |guesses|
    requires forall i :: from <= i < next ==> !Unopened(At(g, guesses[i]))
    ensures Spent(g, guesses, next)
  {
  }

  /** A guess that was opened is spent too. */
  lemma SpentNext(g: Grid, guesses: seq<Coord>, n: int)
    requires Spent(g, guesses, n) && 0 <= n < |guesses| && !Unopened(At(g, guesses[n]))
    ensures Spent(g, guesses, n + 1)
  {
  }

  /** A round of solve's inner loop that sets stuck, from s0 to s:
      solveBlanks makes no query, solveSingles then makes no query and sets
      no flag, ending in mid, and solveRestricted, over the groups that
      groupRestricted leaves in grouped, makes no query either. */
  ghost predicate Stuck(f: Field, s0: State, mid: State, grouped: Grid, groups: seq<seq<Coord>>, s: State)
    requires Inv(f, s0)
  {
    var b := BlanksPass(f, s0);
    && b.checked == s0.checked
    && mid == SinglesPass(f, b, 0, 0)
    && mid.checked == s0.checked && mid.flagged == s0.flagged
    && Grouped(grouped, f.width, f.height, groups)
    && SameButLabels(Reset(mid.tiles), grouped, f.width, f.height)
    && s == RestrictedPass(f, mid.(tiles := grouped), groups)
    && s.checked == mid.checked
  }

  class Sweeper {
    const board: Board
    var tiles: Grid                       // m_tiles
    var blanks: seq<Coord>                // m_blanks
    var checked: int                      // m_checked
    var flagged: int                      // m_flagged
    var guessed: int                      // m_guessed
    var restrictedGroups: seq<seq<Coord>> // m_restrictedGroups
    var path: seq<bool>                   // the trial path testRestricted extends

    /** The board as the proofs see it. */
    ghost function F(): Field {
      Field(board.width, board.height, board.Mines)
    }

    /** The part of the solver the deduction transitions act on. */
    function S(): State
      reads this
    {
      State(tiles, blanks, checked, flagged)
    }

    /** The board is consistent and the solver state keeps its invariant. */
    ghost predicate Ready()
      reads this, board, board.mine, board.adjacentMineCount
    {
      board.Valid() && Inv(F(), S())
    }

    /** Ready, and no opened blank is left unexpanded off the stack. */
    ghost predicate Valid()
      reads this, board, board.mine, board.adjacentMineCount
    {
      Ready() && Drained(F(), S())
    }

    constructor (board: Board)
      requires board.Valid()
      ensures this.board == board
      ensures Valid()
      ensures S() == State(InitialTiles(board.width, board.height), [], 0, 0)
      ensures guessed == 0 && restrictedGroups == [] && path == []
    {
      this.board := board;
      tiles := InitialTiles(board.width, board.height);
      blanks := [];
      checked := 0;
      flagged := 0;
      guessed := 0;
      restrictedGroups := [];
      path := [];
      new;
      InitialInv(F());
    }

    /** solve(): until every tile is accounted for, guess a tile that is
        neither open nor flagged (the guesses are drawn from the given
        sequence, skipping unusable ones), check it, and then run the
        deduction rounds of Deduce, each time with the given fuel. Solved
        is reported only when unsolved reaches zero; Exhausted only when
        no usable guess is left, when the counters have passed the size of
        the board (which only hits inside solveRestricted can cause, and
        where the source loops forever), or when the fuel is smaller than
        the board. */
    method Solve(guesses: seq<Coord>, fuel: nat) returns (outcome: Outcome)
      requires Valid()
      requires forall i :: 0 <= i < |guesses| ==> InBounds(board.width, board.height, guesses[i])
      modifies this`tiles, this`blanks, this`checked, this`flagged, this`guessed, this`restrictedGroups, this`path
      ensures Valid()
      ensures Monotone(old(tiles), tiles, board.width, board.height)
      ensures checked >= old(checked) && flagged >= old(flagged)
      ensures outcome == Solved ==> (checked - old(checked)) + (flagged - old(flagged)) == board.Size()
      ensures outcome == Solved && old(checked) == 0 && old(flagged) == 0 && Hits(F(), S()) == 0 ==>
                && FlaggedSet(tiles, board.width, board.height) == F().mines
                && forall c :: InBounds(board.width, board.height, c) ==> (At(tiles, c).checked <==> c !in F().mines)
      ensures outcome.Detonated? ==> outcome.at in guesses && outcome.at in F().mines
      ensures outcome.Detonated? ==> Hits(F(), old(S())) < Hits(F(), S())
      ensures outcome == Exhausted ==>
                || (forall i :: 0 <= i < |guesses| ==> !Unopened(At(tiles, guesses[i])))
                || (checked - old(checked)) + (flagged - old(flagged)) > board.Size()
                || fuel < board.Size()
      ensures Hits(F(), old(S())) <= Hits(F(), S())
      ensures old(guessed) <= guessed <= old(guessed) + |guesses|
    {
      var unsolved := board.Size();
      var next := 0;
      outcome := Solved;
      while unsolved > 0 && outcome == Solved
        invariant Valid() && 0 <= next <= |guesses|
        invariant checked >= old(checked) && flagged >= old(flagged)
        invariant !outcome.Detonated? ==> unsolved == board.Size() - (checked - old(checked)) - (flagged - old(flagged))
        invariant outcome == Solved ==> unsolved >= 0
        invariant Monotone(old(tiles), tiles, board.width, board.height)
        invariant Spent(tiles, guesses, next)
        invariant outcome == Exhausted ==> next == |guesses| || unsolved < 0 || fuel < board.Size()
        invariant outcome.Detonated? ==> next < |guesses| && outcome.at == guesses[next] && outcome.at in F().mines
        invariant outcome.Detonated? ==> Hits(F(), old(S())) < Hits(F(), S())
        invariant Hits(F(), old(S())) <= Hits(F(), S())
        invariant old(guessed) <= guessed <= old(guessed) + next + (if outcome.Detonated? then 1 else 0)
        decreases |guesses| - next, if outcome == Solved then 1 else 0
      {
        var from := next;
        next := NextGuess(guesses, next);
        SpentSkipped(tiles, guesses, from, next);
        if next == |guesses| {
          outcome := Exhausted;
        } else {
          ghost var g0 := tiles;
          ghost var start, mid, grouped;
          next, unsolved, outcome, start, mid, grouped := Attempt(guesses, next, unsolved, fuel);
          MonotoneTrans(old(tiles), g0, tiles, board.width, board.height);
        }
      }
      if outcome == Solved && old(checked) == 0 && old(flagged) == 0 && Hits(F(), S()) == 0 {
        SolvedBoard(F(), S());
      }
    }

    /** One pass of solve's outer loop once a usable guess is found at
        index next0: check it; a mine ends solve with Detonated. Otherwise,
        unless that left nothing unsolved, run the deduction rounds. The
        outcome is Solved when solve's loop goes on or ends with success. */
    method Attempt(guesses: seq<Coord>, next0: int, unsolved0: int, fuel: nat)
      returns (next: int, unsolved: int, outcome: Outcome, ghost start: State, ghost mid: State, ghost grouped: Grid)
      requires Valid() && 0 <= next0 < |guesses| && unsolved0 > 0
      requires forall i :: 0 <= i < |guesses| ==> InBounds(board.width, board.height, guesses[i])
      requires Spent(tiles, guesses, next0) && Unopened(At(tiles, guesses[next0]))
      modifies this`tiles, this`blanks, this`checked, this`flagged, this`guessed, this`restrictedGroups, this`path
      ensures Valid() && next0 <= next <= |guesses|
      ensures Spent(tiles, guesses, next)
      ensures !outcome.Detonated? ==> unsolved == unsolved0 - (checked - old(checked)) - (flagged - old(flagged))
      ensures checked >= old(checked) && flagged >= old(flagged)
      ensures Monotone(old(tiles), tiles, board.width, board.height)
      ensures Hits(F(), old(S())) <= Hits(F(), S())
      ensures guessed == old(guessed) + 1
      ensures !outcome.Detonated? ==> next == next0 + 1
      ensures outcome.Detonated? <==> guesses[next0] in F().mines
      ensures outcome == Solved ==> unsolved >= 0
      ensures outcome == Solved && unsolved != 0 ==>
                Inv(F(), start) && Stuck(F(), start, mid, grouped, restrictedGroups, S())
      ensures outcome == Exhausted ==> unsolved < 0 || fuel < unsolved0
      ensures outcome.Detonated? ==> next == next0 && outcome.at == guesses[next] && outcome.at in F().mines
      ensures outcome.Detonated? ==> Hits(F(), old(S())) < Hits(F(), S())
    {
      unsolved, next := unsolved0, next0;
      start, mid, grouped := S(), S(), tiles;
      var c := guesses[next];
      var ok := Guess(c.x, c.y);
      SpentKept(old(tiles), tiles, board.width, board.height, guesses, next);
      if !ok {
        return next, unsolved, Detonated(c), start, mid, grouped;
      }
      SpentNext(tiles, guesses, next);
      next := next + 1;
      unsolved := unsolved - 1;
      outcome := Solved;
      if unsolved == 0 {
        return;
      }
      var exhausted;
      ghost var g1 := tiles;
      unsolved, exhausted, start, mid, grouped := Deduce(unsolved, fuel);
      MonotoneTrans(old(tiles), g1, tiles, board.width, board.height);
      SpentKept(g1, tiles, board.width, board.height, guesses, next);
      if exhausted {
        outcome := Exhausted;
      }
    }

    /** The guessing loop of solve: skip the guesses that name a tile that
        is open or flagged; the result is the index of the first usable
        one, or the number of guesses when none is left. */
    method NextGuess(guesses: seq<Coord>, from: int) returns (next: int)
      requires 0 <= from <= |guesses| && Rect(tiles, board.width, board.height)
      requires forall i :: 0 <= i < |guesses| ==> InBounds(board.width, board.height, guesses[i])
      ensures from <= next <= |guesses|
      ensures forall i :: from <= i < next ==> !Unopened(At(tiles, guesses[i]))
      ensures next < |guesses| ==> Unopened(At(tiles, guesses[next]))
    {
      next := from;
      while next < |guesses| && (At(tiles, guesses[next]).checked || At(tiles, guesses[next]).flagged)
        invariant from <= next <= |guesses|
        invariant forall i :: from <= i < next ==> !Unopened(At(tiles, guesses[i]))
      {
        next := next + 1;
      }
    }

    /** A guess in solve: count it and check the tile, which is not open. */
    method Guess(x: int, y: int) returns (ok: bool)
      requires Valid() && InBounds(board.width, board.height, Coord(x, y)) && !At(tiles, Coord(x, y)).checked
      modifies this`tiles, this`blanks, this`checked, this`guessed
      ensures Valid()
      ensures S() == CheckStep(F(), old(S()), Coord(x, y))
      ensures guessed == old(guessed) + 1 && checked == old(checked) + 1
      ensures ok <==> Coord(x, y) !in F().mines
      ensures ok ==> At(tiles, Coord(x, y)).checked
      ensures Monotone(old(tiles), tiles, board.width, board.height)
      ensures Hits(F(), S()) == Hits(F(), old(S())) + (if ok then 0 else 1)
    {
      guessed := guessed + 1;
      GuessStep(F(), S(), Coord(x, y));
      CheckStepInv(F(), S(), Coord(x, y), {});
      ok := Check(x, y);
    }

    /** The inner loop of solve: run rounds of DeduceRound until one
        leaves nothing unsolved or is stuck. unsolved drops by every tile
        opened or flagged and every query made. At most fuel rounds run;
        running out is reported as exhausted. Otherwise the loop ends with
        nothing unsolved or after a Stuck round, which start, mid and
        grouped describe. A round that leaves unsolved
        positive and is not stuck lowers it, so the fuel runs out only
        when it is smaller than unsolved0 or unsolved has gone below zero,
        where the source's loop never ends. */
    method Deduce(unsolved0: int, fuel: nat)
      returns (unsolved: int, exhausted: bool, ghost start: State, ghost mid: State, ghost grouped: Grid)
      requires Valid()
      modifies this`tiles, this`blanks, this`checked, this`flagged, this`restrictedGroups, this`path
      ensures Valid()
      ensures unsolved == unsolved0 - (checked - old(checked)) - (flagged - old(flagged))
      ensures checked >= old(checked) && flagged >= old(flagged)
      ensures Monotone(old(tiles), tiles, board.width, board.height)
      ensures Hits(F(), old(S())) <= Hits(F(), S())
      ensures exhausted ==> unsolved < 0 || fuel <= unsolved0
      ensures !exhausted ==> unsolved >= 0
      ensures !exhausted && unsolved != 0 ==>
                Inv(F(), start) && Stuck(F(), start, mid, grouped, restrictedGroups, S())
    {
      unsolved, exhausted := unsolved0, false;
      start, mid, grouped := S(), S(), tiles;
      ghost var hits0, total0 := Hits(F(), S()), unsolved0 + checked + flagged;
      var budget: nat := fuel;
      var stuck := false;
      while !stuck
        invariant Valid()
        invariant unsolved + checked + flagged == total0
        invariant checked >= old(checked) && flagged >= old(flagged)
        invariant Monotone(old(tiles), tiles, board.width, board.height)
        invariant hits0 <= Hits(F(), S())
        invariant budget <= fuel
        invariant !stuck ==> unsolved < 0 || unsolved <= unsolved0 - (fuel - budget)
        invariant stuck ==> unsolved > 0
        invariant stuck ==> Inv(F(), start) && Stuck(F(), start, mid, grouped, restrictedGroups, S())
        decreases budget, if stuck then 0 else 1
      {
        if budget == 0 {
          exhausted := true;
          return;
        }
        budget := budget - 1;
        var done;
        ghost var g0, s0, s1, ran := tiles, S(), S(), false;
        unsolved, done, stuck, s1, mid, ran, grouped := DeduceRound(unsolved);
        start := s0;
        MonotoneTrans(old(tiles), g0, tiles, board.width, board.height);
        if done {
          break;
        }
      }
    }

    /** One round of solve's inner loop: solveBlanks, then, unless that
        left nothing unsolved, solveSingles, then, when neither of them
        found anything and something is left, solveRestricted. done says
        that unsolved reached zero, which breaks the loop; stuck that the
        restricted pass ran and made no query. The ghost results are the
        states after the blanks and the singles pass, whether the
        restricted pass ran, and the grid groupRestricted left. */
    method DeduceRound(unsolved0: int)
      returns (unsolved: int, done: bool, stuck: bool,
               ghost afterBlanks: State, ghost afterSingles: State, ghost ran: bool, ghost grouped: Grid)
      requires Valid()
      modifies this`tiles, this`blanks, this`checked, this`flagged, this`restrictedGroups, this`path
      ensures Valid()
      ensures unsolved == unsolved0 - (checked - old(checked)) - (flagged - old(flagged))
      ensures done <==> unsolved == 0
      ensures Monotone(old(tiles), tiles, board.width, board.height)
      ensures Hits(F(), old(S())) <= Hits(F(), S())
      ensures afterBlanks == BlanksPass(F(), old(S()))
      ensures afterSingles == if unsolved0 == afterBlanks.checked - old(checked) then afterBlanks
                              else SinglesPass(F(), afterBlanks, 0, 0)
      ensures ran <==> && afterBlanks.checked == old(checked)
                       && afterSingles.checked == old(checked) && afterSingles.flagged == old(flagged)
                       && unsolved0 > 0
      ensures !ran ==> S() == afterSingles && Deduces(F(), old(S()), S())
      ensures ran ==> && Grouped(grouped, board.width, board.height, restrictedGroups)
                      && SameButLabels(Reset(afterSingles.tiles), grouped, board.width, board.height)
                      && S() == RestrictedPass(F(), afterSingles.(tiles := grouped), restrictedGroups)
      ensures stuck <==> ran && checked == afterSingles.checked
      ensures stuck ==> unsolved > 0
      ensures stuck ==> Stuck(F(), old(S()), afterSingles, grouped, restrictedGroups, S())
      ensures checked >= old(checked) && flagged >= old(flagged)
      ensures !done && !stuck && unsolved0 > 0 ==> unsolved < unsolved0
    {
      ghost var s0 := S();
      var blanksSolved := SolveBlanks();
      afterBlanks, afterSingles, ran, grouped := S(), S(), false, tiles;
      unsolved := unsolved0 - blanksSolved;
      done, stuck := unsolved == 0, false;
      if !done {
        var singlesSolved := SolveSingles();
        afterSingles := S();
        DeducesTrans(F(), s0, afterBlanks, afterSingles);
        DeducesCount(F(), afterBlanks, afterSingles);
        unsolved := unsolved - singlesSolved;
        done := unsolved == 0;
        if !done && unsolved > 0 && blanksSolved == 0 && singlesSolved == 0 {
          var restrictedSolved;
          ran := true;
          restrictedSolved, grouped := SolveRestricted();
          MonotoneTrans(s0.tiles, afterSingles.tiles, tiles, board.width, board.height);
          unsolved := unsolved - restrictedSolved;
          done := unsolved == 0;
          stuck := !done && restrictedSolved == 0;
        }
      }
    }

    /** check(x, y): open a tile through the board. An opened tile answers
        true at once; otherwise the query is counted, a mine answers false,
        and a safe tile is opened, pushed on the stack when blank, or else
        marks its closed neighbours restricted. */
    method Check(x: int, y: int) returns (ok: bool)
      requires board.Valid() && Rect(tiles, board.width, board.height)
      requires InBounds(board.width, board.height, Coord(x, y))
      modifies this`tiles, this`blanks, this`checked
      ensures S() == CheckStep(F(), old(S()), Coord(x, y))
      ensures ok == CheckOk(F(), old(S()), Coord(x, y))
    {
      var c := Coord(x, y);
      ghost var f := F();
      if At(tiles, c).checked {
        return true;
      }
      var n := board.Check(x, y);
      var s1 := Probe(f, S(), board.width, board.height, c, n);
      tiles, blanks, checked := s1.tiles, s1.blanks, s1.checked;
      assert S() == s1;
      return n >= 0;
    }

    /** checkAdjecent(x, y): check every neighbour of c that is neither open
        nor flagged, in probing order, and count the queries. */
    method CheckAdjacent(x: int, y: int) returns (n: int)
      requires Ready() && InBounds(board.width, board.height, Coord(x, y))
      modifies this`tiles, this`blanks, this`checked
      ensures Ready()
      ensures S() == CheckEach(F(), old(S()), Around(board.width, board.height, Coord(x, y)), Unopened)
      ensures n == checked - old(checked)
    {
      var before := checked;
      var around := Around(board.width, board.height, Coord(x, y));
      var i := 0;
      while i < |around|
        invariant 0 <= i <= |around|
        invariant Ready()
        invariant CheckEach(F(), S(), around[i..], Unopened) == CheckEach(F(), old(S()), around, Unopened)
      {
        var d := around[i];
        assert around[i..][1..] == around[i + 1..];
        if !At(tiles, d).checked && !At(tiles, d).flagged {
          CheckStepKeeps(F(), S(), d);
          var _ := Check(d.x, d.y);
        }
        i := i + 1;
      }
      n := checked - before;
    }

    /** solveBlanks(): expand opened blanks until the stack is empty;
        the result is the number of queries made. */
    method SolveBlanks() returns (n: int)
      requires Valid()
      modifies this`tiles, this`blanks, this`checked
      ensures Valid()
      ensures S() == BlanksPass(F(), old(S())) && Deduces(F(), old(S()), S())
      ensures n == checked - old(checked) && n >= 0
      ensures Hits(F(), S()) == Hits(F(), old(S()))
    {
      var before := checked;
      BlanksPassSound(F(), S());
      DeducesCount(F(), S(), BlanksPass(F(), S()));
      while blanks != []
        invariant Valid()
        invariant BlanksPass(F(), S()) == BlanksPass(F(), old(S()))
        decreases board.width * board.height - |CheckedSet(tiles, board.width, board.height)|, |blanks|
      {
        ghost var f, s0 := F(), S();
        BlankLoopStep(f, s0);
        ExpandTop();
      }
      n := checked - before;
    }

    /** One round of solveBlanks's loop: pop the newest blank and check its
        closed neighbours. */
    method ExpandTop()
      requires Ready() && blanks != []
      modifies this`tiles, this`blanks, this`checked
      ensures Ready()
      ensures S() == BlankStep(F(), old(S()))
    {
      ghost var f, s0 := F(), S();
      PopInv(f, s0);
      var c := blanks[|blanks| - 1];
      blanks := blanks[..|blanks| - 1];
      assert S() == Pop(s0);
      var _ := CheckAdjacent(c.x, c.y);
    }

    /** The flagging loop of solveSingles at c: flag every neighbour that is
        neither open nor flagged, clearing its restricted mark. */
    method FlagAround(x: int, y: int)
      requires Rect(tiles, board.width, board.height)
      modifies this`tiles, this`flagged
      ensures S() == FlagEach(old(S()), Around(board.width, board.height, Coord(x, y)))
    {
      var around := Around(board.width, board.height, Coord(x, y));
      var i := 0;
      while i < |around|
        invariant 0 <= i <= |around|
        invariant FlagEach(S(), around[i..]) == FlagEach(old(S()), around)
      {
        var d := around[i];
        assert around[i..][1..] == around[i + 1..];
        if Has(tiles, d) && !At(tiles, d).checked && !At(tiles, d).flagged {
          tiles := Put(tiles, d, At(tiles, d).(flagged := true, restricted := false));
          flagged := flagged + 1;
        }
        i := i + 1;
      }
    }

    /** The body of solveSingles's loops at tile (x, y). */
    method ApplySingle(x: int, y: int)
      requires Valid() && InBounds(board.width, board.height, Coord(x, y))
      modifies this`tiles, this`blanks, this`checked, this`flagged
      ensures Valid()
      ensures S() == SingleStep(F(), old(S()), Coord(x, y))
    {
      var w, h := board.width, board.height;
      var c := Coord(x, y);
      SingleStepSound(F(), S(), c);
      var t := At(tiles, c);
      if !t.checked || t.adjacentMines == 0 {
        return;
      }
      var flags := FlagsAround(tiles, w, h, c);
      var open := ClosedAround(tiles, w, h, c);
      if flags == t.adjacentMines && open > 0 {
        var _ := CheckAdjacent(x, y);
      } else if open > 0 && flags + open == t.adjacentMines {
        FlagAround(x, y);
      }
    }

    /** solveSingles(): apply both single-tile rules to every tile, column by
        column; the result is the number of queries plus the number of flags set. */
    method SolveSingles() returns (n: int)
      requires Valid()
      modifies this`tiles, this`blanks, this`checked, this`flagged
      ensures Valid()
      ensures S() == SinglesPass(F(), old(S()), 0, 0) && Deduces(F(), old(S()), S())
      ensures n == (checked - old(checked)) + (flagged - old(flagged)) && n >= 0
      ensures Hits(F(), S()) == Hits(F(), old(S()))
    {
      SinglesPassSound(F(), S(), 0, 0);
      DeducesCount(F(), S(), SinglesPass(F(), S(), 0, 0));
      var checkedBefore, flaggedBefore := checked, flagged;
      var x := 0;
      while x < board.width
        invariant 0 <= x <= board.width
        invariant Valid()
        invariant SinglesPass(F(), S(), x, 0) == SinglesPass(F(), old(S()), 0, 0)
      {
        var y := 0;
        while y < board.height
          invariant 0 <= y <= board.height
          invariant Valid()
          invariant SinglesPass(F(), S(), x, y) == SinglesPass(F(), old(S()), 0, 0)
        {
          ApplySingle(x, y);
          y := y + 1;
        }
        x := x + 1;
      }
      n := (checked - checkedBefore) + (flagged - flaggedBefore);
    }

    /** solveRestricted(): group the frontier, then for each group try every
        assignment of mines to it and check every tile of the group that no
        accepted assignment marks a mine. The result is the number of
        queries made; grouped is the grid as groupRestricted left it. */
    method SolveRestricted() returns (n: int, ghost grouped: Grid)
      requires Valid()
      modifies this`tiles, this`blanks, this`checked, this`restrictedGroups, this`path
      ensures Valid()
      ensures Grouped(grouped, board.width, board.height, restrictedGroups)
      ensures SameButLabels(Reset(old(tiles)), grouped, board.width, board.height)
      ensures S() == RestrictedPass(F(), old(S()).(tiles := grouped), restrictedGroups)
      ensures n == checked - old(checked) && n >= 0
      ensures Hits(F(), old(S())) <= Hits(F(), S())
      ensures Monotone(old(tiles), tiles, board.width, board.height)
      ensures path == []
    {
      var before := checked;
      path := [];
      grouped := Regroup();
      SolveGroups(restrictedGroups);
      MonotoneTrans(old(tiles), grouped, tiles, board.width, board.height);
      QueriesGrow(F(), old(S()), S());
      n := checked - before;
    }

    /** The loop of solveRestricted over the groups, in order. */
    method SolveGroups(groups: seq<seq<Coord>>)
      requires Valid() && path == []
      requires forall i :: 0 <= i < |groups| ==> Distinct(groups[i]) && AllOnBoard(F(), groups[i])
      modifies this`tiles, this`blanks, this`checked, this`path
      ensures Valid()
      ensures S() == RestrictedPass(F(), old(S()), groups)
      ensures Hits(F(), old(S())) <= Hits(F(), S())
      ensures Monotone(old(tiles), tiles, board.width, board.height)
      ensures path == []
    {
      RestrictedPassInv(F(), S(), groups);
      var k := 0;
      while k < |groups|
        invariant 0 <= k <= |groups|
        invariant Valid()
        invariant RestrictedPass(F(), S(), groups[k..]) == RestrictedPass(F(), old(S()), groups)
        invariant path == []
      {
        assert groups[k..][1..] == groups[k + 1..];
        SolveGroup(groups[k]);
        k := k + 1;
      }
      assert groups[k..] == [];
    }

    /** The groupRestricted call of solveRestricted, with what it keeps of
        the solver's invariant. */
    method Regroup() returns (ghost grouped: Grid)
      requires Valid()
      modifies this`tiles, this`restrictedGroups
      ensures Valid() && S() == old(S()).(tiles := grouped)
      ensures Hits(F(), S()) == Hits(F(), old(S()))
      ensures Monotone(old(tiles), tiles, board.width, board.height)
      ensures Grouped(grouped, board.width, board.height, restrictedGroups)
      ensures SameButLabels(Reset(old(tiles)), grouped, board.width, board.height)
      ensures forall i :: 0 <= i < |restrictedGroups| ==> Distinct(restrictedGroups[i]) && AllOnBoard(F(), restrictedGroups[i])
    {
      ghost var s0 := S();
      GroupRestricted();
      grouped := tiles;
      GroupedSettled(s0.tiles, grouped, board.width, board.height);
      SameSettledInv(F(), s0, grouped);
      GroupedOnBoard(F(), grouped, restrictedGroups);
    }

    /** The body of solveRestricted's loop for one group. */
    method SolveGroup(group: seq<Coord>)
      requires Valid() && Distinct(group) && AllOnBoard(F(), group) && path == []
      modifies this`tiles, this`blanks, this`checked, this`path
      ensures Valid()
      ensures S() == GroupPass(F(), old(S()), group)
      ensures path == []
    {
      ghost var f, s0 := F(), S();
      GroupPassInv(f, s0, group);
      TestedSettled(f, s0, group);
      SameSettledInv(f, s0, Tested(s0.tiles, f.width, f.height, group, []));
      var _ := TestRestricted(group);
      CheckGroup(group);
    }

    /** The checking loop of solveRestricted: check every group tile left
        without votes, in list order. */
    method CheckGroup(group: seq<Coord>)
      requires Ready() && AllOnBoard(F(), group)
      modifies this`tiles, this`blanks, this`checked
      ensures Ready()
      ensures S() == CheckEach(F(), old(S()), group, Unvoted)
    {
      var i := 0;
      while i < |group|
        invariant 0 <= i <= |group|
        invariant Ready()
        invariant CheckEach(F(), S(), group[i..], Unvoted) == CheckEach(F(), old(S()), group, Unvoted)
      {
        var d := group[i];
        assert group[i..][1..] == group[i + 1..];
        if At(tiles, d).restrictedSolutionMines == 0 {
          CheckStepKeeps(F(), S(), d);
          var _ := Check(d.x, d.y);
        }
        i := i + 1;
      }
    }

    /** groupRestricted(): clear every label and vote, then scan the board
        column by column; each frontier tile not yet in a group starts a new
        group, which followRestricted floods. The groups partition the
        frontier into its connected components. */
    method GroupRestricted()
      requires Rect(tiles, board.width, board.height)
      modifies this`tiles, this`restrictedGroups
      ensures Grouped(tiles, board.width, board.height, restrictedGroups)
      ensures SameButLabels(Reset(old(tiles)), tiles, board.width, board.height)
    {
      var w, h := board.width, board.height;
      restrictedGroups := [];
      ResetLabels();
      ghost var g1 := tiles;
      ResetPartial(old(tiles), w, h);
      for x := 0 to w
        invariant Partial(tiles, w, h, restrictedGroups) && AllClosed(tiles, w, h, restrictedGroups, |restrictedGroups|)
        invariant SameButLabels(g1, tiles, w, h)
        invariant forall d :: InBounds(w, h, d) && Before(d, x, 0) && Frontier(At(tiles, d)) ==> At(tiles, d).restrictedGroup >= 0
      {
        for y := 0 to h
          invariant Partial(tiles, w, h, restrictedGroups) && AllClosed(tiles, w, h, restrictedGroups, |restrictedGroups|)
          invariant SameButLabels(g1, tiles, w, h)
          invariant forall d :: InBounds(w, h, d) && Before(d, x, y) && Frontier(At(tiles, d)) ==> At(tiles, d).restrictedGroup >= 0
        {
          ghost var g2 := tiles;
          GroupAt(x, y);
          assert SameButLabels(g1, tiles, w, h) by {
            forall d | InBounds(w, h, d) ensures At(tiles, d) == At(g1, d).(restrictedGroup := At(tiles, d).restrictedGroup) {
              assert At(g2, d) == At(g1, d).(restrictedGroup := At(g2, d).restrictedGroup);
            }
          }
          forall d | InBounds(w, h, d) && Before(d, x, y + 1) && Frontier(At(tiles, d))
            ensures At(tiles, d).restrictedGroup >= 0
          {
            assert Frontier(At(g2, d));
          }
        }
      }
    }

    /** The reset loop of groupRestricted. */
    method ResetLabels()
      requires Rect(tiles, board.width, board.height)
      modifies this`tiles
      ensures tiles == Reset(old(tiles))
    {
      var w, h := board.width, board.height;
      ghost var g0 := tiles;
      for x := 0 to w
        invariant ResetBefore(g0, tiles, w, h, x, 0)
      {
        for y := 0 to h
          invariant ResetBefore(g0, tiles, w, h, x, y)
        {
          ResetStep(g0, tiles, w, h, x, y);
          tiles := Put(tiles, Coord(x, y), Cleared(At(tiles, Coord(x, y))));
        }
        ResetColumn(g0, tiles, w, h, x);
      }
      ResetDone(g0, tiles, w, h);
    }

    /** The body of groupRestricted's grouping loop at tile (x, y). */
    method GroupAt(x: int, y: int)
      requires InBounds(board.width, board.height, Coord(x, y))
      requires Partial(tiles, board.width, board.height, restrictedGroups)
      requires AllClosed(tiles, board.width, board.height, restrictedGroups, |restrictedGroups|)
      modifies this`tiles, this`restrictedGroups
      ensures Partial(tiles, board.width, board.height, restrictedGroups)
      ensures AllClosed(tiles, board.width, board.height, restrictedGroups, |restrictedGroups|)
      ensures SameButLabels(old(tiles), tiles, board.width, board.height)
      ensures forall d :: InBounds(board.width, board.height, d) && At(old(tiles), d).restrictedGroup >= 0
                ==> At(tiles, d).restrictedGroup >= 0
      ensures Frontier(At(tiles, Coord(x, y))) ==> At(tiles, Coord(x, y)).restrictedGroup >= 0
    {
      var w, h := board.width, board.height;
      var c := Coord(x, y);
      var t := At(tiles, c);
      if Frontier(t) && t.restrictedGroup < 0 {
        ghost var g0 := tiles;
        var k := |restrictedGroups|;
        Open(tiles, w, h, restrictedGroups, c);
        tiles := Label(tiles, c, k);
        restrictedGroups := restrictedGroups + [[c]];
        ghost var g1 := tiles;
        var _ := FollowRestricted(x, y, k);
        assert restrictedGroups[k][0] == c;
        ClosedFrom(tiles, w, h, restrictedGroups[k], k, 0);
        GrowsTrans(g0, g1, tiles, w, h, k);
      }
    }

    /** followRestricted(x, y, k): add to group k every frontier tile next to
        (x, y) that is not in it yet, and flood on from each; the result is
        the number of such neighbours found at the start. */
    method FollowRestricted(x: int, y: int, k: int) returns (n: int)
      requires Building(tiles, board.width, board.height, restrictedGroups, k)
      requires InBounds(board.width, board.height, Coord(x, y)) && At(tiles, Coord(x, y)).restrictedGroup == k
      modifies this`tiles, this`restrictedGroups
      decreases Pending(tiles, board.width, board.height, k), 1
      ensures Building(tiles, board.width, board.height, restrictedGroups, k)
      ensures Extends(old(tiles), old(restrictedGroups), tiles, restrictedGroups, board.width, board.height, k)
      ensures forall d :: InBounds(board.width, board.height, d) && IsNeighbour(d, Coord(x, y)) && Frontier(At(tiles, d))
                ==> At(tiles, d).restrictedGroup == k
      ensures n == |Adjacent(old(tiles), board.width, board.height, Coord(x, y), Joinable(k))|
    {
      var w, h := board.width, board.height;
      var c := Coord(x, y);
      var adjacent := Adjacent(tiles, w, h, c, Joinable(k));
      ghost var g0, G0 := tiles, restrictedGroups;
      ExtendsRefl(g0, G0, w, h, k);
      forall i | 0 <= i < |adjacent|
        ensures InBounds(w, h, adjacent[i]) && IsNeighbour(adjacent[i], c) && Frontier(At(g0, adjacent[i]))
      {
        assert adjacent[i] in adjacent;
      }
      var j := 0;
      while j < |adjacent|
        invariant 0 <= j <= |adjacent|
        invariant Building(tiles, w, h, restrictedGroups, k)
        invariant Extends(g0, G0, tiles, restrictedGroups, w, h, k)
        invariant forall i :: 0 <= i < j ==> At(tiles, adjacent[i]).restrictedGroup == k
      {
        var d := adjacent[j];
        ghost var g1, G1 := tiles, restrictedGroups;
        PendingShrinks(g0, tiles, w, h, k);
        VisitNeighbour(c, d, k);
        ExtendsTrans(g0, G0, g1, G1, tiles, restrictedGroups, w, h, k);
        assert Frontier(At(g0, d));
        assert At(tiles, d) == At(g0, d).(restrictedGroup := At(tiles, d).restrictedGroup);
        KeptLabels(g1, tiles, w, h, k, adjacent, j);
        j := j + 1;
      }
      forall d | InBounds(w, h, d) && IsNeighbour(d, c) && Frontier(At(tiles, d))
        ensures At(tiles, d).restrictedGroup == k
      {
        if At(g0, d).restrictedGroup != k {
          assert d in adjacent;
          var i :| 0 <= i < |adjacent| && adjacent[i] == d;
        }
      }
      n := |adjacent|;
    }

    /** The body of followRestricted's loop for a neighbour d of c: when d
        is a frontier tile not in group k yet, label it, append it to group
        k, and flood from it. */
    method VisitNeighbour(c: Coord, d: Coord, k: int)
      requires Building(tiles, board.width, board.height, restrictedGroups, k)
      requires InBounds(board.width, board.height, c) && At(tiles, c).restrictedGroup == k
      requires InBounds(board.width, board.height, d) && IsNeighbour(d, c)
      modifies this`tiles, this`restrictedGroups
      decreases Pending(tiles, board.width, board.height, k), 0
      ensures Building(tiles, board.width, board.height, restrictedGroups, k)
      ensures Extends(old(tiles), old(restrictedGroups), tiles, restrictedGroups, board.width, board.height, k)
      ensures Frontier(At(tiles, d)) ==> At(tiles, d).restrictedGroup == k
    {
      var w, h := board.width, board.height;
      ghost var g0, G0 := tiles, restrictedGroups;
      var t := At(tiles, d);
      if !Frontier(t) || t.restrictedGroup == k {
        ExtendsRefl(g0, G0, w, h, k);
        return;
      }
      JoinStep(tiles, w, h, restrictedGroups, k, c, d);
      ghost var m := |restrictedGroups[k]|;
      tiles := Label(tiles, d, k);
      restrictedGroups := restrictedGroups[k := restrictedGroups[k] + [d]];
      ghost var g1 := tiles;
      var _ := FollowRestricted(d.x, d.y, k);
      assert restrictedGroups[k][m] == d;
      ClosedFrom(tiles, w, h, restrictedGroups[k], k, m);
      GrowsTrans(g0, g1, tiles, w, h, k);
    }

    /** verifyRestricted(group): the current trial marks are accepted when
        every opened neighbour of every group tile sees exactly its number
        in flags plus trial mines; if so, every group tile gains a vote per
        trial mine on it. */
    method VerifyRestricted(group: seq<Coord>) returns (ok: bool)
      requires Rect(tiles, board.width, board.height) && Distinct(group)
      requires forall i :: 0 <= i < |group| ==> InBounds(board.width, board.height, group[i])
      modifies this`tiles
      ensures ok == Accepts(old(tiles), board.width, board.height, group)
      ensures tiles == if ok then Vote(old(tiles), group) else old(tiles)
    {
      ok := AcceptedBy(tiles, board.width, board.height, group);
      if ok {
        AddVotes(group);
      }
    }

    /** The vote loop of verifyRestricted. */
    method AddVotes(group: seq<Coord>)
      requires Rect(tiles, board.width, board.height) && Distinct(group)
      requires forall i :: 0 <= i < |group| ==> InBounds(board.width, board.height, group[i])
      modifies this`tiles
      ensures tiles == Vote(old(tiles), group)
    {
      var w, h := board.width, board.height;
      var i := 0;
      while i < |group|
        invariant 0 <= i <= |group|
        invariant Updated(old(tiles), tiles, w, h, group[..i], AddVote)
      {
        UpdateStep(old(tiles), tiles, w, h, group, i, AddVote);
        tiles := Put(tiles, group[i], AddVote(At(tiles, group[i])));
        i := i + 1;
      }
      assert group[..|group|] == group;
      VoteIsUpdated(old(tiles), tiles, w, h, group);
    }

    /** testRestricted with a full path: mark the assignment and test it. */
    method TestLeaf(group: seq<Coord>) returns (valid: int)
      requires Rect(tiles, board.width, board.height) && Distinct(group) && |path| == |group|
      requires forall i :: 0 <= i < |group| ==> InBounds(board.width, board.height, group[i])
      modifies this`tiles
      ensures tiles == Tested(old(tiles), board.width, board.height, group, path)
      ensures valid == CountAccepted(old(tiles), board.width, board.height, group, path)
    {
      var w, h := board.width, board.height;
      ghost var g0 := tiles;
      MarkPath(group);
      var ok := VerifyRestricted(group);
      valid := if ok then 1 else 0;
      LeafTested(g0, w, h, group, path);
    }

    /** The marking loop: each group tile gets its bit of the path as its trial mark. */
    method MarkPath(group: seq<Coord>)
      requires Rect(tiles, board.width, board.height) && |path| == |group|
      requires forall i :: 0 <= i < |group| ==> InBounds(board.width, board.height, group[i])
      modifies this`tiles
      ensures tiles == Assign(old(tiles), group, path)
    {
      ghost var g0 := tiles;
      RectHas(g0, board.width, board.height);
      var i := 0;
      while i < |group|
        invariant 0 <= i <= |group|
        invariant tiles == Assign(g0, group[..i], path[..i])
      {
        assert group[..i + 1][..i] == group[..i] && path[..i + 1][..i] == path[..i];
        tiles := Put(tiles, group[i], At(tiles, group[i]).(testMine := path[i]));
        i := i + 1;
      }
      assert group[..|group|] == group && path[..|path|] == path;
    }

    /** testRestricted(path, group): try every completion of path, writing
        each full assignment into the trial marks and testing it; the result
        is the number of accepted completions. */
    method TestRestricted(group: seq<Coord>) returns (valid: int)
      requires Rect(tiles, board.width, board.height) && Distinct(group) && |path| <= |group|
      requires forall i :: 0 <= i < |group| ==> InBounds(board.width, board.height, group[i])
      modifies this`tiles, this`path
      decreases |group| - |path|
      ensures tiles == Tested(old(tiles), board.width, board.height, group, old(path))
      ensures valid == CountAccepted(old(tiles), board.width, board.height, group, old(path))
      ensures path == old(path)
    {
      var w, h := board.width, board.height;
      ghost var g0 := tiles;
      if |path| == |group| {
        valid := TestLeaf(group);
      } else {
        ghost var p0 := path;
        path := path + [true];
        var v1 := TestRestricted(group);
        ghost var g1 := tiles;
        path := path[..|path| - 1] + [false];
        assert path == p0 + [false];
        var v2 := TestRestricted(group);
        path := path[..|path| - 1];
        valid := v1 + v2;
        TestedSplit(g0, w, h, group, p0);
        TestedAgree(g0, w, h, group, p0 + [true]);
        CountsAgree(g0, g1, w, h, group, p0 + [false], 0);
      }
    }
  }
}
