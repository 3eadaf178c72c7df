/** solveRestricted in sweeper.cpp as a transition: for each restricted
    group in turn, every assignment of mines to the group is tried, and then
    every tile of the group that no accepted assignment marks a mine is checked. */
module Restricted {
  import opened Geometry
  import opened Tiles
  import opened Engine
  import opened Trials
  import opened Groups
  import opened Passes

  /** The opening rule of solveRestricted: a tile with no votes. */
  predicate Unvoted(t: Tile) {
    t.restrictedSolutionMines == 0
  }

  /** One group: testRestricted from the empty path, then check every
      group tile left without votes. */
  ghost function GroupPass(f: Field, s: State, group: seq<Coord>): State {
    var tested := s.(tiles := Tested(s.tiles, f.width, f.height, group, []));
    CheckEach(f, tested, group, Unvoted)
  }

  /** The loop over the groups, in order. */
  ghost function RestrictedPass(f: Field, s: State, groups: seq<seq<Coord>>): State
    decreases |groups|
  {
    if groups == [] then s else RestrictedPass(f, GroupPass(f, s, groups[0]), groups[1..])
  }

  /** The assignment that matches the board: each group tile marked a mine exactly when it is one. */
  function Truth(f: Field, group: seq<Coord>): (b: seq<bool>)
    ensures |b| == |group| && forall i :: 0 <= i < |group| ==> (b[i] <==> group[i] in f.mines)
  {
    seq(|group|, i requires 0 <= i < |group| => group[i] in f.mines)
  }

  /** A group as groupRestricted leaves it: distinct on-board tiles, none
      voted for yet. */
  ghost predicate Fresh(f: Field, g: Grid, group: seq<Coord>) {
    && Distinct(group)
    && AllOnBoard(f, group)
    && forall j :: 0 <= j < |group| ==> At(g, group[j]).restrictedSolutionMines == 0
  }

  /** groupRestricted changes only labels and votes: the grid it leaves is
      settled with respect to the one it started from. */
  lemma GroupedSettled(g0: Grid, g1: Grid, w: int, h: int)
    requires Rect(g0, w, h) && Rect(g1, w, h) && SameButLabels(Reset(g0), g1, w, h)
    ensures SameSettled(g0, g1, w, h)
  {
    forall d | InBounds(w, h, d)
      ensures At(g1, d) == At(g0, d).(restrictedGroup := At(g1, d).restrictedGroup,
                                      restrictedSolutionMines := At(g1, d).restrictedSolutionMines)
    {
      RectHas(g0, w, h);
      assert At(Reset(g0), d) == Cleared(At(g0, d));
    }
  }

  /** The groups groupRestricted leaves are fit for solveRestricted's pass. */
  lemma GroupedOnBoard(f: Field, g: Grid, groups: seq<seq<Coord>>)
    requires Grouped(g, f.width, f.height, groups)
    ensures forall k :: 0 <= k < |groups| ==> Distinct(groups[k]) && AllOnBoard(f, groups[k])
  {
  }

  /** The trial leaves the grid settled and clears every trial mark. */
  lemma TestedSettled(f: Field, s: State, group: seq<Coord>)
    requires Inv(f, s) && Distinct(group) && AllOnBoard(f, group)
    ensures SameSettled(s.tiles, Tested(s.tiles, f.width, f.height, group, []), f.width, f.height)
  {
    var w, h := f.width, f.height;
    var g1 := Tested(s.tiles, w, h, group, []);
    RectHas(s.tiles, w, h);
    TestedAt(s.tiles, w, h, group, []);
    forall d | InBounds(w, h, d)
      ensures At(g1, d) == At(s.tiles, d).(restrictedGroup := At(g1, d).restrictedGroup,
                                            restrictedSolutionMines := At(g1, d).restrictedSolutionMines)
    {
      assert Good(f, At(s.tiles, d), d);
      if d in group {
        var i :| 0 <= i < |group| && group[i] == d;
      }
    }
  }

  /** After the trial, a group tile has no votes exactly when no accepted
      assignment marks it a mine. */
  lemma TestedUnvoted(f: Field, s: State, group: seq<Coord>, i: int)
    requires Inv(f, s) && Fresh(f, s.tiles, group) && 0 <= i < |group|
    ensures Unvoted(At(Tested(s.tiles, f.width, f.height, group, []), group[i]))
      <==> forall b :: |b| == |group| && Accepts(Assign(s.tiles, group, b), f.width, f.height, group) ==> !b[i]
  {
    RectHas(s.tiles, f.width, f.height);
    TestedAtMember(s.tiles, f.width, f.height, group, [], i);
    NoVotes(s.tiles, f.width, f.height, group, i);
  }

  /** One group's pass keeps the invariant and every expanded blank, flags
      nothing, and undoes nothing. */
  lemma GroupPassInv(f: Field, s: State, group: seq<Coord>)
    requires Inv(f, s) && Distinct(group) && AllOnBoard(f, group)
    ensures var s1 := GroupPass(f, s, group);
      && Inv(f, s1)
      && Monotone(s.tiles, s1.tiles, f.width, f.height)
      && (Drained(f, s) ==> Drained(f, s1))
      && s1.flagged == s.flagged
      && FlaggedSet(s1.tiles, f.width, f.height) == FlaggedSet(s.tiles, f.width, f.height)
      && Hits(f, s) <= Hits(f, s1)
  {
    var w, h := f.width, f.height;
    var g1 := Tested(s.tiles, w, h, group, []);
    var tested := s.(tiles := g1);
    TestedSettled(f, s, group);
    SameSettledInv(f, s, g1);
    CheckEachInv(f, tested, group, Unvoted, {});
    var s1 := CheckEach(f, tested, group, Unvoted);
    MonotoneTrans(s.tiles, g1, s1.tiles, w, h);
    SameFlags(g1, s1.tiles, w, h);
  }

  /** solveRestricted opens a tile of a freshly grouped group exactly when
      no accepted assignment marks it a mine, unless it is a mine. */
  lemma GroupPassOpens(f: Field, s: State, group: seq<Coord>, i: int)
    requires Inv(f, s) && Fresh(f, s.tiles, group) && 0 <= i < |group|
    ensures At(GroupPass(f, s, group).tiles, group[i]).checked
      <==> At(s.tiles, group[i]).checked
           || (group[i] !in f.mines
               && forall b :: |b| == |group| && Accepts(Assign(s.tiles, group, b), f.width, f.height, group) ==> !b[i])
  {
    var w, h := f.width, f.height;
    var g1 := Tested(s.tiles, w, h, group, []);
    TestedSettled(f, s, group);
    TestedUnvoted(f, s, group, i);
    CheckEachOpens(f, s.(tiles := g1), group, Unvoted, group[i]);
  }

  /** A mine gets a vote from the matching assignment when that one is accepted. */
  lemma TruthVoted(f: Field, s: State, group: seq<Coord>, i: int)
    requires Inv(f, s) && Fresh(f, s.tiles, group) && 0 <= i < |group| && group[i] in f.mines
    requires Accepts(Assign(s.tiles, group, Truth(f, group)), f.width, f.height, group)
    ensures !Unvoted(At(Tested(s.tiles, f.width, f.height, group, []), group[i]))
  {
    var b := Truth(f, group);
    assert b[i];
    TestedUnvoted(f, s, group, i);
  }

  lemma MinesVoted(f: Field, s: State, group: seq<Coord>)
    requires Inv(f, s) && Fresh(f, s.tiles, group)
    requires Accepts(Assign(s.tiles, group, Truth(f, group)), f.width, f.height, group)
    ensures forall d :: d in group && d in f.mines ==> !Unvoted(At(Tested(s.tiles, f.width, f.height, group, []), d))
  {
    forall d | d in group && d in f.mines ensures !Unvoted(At(Tested(s.tiles, f.width, f.height, group, []), d)) {
      var i :| 0 <= i < |group| && group[i] == d;
      TruthVoted(f, s, group, i);
    }
  }

  /** When the assignment that matches the board passes the acceptance
      test, every mine of the group gets a vote and the pass hits no mine.
      The premise can fail: the acceptance test reads the trial marks of
      every neighbour of an opened tile, and tiles of other groups never
      carry one. An opened tile bordering two groups then sees only this
      group's mines, the matching assignment can be rejected, a mine of
      the group can end with no votes, and the pass opens it. */
  lemma GroupPassSafe(f: Field, s: State, group: seq<Coord>)
    requires Inv(f, s) && Fresh(f, s.tiles, group)
    requires Accepts(Assign(s.tiles, group, Truth(f, group)), f.width, f.height, group)
    ensures Hits(f, GroupPass(f, s, group)) == Hits(f, s)
  {
    var tested := TestedState(f, s, group);
    MinesVoted(f, s, group);
    assert IgnoresRestricted(Unvoted);
    CheckEachNoHits(f, tested, group, Unvoted);
  }

  /** The state right after the enumeration: the invariant holds and no hit was added. */
  lemma TestedState(f: Field, s: State, group: seq<Coord>) returns (tested: State)
    requires Inv(f, s) && Distinct(group) && AllOnBoard(f, group)
    ensures tested == s.(tiles := Tested(s.tiles, f.width, f.height, group, []))
    ensures Inv(f, tested) && Hits(f, tested) == Hits(f, s)
    ensures GroupPass(f, s, group) == CheckEach(f, tested, group, Unvoted)
  {
    var g1 := Tested(s.tiles, f.width, f.height, group, []);
    tested := s.(tiles := g1);
    TestedSettled(f, s, group);
    SameSettledInv(f, s, g1);
  }

  /** The whole loop keeps the invariant and every expanded blank, flags
      nothing, undoes nothing, and never unmakes a hit. */
  lemma {:induction false} RestrictedPassInv(f: Field, s: State, groups: seq<seq<Coord>>)
    requires Inv(f, s)
    requires forall k :: 0 <= k < |groups| ==> Distinct(groups[k]) && AllOnBoard(f, groups[k])
    ensures var s1 := RestrictedPass(f, s, groups);
      && Inv(f, s1)
      && Monotone(s.tiles, s1.tiles, f.width, f.height)
      && (Drained(f, s) ==> Drained(f, s1))
      && s1.flagged == s.flagged
      && FlaggedSet(s1.tiles, f.width, f.height) == FlaggedSet(s.tiles, f.width, f.height)
      && Hits(f, s) <= Hits(f, s1)
    decreases |groups|
  {
    if groups != [] {
      var s1 := GroupPass(f, s, groups[0]);
      GroupPassInv(f, s, groups[0]);
      assert forall k :: 0 <= k < |groups| - 1 ==> groups[1..][k] == groups[k + 1];
      RestrictedPassInv(f, s1, groups[1..]);
      MonotoneTrans(s.tiles, s1.tiles, RestrictedPass(f, s1, groups[1..]).tiles, f.width, f.height);
    }
  }
}
