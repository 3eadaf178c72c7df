/** The exhaustive trial of mine assignments over one restricted group
    (testRestricted and verifyRestricted in sweeper.cpp): writing an
    assignment into the testMine marks, the acceptance test, and the number
    of accepted assignments and of those marking a given tile. */
module Trials {
  import opened Geometry
  import opened Tiles

  /** The grid with the trial mark of group[i] set to bits[i], written in list order. */
  function Assign(g: Grid, group: seq<Coord>, bits: seq<bool>): (r: Grid)
    requires |bits| == |group|
    ensures |r| == |g| && forall i :: 0 <= i < |g| ==> |r[i]| == |g[i]|
    ensures forall d :: Has(r, d) <==> Has(g, d)
    decreases |group|
  {
    if group == [] then g
    else
      var n := |group| - 1;
      var g1 := Assign(g, group[..n], bits[..n]);
      if Has(g1, group[n]) then Put(g1, group[n], At(g1, group[n]).(testMine := bits[n])) else g1
  }

  /** For a list without repeats, each listed tile carries its own bit and every other tile is unchanged. */
  lemma {:induction false} AssignAt(g: Grid, group: seq<Coord>, bits: seq<bool>)
    requires |bits| == |group| && Distinct(group)
    requires forall i :: 0 <= i < |group| ==> Has(g, group[i])
    ensures forall i :: 0 <= i < |group| ==> At(Assign(g, group, bits), group[i]) == At(g, group[i]).(testMine := bits[i])
    ensures forall d :: d !in group ==> At(Assign(g, group, bits), d) == At(g, d)
    decreases |group|
  {
    if group != [] {
      var n := |group| - 1;
      var pre, pb := group[..n], bits[..n];
      assert Distinct(pre);
      AssignAt(g, pre, pb);
      var g1 := Assign(g, pre, pb);
      assert group[n] !in pre;
      forall i | 0 <= i < |group| ensures At(Assign(g, group, bits), group[i]) == At(g, group[i]).(testMine := bits[i]) {
        if i < n {
          assert group[i] == pre[i] && bits[i] == pb[i];
        }
      }
      forall d | d !in group ensures At(Assign(g, group, bits), d) == At(g, d) {
        assert d !in pre;
      }
    }
  }

  /** The opened tile d sees exactly its number in flags plus trial mines. */
  predicate Satisfied(g: Grid, w: int, h: int, d: Coord) {
    FlagsAround(g, w, h, d) + TestMinesAround(g, w, h, d) == At(g, d).adjacentMines
  }

  /** Every opened neighbour of c is satisfied. */
  ghost predicate AroundSatisfied(g: Grid, w: int, h: int, c: Coord) {
    forall d :: InBounds(w, h, d) && IsNeighbour(d, c) && At(g, d).checked ==> Satisfied(g, w, h, d)
  }

  /** The opened neighbours of group[..n] are all satisfied. */
  ghost predicate AcceptsUpTo(g: Grid, w: int, h: int, group: seq<Coord>, n: int)
    decreases n
  {
    n <= 0 || (AcceptsUpTo(g, w, h, group, n - 1) && (n - 1 < |group| ==> AroundSatisfied(g, w, h, group[n - 1])))
  }

  /** The first n group tiles all pass. */
  lemma {:induction false} AcceptsUpToAll(g: Grid, w: int, h: int, group: seq<Coord>, n: int)
    ensures AcceptsUpTo(g, w, h, group, n) <==> forall i :: 0 <= i < n && i < |group| ==> AroundSatisfied(g, w, h, group[i])
    decreases n
  {
    if n > 0 {
      AcceptsUpToAll(g, w, h, group, n - 1);
    }
  }

  /** verifyRestricted's test on the current trial marks: every opened tile
      next to a group tile is satisfied. */
  ghost predicate Accepts(g: Grid, w: int, h: int, group: seq<Coord>) {
    AcceptsUpTo(g, w, h, group, |group|)
  }

  /** How many completions of path to a full assignment are accepted. */
  ghost function CountAccepted(g: Grid, w: int, h: int, group: seq<Coord>, path: seq<bool>): nat
    requires |path| <= |group|
    decreases |group| - |path|
  {
    if |path| == |group| then (if Accepts(Assign(g, group, path), w, h, group) then 1 else 0)
    else CountAccepted(g, w, h, group, path + [true]) + CountAccepted(g, w, h, group, path + [false])
  }

  /** How many accepted completions of path mark group[i] a mine. */
  ghost function Marked(g: Grid, w: int, h: int, group: seq<Coord>, path: seq<bool>, i: int): nat
    requires |path| <= |group|
    decreases |group| - |path|
  {
    if |path| == |group| then (if Accepts(Assign(g, group, path), w, h, group) && 0 <= i < |path| && path[i] then 1 else 0)
    else Marked(g, w, h, group, path + [true], i) + Marked(g, w, h, group, path + [false], i)
  }

  /** The assignments of r0, each extended by the bit x. */
  function Extend(r0: set<seq<bool>>, x: bool): (r: set<seq<bool>>)
    ensures forall c :: c in r <==> |c| > 0 && c[|c| - 1] == x && c[..|c| - 1] in r0
  {
    var r := set b | b in r0 :: b + [x];
    assert forall c :: |c| > 0 && c[|c| - 1] == x && c[..|c| - 1] in r0 ==> c in r by {
      forall c | |c| > 0 && c[|c| - 1] == x && c[..|c| - 1] in r0 ensures c in r {
        assert c == c[..|c| - 1] + [x];
      }
    }
    assert forall b :: b in r0 ==> (b + [x])[..|b|] == b;
    r
  }

  /** All assignments of n booleans. */
  function Bits(n: nat): (r: set<seq<bool>>)
    ensures forall b :: b in r <==> |b| == n
  {
    if n == 0 then {[]}
    else
      var r0 := Bits(n - 1);
      var r := Extend(r0, true) + Extend(r0, false);
      assert forall b :: |b| == n ==> b in r by {
        forall b | |b| == n ensures b in r {
          assert b[..n - 1] in r0;
        }
      }
      r
  }

  function Pow2(n: nat): nat {
    if n == 0 then 1 else 2 * Pow2(n - 1)
  }

  /** Appending a fixed bit to each assignment of a set keeps them apart. */
  lemma {:induction false} ExtendSize(r0: set<seq<bool>>, x: bool)
    ensures |Extend(r0, x)| == |r0|
    decreases |r0|
  {
    if r0 != {} {
      var b0 :| b0 in r0;
      var rest := r0 - {b0};
      ExtendSize(rest, x);
      assert (b0 + [x])[..|b0|] == b0;
      assert Extend(r0, x) == Extend(rest, x) + {b0 + [x]};
    }
  }

  /** There are 2^n assignments of n booleans. */
  lemma {:induction false} BitsSize(n: nat)
    ensures |Bits(n)| == Pow2(n)
  {
    if n > 0 {
      BitsSize(n - 1);
      var r0 := Bits(n - 1);
      var r1, r2 := Extend(r0, true), Extend(r0, false);
      assert Bits(n) == r1 + r2;
      assert r1 !! r2 by {
        forall c | c in r1 ensures c !in r2 { }
      }
      ExtendSize(r0, true);
      ExtendSize(r0, false);
      assert |r1 + r2| == |r1| + |r2|;
    }
  }

  /** The accepted full assignments of the group. */
  ghost function AcceptedAll(g: Grid, w: int, h: int, group: seq<Coord>): set<seq<bool>> {
    set b | b in Bits(|group|) && Accepts(Assign(g, group, b), w, h, group)
  }

  /** Those of them marking group[i] a mine. */
  ghost function MarkedAll(g: Grid, w: int, h: int, group: seq<Coord>, i: int): set<seq<bool>> {
    set b | b in AcceptedAll(g, w, h, group) && 0 <= i < |b| && b[i]
  }

  /** The members of S that extend path. */
  function Extending(S: set<seq<bool>>, path: seq<bool>): set<seq<bool>> {
    set b | b in S && path <= b
  }

  /** Below full length, the extensions of path split by the next bit. */
  lemma ExtendingSplit(S: set<seq<bool>>, path: seq<bool>, n: nat)
    requires forall b :: b in S ==> |b| == n
    requires |path| < n
    ensures Extending(S, path) == Extending(S, path + [true]) + Extending(S, path + [false])
    ensures Extending(S, path + [true]) !! Extending(S, path + [false])
  {
    var all, at, af := Extending(S, path), Extending(S, path + [true]), Extending(S, path + [false]);
    forall b | b in all ensures b in at + af {
      assert b[..|path|] == path;
      assert b[..|path| + 1] == path + [b[|path|]];
      if b[|path|] {
        assert path + [true] <= b;
      } else {
        assert path + [false] <= b;
      }
    }
    forall b | b in at + af ensures b in all {
      assert b[..|path|] == (b[..|path| + 1])[..|path|];
    }
    forall b | b in at ensures b !in af {
      assert b[|path|] == (path + [true])[|path|];
    }
  }

  /** At full length, path is its own only extension. */
  lemma ExtendingLeaf(S: set<seq<bool>>, path: seq<bool>)
    requires forall b :: b in S ==> |b| == |path|
    ensures Extending(S, path) == if path in S then {path} else {}
  {
    assert forall b :: b in Extending(S, path) ==> b == path;
  }

  /** CountAccepted counts exactly the accepted assignments extending path. */
  lemma {:induction false} CountIsSize(g: Grid, w: int, h: int, group: seq<Coord>, path: seq<bool>)
    requires |path| <= |group|
    ensures CountAccepted(g, w, h, group, path) == |Extending(AcceptedAll(g, w, h, group), path)|
    decreases |group| - |path|
  {
    var S := AcceptedAll(g, w, h, group);
    if |path| == |group| {
      ExtendingLeaf(S, path);
    } else {
      CountIsSize(g, w, h, group, path + [true]);
      CountIsSize(g, w, h, group, path + [false]);
      ExtendingSplit(S, path, |group|);
    }
  }

  /** Marked counts exactly the accepted assignments extending path that mark group[i]. */
  lemma {:induction false} MarkedIsSize(g: Grid, w: int, h: int, group: seq<Coord>, path: seq<bool>, i: int)
    requires |path| <= |group|
    ensures Marked(g, w, h, group, path, i) == |Extending(MarkedAll(g, w, h, group, i), path)|
    decreases |group| - |path|
  {
    var S := MarkedAll(g, w, h, group, i);
    if |path| == |group| {
      ExtendingLeaf(S, path);
    } else {
      MarkedIsSize(g, w, h, group, path + [true], i);
      MarkedIsSize(g, w, h, group, path + [false], i);
      ExtendingSplit(S, path, |group|);
    }
  }

  /** Extending the empty path is no restriction. */
  lemma ExtendingEmpty(S: set<seq<bool>>)
    ensures Extending(S, []) == S
  {
    forall b | b in S ensures b in Extending(S, []) {
      assert b[..0] == [];
    }
  }

  /** At most 2^k of the assignments of a group of k tiles are accepted. */
  lemma CountBound(g: Grid, w: int, h: int, group: seq<Coord>)
    ensures CountAccepted(g, w, h, group, []) <= Pow2(|group|)
  {
    CountIsSize(g, w, h, group, []);
    ExtendingEmpty(AcceptedAll(g, w, h, group));
    BitsSize(|group|);
    SubsetCard(AcceptedAll(g, w, h, group), Bits(|group|));
  }

  /** A tile's vote count never exceeds the number of accepted assignments. */
  lemma MarkedBound(g: Grid, w: int, h: int, group: seq<Coord>, i: int)
    ensures Marked(g, w, h, group, [], i) <= CountAccepted(g, w, h, group, [])
  {
    CountIsSize(g, w, h, group, []);
    MarkedIsSize(g, w, h, group, [], i);
    ExtendingEmpty(AcceptedAll(g, w, h, group));
    ExtendingEmpty(MarkedAll(g, w, h, group, i));
    SubsetCard(MarkedAll(g, w, h, group, i), AcceptedAll(g, w, h, group));
  }

  /** A tile gets no vote exactly when no accepted assignment marks it a mine. */
  lemma NoVotes(g: Grid, w: int, h: int, group: seq<Coord>, i: int)
    requires 0 <= i < |group|
    ensures Marked(g, w, h, group, [], i) == 0 <==>
      forall b :: |b| == |group| && Accepts(Assign(g, group, b), w, h, group) ==> !b[i]
  {
    MarkedIsSize(g, w, h, group, [], i);
    ExtendingEmpty(MarkedAll(g, w, h, group, i));
    var m := MarkedAll(g, w, h, group, i);
    if Marked(g, w, h, group, [], i) == 0 {
      assert m == {};
      forall b | |b| == |group| && Accepts(Assign(g, group, b), w, h, group) ensures !b[i] {
        assert b !in m;
      }
    } else {
      var b :| b in m;
      assert |b| == |group| && Accepts(Assign(g, group, b), w, h, group) && b[i];
    }
  }

  /** g0 and g1 agree on everything the acceptance test reads, except
      possibly the trial marks of the group, which an assignment overwrites. */
  ghost predicate AgreeOff(g0: Grid, g1: Grid, w: int, h: int, group: seq<Coord>) {
    && Rect(g0, w, h) && Rect(g1, w, h)
    && forall d :: InBounds(w, h, d) ==>
         && At(g1, d).checked == At(g0, d).checked
         && At(g1, d).flagged == At(g0, d).flagged
         && At(g1, d).adjacentMines == At(g0, d).adjacentMines
         && (d !in group ==> At(g1, d).testMine == At(g0, d).testMine)
  }

  /** The acceptance test reads only opened, flagged, trial marks and numbers. */
  lemma AcceptsAgree(g0: Grid, g1: Grid, w: int, h: int, group: seq<Coord>)
    requires Rect(g0, w, h) && Rect(g1, w, h)
    requires forall d :: InBounds(w, h, d) ==>
      && At(g1, d).checked == At(g0, d).checked
      && At(g1, d).flagged == At(g0, d).flagged
      && At(g1, d).adjacentMines == At(g0, d).adjacentMines
      && At(g1, d).testMine == At(g0, d).testMine
    ensures Accepts(g0, w, h, group) == Accepts(g1, w, h, group)
  {
    forall d | InBounds(w, h, d) ensures Satisfied(g0, w, h, d) == Satisfied(g1, w, h, d) {
      assert NeighboursWhere(g0, w, h, d, IsFlagged) == NeighboursWhere(g1, w, h, d, IsFlagged);
      assert NeighboursWhere(g0, w, h, d, IsTestMine) == NeighboursWhere(g1, w, h, d, IsTestMine);
      CountAdjacentSize(g0, w, h, d, IsFlagged);
      CountAdjacentSize(g1, w, h, d, IsFlagged);
      CountAdjacentSize(g0, w, h, d, IsTestMine);
      CountAdjacentSize(g1, w, h, d, IsTestMine);
    }
    AcceptsUpToAll(g0, w, h, group, |group|);
    AcceptsUpToAll(g1, w, h, group, |group|);
  }

  /** Writing the same assignment into two grids that agree off the group gives grids the test cannot tell apart. */
  lemma AssignAgree(g0: Grid, g1: Grid, w: int, h: int, group: seq<Coord>, b: seq<bool>)
    requires AgreeOff(g0, g1, w, h, group) && Distinct(group) && |b| == |group|
    requires forall i :: 0 <= i < |group| ==> InBounds(w, h, group[i])
    ensures Accepts(Assign(g0, group, b), w, h, group) == Accepts(Assign(g1, group, b), w, h, group)
  {
    RectHas(g0, w, h);
    RectHas(g1, w, h);
    AssignAt(g0, group, b);
    AssignAt(g1, group, b);
    var a0, a1 := Assign(g0, group, b), Assign(g1, group, b);
    forall d | InBounds(w, h, d) ensures At(a1, d).testMine == At(a0, d).testMine {
      if d in group {
        var i :| 0 <= i < |group| && group[i] == d;
      }
    }
    AcceptsAgree(a0, a1, w, h, group);
  }

  /** Hence the counts agree as well. */
  lemma {:induction false} CountsAgree(g0: Grid, g1: Grid, w: int, h: int, group: seq<Coord>, path: seq<bool>, i: int)
    requires AgreeOff(g0, g1, w, h, group) && Distinct(group) && |path| <= |group|
    requires forall i :: 0 <= i < |group| ==> InBounds(w, h, group[i])
    ensures CountAccepted(g0, w, h, group, path) == CountAccepted(g1, w, h, group, path)
    ensures Marked(g0, w, h, group, path, i) == Marked(g1, w, h, group, path, i)
    decreases |group| - |path|
  {
    if |path| == |group| {
      AssignAgree(g0, g1, w, h, group, path);
    } else {
      CountsAgree(g0, g1, w, h, group, path + [true], i);
      CountsAgree(g0, g1, w, h, group, path + [false], i);
    }
  }

  /** The position of d in s (|s| when absent). */
  function IndexOf(s: seq<Coord>, d: Coord): (i: nat)
    ensures i <= |s|
    ensures i < |s| <==> d in s
    ensures i < |s| ==> s[i] == d
  {
    if s == [] then 0
    else if s[0] == d then 0
    else 1 + IndexOf(s[1..], d)
  }

  lemma IndexOfDistinct(s: seq<Coord>, j: int)
    requires Distinct(s) && 0 <= j < |s|
    ensures IndexOf(s, s[j]) == j
  {
  }

  /** What testRestricted(path, group) leaves behind, starting from g: every
      group tile carries the trial mark of the last assignment tried (its
      bit in path, or false past path's end) and has gained one vote for each
      accepted completion of path that marks it a mine. Other tiles are untouched. */
  ghost function Tested(g: Grid, w: int, h: int, group: seq<Coord>, path: seq<bool>): (r: Grid)
    requires |path| <= |group|
    ensures |r| == |g| && forall i :: 0 <= i < |g| ==> |r[i]| == |g[i]|
    ensures forall c :: Has(r, c) <==> Has(g, c)
  {
    MapGrid(g, (d: Coord, t: Tile) =>
      if d in group then
        var i := IndexOf(group, d);
        t.(testMine := i < |path| && path[i],
           restrictedSolutionMines := t.restrictedSolutionMines + Marked(g, w, h, group, path, i))
      else t)
  }

  /** Tested at one group tile. */
  lemma TestedAtMember(g: Grid, w: int, h: int, group: seq<Coord>, path: seq<bool>, i: int)
    requires |path| <= |group| && Distinct(group) && 0 <= i < |group| && Has(g, group[i])
    ensures At(Tested(g, w, h, group, path), group[i]) == At(g, group[i]).(
        testMine := i < |path| && path[i],
        restrictedSolutionMines := At(g, group[i]).restrictedSolutionMines + Marked(g, w, h, group, path, i))
  {
    IndexOfDistinct(group, i);
  }

  /** Tested tile by tile. */
  lemma TestedAt(g: Grid, w: int, h: int, group: seq<Coord>, path: seq<bool>)
    requires |path| <= |group| && Distinct(group)
    requires forall i :: 0 <= i < |group| ==> Has(g, group[i])
    ensures forall i :: 0 <= i < |group| ==>
      At(Tested(g, w, h, group, path), group[i]) == At(g, group[i]).(
        testMine := i < |path| && path[i],
        restrictedSolutionMines := At(g, group[i]).restrictedSolutionMines + Marked(g, w, h, group, path, i))
    ensures forall d :: d !in group ==> At(Tested(g, w, h, group, path), d) == At(g, d)
  {
    forall i | 0 <= i < |group|
      ensures At(Tested(g, w, h, group, path), group[i]) == At(g, group[i]).(
        testMine := i < |path| && path[i],
        restrictedSolutionMines := At(g, group[i]).restrictedSolutionMines + Marked(g, w, h, group, path, i))
    {
      TestedAtMember(g, w, h, group, path, i);
    }
  }

  /** The first branch changes nothing the acceptance test reads. */
  lemma TestedAgree(g: Grid, w: int, h: int, group: seq<Coord>, path: seq<bool>)
    requires Rect(g, w, h) && |path| <= |group| && Distinct(group)
    requires forall i :: 0 <= i < |group| ==> InBounds(w, h, group[i])
    ensures AgreeOff(g, Tested(g, w, h, group, path), w, h, group)
  {
    RectHas(g, w, h);
    TestedAt(g, w, h, group, path);
    var g1 := Tested(g, w, h, group, path);
    forall d | InBounds(w, h, d) && d in group
      ensures At(g1, d).checked == At(g, d).checked && At(g1, d).flagged == At(g, d).flagged
           && At(g1, d).adjacentMines == At(g, d).adjacentMines
    {
      var i :| 0 <= i < |group| && group[i] == d;
    }
  }

  /** The split at one group tile: its vote counts add up and its final
      trial mark is the one the false branch leaves. */
  lemma TestedSplitAt(g: Grid, w: int, h: int, group: seq<Coord>, path: seq<bool>, i: int)
    requires Rect(g, w, h) && |path| < |group| && Distinct(group) && 0 <= i < |group|
    requires forall i :: 0 <= i < |group| ==> InBounds(w, h, group[i])
    ensures At(Tested(Tested(g, w, h, group, path + [true]), w, h, group, path + [false]), group[i])
         == At(Tested(g, w, h, group, path), group[i])
  {
    RectHas(g, w, h);
    var g1 := Tested(g, w, h, group, path + [true]);
    TestedAgree(g, w, h, group, path + [true]);
    RectHas(g1, w, h);
    TestedAtMember(g, w, h, group, path + [true], i);
    TestedAtMember(g1, w, h, group, path + [false], i);
    TestedAtMember(g, w, h, group, path, i);
    CountsAgree(g, g1, w, h, group, path + [false], i);
    assert (i < |path| + 1 && (path + [false])[i]) == (i < |path| && path[i]);
  }

  /** Trying the true branch and then, from where it left the grid, the
      false branch, is the same as trying every completion of path. */
  lemma TestedSplit(g: Grid, w: int, h: int, group: seq<Coord>, path: seq<bool>)
    requires Rect(g, w, h) && |path| < |group| && Distinct(group)
    requires forall i :: 0 <= i < |group| ==> InBounds(w, h, group[i])
    ensures Tested(Tested(g, w, h, group, path + [true]), w, h, group, path + [false])
         == Tested(g, w, h, group, path)
  {
    RectHas(g, w, h);
    var g1 := Tested(g, w, h, group, path + [true]);
    var g2 := Tested(g1, w, h, group, path + [false]);
    var r := Tested(g, w, h, group, path);
    TestedAt(g, w, h, group, path + [true]);
    TestedAt(g1, w, h, group, path + [false]);
    TestedAt(g, w, h, group, path);
    forall d | Has(g2, d) ensures At(g2, d) == At(r, d) {
      if d in group {
        var i :| 0 <= i < |group| && group[i] == d;
        TestedSplitAt(g, w, h, group, path, i);
      }
    }
    GridExt(g2, r);
  }

  /** verifyRestricted on an accepted assignment: each group tile's vote
      count grows by its trial mark. */
  function AddVote(t: Tile): Tile {
    t.(restrictedSolutionMines := t.restrictedSolutionMines + (if t.testMine then 1 else 0))
  }

  function Vote(g: Grid, group: seq<Coord>): Grid {
    MapGrid(g, (d: Coord, t: Tile) => if d in group then AddVote(t) else t)
  }

  /** The opened neighbours of c, as getAdjecent lists them, are all satisfied. */
  lemma AroundFromList(g: Grid, w: int, h: int, c: Coord, around: seq<Coord>)
    requires around == Adjacent(g, w, h, c, IsChecked)
    requires forall j :: 0 <= j < |around| ==> Satisfied(g, w, h, around[j])
    ensures AroundSatisfied(g, w, h, c)
  {
    forall d | InBounds(w, h, d) && IsNeighbour(d, c) && At(g, d).checked
      ensures Satisfied(g, w, h, d)
    {
      assert d in around;
      var j :| 0 <= j < |around| && around[j] == d;
    }
  }

  /** The scan of verifyRestricted: every opened neighbour of every group
      tile, in list order, must see exactly its number in flags plus trial
      mines; the scan stops at the first that does not. */
  method AcceptedBy(g: Grid, w: int, h: int, group: seq<Coord>) returns (ok: bool)
    ensures ok == Accepts(g, w, h, group)
  {
    ok := true;
    var i := 0;
    while i < |group|
      invariant 0 <= i <= |group|
      invariant ok && AcceptsUpTo(g, w, h, group, i)
    {
      ok := SatisfiedAround(g, w, h, group[i]);
      if !ok {
        AcceptsUpToAll(g, w, h, group, |group|);
        break;
      }
      i := i + 1;
    }
  }

  /** The inner loop of that scan, at one group tile c. */
  method SatisfiedAround(g: Grid, w: int, h: int, c: Coord) returns (ok: bool)
    ensures ok == AroundSatisfied(g, w, h, c)
  {
    var around := Adjacent(g, w, h, c, IsChecked);
    var j := 0;
    ok := true;
    while j < |around|
      invariant 0 <= j <= |around|
      invariant ok && forall jj :: 0 <= jj < j ==> Satisfied(g, w, h, around[jj])
    {
      var d := around[j];
      var flags := FlagsAround(g, w, h, d);
      var testMines := TestMinesAround(g, w, h, d);
      if flags + testMines != At(g, d).adjacentMines {
        assert d in around;
        ok := false;
        break;
      }
      assert Satisfied(g, w, h, d);
      j := j + 1;
    }
    if ok {
      AroundFromList(g, w, h, c, around);
    }
  }

  /** The vote loop of verifyRestricted, finished, leaves Vote. */
  lemma VoteIsUpdated(g0: Grid, g: Grid, w: int, h: int, group: seq<Coord>)
    requires Rect(g0, w, h) && Updated(g0, g, w, h, group, AddVote)
    ensures g == Vote(g0, group)
  {
    RectHas(g0, w, h);
    RectHas(g, w, h);
    GridExt(g, Vote(g0, group));
  }

  /** At a full path, testRestricted writes the assignment and, when it is
      accepted, adds its votes: that is Tested at the full path. */
  lemma LeafTested(g: Grid, w: int, h: int, group: seq<Coord>, path: seq<bool>)
    requires Rect(g, w, h) && |path| == |group| && Distinct(group)
    requires forall i :: 0 <= i < |group| ==> InBounds(w, h, group[i])
    ensures Tested(g, w, h, group, path) == Leaf(g, w, h, group, path)
  {
    var t, r := Tested(g, w, h, group, path), Leaf(g, w, h, group, path);
    forall d | Has(t, d) ensures At(t, d) == At(r, d) {
      LeafTestedAt(g, w, h, group, path, d);
    }
    GridExt(t, r);
  }

  /** What the leaf of testRestricted computes. */
  ghost function Leaf(g: Grid, w: int, h: int, group: seq<Coord>, path: seq<bool>): (r: Grid)
    requires |path| == |group|
    ensures |r| == |g| && forall i :: 0 <= i < |g| ==> |r[i]| == |g[i]|
  {
    var a := Assign(g, group, path);
    if Accepts(a, w, h, group) then Vote(a, group) else a
  }

  lemma LeafTestedAt(g: Grid, w: int, h: int, group: seq<Coord>, path: seq<bool>, d: Coord)
    requires Rect(g, w, h) && |path| == |group| && Distinct(group) && Has(g, d)
    requires forall i :: 0 <= i < |group| ==> InBounds(w, h, group[i])
    ensures At(Tested(g, w, h, group, path), d) == At(Leaf(g, w, h, group, path), d)
  {
    RectHas(g, w, h);
    AssignAt(g, group, path);
    if d in group {
      var i :| 0 <= i < |group| && group[i] == d;
      LeafTestedMember(g, w, h, group, path, i);
    } else {
      TestedAt(g, w, h, group, path);
      LeafAt(g, w, h, group, path, d);
    }
  }

  lemma LeafTestedMember(g: Grid, w: int, h: int, group: seq<Coord>, path: seq<bool>, i: int)
    requires |path| == |group| && Distinct(group) && 0 <= i < |group| && Has(g, group[i])
    requires At(Assign(g, group, path), group[i]) == At(g, group[i]).(testMine := path[i])
    ensures At(Tested(g, w, h, group, path), group[i]) == At(Leaf(g, w, h, group, path), group[i])
  {
    TestedAtMember(g, w, h, group, path, i);
    LeafAt(g, w, h, group, path, group[i]);
  }

  /** The tile at d after the leaf: its trial mark, plus a vote when the
      assignment is accepted and marks d a mine. */
  lemma LeafAt(g: Grid, w: int, h: int, group: seq<Coord>, path: seq<bool>, d: Coord)
    requires |path| == |group| && Has(g, d)
    ensures var a := Assign(g, group, path);
      At(Leaf(g, w, h, group, path), d) == if Accepts(a, w, h, group) && d in group then AddVote(At(a, d)) else At(a, d)
  {
  }
}
