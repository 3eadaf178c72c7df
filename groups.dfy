/** The restricted frontier and its partition into groups (groupRestricted
    and followRestricted in sweeper.cpp): the predicates that describe a
    finished or partial grouping, and the single-step facts the flood fill
    is built from. */
module Groups {
  import opened Geometry
  import opened Tiles

  /** An unopened, unflagged tile next to an opened number. */
  predicate Frontier(t: Tile) {
    !t.checked && !t.flagged && t.restricted
  }

  /** The grid groupRestricted starts from: every label cleared and every vote count zeroed. */
  function Reset(g: Grid): (r: Grid)
    ensures |r| == |g| && forall i :: 0 <= i < |g| ==> |r[i]| == |g[i]|
    ensures forall c :: Has(r, c) <==> Has(g, c)
    ensures forall c :: Has(g, c) ==> At(r, c) == Cleared(At(g, c))
  {
    MapGrid(g, (c: Coord, t: Tile) => Cleared(t))
  }

  /** A tile with its label and votes cleared. */
  function Cleared(t: Tile): Tile {
    t.(restrictedGroup := -1, restrictedSolutionMines := 0)
  }

  /** The reset loop of groupRestricted stopped before column x, row y of a w×h board. */
  ghost predicate ResetBefore(g0: Grid, g: Grid, w: int, h: int, x: int, y: int) {
    && Rect(g, w, h)
    && forall d :: InBounds(w, h, d) ==> At(g, d) == if Before(d, x, y) then Cleared(At(g0, d)) else At(g0, d)
  }

  /** Clearing tile (x, y) moves the reset loop on by one tile. */
  lemma ResetStep(g0: Grid, g: Grid, w: int, h: int, x: int, y: int)
    requires ResetBefore(g0, g, w, h, x, y) && InBounds(w, h, Coord(x, y))
    ensures Has(g, Coord(x, y))
    ensures ResetBefore(g0, Put(g, Coord(x, y), Cleared(At(g, Coord(x, y)))), w, h, x, y + 1)
  {
    RectHas(g, w, h);
  }

  /** The end of column x is the start of column x + 1. */
  lemma ResetColumn(g0: Grid, g: Grid, w: int, h: int, x: int)
    requires ResetBefore(g0, g, w, h, x, h)
    ensures ResetBefore(g0, g, w, h, x + 1, 0)
  {
  }

  /** Once every column is done the grid is the reset one. */
  lemma ResetDone(g0: Grid, g: Grid, w: int, h: int)
    requires Rect(g0, w, h) && ResetBefore(g0, g, w, h, w, 0)
    ensures g == Reset(g0)
  {
    RectHas(g0, w, h);
    RectHas(g, w, h);
    GridExt(g, Reset(g0));
  }

  /** g1 is g0 with at most the group labels changed. */
  ghost predicate SameButLabels(g0: Grid, g1: Grid, w: int, h: int) {
    forall d :: InBounds(w, h, d) ==>
      At(g1, d) == At(g0, d).(restrictedGroup := At(g1, d).restrictedGroup)
  }

  /** Labels change only from "no group" (-1) to k. */
  ghost predicate Grows(g0: Grid, g1: Grid, w: int, h: int, k: int) {
    forall d :: InBounds(w, h, d) ==>
      At(g1, d).restrictedGroup == At(g0, d).restrictedGroup
      || (At(g0, d).restrictedGroup == -1 && At(g1, d).restrictedGroup == k)
  }

  lemma GrowsTrans(g0: Grid, g1: Grid, g2: Grid, w: int, h: int, k: int)
    requires Grows(g0, g1, w, h, k) && Grows(g1, g2, w, h, k)
    requires SameButLabels(g0, g1, w, h) && SameButLabels(g1, g2, w, h)
    ensures Grows(g0, g2, w, h, k) && SameButLabels(g0, g2, w, h)
  {
  }

  /** Every listed tile is an on-board frontier tile whose label is its list's index. */
  ghost predicate Members(g: Grid, w: int, h: int, groups: seq<seq<Coord>>) {
    forall k, j :: 0 <= k < |groups| && 0 <= j < |groups[k]| ==>
      InBounds(w, h, groups[k][j]) && Frontier(At(g, groups[k][j])) && At(g, groups[k][j]).restrictedGroup == k
  }

  /** A tile's label is -1 or the index of a list that holds it; only frontier tiles are labelled. */
  predicate LabelOk(t: Tile, d: Coord, groups: seq<seq<Coord>>) {
    && (t.restrictedGroup == -1 || (0 <= t.restrictedGroup < |groups| && d in groups[t.restrictedGroup]))
    && (!Frontier(t) ==> t.restrictedGroup == -1)
  }

  ghost predicate Labels(g: Grid, w: int, h: int, groups: seq<seq<Coord>>) {
    forall d :: InBounds(w, h, d) ==> LabelOk(At(g, d), d, groups)
  }

  /** Each list after its first tile grows through a neighbour of an earlier tile. */
  ghost predicate Chained(group: seq<Coord>) {
    forall j :: 0 < j < |group| ==> exists i :: 0 <= i < j && IsNeighbour(group[i], group[j])
  }

  /** The invariant of a grouping under construction. */
  ghost predicate Partial(g: Grid, w: int, h: int, groups: seq<seq<Coord>>) {
    && Rect(g, w, h)
    && Members(g, w, h, groups)
    && Labels(g, w, h, groups)
    && (forall k :: 0 <= k < |groups| ==> Distinct(groups[k]))
    && (forall k :: 0 <= k < |groups| ==> Chained(groups[k]))
  }

  /** Every frontier tile next to group[lo..hi] carries label k. */
  ghost predicate ClosedRange(g: Grid, w: int, h: int, group: seq<Coord>, k: int, lo: int, hi: int) {
    forall j, d :: lo <= j < hi && 0 <= j < |group| && InBounds(w, h, d)
      && IsNeighbour(d, group[j]) && Frontier(At(g, d))
      ==> At(g, d).restrictedGroup == k
  }

  /** The first n groups are complete: no frontier tile next to one of them lies outside it. */
  ghost predicate AllClosed(g: Grid, w: int, h: int, groups: seq<seq<Coord>>, n: int) {
    forall k :: 0 <= k < n && k < |groups| ==> ClosedRange(g, w, h, groups[k], k, 0, |groups[k]|)
  }

  /** What groupRestricted establishes: the lists partition the frontier,
      each tile labelled with its list's index, and each list is a
      connected component of the frontier under 8-adjacency. */
  ghost predicate Grouped(g: Grid, w: int, h: int, groups: seq<seq<Coord>>) {
    && Partial(g, w, h, groups)
    && AllClosed(g, w, h, groups, |groups|)
    && (forall d :: InBounds(w, h, d) && Frontier(At(g, d)) ==> At(g, d).restrictedGroup >= 0)
  }

  /** Every frontier tile lies in exactly one list, the one its label names. */
  lemma GroupedPartition(g: Grid, w: int, h: int, groups: seq<seq<Coord>>, d: Coord)
    requires Grouped(g, w, h, groups) && InBounds(w, h, d) && Frontier(At(g, d))
    ensures 0 <= At(g, d).restrictedGroup < |groups| && d in groups[At(g, d).restrictedGroup]
    ensures forall k :: 0 <= k < |groups| && d in groups[k] ==> k == At(g, d).restrictedGroup
  {
    assert LabelOk(At(g, d), d, groups);
    forall k | 0 <= k < |groups| && d in groups[k] ensures k == At(g, d).restrictedGroup {
      var j :| 0 <= j < |groups[k]| && groups[k][j] == d;
    }
  }

  /** Within a group, a frontier tile next to a member is itself a member. */
  lemma GroupedClosed(g: Grid, w: int, h: int, groups: seq<seq<Coord>>, k: int, c: Coord, d: Coord)
    requires Grouped(g, w, h, groups) && 0 <= k < |groups| && c in groups[k]
    requires InBounds(w, h, d) && IsNeighbour(d, c) && Frontier(At(g, d))
    ensures d in groups[k]
  {
    var j :| 0 <= j < |groups[k]| && groups[k][j] == c;
    assert ClosedRange(g, w, h, groups[k], k, 0, |groups[k]|);
    assert At(g, d).restrictedGroup == k;
    assert LabelOk(At(g, d), d, groups);
  }

  /** Label growth keeps a closed stretch of a list closed. */
  lemma ClosedMono(g0: Grid, g1: Grid, w: int, h: int, s0: seq<Coord>, s1: seq<Coord>,
                   k: int, kk: int, lo: int, hi: int)
    requires 0 <= k && SameButLabels(g0, g1, w, h) && Grows(g0, g1, w, h, kk)
    requires 0 <= lo <= hi <= |s0| <= |s1| && forall j :: lo <= j < hi ==> s1[j] == s0[j]
    requires ClosedRange(g0, w, h, s0, k, lo, hi)
    ensures ClosedRange(g1, w, h, s1, k, lo, hi)
  {
    forall j, d | lo <= j < hi && 0 <= j < |s1| && InBounds(w, h, d)
      && IsNeighbour(d, s1[j]) && Frontier(At(g1, d))
      ensures At(g1, d).restrictedGroup == k
    {
      assert Frontier(At(g0, d));
      assert s1[j] == s0[j];
    }
  }

  /** Label growth keeps complete groups complete. */
  lemma AllClosedMono(g0: Grid, g1: Grid, w: int, h: int, groups0: seq<seq<Coord>>,
                      groups1: seq<seq<Coord>>, n: int, kk: int)
    requires SameButLabels(g0, g1, w, h) && Grows(g0, g1, w, h, kk)
    requires 0 <= n <= |groups0| && n <= |groups1| && groups1[..n] == groups0[..n]
    requires AllClosed(g0, w, h, groups0, n)
    ensures AllClosed(g1, w, h, groups1, n)
  {
    forall k | 0 <= k < n
      ensures ClosedRange(g1, w, h, groups1[k], k, 0, |groups1[k]|)
    {
      assert groups1[k] == groups1[..n][k] == groups0[..n][k] == groups0[k];
      ClosedMono(g0, g1, w, h, groups0[k], groups1[k], k, kk, 0, |groups0[k]|);
    }
  }

  /** The grid after labelling d with k. */
  function Label(g: Grid, d: Coord, k: int): Grid
    requires Has(g, d)
  {
    Put(g, d, At(g, d).(restrictedGroup := k))
  }

  /** A tile the flood fill reaches from a member of the group under
      construction is unlabelled: a labelled frontier tile next to it would
      put it in a complete group. */
  lemma ReachedIsUnlabelled(g: Grid, w: int, h: int, groups: seq<seq<Coord>>, k: int, c: Coord, d: Coord)
    requires Partial(g, w, h, groups) && k == |groups| - 1 && AllClosed(g, w, h, groups, k)
    requires InBounds(w, h, c) && At(g, c).restrictedGroup == k
    requires InBounds(w, h, d) && IsNeighbour(d, c) && At(g, d).restrictedGroup != k
    ensures At(g, d).restrictedGroup == -1
  {
    assert LabelOk(At(g, c), c, groups);
    assert LabelOk(At(g, d), d, groups);
  }

  /** Labelling a tile that lies in no list with k and appending it to list k keeps the list invariants. */
  lemma JoinMembers(g: Grid, w: int, h: int, groups: seq<seq<Coord>>, k: int, d: Coord)
    requires Rect(g, w, h) && Members(g, w, h, groups) && Labels(g, w, h, groups) && 0 <= k < |groups|
    requires InBounds(w, h, d) && Frontier(At(g, d)) && At(g, d).restrictedGroup == -1
    ensures Has(g, d)
    ensures var g1 := Label(g, d, k);
      var groups1 := groups[k := groups[k] + [d]];
      && Members(g1, w, h, groups1) && Labels(g1, w, h, groups1)
      && SameButLabels(g, g1, w, h) && Grows(g, g1, w, h, k)
      && forall j :: 0 <= j < |groups[k]| ==> groups[k][j] != d
  {
    RectHas(g, w, h);
    var g1 := Label(g, d, k);
    var groups1 := groups[k := groups[k] + [d]];
    forall j | 0 <= j < |groups[k]| ensures groups[k][j] != d {
      assert At(g, groups[k][j]).restrictedGroup == k;
    }
    forall kk, j | 0 <= kk < |groups1| && 0 <= j < |groups1[kk]|
      ensures InBounds(w, h, groups1[kk][j]) && Frontier(At(g1, groups1[kk][j]))
           && At(g1, groups1[kk][j]).restrictedGroup == kk
    {
      if kk != k || j < |groups[k]| {
        assert groups1[kk][j] == groups[kk][j];
      }
    }
    forall e | InBounds(w, h, e) ensures LabelOk(At(g1, e), e, groups1) {
      assert LabelOk(At(g, e), e, groups);
    }
  }

  /** Appending a neighbour of a member keeps a list chained and, when new, distinct. */
  lemma ChainedAppend(s: seq<Coord>, i: int, d: Coord)
    requires Chained(s) && 0 <= i < |s| && IsNeighbour(s[i], d)
    requires Distinct(s) && d !in s
    ensures Chained(s + [d]) && Distinct(s + [d])
  {
    var s1 := s + [d];
    forall j | 0 < j < |s1| ensures exists i' :: 0 <= i' < j && IsNeighbour(s1[i'], s1[j]) {
      if j < |s| {
        var i' :| 0 <= i' < j && IsNeighbour(s[i'], s[j]);
        assert s1[i'] == s[i'];
      } else {
        assert s1[i] == s[i] && s1[j] == d;
        assert 0 <= i < j && IsNeighbour(s1[i], s1[j]);
      }
    }
    assert forall j :: 0 <= j < |s| ==> s1[j] == s[j];
  }

  /** followRestricted adding d, a frontier neighbour of member c, to the group k under construction. */
  lemma Join(g: Grid, w: int, h: int, groups: seq<seq<Coord>>, k: int, c: Coord, d: Coord)
    requires Partial(g, w, h, groups) && k == |groups| - 1 && AllClosed(g, w, h, groups, k)
    requires InBounds(w, h, c) && At(g, c).restrictedGroup == k
    requires InBounds(w, h, d) && IsNeighbour(d, c) && Frontier(At(g, d)) && At(g, d).restrictedGroup != k
    ensures Has(g, d)
    ensures var g1 := Label(g, d, k);
      var groups1 := groups[k := groups[k] + [d]];
      && Partial(g1, w, h, groups1)
      && SameButLabels(g, g1, w, h) && Grows(g, g1, w, h, k)
      && AllClosed(g1, w, h, groups1, k)
      && At(g1, d).restrictedGroup == k
  {
    ReachedIsUnlabelled(g, w, h, groups, k, c, d);
    JoinMembers(g, w, h, groups, k, d);
    var g1 := Label(g, d, k);
    var groups1 := groups[k := groups[k] + [d]];
    assert LabelOk(At(g, c), c, groups);
    var i :| 0 <= i < |groups[k]| && groups[k][i] == c;
    ChainedAppend(groups[k], i, d);
    assert forall kk :: 0 <= kk < |groups1| && kk != k ==> groups1[kk] == groups[kk];
    assert groups1[..k] == groups[..k];
    AllClosedMono(g, g1, w, h, groups, groups1, k, k);
  }

  /** groupRestricted opening a new group with the unlabelled frontier tile c. */
  lemma Open(g: Grid, w: int, h: int, groups: seq<seq<Coord>>, c: Coord)
    requires Partial(g, w, h, groups) && AllClosed(g, w, h, groups, |groups|)
    requires InBounds(w, h, c) && Frontier(At(g, c)) && At(g, c).restrictedGroup < 0
    ensures Has(g, c)
    ensures var g1 := Label(g, c, |groups|);
      var groups1 := groups + [[c]];
      && Partial(g1, w, h, groups1)
      && SameButLabels(g, g1, w, h) && Grows(g, g1, w, h, |groups|)
      && AllClosed(g1, w, h, groups1, |groups|)
      && At(g1, c).restrictedGroup == |groups|
  {
    RectHas(g, w, h);
    assert LabelOk(At(g, c), c, groups);
    var k := |groups|;
    var g1 := Label(g, c, k);
    var groups1 := groups + [[c]];
    assert Members(g1, w, h, groups1) by {
      forall kk, j | 0 <= kk < |groups1| && 0 <= j < |groups1[kk]|
        ensures InBounds(w, h, groups1[kk][j]) && Frontier(At(g1, groups1[kk][j]))
             && At(g1, groups1[kk][j]).restrictedGroup == kk
      {
        if kk < k {
          assert groups1[kk][j] == groups[kk][j];
          assert At(g, groups[kk][j]).restrictedGroup == kk;
        }
      }
    }
    assert Labels(g1, w, h, groups1) by {
      forall e | InBounds(w, h, e) ensures LabelOk(At(g1, e), e, groups1) {
        assert LabelOk(At(g, e), e, groups);
      }
    }
    assert forall kk :: 0 <= kk < |groups1| ==> Distinct(groups1[kk]) && Chained(groups1[kk]) by {
      forall kk | 0 <= kk < |groups1| ensures Distinct(groups1[kk]) && Chained(groups1[kk]) {
        if kk < k {
          assert groups1[kk] == groups[kk];
        }
      }
    }
    assert groups1[..k] == groups[..k];
    AllClosedMono(g, g1, w, h, groups, groups1, k, k);
  }

  /** followRestricted's filter: a frontier tile not yet in group k. */
  function Joinable(k: int): Tile -> bool {
    (t: Tile) => Frontier(t) && t.restrictedGroup != k
  }

  /** The frontier tiles the flood fill for group k may still reach: its termination measure. */
  ghost function Pending(g: Grid, w: int, h: int, k: int): set<Coord> {
    set d | d in Cells(w, h) && Frontier(At(g, d)) && At(g, d).restrictedGroup != k
  }

  /** Label growth towards k never adds to the pending tiles. */
  lemma PendingShrinks(g0: Grid, g1: Grid, w: int, h: int, k: int)
    requires SameButLabels(g0, g1, w, h) && Grows(g0, g1, w, h, k)
    ensures Pending(g1, w, h, k) <= Pending(g0, w, h, k)
  {
    forall d | d in Pending(g1, w, h, k) ensures d in Pending(g0, w, h, k) {
      assert Frontier(At(g0, d));
    }
  }

  /** Labelling a pending tile d with k removes it from the pending tiles. */
  lemma PendingLabel(g0: Grid, g: Grid, w: int, h: int, k: int, d: Coord)
    requires Pending(g, w, h, k) <= Pending(g0, w, h, k)
    requires InBounds(w, h, d) && Has(g, d) && Frontier(At(g, d)) && At(g, d).restrictedGroup != k
    ensures Pending(Label(g, d, k), w, h, k) < Pending(g0, w, h, k)
  {
    var g1 := Label(g, d, k);
    assert d in Pending(g, w, h, k);
    forall e | e in Pending(g1, w, h, k) ensures e in Pending(g, w, h, k) {
      assert e != d;
    }
  }

  /** Two adjacent closed stretches make one. */
  lemma ClosedJoin(g: Grid, w: int, h: int, group: seq<Coord>, k: int, lo: int, mid: int, hi: int)
    requires lo <= mid <= hi
    requires ClosedRange(g, w, h, group, k, lo, mid) && ClosedRange(g, w, h, group, k, mid, hi)
    ensures ClosedRange(g, w, h, group, k, lo, hi)
  {
    forall j, d | lo <= j < hi && 0 <= j < |group| && InBounds(w, h, d)
      && IsNeighbour(d, group[j]) && Frontier(At(g, d))
      ensures At(g, d).restrictedGroup == k
    {
      if j < mid {
        assert ClosedRange(g, w, h, group, k, lo, mid);
      } else {
        assert ClosedRange(g, w, h, group, k, mid, hi);
      }
    }
  }

  /** The grid right after the reset carries no labels, so the empty grouping is a valid start. */
  lemma ResetPartial(g: Grid, w: int, h: int)
    requires Rect(g, w, h)
    ensures Partial(Reset(g), w, h, []) && AllClosed(Reset(g), w, h, [], 0)
  {
    RectHas(g, w, h);
  }

  /** A grouping whose last list, k, is still being filled; the others are complete. */
  ghost predicate Building(g: Grid, w: int, h: int, groups: seq<seq<Coord>>, k: int) {
    Partial(g, w, h, groups) && 0 <= k == |groups| - 1 && AllClosed(g, w, h, groups, k)
  }

  /** From (g0, groups0) the flood fill has only labelled tiles with k and
      appended them to list k, and every frontier tile next to an appended
      one carries label k. */
  ghost predicate Extends(g0: Grid, groups0: seq<seq<Coord>>, g: Grid, groups: seq<seq<Coord>>, w: int, h: int, k: int) {
    && 0 <= k < |groups0| == |groups|
    && groups[..k] == groups0[..k]
    && groups0[k] <= groups[k]
    && SameButLabels(g0, g, w, h) && Grows(g0, g, w, h, k)
    && ClosedRange(g, w, h, groups[k], k, |groups0[k]|, |groups[k]|)
  }

  lemma ExtendsRefl(g: Grid, groups: seq<seq<Coord>>, w: int, h: int, k: int)
    requires 0 <= k < |groups|
    ensures Extends(g, groups, g, groups, w, h, k)
  {
  }

  lemma ExtendsTrans(g0: Grid, G0: seq<seq<Coord>>, g1: Grid, G1: seq<seq<Coord>>,
                     g2: Grid, G2: seq<seq<Coord>>, w: int, h: int, k: int)
    requires Extends(g0, G0, g1, G1, w, h, k) && Extends(g1, G1, g2, G2, w, h, k)
    ensures Extends(g0, G0, g2, G2, w, h, k)
  {
    GrowsTrans(g0, g1, g2, w, h, k);
    assert G2[..k] == G1[..k];
    ClosedMono(g1, g2, w, h, G1[k], G2[k], k, k, |G0[k]|, |G1[k]|);
    ClosedJoin(g2, w, h, G2[k], k, |G0[k]|, |G1[k]|, |G2[k]|);
  }

  /** The flood fill labels d, a pending neighbour of member c, and appends it:
      the grouping is still under construction and nothing but d changed. */
  lemma JoinStep(g: Grid, w: int, h: int, groups: seq<seq<Coord>>, k: int, c: Coord, d: Coord)
    requires Building(g, w, h, groups, k)
    requires InBounds(w, h, c) && At(g, c).restrictedGroup == k
    requires InBounds(w, h, d) && IsNeighbour(d, c) && Frontier(At(g, d)) && At(g, d).restrictedGroup != k
    ensures Has(g, d)
    ensures var g1 := Label(g, d, k);
      var groups1 := groups[k := groups[k] + [d]];
      && Building(g1, w, h, groups1, k)
      && SameButLabels(g, g1, w, h) && Grows(g, g1, w, h, k)
      && groups1[..k] == groups[..k] && groups[k] <= groups1[k]
      && At(g1, d).restrictedGroup == k
      && Pending(g1, w, h, k) < Pending(g, w, h, k)
  {
    Join(g, w, h, groups, k, c, d);
    RectHas(g, w, h);
    PendingLabel(g, g, w, h, k, d);
    var groups1 := groups[k := groups[k] + [d]];
    assert groups1[..k] == groups[..k];
  }

  /** The member at index m of list k has all its frontier neighbours in
      group k, and so does everything after it: from m on the list is closed. */
  lemma ClosedFrom(g: Grid, w: int, h: int, group: seq<Coord>, k: int, m: int)
    requires 0 <= m < |group|
    requires forall d :: InBounds(w, h, d) && IsNeighbour(d, group[m]) && Frontier(At(g, d)) ==> At(g, d).restrictedGroup == k
    requires ClosedRange(g, w, h, group, k, m + 1, |group|)
    ensures ClosedRange(g, w, h, group, k, m, |group|)
  {
    ClosedJoin(g, w, h, group, k, m, m + 1, |group|);
  }

  /** Labels k, once given, survive label growth towards k. */
  lemma KeptLabels(g0: Grid, g1: Grid, w: int, h: int, k: int, cs: seq<Coord>, j: int)
    requires Grows(g0, g1, w, h, k) && 0 <= j < |cs|
    requires forall i :: 0 <= i < |cs| ==> InBounds(w, h, cs[i])
    requires forall i :: 0 <= i < j ==> At(g0, cs[i]).restrictedGroup == k
    requires At(g1, cs[j]).restrictedGroup == k
    ensures forall i :: 0 <= i < j + 1 ==> At(g1, cs[i]).restrictedGroup == k
  {
    forall i | 0 <= i < j ensures At(g1, cs[i]).restrictedGroup == k {
      assert InBounds(w, h, cs[i]);
    }
  }
}
