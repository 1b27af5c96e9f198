/**
  * Why insertion-only click histories keep the selection connected: every cell
  * after the first was appended next to an earlier one, so every cell is joined
  * to the first by a walk through adjacent selected cells. Removal may cut such
  * a walk.
  */
module Connectivity {
  import opened Grid
  import opened Selection

  /** The entry at position `i` shares a side with some earlier entry. */
  predicate HasEarlierNeighbour(s: seq<Cell>, i: nat)
    requires i < |s|
  {
    exists j :: 0 <= j < i && IsAdjacent(s[j], s[i])
  }

  /** Every entry after the first shares a side with some earlier entry. */
  predicate GrownByAdjacency(s: seq<Cell>) {
    forall i: nat :: 0 < i < |s| ==> HasEarlierNeighbour(s, i)
  }

  /** Positions `a` and `b` of `s` hold adjacent cells. */
  predicate Linked(s: seq<Cell>, a: nat, b: nat) {
    a < |s| && b < |s| && IsAdjacent(s[a], s[b])
  }

  /** `p` is a non-empty list of positions of `s`, each consecutive pair linked. */
  predicate IsWalk(s: seq<Cell>, p: seq<nat>) {
    |p| > 0 &&
    (forall m :: 0 <= m < |p| ==> p[m] < |s|) &&
    (forall m :: 0 <= m < |p| - 1 ==> Linked(s, p[m], p[m + 1]))
  }

  /** `p` walks from the first cell of `s` to the cell at position `k`. */
  predicate WalkTo(s: seq<Cell>, p: seq<nat>, k: nat) {
    IsWalk(s, p) && p[0] == 0 && p[|p| - 1] == k
  }

  /** Some walk leads from the first cell of `s` to the cell at position `k`. */
  ghost predicate Reachable(s: seq<Cell>, k: nat) {
    exists p :: WalkTo(s, p, k)
  }

  /** Every cell of `s` is reached from the first by a walk through adjacent cells of `s`. */
  ghost predicate Connected(s: seq<Cell>) {
    forall k: nat :: k < |s| ==> Reachable(s, k)
  }

  /** A walk from the first cell to the cell at position `k`. */
  lemma {:induction false} WalkFromFirst(s: seq<Cell>, k: nat) returns (p: seq<nat>)
    requires GrownByAdjacency(s) && k < |s|
    ensures WalkTo(s, p, k)
    decreases k
  {
    if k == 0 {
      p := [0];
    } else {
      assert HasEarlierNeighbour(s, k);
      var j :| 0 <= j < k && IsAdjacent(s[j], s[k]);
      var q := WalkFromFirst(s, j);
      p := q + [k];
      assert Linked(s, j, k);
    }
  }

  /** A selection grown one adjacent cell at a time is connected. */
  lemma GrownIsConnected(s: seq<Cell>)
    requires GrownByAdjacency(s)
    ensures Connected(s)
  {
    forall k: nat | k < |s| ensures Reachable(s, k) {
      var p := WalkFromFirst(s, k);
    }
  }

  /** Appending a cell next to an existing one (or to nothing) keeps a selection grown by adjacency. */
  lemma AppendKeepsGrown(s: seq<Cell>, c: Cell)
    requires GrownByAdjacency(s)
    requires s == [] || exists j :: 0 <= j < |s| && IsAdjacent(s[j], c)
    ensures GrownByAdjacency(s + [c])
  {
    var t := s + [c];
    forall i: nat | 0 < i < |t| ensures HasEarlierNeighbour(t, i) {
      if i < |s| {
        assert HasEarlierNeighbour(s, i);
        var j :| 0 <= j < i && IsAdjacent(s[j], s[i]);
        assert t[j] == s[j] && t[i] == s[i];
      } else {
        var j :| 0 <= j < |s| && IsAdjacent(s[j], c);
        assert t[j] == s[j] && t[i] == c;
      }
    }
  }

  /** A click that does not remove keeps the selection grown by adjacency. */
  lemma StepKeepsGrown(s: seq<Cell>, sold: seq<Coord>, c: Cell)
    requires GrownByAdjacency(s) && Step(s, sold, c).outcome != Removed
    ensures GrownByAdjacency(Step(s, sold, c).selection)
  {
    if Step(s, sold, c).outcome == Inserted {
      AppendKeepsGrown(s, c);
    }
  }

  /** The selection after the clicks `clicks`, one after another, with the sold list fixed. */
  function Run(s: seq<Cell>, sold: seq<Coord>, clicks: seq<Cell>): seq<Cell>
    decreases |clicks|
  {
    if clicks == [] then s else Run(Step(s, sold, clicks[0]).selection, sold, clicks[1..])
  }

  /** No click of the history removes a cell. */
  predicate InsertionsOnly(s: seq<Cell>, sold: seq<Coord>, clicks: seq<Cell>)
    decreases |clicks|
  {
    clicks == [] ||
    (Step(s, sold, clicks[0]).outcome != Removed &&
     InsertionsOnly(Step(s, sold, clicks[0]).selection, sold, clicks[1..]))
  }

  /**
    * Over any click history with the sold list fixed: a duplicate-free selection
    * with no sold cell stays so, and the length changes by at most one per click.
    */
  lemma {:induction false} RunKeepsInvariants(s: seq<Cell>, sold: seq<Coord>, clicks: seq<Cell>)
    requires NoDup(s) && NoneSold(s, sold)
    ensures NoDup(Run(s, sold, clicks)) && NoneSold(Run(s, sold, clicks), sold)
    ensures |s| - |clicks| <= |Run(s, sold, clicks)| <= |s| + |clicks|
    decreases |clicks|
  {
    if clicks != [] {
      var r := Step(s, sold, clicks[0]);
      StepKeepsNoDup(s, sold, clicks[0]);
      StepKeepsNoneSold(s, sold, clicks[0]);
      RunKeepsInvariants(r.selection, sold, clicks[1..]);
    }
  }

  /** Over an insertion-only history a selection grown by adjacency stays so, hence connected. */
  lemma {:induction false} InsertionHistoryConnected(s: seq<Cell>, sold: seq<Coord>, clicks: seq<Cell>)
    requires GrownByAdjacency(s) && InsertionsOnly(s, sold, clicks)
    ensures GrownByAdjacency(Run(s, sold, clicks)) && Connected(Run(s, sold, clicks))
    decreases |clicks|
  {
    if clicks == [] {
      GrownIsConnected(s);
    } else {
      StepKeepsGrown(s, sold, clicks[0]);
      InsertionHistoryConnected(Step(s, sold, clicks[0]).selection, sold, clicks[1..]);
    }
  }

  /** A straight strip of three cells is grown by adjacency, hence connected. */
  lemma StripConnected()
    ensures GrownByAdjacency([Cell(3, 3), Cell(3, 4), Cell(3, 5)])
    ensures Connected([Cell(3, 3), Cell(3, 4), Cell(3, 5)])
  {
    var s := [Cell(3, 3), Cell(3, 4), Cell(3, 5)];
    assert IsAdjacent(s[0], s[1]) && IsAdjacent(s[1], s[2]);
    GrownIsConnected(s);
  }

  /** A walk through two or more positions steps across at least one link. */
  lemma LongWalkHasLink(s: seq<Cell>, p: seq<nat>)
    requires IsWalk(s, p) && |p| > 1
    ensures exists a: nat, b: nat :: Linked(s, a, b)
  {
    assert Linked(s, p[0], p[1]);
  }

  /** Two cells a column apart: no walk joins them. */
  lemma GapNotConnected()
    ensures !Connected([Cell(3, 3), Cell(3, 5)])
  {
    var t := [Cell(3, 3), Cell(3, 5)];
    assert forall a: nat, b: nat :: !Linked(t, a, b) by {
      AdjacentSymmetricIrreflexive(t[0], t[1]);
    }
    forall p | WalkTo(t, p, 1) ensures false {
      LongWalkHasLink(t, p);
      assert false;
    }
    assert !Reachable(t, 1);
  }

  /** Removing the middle of a straight strip of three leaves a selection that is not connected. */
  lemma RemovalMayDisconnect()
    ensures var s := [Cell(3, 3), Cell(3, 4), Cell(3, 5)];
      var r := Step(s, [], Cell(3, 4));
      Connected(s) && r == Click(Removed, [Cell(3, 3), Cell(3, 5)]) && !Connected(r.selection)
  {
    var s := [Cell(3, 3), Cell(3, 4), Cell(3, 5)];
    StripConnected();
    GapNotConnected();
    assert IndexOf(s, Cell(3, 4)) == 1;
    assert Without(s, 1) == [Cell(3, 3), Cell(3, 5)];
  }
}
