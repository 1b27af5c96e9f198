/**
  * The click rule of the buy page as a pure transition on the selection: a click
  * on a selected cell removes it; otherwise a sold cell is refused; otherwise the
  * cell is appended when the selection is empty or a selected cell shares a side
  * with it; otherwise it is refused. Exactly one of these happens per click.
  */
module Selection {
  import opened Grid

  /** No cell occurs twice. */
  predicate NoDup(s: seq<Cell>) {
    forall i, j :: 0 <= i < j < |s| ==> s[i] != s[j]
  }

  /** No cell of the selection is in the sold list (a sold (x, y) blocks cell (row y, col x)). */
  predicate NoneSold(s: seq<Cell>, sold: seq<Coord>) {
    forall i :: 0 <= i < |s| ==> ToCoord(s[i]) !in sold
  }

  /** Position of the first occurrence of `c`, or -1 when there is none. */
  function IndexOf(s: seq<Cell>, c: Cell): (i: int)
    ensures -1 <= i < |s|
    ensures i == -1 <==> c !in s
    ensures i >= 0 ==> s[i] == c && c !in s[..i]
  {
    if s == [] then -1
    else if s[0] == c then 0
    else
      var j := IndexOf(s[1..], c);
      assert j >= 0 ==> s[..j + 1] == [s[0]] + s[1..][..j];
      if j == -1 then -1 else j + 1
  }

  /** Whether some entry of the sold list has x = col and y = row of `c`. */
  function IsSoldOut(sold: seq<Coord>, c: Cell): (r: bool)
    ensures r <==> ToCoord(c) in sold
  {
    if sold == [] then false
    else (sold[0].x == c.col && sold[0].y == c.row) || IsSoldOut(sold[1..], c)
  }

  /** Whether some member of the selection shares a side with `c`. */
  function AnyAdjacent(s: seq<Cell>, c: Cell): (r: bool)
    ensures r <==> exists i :: 0 <= i < |s| && IsAdjacent(s[i], c)
  {
    if s == [] then false
    else IsAdjacent(s[0], c) || AnyAdjacent(s[1..], c)
  }

  /** The selection with the entry at position `k` dropped; the others keep their order. */
  function Without(s: seq<Cell>, k: nat): (r: seq<Cell>)
    requires k < |s|
    ensures |r| == |s| - 1
    ensures forall j :: 0 <= j < |r| ==> r[j] == if j < k then s[j] else s[j + 1]
    ensures multiset(r) == multiset(s) - multiset{s[k]}
  {
    assert s == s[..k] + [s[k]] + s[k + 1..];
    s[..k] + s[k + 1..]
  }

  /** What a click did; `Ignored` is a click before the map has loaded. */
  datatype ClickOutcome = Removed | Inserted | RejectedSold | RejectedNotAdjacent | Ignored

  datatype Click = Click(outcome: ClickOutcome, selection: seq<Cell>)

  /** One click on cell `c` with selection `s` and sold list `sold`. */
  function Step(s: seq<Cell>, sold: seq<Coord>, c: Cell): (r: Click)
    ensures r.outcome == Removed <==> c in s
    ensures r.outcome == Removed ==> r.selection == Without(s, IndexOf(s, c))
    ensures r.outcome == RejectedSold <==> c !in s && ToCoord(c) in sold
    ensures r.outcome == Inserted <==>
      c !in s && ToCoord(c) !in sold && (s == [] || exists i :: 0 <= i < |s| && IsAdjacent(s[i], c))
    ensures r.outcome == Inserted ==> r.selection == s + [c]
    ensures r.outcome == RejectedSold || r.outcome == RejectedNotAdjacent ==> r.selection == s
    ensures r.outcome != Ignored
  {
    var i := IndexOf(s, c);
    if i != -1 then Click(Removed, Without(s, i))
    else if IsSoldOut(sold, c) then Click(RejectedSold, s)
    else if |s| == 0 || AnyAdjacent(s, c) then Click(Inserted, s + [c])
    else Click(RejectedNotAdjacent, s)
  }

  /** The selection grows by one, shrinks by one or stays as it is. */
  function Delta(outcome: ClickOutcome): int {
    match outcome
    case Inserted => 1
    case Removed => -1
    case _ => 0
  }

  /**
    * A click changes the length by exactly -1, 0 or +1 and never creates a
    * duplicate; a click that does not insert never adds a cell.
    */
  lemma StepKeepsNoDup(s: seq<Cell>, sold: seq<Coord>, c: Cell)
    requires NoDup(s)
    ensures var r := Step(s, sold, c);
      |r.selection| == |s| + Delta(r.outcome) && NoDup(r.selection)
  {
    var r := Step(s, sold, c);
    if r.outcome == Removed {
      var k := IndexOf(s, c);
      var t := r.selection;
      forall i, j | 0 <= i < j < |t| ensures t[i] != t[j] {
        var i' := if i < k then i else i + 1;
        var j' := if j < k then j else j + 1;
        assert t[i] == s[i'] && t[j] == s[j'];
      }
    }
  }

  /**
    * In a duplicate-free selection, clicking a selected cell removes exactly that
    * cell: everything else stays, in the same relative order.
    */
  lemma StepRemovesExactlyOne(s: seq<Cell>, sold: seq<Coord>, c: Cell)
    requires NoDup(s) && c in s
    ensures var t := Step(s, sold, c).selection;
      c !in t && multiset(t) == multiset(s) - multiset{c} &&
      exists k :: 0 <= k < |s| && s[k] == c && t == s[..k] + s[k + 1..]
  {
    var k := IndexOf(s, c);
    var t := Step(s, sold, c).selection;
    assert t == s[..k] + s[k + 1..];
  }

  /**
    * With the sold list unchanged, a click never brings a sold cell into a
    * selection that had none: the inserted cell is not sold.
    */
  lemma StepKeepsNoneSold(s: seq<Cell>, sold: seq<Coord>, c: Cell)
    requires NoneSold(s, sold)
    ensures NoneSold(Step(s, sold, c).selection, sold)
    ensures Step(s, sold, c).outcome == Inserted ==> ToCoord(c) !in sold
  {
    var r := Step(s, sold, c);
    if r.outcome == Removed {
      var k := IndexOf(s, c);
      forall i | 0 <= i < |r.selection| ensures ToCoord(r.selection[i]) !in sold {
        assert r.selection[i] == s[if i < k then i else i + 1];
      }
    }
  }

  /**
    * Clicking a selected cell twice in a row in a duplicate-free selection: the
    * second click puts it back, at the end, exactly when it is not sold and the
    * rest of the selection is empty or touches it; the selection then holds the
    * same cells as before. Otherwise the second click is refused.
    */
  lemma ToggleTwice(s: seq<Cell>, sold: seq<Coord>, c: Cell)
    requires NoDup(s) && c in s
    ensures var rest := Step(s, sold, c).selection;
      var second := Step(rest, sold, c);
      (second.outcome == Inserted <==>
        ToCoord(c) !in sold && (rest == [] || exists i :: 0 <= i < |rest| && IsAdjacent(rest[i], c))) &&
      (second.outcome == Inserted ==> multiset(second.selection) == multiset(s)) &&
      (second.outcome != Inserted ==> second.selection == rest)
  {
    StepRemovesExactlyOne(s, sold, c);
  }

  /** Toggling off and on need not restore the selection: the cell may be cut off from the rest. */
  lemma ToggleTwiceMayRefuse()
    ensures var s := [Cell(3, 3), Cell(5, 5)];
      var rest := Step(s, [], Cell(5, 5)).selection;
      rest == [Cell(3, 3)] && Step(rest, [], Cell(5, 5)) == Click(RejectedNotAdjacent, rest)
  {
    var s := [Cell(3, 3), Cell(5, 5)];
    assert IndexOf(s, Cell(5, 5)) == 1;
    assert !IsAdjacent(Cell(3, 3), Cell(5, 5));
  }

  /**
    * Two adjacent picks are appended; a distant pick and a sold pick are refused;
    * a click on a selected cell removes only that cell.
    */
  lemma PickSequence()
    ensures Step([], [Coord(2, 2)], Cell(3, 3)) == Click(Inserted, [Cell(3, 3)])
    ensures Step([Cell(3, 3)], [Coord(2, 2)], Cell(3, 4)) == Click(Inserted, [Cell(3, 3), Cell(3, 4)])
    ensures Step([Cell(3, 3), Cell(3, 4)], [Coord(2, 2)], Cell(5, 5)) == Click(RejectedNotAdjacent, [Cell(3, 3), Cell(3, 4)])
    ensures Step([Cell(3, 3), Cell(3, 4)], [Coord(2, 2)], Cell(2, 2)) == Click(RejectedSold, [Cell(3, 3), Cell(3, 4)])
    ensures Step([Cell(3, 3), Cell(3, 4)], [Coord(2, 2)], Cell(3, 3)) == Click(Removed, [Cell(3, 4)])
  {
    assert IsAdjacent(Cell(3, 3), Cell(3, 4));
  }
}
