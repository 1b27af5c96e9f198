/**
  * The picture the buy page draws after the background image has loaded: the
  * background, then one red square per sold cell, then one blue square per
  * selected cell. The drawing is a list of square fills applied in order; the
  * colour a pixel ends up with is that of the last fill covering it.
  */
module Overlay {
  import opened Grid

  datatype Color = Background | Red | Blue

  /** One cell-sized square fill with top-left corner (left, top). */
  datatype Fill = Fill(left: int, top: int, color: Color)

  predicate Covers(f: Fill, px: int, py: int) {
    f.left <= px < f.left + CellSize && f.top <= py < f.top + CellSize
  }

  /** The red squares for the sold list, in list order. */
  function SoldFills(sold: seq<Coord>): (fills: seq<Fill>)
    ensures |fills| == |sold|
    ensures forall f <- fills :: f.color == Red
  {
    if sold == [] then []
    else
      var p := sold[|sold| - 1];
      SoldFills(sold[..|sold| - 1]) + [Fill(CellSize * p.x, CellSize * p.y, Red)]
  }

  /** The blue squares for the selection, in selection order. */
  function SelectedFills(selected: seq<Cell>): (fills: seq<Fill>)
    ensures |fills| == |selected|
    ensures forall f <- fills :: f.color == Blue
  {
    if selected == [] then []
    else
      var c := selected[|selected| - 1];
      SelectedFills(selected[..|selected| - 1]) + [Fill(CellSize * c.col, CellSize * c.row, Blue)]
  }

  /** Everything painted over the background, in painting order: sold first, selected last. */
  function Scene(sold: seq<Coord>, selected: seq<Cell>): (fills: seq<Fill>)
    ensures |fills| == |sold| + |selected|
    ensures forall i :: 0 <= i < |sold| ==> fills[i].color == Red
    ensures forall i :: |sold| <= i < |fills| ==> fills[i].color == Blue
  {
    SoldFills(sold) + SelectedFills(selected)
  }

  /** No fill after position `i` covers pixel (px, py). */
  predicate LastCover(fills: seq<Fill>, i: nat, px: int, py: int) {
    forall j :: i < j < |fills| ==> !Covers(fills[j], px, py)
  }

  /** The colour of pixel (px, py) after applying `fills` over the background: the last covering fill wins. */
  function ColorAt(fills: seq<Fill>, px: int, py: int): (c: Color)
    ensures (forall i :: 0 <= i < |fills| ==> !Covers(fills[i], px, py)) ==> c == Background
    ensures forall i :: 0 <= i < |fills| && Covers(fills[i], px, py) && LastCover(fills, i, px, py) ==> c == fills[i].color
  {
    if fills == [] then Background
    else if Covers(fills[|fills| - 1], px, py) then fills[|fills| - 1].color
    else ColorAt(fills[..|fills| - 1], px, py)
  }

  /** The colour of a whole cell: selected beats sold beats background. */
  function CellColor(sold: seq<Coord>, selected: seq<Cell>, c: Cell): Color {
    if c in selected then Blue
    else if ToCoord(c) in sold then Red
    else Background
  }

  /** Painting `b` after `a`: a pixel `b` colours keeps that colour, any other keeps what `a` gave it. */
  lemma {:induction false} ColorAtAppend(a: seq<Fill>, b: seq<Fill>, px: int, py: int)
    requires forall f <- b :: f.color != Background
    ensures ColorAt(a + b, px, py) == if ColorAt(b, px, py) != Background then ColorAt(b, px, py) else ColorAt(a, px, py)
  {
    if b == [] {
      assert a + b == a;
    } else {
      var n := |b| - 1;
      assert (a + b)[..|a + b| - 1] == a + b[..n];
      assert (a + b)[|a + b| - 1] == b[n];
      ColorAtAppend(a, b[..n], px, py);
    }
  }

  /** A fill at cell (r, c) covers exactly the pixels that map to (r, c). */
  lemma CoversIffMapsTo(c: Cell, color: Color, px: nat, py: nat)
    ensures Covers(Fill(CellSize * c.col, CellSize * c.row, color), px, py) <==> PointerToCell(px, py) == c
  {
    PointerToCellBlock(px, py, c);
  }

  /** The selection layer alone paints a pixel blue exactly when its cell is selected. */
  lemma {:induction false} SelectedLayer(selected: seq<Cell>, px: nat, py: nat)
    ensures ColorAt(SelectedFills(selected), px, py) == if PointerToCell(px, py) in selected then Blue else Background
  {
    if selected != [] {
      var n := |selected| - 1;
      var c := selected[n];
      var fills := SelectedFills(selected);
      assert fills[..|fills| - 1] == SelectedFills(selected[..n]);
      assert selected == selected[..n] + [c];
      CoversIffMapsTo(c, Blue, px, py);
      SelectedLayer(selected[..n], px, py);
    }
  }

  /** The sold layer alone paints a pixel red exactly when its cell is in the sold list. */
  lemma {:induction false} SoldLayer(sold: seq<Coord>, px: nat, py: nat)
    ensures ColorAt(SoldFills(sold), px, py) == if ToCoord(PointerToCell(px, py)) in sold then Red else Background
  {
    if sold != [] {
      var n := |sold| - 1;
      var p := sold[n];
      var fills := SoldFills(sold);
      assert fills[..|fills| - 1] == SoldFills(sold[..n]);
      assert sold == sold[..n] + [p];
      CoversIffMapsTo(ToCell(p), Red, px, py);
      SoldLayer(sold[..n], px, py);
    }
  }

  /**
    * The painted scene agrees with the per-cell colour at every pixel: the block
    * a click maps to is the block the overlay paints for that cell, and a cell
    * both sold and selected shows as selected.
    */
  lemma SceneMatchesCellColor(sold: seq<Coord>, selected: seq<Cell>, px: nat, py: nat)
    ensures ColorAt(Scene(sold, selected), px, py) == CellColor(sold, selected, PointerToCell(px, py))
  {
    ColorAtAppend(SoldFills(sold), SelectedFills(selected), px, py);
    SelectedLayer(selected, px, py);
    SoldLayer(sold, px, py);
  }
}
