/**
  * The purchase request built when the user confirms: the selection, in order,
  * with every cell written as {x: col, y: row}.
  */
module Purchase {
  import opened Grid

  datatype Request = Request(coords: seq<Coord>)

  /** Each selected cell in (x, y) form, in selection order. */
  function FormatCoords(selected: seq<Cell>): (coords: seq<Coord>)
    ensures |coords| == |selected|
    ensures forall i :: 0 <= i < |selected| ==> coords[i].x == selected[i].col && coords[i].y == selected[i].row
  {
    if selected == [] then [] else [ToCoord(selected[0])] + FormatCoords(selected[1..])
  }

  /** Each request coordinate read back as a cell (row = y, col = x), in order. */
  function DecodeCoords(coords: seq<Coord>): (cells: seq<Cell>)
    ensures |cells| == |coords|
    ensures forall i :: 0 <= i < |coords| ==> cells[i].row == coords[i].y && cells[i].col == coords[i].x
  {
    if coords == [] then [] else [ToCell(coords[0])] + DecodeCoords(coords[1..])
  }

  function FormatRequest(selected: seq<Cell>): (request: Request)
    ensures |request.coords| == |selected|
  {
    Request(FormatCoords(selected))
  }

  function DecodeRequest(request: Request): seq<Cell> {
    DecodeCoords(request.coords)
  }

  /** Decoding the request reproduces the selection exactly, order included. */
  lemma {:induction false} DecodeFormat(selected: seq<Cell>)
    ensures DecodeRequest(FormatRequest(selected)) == selected
  {
    if selected != [] {
      DecodeFormat(selected[1..]);
      assert DecodeCoords(FormatCoords(selected)) == [selected[0]] + DecodeCoords(FormatCoords(selected[1..]));
    }
  }

  /** Every request is the formatting of exactly one selection: the one it decodes to. */
  lemma {:induction false} FormatDecode(request: Request)
    ensures FormatRequest(DecodeRequest(request)) == request
    decreases |request.coords|
  {
    var coords := request.coords;
    if coords != [] {
      FormatDecode(Request(coords[1..]));
      assert FormatCoords(DecodeCoords(coords)) == [coords[0]] + FormatCoords(DecodeCoords(coords[1..]));
    }
  }
}
