/**
  * Geometry of the buy page: a square canvas divided into square cells, the two
  * ways a cell is addressed, rook adjacency between cells, and the mapping from a
  * pointer offset on the canvas to the cell under it.
  */
module Grid {

  /** Side of one cell, in canvas units. */
  const CellSize: nat := 10

  /** Width and height of the canvas, in canvas units. */
  const CanvasSize: nat := 2000

  /** Number of cells along each side of the canvas. */
  const GridCells: nat := CanvasSize / CellSize

  /** A cell as the selection stores it. */
  datatype Cell = Cell(row: int, col: int)

  /** A cell as the sold list and the purchase request store it: x is the column, y the row. */
  datatype Coord = Coord(x: int, y: int)

  /** The (x, y) form of a cell. */
  function ToCoord(c: Cell): Coord {
    Coord(c.col, c.row)
  }

  /** The (row, col) form of a coordinate. */
  function ToCell(p: Coord): Cell {
    Cell(p.y, p.x)
  }

  function Abs(n: int): nat {
    if n < 0 then -n else n
  }

  /** Manhattan distance between two cells. */
  function Distance(a: Cell, b: Cell): nat {
    Abs(a.row - b.row) + Abs(a.col - b.col)
  }

  /** Two cells share a side: one axis differs by exactly one, the other not at all. */
  predicate IsAdjacent(a: Cell, b: Cell) {
    var dx := Abs(a.col - b.col);
    var dy := Abs(a.row - b.row);
    (dx == 1 && dy == 0) || (dx == 0 && dy == 1)
  }

  /** The four cells that share a side with `c`. */
  function Neighbours(c: Cell): set<Cell> {
    {Cell(c.row - 1, c.col), Cell(c.row + 1, c.col), Cell(c.row, c.col - 1), Cell(c.row, c.col + 1)}
  }

  /** Adjacency is Manhattan distance one, and then exactly one axis is unchanged. */
  lemma AdjacentIffDistanceOne(a: Cell, b: Cell)
    ensures IsAdjacent(a, b) <==> Distance(a, b) == 1
    ensures IsAdjacent(a, b) ==> (a.row == b.row) != (a.col == b.col)
  {
  }

  /** Adjacency agrees with the explicit list of the four rook neighbours. */
  lemma AdjacentIffNeighbour(a: Cell, b: Cell)
    ensures IsAdjacent(a, b) <==> b in Neighbours(a)
  {
  }

  /** Adjacency is symmetric and irreflexive. */
  lemma AdjacentSymmetricIrreflexive(a: Cell, b: Cell)
    ensures IsAdjacent(a, b) <==> IsAdjacent(b, a)
    ensures !IsAdjacent(a, a)
    ensures IsAdjacent(a, b) ==> a != b
  {
  }

  /** The cell under a pointer offset: both offsets floor-divided by the cell size. */
  function PointerToCell(px: nat, py: nat): (c: Cell)
    ensures c.row >= 0 && c.col >= 0
    ensures InBlock(px, c.col) && InBlock(py, c.row)
  {
    Cell(py / CellSize, px / CellSize)
  }

  /** A coordinate lies in the cell-sized block whose top-left corner is `CellSize * k`. */
  predicate InBlock(p: int, k: int) {
    CellSize * k <= p < CellSize * k + CellSize
  }

  /**
    * A pointer offset maps to cell (r, c) exactly when it lies in the block
    * [10c, 10c+10) x [10r, 10r+10); in particular the mapped cell has
    * non-negative indices.
    */
  lemma PointerToCellBlock(px: nat, py: nat, c: Cell)
    ensures PointerToCell(px, py) == c <==> InBlock(px, c.col) && InBlock(py, c.row)
    ensures PointerToCell(px, py).row >= 0 && PointerToCell(px, py).col >= 0
  {
  }

  /** Every offset inside a cell's block maps back to that cell. */
  lemma BlockMapsToCell(c: Cell, dx: nat, dy: nat)
    requires c.row >= 0 && c.col >= 0
    requires dx < CellSize && dy < CellSize
    ensures PointerToCell(CellSize * c.col + dx, CellSize * c.row + dy) == c
  {
  }

  /**
    * No clamping: an offset inside the canvas maps to a cell inside the grid,
    * and an offset beyond it maps to a cell index beyond the grid.
    */
  lemma PointerInGrid(px: nat, py: nat)
    ensures PointerToCell(px, py).col < GridCells <==> px < CanvasSize
    ensures PointerToCell(px, py).row < GridCells <==> py < CanvasSize
  {
  }
}
