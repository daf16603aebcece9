/** Cells of the 19 x 19 board and the geometry of moves between them. */
module Cells {

  /** The board is `NumOfCells` cells high and wide. */
  const NumOfCells: int := 19

  /** A board position `(row, col)`; `row` is the first array index. */
  datatype Cell = Cell(row: int, col: int) {
    predicate OnBoard() {
      0 <= row < NumOfCells && 0 <= col < NumOfCells
    }
  }

  /** The axis a straight move runs along: `Rows` when the row index changes
      (direction 0), `Cols` when the column index changes (direction 1). */
  datatype Axis = Rows | Cols

  function Abs(x: int): nat {
    if x < 0 then -x else x
  }

  function Min(x: int, y: int): int {
    if x <= y then x else y
  }

  function Max(x: int, y: int): int {
    if x <= y then y else x
  }

  /** A move from `a` to `b` is purely horizontal or purely vertical, and not null. */
  predicate Orthogonal(a: Cell, b: Cell) {
    (a.row == b.row) != (a.col == b.col)
  }

  /** Number of cells walked between `a` and `b` along the grid. */
  function Distance(a: Cell, b: Cell): nat {
    Abs(b.row - a.row) + Abs(b.col - a.col)
  }

  /** `c` lies on the straight segment from `a` to `b`, excluding both ends. */
  predicate StrictlyBetween(a: Cell, b: Cell, c: Cell) {
    (c.row == a.row == b.row && Min(a.col, b.col) < c.col < Max(a.col, b.col)) ||
    (c.col == a.col == b.col && Min(a.row, b.row) < c.row < Max(a.row, b.row))
  }
}
