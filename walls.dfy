/** The fixed wall layout of the board and the routine that draws it into a
    boolean grid. */
module Walls {
  import opened Cells

  /** The layout as a picture: row 0 first, `#` marks a wall cell. */
  const Picture: seq<string> := [
    ".....#.......#.....",
    "..#..#.##.##.#..#..",
    "..#..#.#...#.#..#..",
    "..#..#.#...#.#..#..",
    "..#..#.#...#.#..#..",
    "..#..#.#####.#..#..",
    "..#.............#..",
    "..#######.#######..",
    "...................",
    "...................",
    "...................",
    "..#######.#######..",
    "..#.............#..",
    "..#..#.#####.#..#..",
    "..#..#.#...#.#..#..",
    "..#..#.#...#.#..#..",
    "..#..#.#...#.#..#..",
    "..#..#.##.##.#..#..",
    ".....#.......#....."
  ]

  /** `c` is marked `#` in the picture. */
  predicate InPicture(c: Cell) {
    c.OnBoard() && c.row < |Picture| && c.col < |Picture[c.row]| && Picture[c.row][c.col] == '#'
  }

  /** `wallsMap` is a full board whose `true` cells are exactly the wall cells. */
  ghost predicate IsLayout(wallsMap: array2<bool>)
    reads wallsMap
  {
    wallsMap.Length0 == NumOfCells && wallsMap.Length1 == NumOfCells &&
    forall r, c :: 0 <= r < NumOfCells && 0 <= c < NumOfCells ==> wallsMap[r, c] == IsWall(Cell(r, c))
  }

  /** The mirror image of `c` in the middle row, `r` becoming `18 - r`. */
  function RowMirror(c: Cell): Cell {
    Cell(NumOfCells - 1 - c.row, c.col)
  }

  /** The mirror image of `c` in the middle column, `c` becoming `18 - c`. */
  function ColMirror(c: Cell): Cell {
    Cell(c.row, NumOfCells - 1 - c.col)
  }

  /** The cells `(i, a)`, `(i, b)` and their row mirrors `(18 - i, a)`,
      `(18 - i, b)` for `lo <= i < hi`: what one column-drawing loop marks. */
  predicate ColumnRun(c: Cell, a: int, b: int, lo: int, hi: int) {
    (c.col == a || c.col == b) && (lo <= c.row < hi || NumOfCells - hi <= c.row <= NumOfCells - 1 - lo)
  }

  /** The cells `(a, i)`, `(b, i)` and their column mirrors `(a, 18 - i)`,
      `(b, 18 - i)` for `lo <= i < hi`: what the row-drawing loop marks. */
  predicate RowRun(c: Cell, a: int, b: int, lo: int, hi: int) {
    (c.row == a || c.row == b) && (lo <= c.col < hi || NumOfCells - hi <= c.col <= NumOfCells - 1 - lo)
  }

  /** The unmirrored cells `(5, i)` and `(13, i)` for `7 <= i < hi`. */
  predicate KeepWalls(c: Cell, hi: int) {
    (c.row == 5 || c.row == 13) && 7 <= c.col < hi
  }

  /** The four single cells set after the loops. */
  predicate Battlements(c: Cell) {
    (c.row == 1 || c.row == 17) && (c.col == 8 || c.col == 10)
  }

  /** `c` is a wall cell: one of the cells the drawing routine marks. */
  predicate IsWall(c: Cell) {
    ColumnRun(c, 2, 16, 1, 8) || ColumnRun(c, 5, 13, 0, 6) || ColumnRun(c, 7, 11, 1, 6) ||
    RowRun(c, 7, 11, 3, 9) || KeepWalls(c, 12) || Battlements(c)
  }

  /** The wall cells are exactly the cells marked in the picture. */
  lemma WallsArePicture(c: Cell)
    requires c.OnBoard()
    ensures IsWall(c) == InPicture(c)
  {
    if c.row < 10 {
      WallsArePictureTop(c);
    } else {
      WallsArePictureBottom(c);
    }
  }

  /** Rows 0 to 9 of `WallsArePicture`, compared line by line. */
  lemma WallsArePictureTop(c: Cell)
    requires c.OnBoard() && c.row < 10
    ensures IsWall(c) == InPicture(c)
  {
    var line := Picture[c.row];
    if c.row == 0 { assert line == ".....#.......#....."; }
    else if c.row == 1 { assert line == "..#..#.##.##.#..#.."; }
    else if c.row <= 4 { assert line == "..#..#.#...#.#..#.."; }
    else if c.row == 5 { assert line == "..#..#.#####.#..#.."; }
    else if c.row == 6 { assert line == "..#.............#.."; }
    else if c.row == 7 { assert line == "..#######.#######.."; }
    else { assert line == "..................."; }
  }

  /** Rows 10 to 18 of `WallsArePicture`, compared line by line. */
  lemma WallsArePictureBottom(c: Cell)
    requires c.OnBoard() && 10 <= c.row
    ensures IsWall(c) == InPicture(c)
  {
    var line := Picture[c.row];
    if c.row == 10 { assert line == "..................."; }
    else if c.row == 11 { assert line == "..#######.#######.."; }
    else if c.row == 12 { assert line == "..#.............#.."; }
    else if c.row == 13 { assert line == "..#..#.#####.#..#.."; }
    else if c.row <= 16 { assert line == "..#..#.#...#.#..#.."; }
    else if c.row == 17 { assert line == "..#..#.##.##.#..#.."; }
    else { assert line == ".....#.......#....."; }
  }

  /** One column-drawing loop: marks `(i, a)`, `(i, b)`, `(18 - i, a)` and
      `(18 - i, b)` for every `i` in `[lo, hi)` and leaves every other cell alone. */
  method DrawColumns(wallsMap: array2<bool>, a: int, b: int, lo: int, hi: int)
    requires wallsMap.Length0 == NumOfCells && wallsMap.Length1 == NumOfCells
    requires 0 <= a < NumOfCells && 0 <= b < NumOfCells && 0 <= lo <= hi <= NumOfCells
    modifies wallsMap
    ensures forall r, c :: 0 <= r < NumOfCells && 0 <= c < NumOfCells ==>
      wallsMap[r, c] == (old(wallsMap[r, c]) || ColumnRun(Cell(r, c), a, b, lo, hi))
  {
    for i := lo to hi
      invariant forall r, c :: 0 <= r < NumOfCells && 0 <= c < NumOfCells ==>
        wallsMap[r, c] == (old(wallsMap[r, c]) || ColumnRun(Cell(r, c), a, b, lo, i))
    {
      wallsMap[i, a] := true;
      wallsMap[i, b] := true;
      wallsMap[NumOfCells - i - 1, a] := true;
      wallsMap[NumOfCells - i - 1, b] := true;
    }
  }

  /** The row-drawing loop: marks `(a, i)`, `(b, i)`, `(a, 18 - i)` and
      `(b, 18 - i)` for every `i` in `[lo, hi)` and leaves every other cell alone. */
  method DrawRows(wallsMap: array2<bool>, a: int, b: int, lo: int, hi: int)
    requires wallsMap.Length0 == NumOfCells && wallsMap.Length1 == NumOfCells
    requires 0 <= a < NumOfCells && 0 <= b < NumOfCells && 0 <= lo <= hi <= NumOfCells
    modifies wallsMap
    ensures forall r, c :: 0 <= r < NumOfCells && 0 <= c < NumOfCells ==>
      wallsMap[r, c] == (old(wallsMap[r, c]) || RowRun(Cell(r, c), a, b, lo, hi))
  {
    for i := lo to hi
      invariant forall r, c :: 0 <= r < NumOfCells && 0 <= c < NumOfCells ==>
        wallsMap[r, c] == (old(wallsMap[r, c]) || RowRun(Cell(r, c), a, b, lo, i))
    {
      wallsMap[a, i] := true;
      wallsMap[b, i] := true;
      wallsMap[a, NumOfCells - i - 1] := true;
      wallsMap[b, NumOfCells - i - 1] := true;
    }
  }

  /** Builds the wall map: a fresh 19 x 19 grid whose `true` cells are exactly
      the wall cells of the layout. */
  method WallMapInit() returns (wallsMap: array2<bool>)
    ensures fresh(wallsMap) && IsLayout(wallsMap)
  {
    wallsMap := new bool[NumOfCells, NumOfCells]((_, _) => false);
    DrawColumns(wallsMap, 2, 16, 1, 8);
    DrawColumns(wallsMap, 5, 13, 0, 6);
    DrawColumns(wallsMap, 7, 11, 1, 6);
    DrawRows(wallsMap, 7, 11, 3, 9);
    for i := 7 to 12
      invariant forall r, c :: 0 <= r < NumOfCells && 0 <= c < NumOfCells ==>
        wallsMap[r, c] == (ColumnRun(Cell(r, c), 2, 16, 1, 8) || ColumnRun(Cell(r, c), 5, 13, 0, 6) ||
                           ColumnRun(Cell(r, c), 7, 11, 1, 6) || RowRun(Cell(r, c), 7, 11, 3, 9) ||
                           KeepWalls(Cell(r, c), i))
    {
      wallsMap[5, i] := true;
      wallsMap[13, i] := true;
    }
    wallsMap[1, 8] := true;
    wallsMap[1, 10] := true;
    wallsMap[17, 8] := true;
    wallsMap[17, 10] := true;
  }

  /** The layout is symmetric under the row mirror `r -> 18 - r`. */
  lemma WallsRowSymmetric(c: Cell)
    requires c.OnBoard()
    ensures IsWall(RowMirror(c)) == IsWall(c)
  {
  }

  /** The layout is symmetric under the column mirror `c -> 18 - c`. */
  lemma WallsColSymmetric(c: Cell)
    requires c.OnBoard()
    ensures IsWall(ColMirror(c)) == IsWall(c)
  {
  }
}
