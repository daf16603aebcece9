/** The line-of-sight sweep: does some cell strictly between two cells of one
    row or column carry a mark? It runs over any grid, with `truthy` saying
    which values count as marked (a wall, a piece) and `negated` asking for
    the unmarked cells instead. */
module Sweep {
  import opened Cells

  /** `grid` is a full board. */
  predicate Fits<T>(grid: array2<T>) {
    grid.Length0 == NumOfCells && grid.Length1 == NumOfCells
  }

  /** The coordinate of `c` along `direction`. */
  function AxisCoord(c: Cell, direction: Axis): int {
    match direction
    case Rows => c.row
    case Cols => c.col
  }

  /** The cell at coordinate `k` along `direction`, on the line through `anchor`. */
  function OnAxis(anchor: Cell, direction: Axis, k: int): Cell {
    match direction
    case Rows => Cell(k, anchor.col)
    case Cols => Cell(anchor.row, k)
  }

  /** The value at `c` counts for the sweep: marked, or unmarked when `negated`. */
  predicate Flagged<T>(grid: array2<T>, truthy: T -> bool, negated: bool, c: Cell)
    reads grid
    requires Fits(grid) && c.OnBoard()
  {
    truthy(grid[c.row, c.col]) != negated
  }

  /** Some cell after `lo` and before `hi` along `direction`, on the line
      through `lo`, counts. */
  predicate FlaggedInRange<T>(grid: array2<T>, truthy: T -> bool, negated: bool, lo: Cell, hi: Cell, direction: Axis)
    reads grid
    requires Fits(grid) && lo.OnBoard() && hi.OnBoard()
  {
    exists k :: AxisCoord(lo, direction) < k < AxisCoord(hi, direction) &&
      Flagged(grid, truthy, negated, OnAxis(lo, direction, k))
  }

  /** What the sweep answers: the two ends are swapped when `delta` is
      negative, and then the cells from just after the first end up to just
      before the second, along `direction`, are examined. */
  predicate SomethingBetween<T>(grid: array2<T>, truthy: T -> bool, startPos: Cell, endPos: Cell,
                                direction: Axis, delta: int, negated: bool)
    reads grid
    requires Fits(grid) && startPos.OnBoard() && endPos.OnBoard()
  {
    if delta < 0 then FlaggedInRange(grid, truthy, negated, endPos, startPos, direction)
    else FlaggedInRange(grid, truthy, negated, startPos, endPos, direction)
  }

  /** Some cell strictly between `a` and `b` counts: the geometric reading of
      the sweep, with no reference to a direction or a sign. */
  ghost predicate AnyBetween<T>(grid: array2<T>, truthy: T -> bool, negated: bool, a: Cell, b: Cell)
    reads grid
    requires Fits(grid) && a.OnBoard() && b.OnBoard()
  {
    exists c :: StrictlyBetween(a, b, c) && Flagged(grid, truthy, negated, c)
  }

  /** The axis a move from `startPos` to `endPos` runs along, as the move
      validator picks it: the column axis when the row does not change. */
  function DirectionOf(startPos: Cell, endPos: Cell): Axis {
    if endPos.row - startPos.row == 0 then Cols else Rows
  }

  /** The signed length of that move along its axis. */
  function DeltaOf(startPos: Cell, endPos: Cell): int {
    if endPos.row - startPos.row == 0 then endPos.col - startPos.col else endPos.row - startPos.row
  }

  /** The sweep, as a loop that stops at the first cell that counts. */
  method IsSomethingBetween<T>(grid: array2<T>, truthy: T -> bool, startPos: Cell, endPos: Cell,
                               direction: Axis, delta: int, negated: bool) returns (found: bool)
    requires Fits(grid) && startPos.OnBoard() && endPos.OnBoard()
    ensures found == SomethingBetween(grid, truthy, startPos, endPos, direction, delta, negated)
  {
    // Swap the ends so that the sweep always runs upwards.
    var lo, hi := startPos, endPos;
    if delta < 0 {
      lo, hi := endPos, startPos;
    }
    var k := AxisCoord(lo, direction) + 1;
    while k < AxisCoord(hi, direction)
      invariant AxisCoord(lo, direction) < k <= AxisCoord(hi, direction) || k == AxisCoord(lo, direction) + 1
      invariant forall j :: AxisCoord(lo, direction) < j < k ==> !Flagged(grid, truthy, negated, OnAxis(lo, direction, j))
    {
      var cell := OnAxis(lo, direction, k);
      if truthy(grid[cell.row, cell.col]) != negated {
        assert Flagged(grid, truthy, negated, OnAxis(lo, direction, k));
        return true;
      }
      k := k + 1;
    }
    return false;
  }

  /** For a straight move, with the direction and delta the validator
      computes, the sweep examines exactly the cells strictly between the two
      ends: it finds something if and only if one of them counts. */
  lemma SweepIsOpenSegment<T>(grid: array2<T>, truthy: T -> bool, startPos: Cell, endPos: Cell, negated: bool)
    requires Fits(grid) && startPos.OnBoard() && endPos.OnBoard() && Orthogonal(startPos, endPos)
    ensures SomethingBetween(grid, truthy, startPos, endPos, DirectionOf(startPos, endPos), DeltaOf(startPos, endPos), negated)
        <==> AnyBetween(grid, truthy, negated, startPos, endPos)
  {
    var direction, delta := DirectionOf(startPos, endPos), DeltaOf(startPos, endPos);
    var lo := if delta < 0 then endPos else startPos;
    var hi := if delta < 0 then startPos else endPos;
    // Along the moving axis, lo and hi are the lower and the upper end.
    if direction == Rows {
      assert delta == endPos.row - startPos.row && startPos.col == endPos.col;
      assert lo.row == Min(startPos.row, endPos.row) && hi.row == Max(startPos.row, endPos.row);
    } else {
      assert delta == endPos.col - startPos.col && startPos.row == endPos.row;
      assert lo.col == Min(startPos.col, endPos.col) && hi.col == Max(startPos.col, endPos.col);
    }
    if SomethingBetween(grid, truthy, startPos, endPos, direction, delta, negated) {
      var k :| AxisCoord(lo, direction) < k < AxisCoord(hi, direction) &&
        Flagged(grid, truthy, negated, OnAxis(lo, direction, k));
      var c := OnAxis(lo, direction, k);
      assert StrictlyBetween(startPos, endPos, c) && Flagged(grid, truthy, negated, c);
    }
    if AnyBetween(grid, truthy, negated, startPos, endPos) {
      var c :| StrictlyBetween(startPos, endPos, c) && Flagged(grid, truthy, negated, c);
      var k := AxisCoord(c, direction);
      assert OnAxis(lo, direction, k) == c;
      assert AxisCoord(lo, direction) < k < AxisCoord(hi, direction);
    }
  }

  /** Swapping the two ends and negating `delta` gives the same answer. */
  lemma SweepSwapSymmetric<T>(grid: array2<T>, truthy: T -> bool, startPos: Cell, endPos: Cell,
                              direction: Axis, delta: int, negated: bool)
    requires Fits(grid) && startPos.OnBoard() && endPos.OnBoard() && delta != 0
    ensures SomethingBetween(grid, truthy, startPos, endPos, direction, delta, negated)
        == SomethingBetween(grid, truthy, endPos, startPos, direction, -delta, negated)
  {
  }

  /** The sweep of a straight move looks at nothing but the cells strictly
      between its ends: two grids that agree there give the same answer. */
  lemma SweepReadsOnlyOpenSegment<T>(g1: array2<T>, g2: array2<T>, truthy: T -> bool,
                                     startPos: Cell, endPos: Cell, negated: bool)
    requires Fits(g1) && Fits(g2) && startPos.OnBoard() && endPos.OnBoard() && Orthogonal(startPos, endPos)
    requires forall c :: StrictlyBetween(startPos, endPos, c) ==> g1[c.row, c.col] == g2[c.row, c.col]
    ensures SomethingBetween(g1, truthy, startPos, endPos, DirectionOf(startPos, endPos), DeltaOf(startPos, endPos), negated)
         == SomethingBetween(g2, truthy, startPos, endPos, DirectionOf(startPos, endPos), DeltaOf(startPos, endPos), negated)
  {
    SweepIsOpenSegment(g1, truthy, startPos, endPos, negated);
    SweepIsOpenSegment(g2, truthy, startPos, endPos, negated);
    if AnyBetween(g1, truthy, negated, startPos, endPos) {
      var c :| StrictlyBetween(startPos, endPos, c) && Flagged(g1, truthy, negated, c);
      assert Flagged(g2, truthy, negated, c);
    }
    if AnyBetween(g2, truthy, negated, startPos, endPos) {
      var c :| StrictlyBetween(startPos, endPos, c) && Flagged(g2, truthy, negated, c);
      assert Flagged(g1, truthy, negated, c);
    }
  }
}
