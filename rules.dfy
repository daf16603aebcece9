/** Properties of the rules: what each rule of move validation forbids or
    allows, the layout of the starting position, and a few concrete moves
    from the starting position. */
module Rules {
  import opened Options
  import opened Colors
  import opened Cells
  import opened Sweep
  import Walls
  import opened Model

  // ---- Geometry of accepted moves

  /** A null move or a diagonal move is always rejected. */
  lemma NullOrDiagonalRejected(g: GameModel, color: GameColor, startPos: Cell, endPos: Cell)
    requires g.Valid() && startPos.OnBoard() && endPos.OnBoard()
    requires startPos == endPos || (startPos.row != endPos.row && startPos.col != endPos.col)
    ensures g.Verdict(color, startPos, endPos) == Illegal
  {
  }

  /** Only a purely horizontal or purely vertical, non-null move can be accepted. */
  lemma AcceptedIsStraight(g: GameModel, color: GameColor, startPos: Cell, endPos: Cell)
    requires g.Valid() && startPos.OnBoard() && endPos.OnBoard()
    requires g.Verdict(color, startPos, endPos) != Illegal
    ensures (endPos.row - startPos.row == 0) != (endPos.col - startPos.col == 0)
  {
  }

  // ---- The wall rule

  /** With exactly one end on a wall, a move longer than one cell is rejected. */
  lemma OneWallEndLongMoveRejected(g: GameModel, color: GameColor, startPos: Cell, endPos: Cell)
    requires g.Valid() && startPos.OnBoard() && endPos.OnBoard()
    requires g.IsWallAt(startPos) != g.IsWallAt(endPos) && Distance(startPos, endPos) > 1
    ensures g.Verdict(color, startPos, endPos) == Illegal
  {
  }

  /** With exactly one end on a wall, a single straight step is decided by the
      destination alone: no wall and no piece between is consulted. */
  lemma OneWallEndStepDecidedByDestination(g: GameModel, color: GameColor, startPos: Cell, endPos: Cell)
    requires g.Valid() && startPos.OnBoard() && endPos.OnBoard()
    requires g.IsWallAt(startPos) != g.IsWallAt(endPos)
    requires Orthogonal(startPos, endPos) && Distance(startPos, endPos) == 1
    ensures g.Verdict(color, startPos, endPos) == DestinationVerdict(color, g.Occupant(endPos))
  {
    NothingBetweenNeighbours(startPos, endPos);
  }

  /** Two cells one step apart have no cell strictly between them. */
  lemma NothingBetweenNeighbours(a: Cell, b: Cell)
    requires Distance(a, b) == 1
    ensures forall c :: !StrictlyBetween(a, b, c)
  {
  }

  /** Between two clear ends, a wall strictly between rejects the move. */
  lemma WallBetweenClearEndsRejected(g: GameModel, color: GameColor, startPos: Cell, endPos: Cell, c: Cell)
    requires g.Valid() && startPos.OnBoard() && endPos.OnBoard()
    requires !g.IsWallAt(startPos) && !g.IsWallAt(endPos)
    requires StrictlyBetween(startPos, endPos, c) && Walls.IsWall(c)
    ensures g.Verdict(color, startPos, endPos) == Illegal
  {
    assert Flagged(g.wallsMap, IsTrue, false, c);
  }

  /** Between two wall ends, a clear cell strictly between rejects the move. */
  lemma ClearBetweenWallEndsRejected(g: GameModel, color: GameColor, startPos: Cell, endPos: Cell, c: Cell)
    requires g.Valid() && startPos.OnBoard() && endPos.OnBoard()
    requires g.IsWallAt(startPos) && g.IsWallAt(endPos)
    requires StrictlyBetween(startPos, endPos, c) && !Walls.IsWall(c)
    ensures g.Verdict(color, startPos, endPos) == Illegal
  {
    assert Flagged(g.wallsMap, IsTrue, true, c);
  }

  /** The wall rule in full, for a straight move: it holds exactly when the
      ends differ in wall status and the move is one step, or they agree and
      every cell strictly between has that same wall status. */
  lemma WallRuleCharacterized(g: GameModel, startPos: Cell, endPos: Cell)
    requires g.Valid() && startPos.OnBoard() && endPos.OnBoard() && Orthogonal(startPos, endPos)
    ensures g.WallRuleAllows(startPos, endPos) <==>
      if Walls.IsWall(startPos) != Walls.IsWall(endPos) then Distance(startPos, endPos) == 1
      else forall c :: StrictlyBetween(startPos, endPos, c) ==> Walls.IsWall(c) == Walls.IsWall(startPos)
  {
    var isStartWall := Walls.IsWall(startPos);
    if Walls.IsWall(startPos) == Walls.IsWall(endPos) {
      if exists c :: StrictlyBetween(startPos, endPos, c) && Walls.IsWall(c) != isStartWall {
        var c :| StrictlyBetween(startPos, endPos, c) && Walls.IsWall(c) != isStartWall;
        assert Flagged(g.wallsMap, IsTrue, isStartWall, c);
      }
    }
  }

  // ---- The turn

  /** Passing the turn twice gives it back to the side that had it. */
  method ChangePlayerTwiceRestores(g: GameModel)
    modifies g
    ensures g.playerMoving == old(g.playerMoving)
    ensures unchanged(g.ballsMap) && unchanged(g.wallsMap)
  {
    var before := g.playerMoving;
    g.ChangePlayer();
    g.ChangePlayer();
    SecondColorInvolution(before);
  }

  // ---- Pieces in the way and the destination

  /** A piece of either colour strictly between the ends rejects the move. */
  lemma PieceBetweenRejected(g: GameModel, color: GameColor, startPos: Cell, endPos: Cell, c: Cell)
    requires g.Valid() && startPos.OnBoard() && endPos.OnBoard()
    requires StrictlyBetween(startPos, endPos, c) && g.Occupant(c).Some?
    ensures g.Verdict(color, startPos, endPos) == Illegal
  {
    assert Flagged(g.ballsMap, IsOccupied, false, c);
  }

  /** A destination holding the mover's own colour rejects the move. */
  lemma OwnColourDestinationRejected(g: GameModel, color: GameColor, startPos: Cell, endPos: Cell)
    requires g.Valid() && startPos.OnBoard() && endPos.OnBoard()
    requires g.Occupant(endPos) == Some(color)
    ensures g.Verdict(color, startPos, endPos) == Illegal
  {
  }

  /** The path of a move is open: straight, allowed by the wall rule, and
      with no piece strictly between the ends. */
  ghost predicate PathOpen(g: GameModel, startPos: Cell, endPos: Cell)
    reads g.wallsMap, g.ballsMap
    requires g.Valid() && startPos.OnBoard() && endPos.OnBoard()
  {
    Orthogonal(startPos, endPos) && g.WallRuleAllows(startPos, endPos) &&
    forall c :: StrictlyBetween(startPos, endPos, c) ==> g.Occupant(c) == None
  }

  /** A move is a capture exactly when its path is open and the destination
      holds the opponent's colour. */
  lemma CaptureExactly(g: GameModel, color: GameColor, startPos: Cell, endPos: Cell)
    requires g.Valid() && startPos.OnBoard() && endPos.OnBoard()
    ensures g.Verdict(color, startPos, endPos) == Capture <==>
      PathOpen(g, startPos, endPos) && g.Occupant(endPos) == Some(SecondColor(color))
  {
    PieceBetweenIsOccupiedCell(g, startPos, endPos);
  }

  /** A move is a plain move exactly when its path is open and the
      destination is empty. */
  lemma MoveExactly(g: GameModel, color: GameColor, startPos: Cell, endPos: Cell)
    requires g.Valid() && startPos.OnBoard() && endPos.OnBoard()
    ensures g.Verdict(color, startPos, endPos) == Move <==>
      PathOpen(g, startPos, endPos) && g.Occupant(endPos) == None
  {
    PieceBetweenIsOccupiedCell(g, startPos, endPos);
  }

  /** `PieceBetween` in terms of the cells strictly between. */
  lemma PieceBetweenIsOccupiedCell(g: GameModel, startPos: Cell, endPos: Cell)
    requires g.Valid() && startPos.OnBoard() && endPos.OnBoard()
    ensures g.PieceBetween(startPos, endPos) <==> exists c :: StrictlyBetween(startPos, endPos, c) && g.Occupant(c).Some?
  {
    if exists c :: StrictlyBetween(startPos, endPos, c) && g.Occupant(c).Some? {
      var c :| StrictlyBetween(startPos, endPos, c) && g.Occupant(c).Some?;
      assert Flagged(g.ballsMap, IsOccupied, false, c);
    }
  }

  // ---- The starting position

  /** The sixteen starting cells are wall cells. */
  lemma StartsAreWalls()
    ensures forall i :: 0 <= i < |WhiteBallPositions| ==> Walls.IsWall(WhiteBallPositions[i])
    ensures forall i :: 0 <= i < |BlackBallPositions| ==> Walls.IsWall(BlackBallPositions[i])
  {
  }

  /** Each black starting cell is the row mirror of the white one placed at
      the same index, so no cell starts with two pieces. */
  lemma BlackStartsMirrorWhite()
    ensures |BlackBallPositions| == |WhiteBallPositions|
    ensures forall i :: 0 <= i < |BlackBallPositions| ==> BlackBallPositions[i] == Walls.RowMirror(WhiteBallPositions[i])
    ensures forall c :: !(c in WhiteBallPositions && c in BlackBallPositions)
  {
  }

  // ---- Moves from the starting position

  /** White from (7,2) to (7,5): both ends and both cells between are walls,
      the cells between are empty and so is the destination. */
  lemma WallRunMoves(g: GameModel)
    requires g.Valid() && g.AtStart()
    ensures g.Verdict(White, Cell(7, 2), Cell(7, 5)) == Move
  {
    var s, e := Cell(7, 2), Cell(7, 5);
    WallRunIsOpen(g);
    assert g.ballsMap[7, 3] == None && g.ballsMap[7, 4] == None && g.ballsMap[7, 5] == None;
    forall c | StrictlyBetween(s, e, c) ensures g.Occupant(c) == None {
      assert c == Cell(7, 3) || c == Cell(7, 4);
    }
    PieceBetweenIsOccupiedCell(g, s, e);
  }

  /** The wall rule allows (7,2) to (7,5), on any board. */
  lemma WallRunIsOpen(g: GameModel)
    requires g.Valid()
    ensures g.WallRuleAllows(Cell(7, 2), Cell(7, 5))
  {
    assert g.IsWallAt(Cell(7, 2)) && g.IsWallAt(Cell(7, 5));
    assert g.wallsMap[7, 3] && g.wallsMap[7, 4];
    assert !AnyBetween(g.wallsMap, IsTrue, true, Cell(7, 2), Cell(7, 5));
  }

  /** From (7,8) to (7,10): both ends are walls but (7,9) between is not. */
  lemma GapInWallRunRejected(g: GameModel, color: GameColor)
    requires g.Valid() && g.AtStart()
    ensures g.Verdict(color, Cell(7, 8), Cell(7, 10)) == Illegal
  {
    ClearBetweenWallEndsRejected(g, color, Cell(7, 8), Cell(7, 10), Cell(7, 9));
  }

  /** Black stepping from the clear cell (8,2) onto the wall cell (7,2),
      where a white piece starts, captures it. */
  lemma StepOntoWallCaptures(g: GameModel)
    requires g.Valid() && g.AtStart()
    ensures g.Verdict(Black, Cell(8, 2), Cell(7, 2)) == Capture
  {
    OneWallEndStepDecidedByDestination(g, Black, Cell(8, 2), Cell(7, 2));
  }

  /** From the clear cell (9,2) two steps up onto the wall cell (7,2) is rejected. */
  lemma LongStepOntoWallRejected(g: GameModel, color: GameColor)
    requires g.Valid() && g.AtStart()
    ensures g.Verdict(color, Cell(9, 2), Cell(7, 2)) == Illegal
  {
    OneWallEndLongMoveRejected(g, color, Cell(9, 2), Cell(7, 2));
  }
}
