/** The board state of a game of Castle and the operations that read and
    change it: the wall map, the occupancy map, the player to move, move
    validation and move application. */
module Model {
  import opened Options
  import opened Colors
  import opened Cells
  import opened Sweep
  import Walls

  /** A piece on the board: only its colour and its cell matter. */
  datatype Piece = Piece(color: GameColor, cell: Cell)

  /** The outcome of validating a move: rejected, accepted onto an empty
      cell, or accepted onto a cell held by the opponent. */
  datatype MoveVerdict = Illegal | Move | Capture

  /** Starting cells, in the order the pieces are placed. */
  const BlackBallPositions: seq<Cell> :=
    [Cell(11, 2), Cell(11, 16), Cell(18, 5), Cell(18, 13), Cell(13, 7), Cell(13, 11), Cell(17, 7), Cell(17, 11)]
  const WhiteBallPositions: seq<Cell> :=
    [Cell(7, 2), Cell(7, 16), Cell(0, 5), Cell(0, 13), Cell(5, 7), Cell(5, 11), Cell(1, 7), Cell(1, 11)]

  /** What a cell holds at the start of a game. */
  function InitialOccupant(c: Cell): Option<GameColor> {
    if c in WhiteBallPositions then Some(White)
    else if c in BlackBallPositions then Some(Black)
    else None
  }

  /** How a cell of the wall map is read by the sweep: `true` is a wall. */
  function IsTrue(b: bool): bool {
    b
  }

  /** How a cell of the occupancy map is read by the sweep: any piece counts. */
  function IsOccupied(o: Option<GameColor>): bool {
    o.Some?
  }

  /** The last step of move validation, once the path is clear: what the
      destination holds decides. */
  function DestinationVerdict(mover: GameColor, occupant: Option<GameColor>): (v: MoveVerdict)
    ensures v == Illegal <==> occupant == Some(mover)
    ensures v == Capture <==> occupant == Some(SecondColor(mover))
    ensures v == Move <==> occupant == None
  {
    match occupant
    case None => Move
    case Some(c) => if c == mover then Illegal else Capture
  }

  class GameModel {
    /** `true` on the wall cells; drawn once, never written afterwards. */
    const wallsMap: array2<bool>
    /** The colour of the piece on each cell, `None` when empty. */
    const ballsMap: array2<Option<GameColor>>
    /** The side whose turn it is. */
    var playerMoving: GameColor

    /** Both maps cover the board and the wall map is the fixed layout. */
    ghost predicate Valid()
      reads wallsMap
    {
      Walls.IsLayout(wallsMap) && Fits(ballsMap)
    }

    function Occupant(c: Cell): Option<GameColor>
      reads ballsMap
      requires Fits(ballsMap) && c.OnBoard()
    {
      ballsMap[c.row, c.col]
    }

    predicate IsWallAt(c: Cell)
      reads wallsMap
      requires Fits(wallsMap) && c.OnBoard()
    {
      wallsMap[c.row, c.col]
    }

    /** The invariant every piece keeps: its cell holds its colour. */
    predicate Holds(p: Piece)
      reads ballsMap
      requires Fits(ballsMap) && p.cell.OnBoard()
    {
      Occupant(p.cell) == Some(p.color)
    }

    /** The occupancy map is the starting position. */
    ghost predicate AtStart()
      reads ballsMap
      requires Fits(ballsMap)
    {
      forall r, c {:trigger ballsMap[r, c]} :: 0 <= r < NumOfCells && 0 <= c < NumOfCells ==>
        ballsMap[r, c] == InitialOccupant(Cell(r, c))
    }

    /** The wall rule, decided by the wall status of the two ends: a move
        between a wall cell and a clear cell is a single step; a move between
        two clear cells crosses no wall; a move between two wall cells
        crosses no clear cell. */
    ghost predicate WallRuleAllows(startPos: Cell, endPos: Cell)
      reads wallsMap
      requires Valid() && startPos.OnBoard() && endPos.OnBoard()
    {
      var isStartWall, isEndWall := IsWallAt(startPos), IsWallAt(endPos);
      if isStartWall != isEndWall then Distance(startPos, endPos) <= 1
      else if !isStartWall then !AnyBetween(wallsMap, IsTrue, false, startPos, endPos)
      else !AnyBetween(wallsMap, IsTrue, true, startPos, endPos)
    }

    /** Some piece, of either colour, stands strictly between the two ends. */
    ghost predicate PieceBetween(startPos: Cell, endPos: Cell)
      reads ballsMap
      requires Fits(ballsMap) && startPos.OnBoard() && endPos.OnBoard()
    {
      AnyBetween(ballsMap, IsOccupied, false, startPos, endPos)
    }

    /** The rules of a move by a piece of colour `ballColor`, in the order
        they are applied. */
    ghost function Verdict(ballColor: GameColor, startPos: Cell, endPos: Cell): MoveVerdict
      reads wallsMap, ballsMap
      requires Valid() && startPos.OnBoard() && endPos.OnBoard()
    {
      if !Orthogonal(startPos, endPos) then Illegal
      else if !WallRuleAllows(startPos, endPos) then Illegal
      else if PieceBetween(startPos, endPos) then Illegal
      else DestinationVerdict(ballColor, Occupant(endPos))
    }

    /** Validates a move of a piece of colour `ballColor` from `startPos` to
        `endPos`; the animation of a capture is not part of the model. */
    method ValidMove(ballColor: GameColor, startPos: Cell, endPos: Cell) returns (v: MoveVerdict)
      requires Valid() && startPos.OnBoard() && endPos.OnBoard()
      ensures v == Verdict(ballColor, startPos, endPos)
    {
      var dy := endPos.row - startPos.row;
      var dx := endPos.col - startPos.col;
      var delta, direction := dy, Rows;
      if (dx != 0) == (dy != 0) {
        return Illegal;
      }
      if dy == 0 {
        delta, direction := dx, Cols;
      }
      assert direction == DirectionOf(startPos, endPos) && delta == DeltaOf(startPos, endPos);
      var isStartWall := wallsMap[startPos.row, startPos.col];
      var isEndWall := wallsMap[endPos.row, endPos.col];
      if isStartWall != isEndWall {
        if Abs(delta) > 1 {
          return Illegal;
        }
      } else if !isStartWall && !isEndWall {
        var blocked := IsSomethingBetween(wallsMap, IsTrue, startPos, endPos, direction, delta, false);
        SweepIsOpenSegment(wallsMap, IsTrue, startPos, endPos, false);
        if blocked {
          return Illegal;
        }
      } else {
        var blocked := IsSomethingBetween(wallsMap, IsTrue, startPos, endPos, direction, delta, true);
        SweepIsOpenSegment(wallsMap, IsTrue, startPos, endPos, true);
        if blocked {
          return Illegal;
        }
      }
      var occupied := IsSomethingBetween(ballsMap, IsOccupied, startPos, endPos, direction, delta, false);
      SweepIsOpenSegment(ballsMap, IsOccupied, startPos, endPos, false);
      if occupied {
        return Illegal;
      }
      var occupant := ballsMap[endPos.row, endPos.col];
      if occupant.Some? {
        if occupant.value == ballColor {
          return Illegal;
        }
        return Capture;
      }
      return Move;
    }

    /** Puts a piece of `ball`'s colour on `boardPos`, overwriting whatever
        was there; returns the piece at its new cell. */
    method PlaceBall(ball: Piece, boardPos: Cell) returns (placed: Piece)
      requires Fits(ballsMap) && boardPos.OnBoard()
      modifies ballsMap
      ensures placed == Piece(ball.color, boardPos) && Holds(placed)
      ensures forall r, c :: 0 <= r < NumOfCells && 0 <= c < NumOfCells && Cell(r, c) != boardPos ==>
        ballsMap[r, c] == old(ballsMap[r, c])
    {
      ballsMap[boardPos.row, boardPos.col] := Some(ball.color);
      placed := Piece(ball.color, boardPos);
    }

    /** Moves `ball` to `endPos` when the rules allow it: its old cell is
        cleared and its colour written on `endPos`, which removes an opposing
        piece standing there. A rejected move changes nothing. */
    method MoveBall(ball: Piece, endPos: Cell) returns (moved: bool, ballAfter: Piece)
      requires Valid() && ball.cell.OnBoard() && endPos.OnBoard()
      modifies ballsMap
      ensures Valid() && unchanged(wallsMap)
      ensures moved <==> old(Verdict(ball.color, ball.cell, endPos)) != Illegal
      ensures moved ==> Occupant(ball.cell) == None && Occupant(endPos) == Some(ball.color)
      ensures moved ==> forall r, c ::
        0 <= r < NumOfCells && 0 <= c < NumOfCells && Cell(r, c) != ball.cell && Cell(r, c) != endPos ==>
        ballsMap[r, c] == old(ballsMap[r, c])
      ensures !moved ==> unchanged(ballsMap)
      ensures ballAfter == if moved then Piece(ball.color, endPos) else ball
      ensures old(Holds(ball)) ==> Holds(ballAfter)
    {
      var startPos := ball.cell;
      var verdict := ValidMove(ball.color, startPos, endPos);
      if verdict == Illegal {
        return false, ball;
      }
      ballsMap[startPos.row, startPos.col] := None;
      ballAfter := PlaceBall(ball, endPos);
      moved := true;
    }

    /** Passes the turn to the other side. */
    method ChangePlayer()
      modifies this
      ensures playerMoving == SecondColor(old(playerMoving))
    {
      if playerMoving == White {
        playerMoving := Black;
      } else {
        playerMoving := White;
      }
    }

    /** Places a piece of colour `color` on each of `positions`, in order;
        every other cell keeps its content. */
    method PlaceBalls(color: GameColor, positions: seq<Cell>)
      requires Fits(ballsMap) && forall i :: 0 <= i < |positions| ==> positions[i].OnBoard()
      modifies ballsMap
      ensures forall r, c {:trigger ballsMap[r, c]} :: 0 <= r < NumOfCells && 0 <= c < NumOfCells ==>
        ballsMap[r, c] == (if Cell(r, c) in positions then Some(color) else old(ballsMap[r, c]))
    {
      for i := 0 to |positions|
        invariant forall r, c {:trigger ballsMap[r, c]} :: 0 <= r < NumOfCells && 0 <= c < NumOfCells ==>
          ballsMap[r, c] == (if Cell(r, c) in positions[..i] then Some(color) else old(ballsMap[r, c]))
      {
        assert positions[..i + 1] == positions[..i] + [positions[i]];
        var placed := PlaceBall(Piece(color, positions[i]), positions[i]);
      }
      assert positions[..|positions|] == positions;
    }

    /** Places the eight black pieces and then the eight white pieces on
        their starting cells; every other cell keeps its content. */
    method BallsInit()
      requires Fits(ballsMap)
      modifies ballsMap
      ensures forall r, c {:trigger ballsMap[r, c]} :: 0 <= r < NumOfCells && 0 <= c < NumOfCells ==>
        ballsMap[r, c] == (if Cell(r, c) in WhiteBallPositions then Some(White)
                           else if Cell(r, c) in BlackBallPositions then Some(Black)
                           else old(ballsMap[r, c]))
    {
      StartsOnBoard();
      PlaceBalls(Black, BlackBallPositions);
      PlaceBalls(White, WhiteBallPositions);
    }

    /** A new game: the wall layout drawn, the sixteen pieces on their
        starting cells, White to move. */
    constructor ()
      ensures Valid() && fresh(wallsMap) && fresh(ballsMap)
      ensures AtStart() && playerMoving == White
    {
      var walls := Walls.WallMapInit();
      wallsMap := walls;
      ballsMap := new Option<GameColor>[NumOfCells, NumOfCells]((_, _) => None);
      new;
      label Empty:
      BallsInit();
      forall r, c | 0 <= r < NumOfCells && 0 <= c < NumOfCells
        ensures ballsMap[r, c] == InitialOccupant(Cell(r, c))
      {
        assert old@Empty(ballsMap[r, c]) == None;
      }
      playerMoving := White;
    }
  }

  /** Every starting cell is on the board. */
  lemma StartsOnBoard()
    ensures forall i :: 0 <= i < |BlackBallPositions| ==> BlackBallPositions[i].OnBoard()
    ensures forall i :: 0 <= i < |WhiteBallPositions| ==> WhiteBallPositions[i].OnBoard()
  {
  }
}
