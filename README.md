# Castle game: the board rules engine in Dafny

This project models the rules engine of the Castle game (`GameModel.py`). The board has 19 × 19 cells. It has a fixed layout of wall cells (the castle), and each side has eight pieces that start on wall cells. A piece moves along a row or a column. The wall rule decides whether it may leave or enter the walls:

- between a wall cell and a clear cell, a move is a single step;
- between two clear cells, no wall may stand between;
- between two wall cells, no clear cell may stand between.

No piece of either colour may stand between the two ends. A move onto an opposing piece captures that piece by overwriting its cell.

The modules follow the parts of the engine:

- `Colors`: the two colours and `second_color`.
- `Cells`: cells, straight moves, the cells strictly between two cells.
- `Walls`: the wall layout and `wall_map_init`, which draws it into a boolean grid.
- `Sweep`: `is_something_between`, the line-of-sight sweep over any grid. It is proved to examine exactly the open segment between the two ends.
- `Model`: the `GameModel` class.
  - It holds the wall map, the occupancy map (`ballsMap`) and the side to move.
  - Its methods are `valid_move`, `place_ball`, `move_ball`, `change_player`, `balls_init` and the constructor.
  - `ValidMove` is proved against `Verdict`, a ghost function. It states the rules in the order the source applies them.
- `Rules`: lemmas on `Verdict`, one per rule (each direction of the rule where it is an if-and-only-if), plus the starting position and a few concrete moves from it.

Python's truth tests are made explicit. `bool(cell)` in the sweep is a parameter `truthy`:
- for the wall map it is the cell's value;
- for the occupancy map it is "holds a piece". An `Enum` member is always truthy, which includes `WHITE`, whose value is 0.

The direction codes 0 and 1 become the datatype `Axis` (`Rows`, `Cols`). A ball sprite is modelled as a `Piece`: its colour and its board cell.

Where the specification of the engine and the code disagree, the model follows the code:
- `move_ball` does not pass the turn. `change_player` is a separate operation, and the code never calls it from `move_ball`.
- `valid_move` has no "not your turn" or "no piece at start" outcomes. Its only answers are reject and accept, with a capture as a side effect.

## Model

| member | source | states |
|---|---|---|
| `Colors.SecondColor` | GameModel.py:61-66 | the other colour is never the colour given |
| `Colors.SecondColorInvolution` | GameModel.py:61-66 | taking the other colour twice gives back the colour |
| `Colors.SecondColorIsTheOther` | GameModel.py:61-66 | any colour different from `c` is `second_color(c)`: there are exactly two |
| `Walls.DrawColumns` | GameModel.py:260-274 | one column-drawing loop sets cells `(i,a)`, `(i,b)`, `(18-i,a)`, `(18-i,b)` for `lo <= i < hi` to true and leaves every other cell as it was |
| `Walls.DrawRows` | GameModel.py:275-279 | the row-drawing loop sets `(a,i)`, `(b,i)`, `(a,18-i)`, `(b,18-i)` for `lo <= i < hi` to true and leaves every other cell as it was |
| `Walls.WallMapInit` | GameModel.py:258-287 | returns a fresh 19 × 19 grid whose true cells are exactly the wall cells |
| `Walls.WallsArePicture` | GameModel.py:258-287 | the wall cells drawn by the loops are exactly the 106 `#` cells of a 19-line picture of the castle |
| `Walls.WallsRowSymmetric` | GameModel.py:258-287 | the layout is symmetric under the row mirror `r -> 18 - r` |
| `Walls.WallsColSymmetric` | GameModel.py:258-287 | the layout is symmetric under the column mirror `c -> 18 - c` |
| `Sweep.IsSomethingBetween` | GameModel.py:324-338 | the loop answers true exactly when some cell after the lower end and before the higher end along `direction` counts; the ends are swapped when `delta < 0` |
| `Sweep.SweepIsOpenSegment` | GameModel.py:328-337 | for a straight move, with the direction and delta that the validator derives, the sweep finds something if and only if some cell strictly between the two ends counts |
| `Sweep.SweepSwapSymmetric` | GameModel.py:328-329 | swapping the ends and negating `delta` does not change the answer |
| `Sweep.SweepReadsOnlyOpenSegment` | GameModel.py:330-337 | two grids that agree on the cells strictly between the ends give the same answer |
| `Model.DestinationVerdict` | GameModel.py:378-382 | own colour on the destination rejects, the opposing colour makes a capture, an empty cell a plain move, each as an if-and-only-if |
| `Model.StartsOnBoard` | GameModel.py:299-300 | all sixteen starting cells lie on the board |
| `Model.GameModel.ValidMove` | GameModel.py:355-382 | the verdict of the code (null or diagonal moves rejected, three-way wall rule, pieces between, destination) equals `Verdict`, which states each rule on the cells strictly between the ends |
| `Model.GameModel.PlaceBall` | GameModel.py:320-322 | the target cell holds the piece's colour, the returned piece is at the target, and every other cell is unchanged |
| `Model.GameModel.MoveBall` | GameModel.py:384-391 | the move happens exactly when `Verdict` does not reject it. The start cell is then empty and the end cell holds the mover's colour, and every other cell and the wall map are unchanged. A rejected move changes nothing. A piece that held its cell holds its new cell |
| `Model.GameModel.ChangePlayer` | GameModel.py:312-318 | the side to move becomes the other colour |
| `Model.GameModel.PlaceBalls` | GameModel.py:302-310 | after placing a colour on a list of cells, those cells hold that colour and every other cell is unchanged |
| `Model.GameModel.BallsInit` | GameModel.py:298-310 | the white starting cells hold white and the black ones black (white placed last); every other cell is unchanged |
| `Model.GameModel.constructor` | GameModel.py:188-217 | a new game has the wall layout, exactly the sixteen starting pieces and White to move |
| `Rules.NullOrDiagonalRejected` | GameModel.py:356-361 | a null move or a move changing both row and column is rejected |
| `Rules.AcceptedIsStraight` | GameModel.py:356-361 | an accepted move changes exactly one of row and column |
| `Rules.OneWallEndLongMoveRejected` | GameModel.py:365-369 | with exactly one end on a wall, a move longer than one cell is rejected |
| `Rules.OneWallEndStepDecidedByDestination` | GameModel.py:365-382 | with exactly one end on a wall, a one-cell step is decided by the destination alone |
| `Rules.NothingBetweenNeighbours` | GameModel.py:328-337 | two cells one step apart have no cell strictly between them |
| `Rules.WallBetweenClearEndsRejected` | GameModel.py:370-372 | between two clear ends, a wall strictly between rejects the move |
| `Rules.ClearBetweenWallEndsRejected` | GameModel.py:373-375 | between two wall ends, a clear cell strictly between rejects the move |
| `Rules.WallRuleCharacterized` | GameModel.py:365-375 | for a straight move the wall rule holds if and only if the ends differ in wall status and the move is one step, or the ends agree and every cell strictly between has their status |
| `Rules.PieceBetweenRejected` | GameModel.py:376-377 | a piece of either colour strictly between the ends rejects the move |
| `Rules.PieceBetweenIsOccupiedCell` | GameModel.py:376-377 | the occupancy sweep's condition holds if and only if some cell strictly between holds a piece |
| `Rules.OwnColourDestinationRejected` | GameModel.py:378-380 | a destination holding the mover's colour rejects the move |
| `Rules.CaptureExactly` | GameModel.py:376-382 | a move is a capture if and only if its path is open and the destination holds the opposing colour |
| `Rules.MoveExactly` | GameModel.py:376-382 | a move is a plain move if and only if its path is open and the destination is empty |
| `Rules.ChangePlayerTwiceRestores` | GameModel.py:312-318 | passing the turn twice restores the side to move and touches neither map |
| `Rules.StartsAreWalls` | GameModel.py:299-300 | the sixteen starting cells are wall cells |
| `Rules.BlackStartsMirrorWhite` | GameModel.py:299-300 | the i-th black starting cell is the row mirror of the i-th white one, and no cell is in both lists |
| `Rules.WallRunIsOpen` | GameModel.py:373-375 | the wall rule allows (7,2) to (7,5): both ends and both cells between are walls |
| `Rules.WallRunMoves` | GameModel.py:355-382 | in the starting position White's (7,2) to (7,5) is a plain move |
| `Rules.GapInWallRunRejected` | GameModel.py:373-375 | in the starting position (7,8) to (7,10) is rejected: the clear cell (7,9) lies between two walls |
| `Rules.StepOntoWallCaptures` | GameModel.py:365-382 | in the starting position Black's step from (8,2) onto the white piece at (7,2) is a capture |
| `Rules.LongStepOntoWallRejected` | GameModel.py:365-369 | in the starting position (9,2) to (7,2) is rejected: a clear cell to a wall cell two steps away |

## Left out

- Loading images and sounds and blitting centred images (`FunContainer`, GameModel.py:13-54): file and graphics I/O.
- The sprite classes `Ball`, `WhiteBall`, `BlackBall`, `BallsContainer`, `Fire` and `Gauntlet` (GameModel.py:69-172): rendering only. A ball is its colour and its board cell, and `set_position` is the `Piece` that `PlaceBall` returns.
- `beat` (GameModel.py:340-353): it removes the captured sprite, draws fire and waits 500 ms. The model has no sprite set, so a capture is only the overwrite of the end cell in `MoveBall`. `ValidMove` reports `Capture` where the code calls `beat`.
- `board_init`, `cartesian2board`, `draw_lines`, `draw_thrones`, `draw_walls` and `view_update`: pixel geometry, mouse mapping and drawing. Cells are taken to be on the board, a precondition standing for the clamping in `cartesian2board`.
- The window, the clock and the `fire`/`gauntlet` sprites set up in `__init__`: graphics state with no effect on the rules.
- The `ballsMoving` field that `change_player` switches along with `playerMoving`: it is a sprite group, used only for rendering and clicking.
- The final `else` of `is_something_between`, which is reached for a direction other than 0 or 1: `Axis` has only the two values.
- A turn check or error outcomes: the code does not compare the mover with `playerMoving`, so the model does not either.
- GameView.py and game.py are not part of this model: they are presentation and an event loop that call into the engine.
