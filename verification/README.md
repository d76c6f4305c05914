# Falling-block engine, modelled in Dafny

This project models the game engine of `ex3.py`, a small falling-block puzzle with the window code removed. It covers:

- the catalog of seven tetromino shapes;
- the falling piece and the absolute cells it covers;
- the 20x10 board rebuilt each frame from the map of locked cells;
- the placement rule;
- the row-clearing routine;
- the loss test;
- one frame of the game loop (timed fall, key commands, lock, clear, score, speed, loss) and a whole game as a sequence of frames.

Modules, in dependency order:

| module | file | contents |
|---|---|---|
| `Shapes` | `shapes.dfy` | the catalog: masks as strings, rotation counts, colours, offsets of the '0' cells |
| `Pieces` | `pieces.dfy` | `Piece`, `GetShape`, `ConvertShapeFormat` |
| `Board` | `board.dfy` | `CreateGrid`, `ValidSpace`, `CheckLost` |
| `LineClear` | `lineclear.dfy` | `clear_rows` as a loop-level method and as a functional reference `ClearRowsSpec` |
| `Moves` | `moves.dfy` | timed fall, left/right/down/rotate with revert, hard drop |
| `Game` | `game.dfy` | the frame function, its invariant, the loop-level methods, a whole run |

Points of behaviour the model keeps as the code has them:

- **Placement exemption.** A piece cell in row -1 or above is always accepted, whatever its column. Only cells in row 0 or below must be empty board cells (`Board.ValidSpace`).
- **Every mask has an empty bottom row.** So a piece covers rows `y-4 .. y-1` only. Two consequences are proved:
  - every piece anchored at row 0 or above is valid (`Board.ValidAboveBoard`);
  - the `current_piece.y > 0` test in the timed fall never changes the outcome (`Moves.TimedFallGuard`).
- **Row clearing deletes only board cells.** It deletes only the cells in columns 0..9 of a full row. Locked keys off the board survive.
- **Shifted cells can overwrite.** Cells above the topmost full row move down by the total count. When the full rows are not adjacent, a moved cell overwrites a cell that stayed in place between them. `LineClear.ClearedAt` states this per cell.
- **Row fullness comes from the painted grid.** It is read from the frame's grid with the piece painted in. That grid is exactly the grid of the locked map with the piece stored (`Game.PaintIsLockedGrid`).
- **Rotation wraps.** The rotation counter wraps with Python's floored `%`. For positive counts this is Dafny's `%`. Turning back after a turn restores the counter (`Moves.TurnBack`), and as many turns as the shape has states bring the piece back to where it started (`Moves.RotateCycle`).

Points of the code's behaviour that are easy to misread:

- **Order within a frame.** The timed fall comes first, then the key commands in order.
- **Keys after a hard drop.** Key commands after a hard drop, or after a fall that asked for a lock, still move the piece in the same frame. It is locked where it ends.
- **Loss check.** Loss is tested every frame, after any clearing and shifting, on the locked map.
- **Locked keys may leave the board.** Locked keys are not confined to the board: a locked piece stores its cells above the board too. The game is then lost unless the clear that follows moves those cells down to row 1 or below. For example, an I piece standing upright in column 9 with its anchor in row 3 covers rows -1..2; when rows 1 and 2 are otherwise full it completes both, they are cleared, and its cells from rows -1 and 0 move down to rows 1 and 2, so no locked cell is left in row 0 or above.

Inputs that the program takes from the outside world are parameters of a frame (`Game.FrameInput`):

- whether the fall timer expired;
- the key commands pressed;
- the shape id chosen for the new next piece.

## Model

| member | source | states |
|---|---|---|
| Shapes.RotationCount | ex3.py:37-141 | O has one rotation state; S, Z and I have two; T, J and L have four |
| Shapes.ShapeColor | ex3.py:141 | no shape is drawn in the empty colour |
| Shapes.CatalogWellFormed | ex3.py:37-140 | every rotation state of every shape is five rows of five characters, has exactly four '0' cells, and has an empty bottom row |
| Shapes.OffsetsShape | ex3.py:174-181 | the offsets of state `rotation % count` are four distinct (column, row) pairs in columns 0..4 and rows 0..3, and are exactly the '0' characters of that state |
| Pieces.GetShape | ex3.py:144-150 | a new piece has the given shape, sits at column 5 and row 0 with rotation 0, and has its shape's colour, which is not empty |
| Pieces.ConvertShapeFormatCells | ex3.py:168-186 | a piece covers four distinct cells in columns x-2..x+2 and rows y-4..y-1; cell (x+j-2, y+i-4) is covered exactly when character j of row i of the current state is '0' |
| Board.CreateGrid | ex3.py:153-166 | the grid has 20 rows of 10 cells; each holds the locked colour of its coordinate, or the empty colour when none is locked |
| Board.CreateGridView | ex3.py:159-165 | locked keys off the board do not affect the grid; with no empty colour stored, a grid cell is empty exactly when its coordinate is not locked |
| Board.ValidSpace | ex3.py:188-203 | a piece is valid exactly when each of its cells in row 0 or below is an empty board cell; cells in row -1 and above are accepted in any column |
| Board.ValidSpaceLocked | ex3.py:194-203 | on the grid of a locked map, a piece is valid exactly when none of its cells in row 0 or below is off the board or locked |
| Board.ValidAboveBoard | ex3.py:199-203 | a piece anchored at row 0 or above is valid on every grid |
| Board.InvalidBelowBoard | ex3.py:199-203 | a piece anchored at row 24 or below is never valid, which bounds the hard drop |
| Board.CheckLost | ex3.py:205-214 | the scan reports a loss exactly when some locked cell is in row 0 or above; an empty map is never lost |
| LineClear.DeleteRow | ex3.py:247-251 | deleting the ten columns of a row removes exactly its on-board cells; a missing key is skipped |
| LineClear.DeleteFullRows | ex3.py:241-251 | the bottom-up scan counts the full rows, ends with the index of the topmost one, and leaves the locked map without the on-board cells of every full row |
| LineClear.ShiftAbove | ex3.py:253-259 | popping the cells above the topmost full row bottom-first and storing them `increment` rows down gives the moved cells laid over the cells at or below that row |
| LineClear.ClearRows | ex3.py:236-260 | the routine returns the count and the map of the functional reference `ClearRowsSpec` |
| LineClear.ClearRowsCount | ex3.py:241-246 | with some row full, the returned count is the number of full rows, at least 1 |
| LineClear.ClearRowsAt | ex3.py:241-259 | a cell is locked after clearing exactly when the cell `n` rows above it was locked above the topmost full row (it keeps that colour), or it was locked at or below that row and not on the board in a full row (it keeps its colour unless a moved cell lands on it) |
| LineClear.ClearRowsNone | ex3.py:253-260 | with no full row the count is 0 and the locked map is untouched |
| LineClear.ClearRowsNoBlack | ex3.py:236-260 | clearing never stores the empty colour |
| Moves.TimedFall | ex3.py:344-349 | the timed fall either moves the piece one row down or leaves it in place and asks for a lock; a valid piece stays valid |
| Moves.TimedFallGuard | ex3.py:346-349 | an invalid lower place is always below row 0, so the fall locks exactly when the row below is blocked |
| Moves.RotateCycle | ex3.py:371-372 | turning a piece with an in-range counter as many times as its shape has rotation states restores it exactly, hence its mask and offsets, and no smaller positive number of turns does |
| Moves.TurnTimesCounter | ex3.py:371-372 | after k turns from an in-range counter the counter has advanced by k modulo the state count, and nothing else about the piece has changed |
| Moves.TurnBack | ex3.py:372-374 | a turn keeps the counter in range, and turning back restores the rotation state, and the counter itself when it was in range |
| Moves.DropLands | ex3.py:375-379 | from a valid place the hard drop ends at or below the start, valid, on every row in between valid, and right above an invalid place; from an invalid place it moves one row up |
| Moves.ApplyCommand | ex3.py:358-379 | a key never changes the piece's shape or colour and asks for a lock exactly when it is space |
| Moves.CommitOrRestore | ex3.py:359-374 | left, right, down and up commit the candidate place when it is valid and otherwise restore the piece exactly |
| Moves.RotateRefused | ex3.py:371-374 | a refused turn restores the rotation state, and the piece itself when its counter was in range |
| Moves.ApplyCommandValid | ex3.py:358-379 | every key keeps a valid piece valid with its counter in range; a hard drop keeps the column and rotation and lands above a blocked place |
| Moves.ApplyCommands | ex3.py:352-379 | the frame's keys keep shape and colour, and ask for a lock exactly when space is among them |
| Moves.ApplyCommandsValid | ex3.py:352-379 | any sequence of keys keeps a valid piece valid with its counter in range |
| Game.NewGame | ex3.py:323-334 | a new game has no locked cells, score 0, the starting speed and two fresh pieces, and satisfies the frame invariant |
| Game.PaintAt | ex3.py:386-389 | painting the piece colours exactly its cells in row 0 or below, and leaves every other grid cell unchanged |
| Game.LockCellsAt | ex3.py:392-395 | locking stores every cell of the piece, including those above the board, in its colour, and leaves every other key unchanged |
| Game.PaintIsLockedGrid | ex3.py:383-395 | the painted frame grid equals the grid of the locked map with the piece stored |
| Game.LockOverwritesNothing | ex3.py:392-395 | no on-board cell of a valid piece is already locked, so locking never overwrites a settled cell |
| Game.UpdateFallSpeed | ex3.py:403-405 | the speed drops by exactly one hundredth when rows were cleared, the score is a positive multiple of 50 and the speed is above 0.15, and is unchanged otherwise |
| Game.FallSpeedBounds | ex3.py:332-405 | the fall speed stays between 0.15 and 0.30 seconds |
| Game.Moved | ex3.py:343-379 | the frame's moves keep the piece valid, its counter in range and its shape and colour, and ask for a lock exactly when space was pressed or the timed fall met a blocked row |
| Game.AfterLock | ex3.py:396-405 | after a lock the next piece becomes current and a new one is drawn; the score gains ten points per cleared row; the speed-up then reads that updated score, and the speed drops exactly when rows were cleared, the new score is a positive multiple of 50 and the speed is above the minimum |
| Game.LockPiece | ex3.py:392-414 | locking stores the piece, clears the full rows of the painted grid, promotes the next piece, draws a new next piece, adds ten points per cleared row, updates the speed from the new score, and reports a loss exactly when a locked cell is in row 0 or above |
| Game.LockPieceInv | ex3.py:392-405 | locking a valid piece keeps the frame invariant and adds exactly ten points per cleared row |
| Game.Frame | ex3.py:337-418 | a frame keeps the invariant (valid piece, non-empty colours, score a non-negative multiple of ten, speed in range); without a lock only the piece moves; the game is lost exactly when a locked cell is in row 0 or above |
| Game.LockAndClear | ex3.py:392-414 | the loop's lock, with the row-clearing routine and the loss scan, computes the functional lock |
| Game.RunFrame | ex3.py:337-418 | the loop's frame computes the frame function |
| Game.Run | ex3.py:337-421 | a run plays every input unless it is lost, is lost only in its last frame, keeps the invariant, and never lowers the score |
| Game.Play | ex3.py:321-421 | the game loop returns the score, frame count and loss of the run from a new game, and the score is a non-negative multiple of ten |

## Left out

- Window, drawing and text rendering, the menu screen and the quit event (ex3.py:5-32, 220-311, 352-356, 409-411, 415-417, 424-440): I/O.
- The clock and `fall_time` (ex3.py:330-345): each frame takes a boolean saying whether the fall timer expired. `fall_speed` is kept only as the value the loop would compare against.
- `level_time` (ex3.py:333, 340): it is accumulated but never read.
- `random.choice` in `get_shape` (ex3.py:218): the shape id is a parameter, supplied per frame for the new next piece.
- `update_score` (ex3.py:314-318): it returns its argument and the loop never calls it.
- The mutable default argument of `create_grid` (ex3.py:153): a Python artefact with no effect on the loop.
- `ex1.py` and `ex2.py`: demonstrations of a blocking call and of a background thread updating a button. They hold no engine logic and are not part of this model.
- Game.UpdateFallSpeed: keeps the speed in whole hundredths of a second (0.30 down to 0.15). The source subtracts 0.01 from a binary floating-point value; its rounding is not modelled.
- LineClear.ClearRowsCount: bounds the count by the 20 board rows, not by the 4 rows one piece spans, because the code does not keep the tighter bound. When the full rows are not adjacent, say rows 5 and 7, the cells of row 4 move down two rows onto row 6 and are laid over the cells kept there; if the two rows together cover all ten columns, row 6 is full after the clear. That row stays in the locked map, and the next lock that fills up to four more rows clears five or more at once.
- Board.CheckLost: scans the map's keys in an arbitrary order rather than in insertion order. Only the boolean result is observable.
