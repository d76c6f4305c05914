/**
 The game loop without its window: one frame applies the timed fall and the
 frame's key commands to the current piece, paints it onto the frame's grid,
 locks it when asked (handing over to the next piece, clearing full rows and
 scoring them) and then tests for loss.

 The clock, the random shape choice and the key events are inputs of a frame.
 The fall speed is kept in hundredths of a second.
 */
module Game {
  import opened Shapes
  import opened Pieces
  import opened Board
  import opened LineClear
  import opened Moves

  /** Fall speed at the start of a game, in hundredths of a second per row. */
  const StartSpeed: int := 30

  /** The fall speed is lowered only while it is above this, in hundredths. */
  const MinSpeed: int := 15

  /** Points per cleared row. */
  const RowPoints: int := 10

  datatype Game = Game(locked: Locked, current: Piece, next: Piece, score: int, fallSpeed: int)

  /** What the outside world supplies to one frame: whether the fall timer expired, the keys pressed, and the shape drawn for a new next piece. */
  datatype FrameInput = FrameInput(timedFall: bool, commands: seq<Command>, spawn: ShapeId)

  /** The game after a frame, the number of rows it cleared, and whether the game is lost. */
  datatype FrameResult = FrameResult(game: Game, cleared: int, lost: bool)

  /** A fresh game: nothing locked, two drawn pieces, no score, the starting speed. */
  function NewGame(first: ShapeId, second: ShapeId): (g: Game)
    ensures g.locked == map[] && g.score == 0 && g.fallSpeed == StartSpeed
    ensures g.current == GetShape(first) && g.next == GetShape(second)
    ensures Inv(g)
  {
    ValidAboveBoard(GetShape(first), CreateGrid(map[]));
    Game(map[], GetShape(first), GetShape(second), 0, StartSpeed)
  }

  /**
   Paints `cells` in `color` onto the grid, skipping those above the board (row -1
   and up). Every cell on row 0 or below must be on the board.
   */
  function Paint(g: Grid, cells: seq<Cell>, color: Color): (r: Grid)
    requires IsGrid(g)
    requires forall k :: 0 <= k < |cells| && cells[k].1 > -1 ==> OnBoard(cells[k])
    ensures IsGrid(r)
    decreases |cells|
  {
    if cells == [] then g
    else
      var c := cells[0];
      assert c.1 > -1 ==> OnBoard(c);
      var h := if c.1 > -1 then g[c.1 := g[c.1][c.0 := color]] else g;
      Paint(h, cells[1..], color)
  }

  /** A board cell ends up in `color` when it is one of `cells`, and keeps its colour otherwise. */
  lemma {:induction false} PaintAt(g: Grid, cells: seq<Cell>, color: Color)
    requires IsGrid(g)
    requires forall k :: 0 <= k < |cells| && cells[k].1 > -1 ==> OnBoard(cells[k])
    ensures forall r, c :: 0 <= r < Rows && 0 <= c < Columns ==>
              Paint(g, cells, color)[r][c] == if (c, r) in cells then color else g[r][c]
    decreases |cells|
  {
    if cells != [] {
      var c := cells[0];
      var h := if c.1 > -1 then g[c.1 := g[c.1][c.0 := color]] else g;
      PaintAt(h, cells[1..], color);
      assert forall d :: d in cells <==> d == c || d in cells[1..];
    }
  }

  /** Stores every one of `cells` in the locked map with `color`, in order. */
  function LockCells(locked: Locked, cells: seq<Cell>, color: Color): Locked
    decreases |cells|
  {
    if cells == [] then locked else LockCells(locked[cells[0] := color], cells[1..], color)
  }

  /** Locking adds exactly the given cells, all in `color`, and leaves every other cell as it was. */
  lemma {:induction false} LockCellsAt(locked: Locked, cells: seq<Cell>, color: Color)
    ensures forall c :: c in LockCells(locked, cells, color) <==> c in locked || c in cells
    ensures forall c :: c in LockCells(locked, cells, color) ==>
              LockCells(locked, cells, color)[c] == if c in cells then color else locked[c]
    decreases |cells|
  {
    if cells != [] {
      LockCellsAt(locked[cells[0] := color], cells[1..], color);
      assert forall d :: d in cells <==> d == cells[0] || d in cells[1..];
    }
  }

  /**
   The grid that is handed to row clearing: the frame's grid with the piece
   painted on it is the grid of the locked map with the piece locked in.
   */
  lemma PaintIsLockedGrid(locked: Locked, cells: seq<Cell>, color: Color)
    requires forall k :: 0 <= k < |cells| && cells[k].1 > -1 ==> OnBoard(cells[k])
    ensures Paint(CreateGrid(locked), cells, color) == CreateGrid(LockCells(locked, cells, color))
  {
    var g := Paint(CreateGrid(locked), cells, color);
    var h := CreateGrid(LockCells(locked, cells, color));
    PaintAt(CreateGrid(locked), cells, color);
    LockCellsAt(locked, cells, color);
    forall r | 0 <= r < Rows
      ensures g[r] == h[r]
    {
    }
  }

  /**
   The speed-up after a lock: once the score is a positive multiple of 50 after
   clearing at least one row, the fall gets one hundredth of a second faster, as
   long as it is still slower than the minimum.
   */
  function UpdateFallSpeed(speed: int, cleared: int, score: int): (r: int)
    ensures speed - 1 <= r <= speed
    ensures r < speed <==> cleared > 0 && score > 0 && score % 50 == 0 && speed > MinSpeed
  {
    if cleared > 0 && score > 0 && score % 50 == 0 && speed > MinSpeed then speed - 1 else speed
  }

  /** The speed stays between the minimum and the start value. */
  lemma FallSpeedBounds(speed: int, cleared: int, score: int)
    requires MinSpeed <= speed <= StartSpeed
    ensures MinSpeed <= UpdateFallSpeed(speed, cleared, score) <= StartSpeed
  {
  }

  /** Adding whole rows' worth of points keeps a score a multiple of the row value. */
  lemma ScoreStep(score: int, cleared: int, after: int)
    requires score % RowPoints == 0
    requires after == score + RowPoints * cleared
    ensures after % RowPoints == 0
  {
    assert after == RowPoints * (score / RowPoints + cleared);
  }

  /**
   What holds at the start of every frame: locked colours are never empty, the
   current piece sits in a valid place of the grid of the locked map with its
   rotation counter in range and its shape's colour, the next piece is a fresh
   piece, the score is a non-negative multiple of ten and the speed is in range.
   */
  predicate Inv(game: Game)
  {
    && NoBlack(game.locked)
    && ValidSpace(game.current, CreateGrid(game.locked))
    && 0 <= game.current.rotation < RotationCount(game.current.shape)
    && game.current.color == ShapeColor(game.current.shape)
    && game.next == GetShape(game.next.shape)
    && game.score >= 0 && game.score % RowPoints == 0
    && MinSpeed <= game.fallSpeed <= StartSpeed
  }

  /**
   The piece at the end of the frame's moves: the timed fall (when the timer
   expired) followed by the key commands, all tested against the grid built at
   the start of the frame. The moves keep the piece valid and its rotation
   counter in range, never change its shape or colour, and ask for a lock exactly
   when space was pressed or the timed fall found the row below blocked.
   */
  function Moved(game: Game, input: FrameInput): (s: Step)
    requires Inv(game)
    ensures ValidSpace(s.piece, CreateGrid(game.locked))
    ensures 0 <= s.piece.rotation < RotationCount(game.current.shape)
    ensures s.piece.shape == game.current.shape && s.piece.color == game.current.color
    ensures s.lock <==> HardDrop in input.commands || (input.timedFall && !ValidSpace(Lower(game.current), CreateGrid(game.locked)))
  {
    var grid := CreateGrid(game.locked);
    TimedFallGuard(game.current, grid);
    var fall := if input.timedFall then TimedFall(game.current, grid) else Step(game.current, false);
    ApplyCommandsValid(fall.piece, grid, input.commands);
    var keys := ApplyCommands(fall.piece, grid, input.commands);
    Step(keys.piece, fall.lock || keys.lock)
  }

  /** The cells of a valid piece on row 0 or below are on the board, so they can be painted. */
  lemma PaintableCells(piece: Piece, locked: Locked)
    requires ValidSpace(piece, CreateGrid(locked))
    ensures var cells := ConvertShapeFormat(piece);
            forall k :: 0 <= k < |cells| && cells[k].1 > -1 ==> OnBoard(cells[k])
  {
    var cells := ConvertShapeFormat(piece);
    forall k | 0 <= k < |cells| && cells[k].1 > -1
      ensures OnBoard(cells[k])
    {
      assert cells[k] in cells;
    }
  }

  /**
   The frame's grid with a valid piece painted on it: the grid of the locked map
   with the piece's cells stored in its colour.
   */
  function PaintPiece(locked: Locked, piece: Piece): (g: Grid)
    requires ValidSpace(piece, CreateGrid(locked))
    ensures g == CreateGrid(LockCells(locked, ConvertShapeFormat(piece), piece.color))
  {
    PaintableCells(piece, locked);
    PaintIsLockedGrid(locked, ConvertShapeFormat(piece), piece.color);
    Paint(CreateGrid(locked), ConvertShapeFormat(piece), piece.color)
  }

  /**
   The game after a lock that cleared `cleared` rows and left `locked`: the pieces
   move up the queue, the score gains ten points per cleared row, and the speed-up
   test then reads the score that already includes those points.
   */
  function AfterLock(game: Game, cleared: int, locked: Locked, spawn: ShapeId): (g: Game)
    ensures g.locked == locked && g.current == game.next && g.next == GetShape(spawn)
    ensures g.score == game.score + RowPoints * cleared
    ensures g.fallSpeed == UpdateFallSpeed(game.fallSpeed, cleared, g.score)
    ensures g.fallSpeed < game.fallSpeed <==>
              cleared > 0 && g.score > 0 && g.score % 50 == 0 && game.fallSpeed > MinSpeed
  {
    var score := game.score + RowPoints * cleared;
    Game(locked, game.next, GetShape(spawn), score, UpdateFallSpeed(game.fallSpeed, cleared, score))
  }

  /**
   Locking `piece`: it is painted onto the frame's grid and stored in the locked
   map, the full rows of the painted grid are cleared and scored, the next piece
   becomes current, a piece of shape `spawn` becomes next, and the speed may rise.
   */
  function LockPiece(game: Game, piece: Piece, spawn: ShapeId): (r: FrameResult)
    requires ValidSpace(piece, CreateGrid(game.locked))
    ensures var locked := LockCells(game.locked, ConvertShapeFormat(piece), piece.color);
            (r.cleared, r.game.locked) == ClearRowsSpec(CreateGrid(locked), locked)
    ensures r.game.current == game.next && r.game.next == GetShape(spawn)
    ensures r.game.score == game.score + RowPoints * r.cleared
    ensures r.game.fallSpeed == UpdateFallSpeed(game.fallSpeed, r.cleared, r.game.score)
    ensures r.lost <==> Lost(r.game.locked)
  {
    var stored := LockCells(game.locked, ConvertShapeFormat(piece), piece.color);
    var cleared := ClearRowsSpec(PaintPiece(game.locked, piece), stored);
    FrameResult(AfterLock(game, cleared.0, cleared.1, spawn), cleared.0, Lost(cleared.1))
  }

  /** Locking a valid piece of a non-empty colour keeps the frame invariant and scores ten points per cleared row. */
  lemma LockPieceInv(game: Game, piece: Piece, spawn: ShapeId)
    requires Inv(game)
    requires ValidSpace(piece, CreateGrid(game.locked))
    requires piece.color != Black
    ensures Inv(LockPiece(game, piece, spawn).game)
    ensures LockPiece(game, piece, spawn).cleared >= 0
    ensures LockPiece(game, piece, spawn).game.score == game.score + RowPoints * LockPiece(game, piece, spawn).cleared
  {
    var cells := ConvertShapeFormat(piece);
    var locked := LockCells(game.locked, cells, piece.color);
    LockCellsAt(game.locked, cells, piece.color);
    assert NoBlack(locked);
    var g := CreateGrid(locked);
    ClearRowsNoBlack(g, locked);
    if FullRows(g) != {} {
      ClearRowsCount(g, locked);
    }
    var r := LockPiece(game, piece, spawn);
    assert r.game.current.y == 0;
    ValidAboveBoard(r.game.current, CreateGrid(r.game.locked));
    FallSpeedBounds(game.fallSpeed, r.cleared, r.game.score);
    ScoreStep(game.score, r.cleared, r.game.score);
  }

  /**
   One frame. Without a lock the piece just takes its new place. With a lock the
   piece is locked as described above. The game is lost when a locked cell is
   left in row 0 or above.
   */
  function Frame(game: Game, input: FrameInput): (r: FrameResult)
    requires Inv(game)
    ensures Inv(r.game)
    ensures r.cleared >= 0 && r.game.score == game.score + RowPoints * r.cleared
    ensures r.lost <==> Lost(r.game.locked)
    ensures !Moved(game, input).lock ==>
              r.cleared == 0 && r.game == game.(current := Moved(game, input).piece)
    ensures Moved(game, input).lock ==> r == LockPiece(game, Moved(game, input).piece, input.spawn)
  {
    var step := Moved(game, input);
    if !step.lock then
      FrameResult(game.(current := step.piece), 0, Lost(game.locked))
    else
      LockPieceInv(game, step.piece, input.spawn);
      LockPiece(game, step.piece, input.spawn)
  }

  /** Every on-board cell of a valid piece was free before it is locked: locking never overwrites a locked cell of the board. */
  lemma LockOverwritesNothing(game: Game, piece: Piece)
    requires NoBlack(game.locked)
    requires ValidSpace(piece, CreateGrid(game.locked))
    ensures forall c :: c in ConvertShapeFormat(piece) && c.1 >= 0 ==> OnBoard(c) && c !in game.locked
  {
    ValidSpaceLocked(piece, game.locked);
  }

  /**
   Locking as the loop runs it: the piece is painted and stored, the row-clearing
   routine runs on the painted grid, and the loss scan runs over the locked map.
   */
  method LockAndClear(game: Game, piece: Piece, spawn: ShapeId) returns (r: FrameResult)
    requires ValidSpace(piece, CreateGrid(game.locked))
    ensures r == LockPiece(game, piece, spawn)
  {
    var grid := PaintPiece(game.locked, piece);
    var stored := LockCells(game.locked, ConvertShapeFormat(piece), piece.color);
    var cleared, locked := ClearRows(grid, stored);
    var lost := CheckLost(locked);
    r := FrameResult(AfterLock(game, cleared, locked, spawn), cleared, lost);
  }

  /** One frame as the loop runs it: the moves, then either the new place or the lock, then the loss scan. */
  method RunFrame(game: Game, input: FrameInput) returns (r: FrameResult)
    requires Inv(game)
    ensures r == Frame(game, input)
  {
    var step := Moved(game, input);
    if !step.lock {
      var lost := CheckLost(game.locked);
      r := FrameResult(game.(current := step.piece), 0, lost);
    } else {
      r := LockAndClear(game, step.piece, input.spawn);
    }
  }

  /** The end of a run of frames: the game reached, the number of frames played, and whether the game was lost. */
  datatype Outcome = Outcome(game: Game, frames: nat, lost: bool)

  /**
   Frames from `game` on, until the game is lost or the inputs run out. A lost
   game is lost in its last frame; a game that is not lost plays every input;
   the invariant holds at the end and the score never goes down.
   */
  function Run(game: Game, inputs: seq<FrameInput>): (r: Outcome)
    requires Inv(game)
    ensures Inv(r.game)
    ensures r.frames <= |inputs|
    ensures r.lost ==> r.frames >= 1 && Lost(r.game.locked)
    ensures !r.lost ==> r.frames == |inputs|
    ensures r.game.score >= game.score
    decreases |inputs|
  {
    if inputs == [] then Outcome(game, 0, false)
    else
      var f := Frame(game, inputs[0]);
      if f.lost then Outcome(f.game, 1, true)
      else
        var rest := Run(f.game, inputs[1..]);
        Outcome(rest.game, rest.frames + 1, rest.lost)
  }

  /** One frame of a run, seen from the run. */
  lemma RunStep(game: Game, inputs: seq<FrameInput>)
    requires Inv(game) && inputs != []
    ensures Frame(game, inputs[0]).lost ==> Run(game, inputs) == Outcome(Frame(game, inputs[0]).game, 1, true)
    ensures !Frame(game, inputs[0]).lost ==>
              var rest := Run(Frame(game, inputs[0]).game, inputs[1..]);
              Run(game, inputs).game == rest.game && Run(game, inputs).frames == rest.frames + 1 &&
              Run(game, inputs).lost == rest.lost
  {
  }

  /**
   A whole game: a fresh game from the first two drawn shapes, then one frame per
   input until the game is lost. Returns the final score, the number of frames
   played and whether the game was lost.
   */
  method Play(first: ShapeId, second: ShapeId, inputs: seq<FrameInput>) returns (score: int, frames: nat, lost: bool)
    ensures var r := Run(NewGame(first, second), inputs);
            score == r.game.score && frames == r.frames && lost == r.lost
    ensures score >= 0 && score % RowPoints == 0
  {
    var game := NewGame(first, second);
    ghost var whole := Run(game, inputs);
    frames := 0;
    lost := false;
    assert inputs[frames..] == inputs;
    while frames < |inputs| && !lost
      invariant Inv(game)
      invariant 0 <= frames <= |inputs|
      invariant !lost ==> whole.game == Run(game, inputs[frames..]).game &&
                          whole.frames == Run(game, inputs[frames..]).frames + frames &&
                          whole.lost == Run(game, inputs[frames..]).lost
      invariant lost ==> whole == Outcome(game, frames, true)
      decreases |inputs| - frames, !lost
    {
      var rest := inputs[frames..];
      assert rest[0] == inputs[frames];
      assert rest[1..] == inputs[frames + 1..];
      RunStep(game, rest);
      var r := RunFrame(game, inputs[frames]);
      game := r.game;
      lost := r.lost;
      frames := frames + 1;
    }
    score := game.score;
  }
}
