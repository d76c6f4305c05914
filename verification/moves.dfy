/**
 Moving the falling piece within one frame: the timed fall and the five key
 commands. Every move tries a candidate position against the frame's grid and
 keeps it only when it is valid; otherwise the piece goes back to where it was.
 A step also reports whether the piece must be locked at the end of the frame.
 */
module Moves {
  import opened Shapes
  import opened Pieces
  import opened Board

  /** The keys the engine reacts to: left, right, down, up and space. */
  datatype Command = MoveLeft | MoveRight | SoftDrop | Rotate | HardDrop

  /** The piece after a move, and whether the move asks for it to be locked. */
  datatype Step = Step(piece: Piece, lock: bool)

  /** The piece one row lower. */
  function Lower(p: Piece): Piece
  {
    p.(y := p.y + 1)
  }

  /** The piece one row higher. */
  function Raise(p: Piece): Piece
  {
    p.(y := p.y - 1)
  }

  /**
   The timed fall: the piece moves one row down; when that place is invalid and
   the new row is below row 0, it moves back up and is marked for locking.
   */
  function TimedFall(p: Piece, g: Grid): (s: Step)
    requires IsGrid(g)
    ensures s.piece == p || s.piece == Lower(p)
    ensures s.lock <==> s.piece == p
    ensures ValidSpace(p, g) ==> ValidSpace(s.piece, g)
  {
    var q := Lower(p);
    ValidAboveBoard(q, g);
    if !ValidSpace(q, g) && q.y > 0 then Step(Raise(q), true) else Step(q, false)
  }

  /**
   The row test of the timed fall never matters: a lower place that is invalid is
   always below row 0, so the fall locks exactly when the row below is blocked.
   */
  lemma TimedFallGuard(p: Piece, g: Grid)
    requires IsGrid(g)
    ensures !ValidSpace(Lower(p), g) ==> Lower(p).y > 0
    ensures TimedFall(p, g) == if ValidSpace(Lower(p), g) then Step(Lower(p), false) else Step(p, true)
  {
    ValidAboveBoard(Lower(p), g);
  }

  /** The rotation counter after a turn by one state, modulo the shape's state count. */
  function Turned(p: Piece): Piece
  {
    p.(rotation := (p.rotation + 1) % RotationCount(p.shape))
  }

  /** The rotation counter after a turn back by one state, modulo the shape's state count. */
  function TurnedBack(p: Piece): Piece
  {
    p.(rotation := (p.rotation - 1) % RotationCount(p.shape))
  }

  /**
   Turning back undoes a turn: the counter comes back to the same state, and to
   the same value when it was in range; a turn keeps the counter in range.
   */
  lemma TurnBack(p: Piece)
    ensures StateOf(p.shape, TurnedBack(Turned(p)).rotation) == StateOf(p.shape, p.rotation)
    ensures 0 <= Turned(p).rotation < RotationCount(p.shape)
    ensures 0 <= p.rotation < RotationCount(p.shape) ==> TurnedBack(Turned(p)) == p
  {
    var n, r := RotationCount(p.shape), p.rotation;
    var back := TurnedBack(Turned(p)).rotation;
    if n == 1 {
      assert back == r % 1;
    } else if n == 2 {
      assert back == r % 2;
    } else {
      assert back == r % 4;
    }
  }

  /** One step of the rotation counter modulo `n`, after reducing the counter first. */
  lemma ModStep(a: int, n: int)
    requires n == 1 || n == 2 || n == 4
    ensures (a % n + 1) % n == (a + 1) % n
  {
    var q := a / n;
    assert a == q * n + a % n;
    assert a + 1 == q * n + (a % n + 1);
  }

  /** The piece after `k` turns. */
  function TurnTimes(p: Piece, k: nat): Piece
  {
    if k == 0 then p else Turned(TurnTimes(p, k - 1))
  }

  /** After `k` turns from an in-range counter, the counter has advanced by `k` modulo the state count, and nothing else has changed. */
  lemma {:induction false} TurnTimesCounter(p: Piece, k: nat)
    requires 0 <= p.rotation < RotationCount(p.shape)
    ensures TurnTimes(p, k) == p.(rotation := (p.rotation + k) % RotationCount(p.shape))
  {
    if k > 0 {
      TurnTimesCounter(p, k - 1);
      ModStep(p.rotation + k - 1, RotationCount(p.shape));
    }
  }

  /**
   Turning a piece as many times as its shape has rotation states brings back the
   same counter, hence the same mask and offsets; no smaller positive number of
   turns does.
   */
  lemma RotateCycle(p: Piece)
    requires 0 <= p.rotation < RotationCount(p.shape)
    ensures TurnTimes(p, RotationCount(p.shape)) == p
    ensures forall k: nat :: 0 < k < RotationCount(p.shape) ==> TurnTimes(p, k) != p
  {
    var n := RotationCount(p.shape);
    TurnTimesCounter(p, n);
    assert (p.rotation + n) % n == p.rotation;
    forall k: nat | 0 < k < n
      ensures TurnTimes(p, k) != p
    {
      TurnTimesCounter(p, k);
      assert (p.rotation + k) % n != p.rotation;
    }
  }

  /**
   The hard drop: the piece moves down while its place is valid, then moves back
   up one row. Only the row changes.
   */
  function Drop(p: Piece, g: Grid): (r: Piece)
    requires IsGrid(g)
    ensures r == p.(y := r.y)
    decreases Rows + 4 - p.y
  {
    InvalidBelowBoard(p, g);
    if ValidSpace(p, g) then Drop(Lower(p), g) else Raise(p)
  }

  /**
   Where the hard drop lands. From a valid place the piece ends at or below its
   start, every row between is valid, and the row below the end is not: it lands
   on the first blocked row. From an invalid place it moves one row up.
   */
  lemma {:induction false} DropLands(p: Piece, g: Grid)
    requires IsGrid(g)
    ensures ValidSpace(p, g) ==> p.y <= Drop(p, g).y && ValidSpace(Drop(p, g), g) && !ValidSpace(Lower(Drop(p, g)), g)
    ensures ValidSpace(p, g) ==> forall k :: p.y <= k <= Drop(p, g).y ==> ValidSpace(p.(y := k), g)
    ensures !ValidSpace(p, g) ==> Drop(p, g) == p.(y := p.y - 1)
    decreases Rows + 4 - p.y
  {
    InvalidBelowBoard(p, g);
    if ValidSpace(p, g) {
      var q := Lower(p);
      var r := Drop(q, g);
      assert Drop(p, g) == r;
      DropLands(q, g);
      if !ValidSpace(q, g) {
        assert r == p;
      }
      forall k | p.y <= k <= r.y
        ensures ValidSpace(p.(y := k), g)
      {
        if k == p.y {
          assert p.(y := k) == p;
        } else {
          assert p.(y := k) == q.(y := k);
        }
      }
    }
  }

  /** The place a left, right, down or up key tries; a hard drop has none of its own. */
  function Candidate(p: Piece, cmd: Command): (q: Piece)
    ensures q.shape == p.shape && q.color == p.color
  {
    match cmd
    case MoveLeft => p.(x := p.x - 1)
    case MoveRight => p.(x := p.x + 1)
    case SoftDrop => Lower(p)
    case Rotate => Turned(p)
    case HardDrop => p
  }

  /** The step that takes a refused candidate back: the opposite move, or a turn back. */
  function Undo(q: Piece, cmd: Command): (p: Piece)
    ensures p.shape == q.shape && p.color == q.color
  {
    match cmd
    case MoveLeft => q.(x := q.x + 1)
    case MoveRight => q.(x := q.x - 1)
    case SoftDrop => Raise(q)
    case Rotate => TurnedBack(q)
    case HardDrop => q
  }

  /**
   One key command. Left, right and down move by one cell and up turns to the
   next rotation state; when the new place is invalid the opposite step is taken.
   Space drops the piece and asks for it to be locked.
   */
  function ApplyCommand(p: Piece, g: Grid, cmd: Command): (s: Step)
    requires IsGrid(g)
    ensures s.piece.shape == p.shape && s.piece.color == p.color
    ensures s.lock <==> cmd == HardDrop
  {
    if cmd == HardDrop then Step(Drop(p, g), true)
    else
      var q := Candidate(p, cmd);
      Step(if ValidSpace(q, g) then q else Undo(q, cmd), false)
  }

  /**
   Left, right, down and up either commit their candidate, when it is valid, or
   restore the piece exactly, provided its rotation counter is in range.
   */
  lemma CommitOrRestore(p: Piece, g: Grid, cmd: Command)
    requires IsGrid(g)
    requires cmd != HardDrop
    requires 0 <= p.rotation < RotationCount(p.shape)
    ensures ApplyCommand(p, g, cmd).piece == if ValidSpace(Candidate(p, cmd), g) then Candidate(p, cmd) else p
  {
    if cmd == Rotate {
      TurnBack(p);
    }
  }

  /**
   A refused turn restores the piece exactly when its counter was in range, and
   in any case restores the rotation state it was drawn in.
   */
  lemma RotateRefused(p: Piece, g: Grid)
    requires IsGrid(g)
    requires !ValidSpace(Turned(p), g)
    ensures StateOf(p.shape, ApplyCommand(p, g, Rotate).piece.rotation) == StateOf(p.shape, p.rotation)
    ensures 0 <= p.rotation < RotationCount(p.shape) ==> ApplyCommand(p, g, Rotate).piece == p
  {
    TurnBack(p);
  }

  /**
   A command keeps a valid piece valid and keeps its rotation counter in range;
   a hard drop keeps the column and rotation and lands the piece at or below its
   row, right above a blocked row.
   */
  lemma ApplyCommandValid(p: Piece, g: Grid, cmd: Command)
    requires IsGrid(g)
    requires ValidSpace(p, g)
    requires 0 <= p.rotation < RotationCount(p.shape)
    ensures ValidSpace(ApplyCommand(p, g, cmd).piece, g)
    ensures 0 <= ApplyCommand(p, g, cmd).piece.rotation < RotationCount(p.shape)
    ensures cmd == HardDrop ==>
              var r := ApplyCommand(p, g, cmd).piece;
              r.x == p.x && r.rotation == p.rotation && p.y <= r.y && !ValidSpace(Lower(r), g)
  {
    if cmd == HardDrop {
      DropLands(p, g);
    } else {
      CommitOrRestore(p, g, cmd);
      TurnBack(p);
    }
  }

  /** An element of a non-empty sequence is its head or lies in its tail. */
  lemma HeadOrTail<T>(xs: seq<T>, x: T)
    requires xs != []
    ensures x in xs <==> xs[0] == x || x in xs[1..]
  {
    assert xs == [xs[0]] + xs[1..];
  }

  /** Applies the commands of one frame in order; the lock request of any of them persists. */
  function ApplyCommands(p: Piece, g: Grid, cmds: seq<Command>): (s: Step)
    requires IsGrid(g)
    ensures s.piece.shape == p.shape && s.piece.color == p.color
    ensures s.lock <==> HardDrop in cmds
    decreases |cmds|
  {
    if cmds == [] then Step(p, false)
    else
      var first := ApplyCommand(p, g, cmds[0]);
      var rest := ApplyCommands(first.piece, g, cmds[1..]);
      HeadOrTail(cmds, HardDrop);
      Step(rest.piece, first.lock || rest.lock)
  }

  /** A valid piece with its rotation counter in range stays so through any sequence of commands. */
  lemma {:induction false} ApplyCommandsValid(p: Piece, g: Grid, cmds: seq<Command>)
    requires IsGrid(g)
    requires ValidSpace(p, g)
    requires 0 <= p.rotation < RotationCount(p.shape)
    ensures ValidSpace(ApplyCommands(p, g, cmds).piece, g)
    ensures 0 <= ApplyCommands(p, g, cmds).piece.rotation < RotationCount(p.shape)
    decreases |cmds|
  {
    if cmds != [] {
      ApplyCommandValid(p, g, cmds[0]);
      ApplyCommandsValid(ApplyCommand(p, g, cmds[0]).piece, g, cmds[1..]);
    }
  }
}
