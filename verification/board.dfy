/**
 The board: 20 rows of 10 cells, rebuilt every frame from the map of locked
 cells, the placement rule for a piece, and the loss test.
 */
module Board {
  import opened Shapes
  import opened Pieces

  const Rows: int := 20
  const Columns: int := 10

  /** The grid view, indexed row first: `g[row][column]`. */
  type Grid = seq<seq<Color>>

  /** The settled cells: coordinate to colour. Keys are not confined to the board. */
  type Locked = map<Cell, Color>

  predicate IsGrid(g: Grid)
  {
    |g| == Rows && forall r :: 0 <= r < Rows ==> |g[r]| == Columns
  }

  predicate OnBoard(c: Cell)
  {
    0 <= c.0 < Columns && 0 <= c.1 < Rows
  }

  /** Locked cells carry piece colours, never the empty colour. */
  predicate NoBlack(locked: Locked)
  {
    forall c :: c in locked ==> locked[c] != Black
  }

  /** The 20x10 grid in which a cell holds its locked colour, or `Black` when it has none. */
  function CreateGrid(locked: Locked): (g: Grid)
    ensures IsGrid(g)
    ensures forall r, c :: 0 <= r < Rows && 0 <= c < Columns ==>
              g[r][c] == (if (c, r) in locked then locked[(c, r)] else Black)
  {
    seq(Rows, r requires 0 <= r < Rows =>
      seq(Columns, c requires 0 <= c < Columns =>
        if (c, r) in locked then locked[(c, r)] else Black))
  }

  /** The locked cells that lie on the board. */
  function OnBoardPart(locked: Locked): (m: Locked)
    ensures forall c :: c in m <==> c in locked && OnBoard(c)
    ensures forall c :: c in m ==> m[c] == locked[c]
  {
    map c | c in locked && OnBoard(c) :: locked[c]
  }

  /**
   The grid ignores every locked key off the board, and, when no locked colour is
   `Black`, a grid cell is empty exactly when its coordinate is not locked.
   */
  lemma CreateGridView(locked: Locked)
    ensures CreateGrid(locked) == CreateGrid(OnBoardPart(locked))
    ensures NoBlack(locked) ==>
              forall r, c :: 0 <= r < Rows && 0 <= c < Columns ==>
                (CreateGrid(locked)[r][c] == Black <==> (c, r) !in locked)
  {
    var g, h := CreateGrid(locked), CreateGrid(OnBoardPart(locked));
    forall r | 0 <= r < Rows
      ensures g[r] == h[r]
    {
    }
  }

  /** The coordinates of the empty grid cells: the only places a piece cell on the board may occupy. */
  function AcceptedPositions(g: Grid): (s: set<Cell>)
    requires IsGrid(g)
  {
    set i, j | 0 <= i < Rows && 0 <= j < Columns && g[i][j] == Black :: (j, i)
  }

  /** Scans `cells` in order and fails at the first one that is below row -1 and not accepted. */
  function AllAccepted(cells: seq<Cell>, accepted: set<Cell>): (ok: bool)
    ensures ok <==> forall k :: 0 <= k < |cells| ==> cells[k] in accepted || cells[k].1 <= -1
  {
    if cells == [] then true
    else if cells[0] !in accepted && cells[0].1 > -1 then false
    else AllAccepted(cells[1..], accepted)
  }

  /**
   The placement rule: every cell of the piece in row 0 or below is an empty
   cell of the board. Cells above the board (row -1 and up) are always allowed,
   whatever their column.
   */
  function ValidSpace(p: Piece, g: Grid): (ok: bool)
    requires IsGrid(g)
    ensures ok <==> forall c :: c in ConvertShapeFormat(p) && c.1 > -1 ==> OnBoard(c) && g[c.1][c.0] == Black
  {
    var cells := ConvertShapeFormat(p);
    var accepted := AcceptedPositions(g);
    var ok := AllAccepted(cells, accepted);
    assert forall c :: c in accepted <==> OnBoard(c) && g[c.1][c.0] == Black by {
      forall c | OnBoard(c) && g[c.1][c.0] == Black
        ensures c in accepted
      {
        assert c == (c.0, c.1);
      }
    }
    ok
  }

  /** On the grid of a map of locked cells, a piece is valid exactly when none of its cells on or below row 0 is off the board or locked. */
  lemma ValidSpaceLocked(p: Piece, locked: Locked)
    requires NoBlack(locked)
    ensures ValidSpace(p, CreateGrid(locked)) <==>
              forall c :: c in ConvertShapeFormat(p) && c.1 >= 0 ==> OnBoard(c) && c !in locked
  {
    CreateGridView(locked);
  }

  /** Every piece whose anchor is at row 0 or above is valid on any grid: all its cells are above the board. */
  lemma ValidAboveBoard(p: Piece, g: Grid)
    requires IsGrid(g)
    ensures p.y <= 0 ==> ValidSpace(p, g)
  {
    forall c | c in ConvertShapeFormat(p)
      ensures c.1 <= p.y - 1
    {
      CellsAboveAnchor(p, c);
    }
  }

  /** No piece whose anchor is at row 24 or below is valid: all four of its cells are below the board. */
  lemma InvalidBelowBoard(p: Piece, g: Grid)
    requires IsGrid(g)
    ensures p.y >= Rows + 4 ==> !ValidSpace(p, g)
  {
    if p.y >= Rows + 4 {
      ConvertShapeFormatCells(p);
      var c := ConvertShapeFormat(p)[0];
      assert c in ConvertShapeFormat(p) && c.1 > -1 && !OnBoard(c);
    }
  }

  /** The game is lost when some locked cell lies in row 0 or above the board. */
  predicate Lost(locked: Locked)
  {
    exists c :: c in locked && c.1 < 1
  }

  /** Scans the locked cells and reports whether one of them lies in row 0 or above. */
  method CheckLost(positions: Locked) returns (lost: bool)
    ensures lost <==> Lost(positions)
    ensures positions == map[] ==> !lost
  {
    var rest := positions.Keys;
    while rest != {}
      invariant rest <= positions.Keys
      invariant forall c :: c in positions && c !in rest ==> c.1 >= 1
      decreases rest
    {
      var c :| c in rest;
      if c.1 < 1 {
        return true;
      }
      rest := rest - {c};
    }
    return false;
  }
}
