/**
 The falling piece: an anchor position, a shape from the catalog, a rotation
 counter and a colour, and the absolute board cells it covers.
 */
module Pieces {
  import opened Shapes

  /** A board coordinate (column x, row y); row 0 is the top, rows grow downwards. */
  type Cell = (int, int)

  datatype Piece = Piece(x: int, y: int, shape: ShapeId, rotation: int, color: Color)

  /** A new piece of shape `s` at column 5, row 0, in its first rotation state. */
  function GetShape(s: ShapeId): (p: Piece)
    ensures p.shape == s && p.rotation == 0
    ensures p.color == ShapeColor(s) && p.color != Black
    ensures p.x == 5 && p.y == 0
  {
    Piece(5, 0, s, 0, ShapeColor(s))
  }

  /** Translates mask offsets by the anchor: offset (j, i) lands on (x + j - 2, y + i - 4). */
  function Place(o: seq<(nat, nat)>, x: int, y: int): (cs: seq<Cell>)
    ensures |cs| == |o|
    ensures forall k :: 0 <= k < |o| ==> cs[k] == (x + o[k].0 - 2, y + o[k].1 - 4)
  {
    seq(|o|, k requires 0 <= k < |o| => (x + o[k].0 - 2, y + o[k].1 - 4))
  }

  /** The absolute cells covered by `p`, in the order the rotation state lists them. */
  function ConvertShapeFormat(p: Piece): seq<Cell>
  {
    Place(Offsets(p.shape, p.rotation), p.x, p.y)
  }

  /** Placing four distinct offsets of the 5x4 window yields four distinct cells of the translated window. */
  lemma PlaceCells(o: seq<(nat, nat)>, x: int, y: int)
    requires |o| == 4
    requires forall k :: 0 <= k < 4 ==> o[k].0 < 5 && o[k].1 < 4
    requires forall k, l :: 0 <= k < l < 4 ==> o[k] != o[l]
    ensures forall k :: 0 <= k < 4 ==>
              x - 2 <= Place(o, x, y)[k].0 <= x + 2 && y - 4 <= Place(o, x, y)[k].1 <= y - 1
    ensures forall k, l :: 0 <= k < l < 4 ==> Place(o, x, y)[k] != Place(o, x, y)[l]
  {
    var cs := Place(o, x, y);
    forall k, l | 0 <= k < l < 4
      ensures cs[k] != cs[l]
    {
      assert o[k].0 != o[l].0 || o[k].1 != o[l].1;
    }
  }

  /** A placed cell comes from a listed offset: the one at its distance from the window corner. */
  lemma PlacedFromListed(o: seq<(nat, nat)>, x: int, y: int, j: nat, i: nat)
    requires (x + j - 2, y + i - 4) in Place(o, x, y)
    ensures (j, i) in o
  {
    var cs := Place(o, x, y);
    var k :| 0 <= k < |cs| && cs[k] == (x + j - 2, y + i - 4);
    assert o[k] == (j, i);
  }

  /** A listed offset is placed at its distance from the window corner. */
  lemma ListedIsPlaced(o: seq<(nat, nat)>, x: int, y: int, j: nat, i: nat)
    requires (j, i) in o
    ensures (x + j - 2, y + i - 4) in Place(o, x, y)
  {
    var k :| 0 <= k < |o| && o[k] == (j, i);
    assert o[k].0 == j && o[k].1 == i;
    assert Place(o, x, y)[k] == (x + j - 2, y + i - 4);
  }

  /** A translated window cell is placed exactly when its offset is listed. */
  lemma PlaceMembers(o: seq<(nat, nat)>, x: int, y: int)
    ensures forall i, j :: 0 <= i < 5 && 0 <= j < 5 ==> ((j, i) in o <==> (x + j - 2, y + i - 4) in Place(o, x, y))
  {
    forall i, j | 0 <= i < 5 && 0 <= j < 5
      ensures (j, i) in o <==> (x + j - 2, y + i - 4) in Place(o, x, y)
    {
      if (j, i) in o {
        ListedIsPlaced(o, x, y, j, i);
      }
      if (x + j - 2, y + i - 4) in Place(o, x, y) {
        PlacedFromListed(o, x, y, j, i);
      }
    }
  }

  /**
   A piece covers exactly four distinct cells, inside columns x-2..x+2 and rows
   y-4..y-1, and a cell is covered exactly when the matching character of the
   current rotation state is '0'.
   */
  lemma ConvertShapeFormatCells(p: Piece)
    ensures |ConvertShapeFormat(p)| == 4
    ensures forall k :: 0 <= k < 4 ==>
              p.x - 2 <= ConvertShapeFormat(p)[k].0 <= p.x + 2 &&
              p.y - 4 <= ConvertShapeFormat(p)[k].1 <= p.y - 1
    ensures forall k, l :: 0 <= k < l < 4 ==> ConvertShapeFormat(p)[k] != ConvertShapeFormat(p)[l]
    ensures WellFormedMask(StateOf(p.shape, p.rotation))
    ensures forall i, j :: 0 <= i < 5 && 0 <= j < 5 ==>
              (StateOf(p.shape, p.rotation)[i][j] == '0' <==> (p.x + j - 2, p.y + i - 4) in ConvertShapeFormat(p))
  {
    OffsetsShape(p.shape, p.rotation);
    PlaceCells(Offsets(p.shape, p.rotation), p.x, p.y);
    PlaceMembers(Offsets(p.shape, p.rotation), p.x, p.y);
  }

  /** Every covered cell lies at least one row above the anchor row. */
  lemma CellsAboveAnchor(p: Piece, c: Cell)
    requires c in ConvertShapeFormat(p)
    ensures c.1 <= p.y - 1
  {
    ConvertShapeFormatCells(p);
  }
}
