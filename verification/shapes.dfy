/**
 The shape catalog of the falling-block engine: the seven tetromino shapes,
 each an ordered list of 5x5 rotation masks written as strings in which '0'
 marks an occupied cell, and the colour every shape is drawn in.

 A shape is identified by its index 0..6 in the catalog (S, Z, I, O, T, J, L),
 which is also the index of its colour.
 */
module Shapes {

  /** The colours that can appear in a board cell. `Black` is the empty cell. */
  datatype Color = Black | Green | Red | Cyan | Yellow | Magenta | Blue | Orange

  /** Index of a shape in the catalog. */
  type ShapeId = s: int | 0 <= s < 7

  /** One rotation state: five strings of five characters each. */
  type Mask = seq<string>

  const SShape: seq<Mask> := [
    [".....",
     ".....",
     "..00.",
     ".00..",
     "....."],
    [".....",
     "..0..",
     "..00.",
     "...0.",
     "....."]]

  const ZShape: seq<Mask> := [
    [".....",
     ".....",
     ".00..",
     "..00.",
     "....."],
    [".....",
     "..0..",
     ".00..",
     ".0...",
     "....."]]

  const IShape: seq<Mask> := [
    ["..0..",
     "..0..",
     "..0..",
     "..0..",
     "....."],
    [".....",
     "0000.",
     ".....",
     ".....",
     "....."]]

  const OShape: seq<Mask> := [
    [".....",
     ".....",
     ".00..",
     ".00..",
     "....."]]

  const TShape: seq<Mask> := [
    [".....",
     "..0..",
     ".000.",
     ".....",
     "....."],
    [".....",
     "..0..",
     "..00.",
     "..0..",
     "....."],
    [".....",
     ".....",
     ".000.",
     "..0..",
     "....."],
    [".....",
     "..0..",
     ".00..",
     "..0..",
     "....."]]

  const JShape: seq<Mask> := [
    [".....",
     ".0...",
     ".000.",
     ".....",
     "....."],
    [".....",
     "..00.",
     "..0..",
     "..0..",
     "....."],
    [".....",
     ".....",
     ".000.",
     "...0.",
     "....."],
    [".....",
     "..0..",
     "..0..",
     ".00..",
     "....."]]

  const LShape: seq<Mask> := [
    [".....",
     "...0.",
     ".000.",
     ".....",
     "....."],
    [".....",
     "..0..",
     "..0..",
     "..00.",
     "....."],
    [".....",
     ".....",
     ".000.",
     ".0...",
     "....."],
    [".....",
     ".00..",
     "..0..",
     "..0..",
     "....."]]

  /** The rotation states of shape `s`. */
  function States(s: ShapeId): seq<Mask>
  {
    [SShape, ZShape, IShape, OShape, TShape, JShape, LShape][s]
  }

  /** The colour a piece of shape `s` is drawn in; never the empty colour. */
  function ShapeColor(s: ShapeId): (c: Color)
    ensures c != Black
  {
    [Green, Red, Cyan, Yellow, Magenta, Blue, Orange][s]
  }

  /** Number of rotation states of shape `s`: O has one, S, Z and I two, T, J and L four. */
  function RotationCount(s: ShapeId): (n: nat)
    ensures n == |States(s)|
    ensures n == (if s == 3 then 1 else if s < 3 then 2 else 4)
  {
    |States(s)|
  }

  /** The rotation state selected by an arbitrary rotation counter (counter modulo the state count). */
  function StateOf(s: ShapeId, rotation: int): Mask
  {
    States(s)[rotation % RotationCount(s)]
  }

  /** Column indices, from `j` on, at which `line` holds '0', in increasing order. */
  function RowCells(line: string, j: nat): seq<nat>
    requires j <= |line|
    decreases |line| - j
  {
    if j == |line| then []
    else if line[j] == '0' then [j] + RowCells(line, j + 1)
    else RowCells(line, j + 1)
  }

  /** Pairs every column of `cols` with row `i`, keeping the order. */
  function InRow(cols: seq<nat>, i: nat): (cs: seq<(nat, nat)>)
    ensures |cs| == |cols|
  {
    if cols == [] then [] else [(cols[0], i)] + InRow(cols[1..], i)
  }

  /** The occupied (column, row) offsets of rows `i..` of `mask`, row by row, left to right. */
  function MaskCells(mask: Mask, i: nat): seq<(nat, nat)>
    requires i <= |mask|
    decreases |mask| - i
  {
    if i == |mask| then []
    else InRow(RowCells(mask[i], 0), i) + MaskCells(mask, i + 1)
  }

  /** Offset `a` comes strictly before offset `b` in row-major order. */
  predicate Before(a: (nat, nat), b: (nat, nat))
  {
    a.1 < b.1 || (a.1 == b.1 && a.0 < b.0)
  }

  /** `RowCells` lists exactly the '0' columns of `line` from `j` on, in increasing order. */
  lemma {:induction false} RowCellsExact(line: string, j: nat)
    requires j <= |line|
    ensures forall k :: 0 <= k < |RowCells(line, j)| ==>
              j <= RowCells(line, j)[k] < |line| && line[RowCells(line, j)[k]] == '0'
    ensures forall c :: j <= c < |line| && line[c] == '0' ==> c in RowCells(line, j)
    ensures forall k, l :: 0 <= k < l < |RowCells(line, j)| ==> RowCells(line, j)[k] < RowCells(line, j)[l]
    decreases |line| - j
  {
    if j < |line| {
      RowCellsExact(line, j + 1);
    }
  }

  /** `InRow` keeps the columns and their order and fixes the row. */
  lemma {:induction false} InRowExact(cols: seq<nat>, i: nat)
    ensures forall k :: 0 <= k < |cols| ==> InRow(cols, i)[k] == (cols[k], i)
  {
    if cols != [] {
      InRowExact(cols[1..], i);
    }
  }

  /**
   `MaskCells` lists exactly the '0' positions of rows `i..` of the mask, each once,
   in row-major order.
   */
  lemma {:induction false} MaskCellsExact(mask: Mask, i: nat)
    requires i <= |mask|
    ensures forall k :: 0 <= k < |MaskCells(mask, i)| ==>
              var p := MaskCells(mask, i)[k];
              i <= p.1 < |mask| && p.0 < |mask[p.1]| && mask[p.1][p.0] == '0'
    ensures forall r, c :: i <= r < |mask| && 0 <= c < |mask[r]| && mask[r][c] == '0' ==> (c, r) in MaskCells(mask, i)
    ensures forall k, l :: 0 <= k < l < |MaskCells(mask, i)| ==> Before(MaskCells(mask, i)[k], MaskCells(mask, i)[l])
    decreases |mask| - i
  {
    if i < |mask| {
      var row := RowCells(mask[i], 0);
      var here := InRow(row, i);
      var rest := MaskCells(mask, i + 1);
      RowCellsExact(mask[i], 0);
      InRowExact(row, i);
      MaskCellsExact(mask, i + 1);
      assert MaskCells(mask, i) == here + rest;
      forall r, c | i <= r < |mask| && 0 <= c < |mask[r]| && mask[r][c] == '0'
        ensures (c, r) in MaskCells(mask, i)
      {
        if r == i {
          var k :| 0 <= k < |row| && row[k] == c;
          assert here[k] == (c, r);
        } else {
          assert (c, r) in rest;
        }
      }
    }
  }

  /** A well-formed rotation state: 5 rows of 5 characters, exactly four '0's, and an empty bottom row. */
  ghost predicate WellFormedMask(m: Mask)
  {
    && |m| == 5
    && (forall r :: 0 <= r < 5 ==> |m[r]| == 5)
    && |MaskCells(m, 0)| == 4
    && (forall c :: 0 <= c < 5 ==> m[4][c] != '0')
  }

  /** The '0' columns of the eight distinct row strings that occur in the catalog. */
  lemma RowStrings()
    ensures RowCells(".....", 0) == []
    ensures RowCells("..0..", 0) == [2]
    ensures RowCells(".0...", 0) == [1]
    ensures RowCells("...0.", 0) == [3]
    ensures RowCells("..00.", 0) == [2, 3]
    ensures RowCells(".00..", 0) == [1, 2]
    ensures RowCells(".000.", 0) == [1, 2, 3]
    ensures RowCells("0000.", 0) == [0, 1, 2, 3]
  {
  }

  /** The number of cells of a five-row mask is the sum of its rows' counts. */
  lemma MaskCellsCount(m: Mask)
    requires |m| == 5
    ensures |MaskCells(m, 0)| ==
            |RowCells(m[0], 0)| + |RowCells(m[1], 0)| + |RowCells(m[2], 0)| + |RowCells(m[3], 0)| + |RowCells(m[4], 0)|
  {
    assert MaskCells(m, 5) == [];
    assert |MaskCells(m, 4)| == |RowCells(m[4], 0)|;
    assert |MaskCells(m, 3)| == |RowCells(m[3], 0)| + |MaskCells(m, 4)|;
    assert |MaskCells(m, 2)| == |RowCells(m[2], 0)| + |MaskCells(m, 3)|;
    assert |MaskCells(m, 1)| == |RowCells(m[1], 0)| + |MaskCells(m, 2)|;
  }

  /** A five-row mask of five-character rows, with an empty bottom row and four '0's in all, is well formed. */
  lemma MaskWellFormedBy(m: Mask)
    requires |m| == 5
    requires forall r :: 0 <= r < 5 ==> |m[r]| == 5
    requires forall c :: 0 <= c < 5 ==> m[4][c] != '0'
    requires |RowCells(m[0], 0)| + |RowCells(m[1], 0)| + |RowCells(m[2], 0)| + |RowCells(m[3], 0)| + |RowCells(m[4], 0)| == 4
    ensures WellFormedMask(m)
  {
    MaskCellsCount(m);
  }

  /** The rotation states of the S shape are well formed. */
  lemma SShapeWellFormed(t: nat)
    requires t < |SShape|
    ensures WellFormedMask(SShape[t])
  {
    var m := SShape[t];
    assert |m| == 5;
    assert forall r :: 0 <= r < 5 ==> |m[r]| == 5;
    assert forall c :: 0 <= c < 5 ==> m[4][c] != '0';
    RowStrings();
    MaskWellFormedBy(m);
  }

  /** The rotation states of the Z shape are well formed. */
  lemma ZShapeWellFormed(t: nat)
    requires t < |ZShape|
    ensures WellFormedMask(ZShape[t])
  {
    var m := ZShape[t];
    assert |m| == 5;
    assert forall r :: 0 <= r < 5 ==> |m[r]| == 5;
    assert forall c :: 0 <= c < 5 ==> m[4][c] != '0';
    RowStrings();
    MaskWellFormedBy(m);
  }

  /** The rotation states of the I shape are well formed. */
  lemma IShapeWellFormed(t: nat)
    requires t < |IShape|
    ensures WellFormedMask(IShape[t])
  {
    var m := IShape[t];
    assert |m| == 5;
    assert forall r :: 0 <= r < 5 ==> |m[r]| == 5;
    assert forall c :: 0 <= c < 5 ==> m[4][c] != '0';
    RowStrings();
    MaskWellFormedBy(m);
  }

  /** The rotation states of the O shape are well formed. */
  lemma OShapeWellFormed(t: nat)
    requires t < |OShape|
    ensures WellFormedMask(OShape[t])
  {
    var m := OShape[t];
    assert |m| == 5;
    assert forall r :: 0 <= r < 5 ==> |m[r]| == 5;
    assert forall c :: 0 <= c < 5 ==> m[4][c] != '0';
    RowStrings();
    MaskWellFormedBy(m);
  }

  /** The rotation states of the T shape are well formed. */
  lemma TShapeWellFormed(t: nat)
    requires t < |TShape|
    ensures WellFormedMask(TShape[t])
  {
    var m := TShape[t];
    assert |m| == 5;
    assert forall r :: 0 <= r < 5 ==> |m[r]| == 5;
    assert forall c :: 0 <= c < 5 ==> m[4][c] != '0';
    RowStrings();
    MaskWellFormedBy(m);
  }

  /** The rotation states of the J shape are well formed. */
  lemma JShapeWellFormed(t: nat)
    requires t < |JShape|
    ensures WellFormedMask(JShape[t])
  {
    var m := JShape[t];
    assert |m| == 5;
    assert forall r :: 0 <= r < 5 ==> |m[r]| == 5;
    assert forall c :: 0 <= c < 5 ==> m[4][c] != '0';
    RowStrings();
    MaskWellFormedBy(m);
  }

  /** The rotation states of the L shape are well formed. */
  lemma LShapeWellFormed(t: nat)
    requires t < |LShape|
    ensures WellFormedMask(LShape[t])
  {
    var m := LShape[t];
    assert |m| == 5;
    assert forall r :: 0 <= r < 5 ==> |m[r]| == 5;
    assert forall c :: 0 <= c < 5 ==> m[4][c] != '0';
    RowStrings();
    MaskWellFormedBy(m);
  }

  /** Every rotation state of every shape in the catalog is well formed. */
  lemma CatalogWellFormed(s: ShapeId, t: nat)
    requires t < RotationCount(s)
    ensures WellFormedMask(States(s)[t])
  {
    match s
    case 0 => SShapeWellFormed(t);
    case 1 => ZShapeWellFormed(t);
    case 2 => IShapeWellFormed(t);
    case 3 => OShapeWellFormed(t);
    case 4 => TShapeWellFormed(t);
    case 5 => JShapeWellFormed(t);
    case 6 => LShapeWellFormed(t);
  }
  /** The occupied (column, row) offsets of rotation state `rotation` of shape `s`, in mask order. */
  function Offsets(s: ShapeId, rotation: int): seq<(nat, nat)>
  {
    MaskCells(StateOf(s, rotation), 0)
  }

  /**
   A well-formed mask has exactly four occupied offsets, all distinct, in columns
   0..4 and rows 0..3, and they are exactly the mask's '0' characters.
   */
  lemma WellFormedMaskCells(m: Mask)
    requires WellFormedMask(m)
    ensures |MaskCells(m, 0)| == 4
    ensures forall k :: 0 <= k < 4 ==> MaskCells(m, 0)[k].0 < 5 && MaskCells(m, 0)[k].1 < 4
    ensures forall k, l :: 0 <= k < l < 4 ==> MaskCells(m, 0)[k] != MaskCells(m, 0)[l]
    ensures forall i, j :: 0 <= i < 5 && 0 <= j < 5 ==> (m[i][j] == '0' <==> (j, i) in MaskCells(m, 0))
  {
    var o := MaskCells(m, 0);
    MaskCellsExact(m, 0);
    forall k | 0 <= k < 4
      ensures o[k].0 < 5 && o[k].1 < 4
    {
      assert m[o[k].1][o[k].0] == '0';
    }
    forall k, l | 0 <= k < l < 4
      ensures o[k] != o[l]
    {
      assert Before(o[k], o[l]);
    }
  }

  /** The catalog facts, stated for a shape and an arbitrary rotation counter. */
  lemma OffsetsShape(s: ShapeId, rotation: int)
    ensures |Offsets(s, rotation)| == 4
    ensures forall k :: 0 <= k < 4 ==> Offsets(s, rotation)[k].0 < 5 && Offsets(s, rotation)[k].1 < 4
    ensures forall k, l :: 0 <= k < l < 4 ==> Offsets(s, rotation)[k] != Offsets(s, rotation)[l]
    ensures WellFormedMask(StateOf(s, rotation))
    ensures forall i, j :: 0 <= i < 5 && 0 <= j < 5 ==>
              (StateOf(s, rotation)[i][j] == '0' <==> (j, i) in Offsets(s, rotation))
  {
    var m := StateOf(s, rotation);
    StateWellFormed(s, rotation);
    WellFormedMaskCells(m);
    assert Offsets(s, rotation) == MaskCells(m, 0);
  }

  /** The state selected by any rotation counter is a well-formed catalog mask. */
  lemma StateWellFormed(s: ShapeId, rotation: int)
    ensures WellFormedMask(StateOf(s, rotation))
  {
    CatalogWellFormed(s, rotation % RotationCount(s));
  }
}
