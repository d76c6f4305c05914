/**
 Row clearing. The grid handed in is scanned from the bottom row up; every row
 with no empty cell is counted and its ten locked cells are deleted. If any row
 was full, every locked cell strictly above the topmost full row is then moved
 down by the number of full rows, bottom-most cells first.

 The shift uses one distance for everything above the topmost full row, so with
 full rows that are not adjacent, the rows between them stay where they are and
 a moved cell that lands on one of their cells replaces it. The model keeps this.
 */
module LineClear {
  import opened Shapes
  import opened Pieces
  import opened Board

  /** The full rows at index `lo` or below on the screen (indices `lo..19`). */
  function FullRowsFrom(g: Grid, lo: int): set<int>
    requires IsGrid(g)
    requires 0 <= lo <= Rows
  {
    set i | lo <= i < Rows && Black !in g[i]
  }

  /** The rows of the grid that hold no empty cell. */
  function FullRows(g: Grid): set<int>
    requires IsGrid(g)
  {
    FullRowsFrom(g, 0)
  }

  /** The topmost full row at index `lo` or below, or `Rows` when there is none. */
  function TopFullRowFrom(g: Grid, lo: int): (t: int)
    requires IsGrid(g)
    requires 0 <= lo <= Rows
    ensures lo <= t <= Rows
    ensures t < Rows <==> FullRowsFrom(g, lo) != {}
    ensures t < Rows ==> t in FullRowsFrom(g, lo) && forall i :: i in FullRowsFrom(g, lo) ==> t <= i
    decreases Rows - lo
  {
    if lo == Rows then Rows
    else if Black !in g[lo] then
      assert lo in FullRowsFrom(g, lo);
      lo
    else
      assert FullRowsFrom(g, lo) == FullRowsFrom(g, lo + 1);
      TopFullRowFrom(g, lo + 1)
  }

  /** `locked` without the on-board cells of the rows in `rows`. */
  function Removed(locked: Locked, rows: set<int>): Locked
  {
    map c | c in locked && !(0 <= c.0 < Columns && c.1 in rows) :: locked[c]
  }

  /** The locked cells strictly above row `ind`. */
  function Above(m: Locked, ind: int): set<Cell>
  {
    set c | c in m && c.1 < ind
  }

  /** The cells `ks` of `m`, each moved `n` rows down with its colour. */
  function ShiftDown(m: Locked, ks: set<Cell>, n: int): Locked
  {
    map c | c in ks && c in m :: (c.0, c.1 + n) := m[c]
  }

  /** A cell is in the shifted map exactly when the cell `n` rows above it was shifted, and it holds that cell's colour. */
  lemma ShiftDownAt(m: Locked, ks: set<Cell>, n: int)
    requires ks <= m.Keys
    ensures forall c {:trigger c in ShiftDown(m, ks, n)} :: c in ShiftDown(m, ks, n) <==> (c.0, c.1 - n) in ks
    ensures forall c {:trigger ShiftDown(m, ks, n)[c]} ::
              c in ShiftDown(m, ks, n) ==> ShiftDown(m, ks, n)[c] == m[(c.0, c.1 - n)]
  {
  }

  /** After the deletions: the cells above row `ind` moved `n` rows down, laid over the cells at or below `ind`. */
  function Compact(m: Locked, ind: int, n: int): Locked
  {
    (m - Above(m, ind)) + ShiftDown(m, Above(m, ind), n)
  }

  /** The number of full rows and the locked map that clearing leaves. */
  function ClearRowsSpec(g: Grid, locked: Locked): (int, Locked)
    requires IsGrid(g)
  {
    var full := FullRows(g);
    if |full| == 0 then (0, locked)
    else (|full|, Compact(Removed(locked, full), TopFullRowFrom(g, 0), |full|))
  }

  /** Extending the scanned range by one row adds that row exactly when it is full. */
  lemma FullRowsStep(g: Grid, i: int)
    requires IsGrid(g)
    requires 0 <= i < Rows
    ensures Black !in g[i] ==> FullRowsFrom(g, i) == FullRowsFrom(g, i + 1) + {i} && i !in FullRowsFrom(g, i + 1)
    ensures Black in g[i] ==> FullRowsFrom(g, i) == FullRowsFrom(g, i + 1)
  {
  }

  /** Some cell of a non-empty set is in the lowest row the set reaches. */
  lemma {:induction false} BottomCellExists(s: set<Cell>)
    requires s != {}
    ensures exists k :: k in s && forall c :: c in s ==> c.1 <= k.1
    decreases |s|
  {
    var a :| a in s;
    if s == {a} {
      assert forall c :: c in s ==> c.1 <= a.1;
    } else {
      assert s - {a} != {};
      BottomCellExists(s - {a});
      var k :| k in s - {a} && forall c :: c in s - {a} ==> c.1 <= k.1;
      if a.1 <= k.1 {
        assert forall c :: c in s ==> c.1 <= k.1;
      } else {
        assert forall c :: c in s ==> c.1 <= a.1;
      }
    }
  }

  /** The shifted cells never land above row `key.1 + n`, so `key` itself is not among them. */
  lemma ShiftDownAvoids(m: Locked, done: set<Cell>, key: Cell, n: int)
    requires done <= m.Keys
    requires n > 0
    requires forall a :: a in done ==> key.1 <= a.1
    ensures key !in ShiftDown(m, done, n)
  {
    ShiftDownAt(m, done, n);
  }

  /** The locked map once the cells `done` (all above the topmost full row) have been moved `n` rows down. */
  function PartlyShifted(m: Locked, done: set<Cell>, n: int): Locked
  {
    (m - done) + ShiftDown(m, done, n)
  }

  /** The map after one loop step on `PartlyShifted(m, done, n)`: `key` popped and its colour stored `n` rows down. */
  function Popped(m: Locked, done: set<Cell>, key: Cell, n: int): Locked
    requires key in m
  {
    (PartlyShifted(m, done, n) - {key})[(key.0, key.1 + n) := m[key]]
  }

  /** Two maps agree at `c`: both hold it with the same colour, or neither holds it. */
  predicate AgreeAt(a: Locked, b: Locked, c: Cell)
  {
    (c in a <==> c in b) && (c in b ==> a[c] == b[c])
  }

  /** The key's new place holds the key's colour after the step. */
  lemma ShiftStepTarget(m: Locked, done: set<Cell>, key: Cell, n: int, c: Cell)
    requires done <= m.Keys && key in m && key !in done
    requires c == (key.0, key.1 + n)
    ensures AgreeAt(Popped(m, done, key, n), PartlyShifted(m, done + {key}, n), c)
  {
    var moved := ShiftDown(m, done + {key}, n);
    ShiftDownAt(m, done + {key}, n);
    assert (c.0, c.1 - n) == key;
    assert c in moved && moved[c] == m[key];
    assert PartlyShifted(m, done + {key}, n)[c] == moved[c];
  }

  /** A cell that an earlier step filled keeps its shifted colour. */
  lemma ShiftStepMoved(m: Locked, done: set<Cell>, key: Cell, n: int, c: Cell)
    requires done <= m.Keys && key in m && key !in done
    requires n > 0
    requires forall a :: a in done ==> key.1 <= a.1
    requires c != (key.0, key.1 + n) && c in ShiftDown(m, done, n)
    ensures AgreeAt(Popped(m, done, key, n), PartlyShifted(m, done + {key}, n), c)
  {
    var before, moved := ShiftDown(m, done, n), ShiftDown(m, done + {key}, n);
    ShiftDownAt(m, done, n);
    ShiftDownAt(m, done + {key}, n);
    ShiftDownAvoids(m, done, key, n);
    assert c != key;
    assert c in moved && moved[c] == before[c];
    assert PartlyShifted(m, done, n)[c] == before[c];
    assert Popped(m, done, key, n)[c] == before[c];
    assert PartlyShifted(m, done + {key}, n)[c] == moved[c];
  }

  /** A cell that no step touches keeps its colour. */
  lemma ShiftStepUntouched(m: Locked, done: set<Cell>, key: Cell, n: int, c: Cell)
    requires done <= m.Keys && key in m && key !in done
    requires c != (key.0, key.1 + n) && c !in ShiftDown(m, done, n)
    requires c in m - done && c != key
    ensures AgreeAt(Popped(m, done, key, n), PartlyShifted(m, done + {key}, n), c)
  {
    var moved := ShiftDown(m, done + {key}, n);
    ShiftDownAt(m, done, n);
    ShiftDownAt(m, done + {key}, n);
    assert (c.0, c.1 - n) != key;
    assert c !in moved;
    assert c in m - (done + {key});
    assert PartlyShifted(m, done, n)[c] == m[c];
    assert Popped(m, done, key, n)[c] == m[c];
    assert PartlyShifted(m, done + {key}, n)[c] == m[c];
  }

  /** A cell absent before the step, other than the key's new place, stays absent. */
  lemma ShiftStepAbsent(m: Locked, done: set<Cell>, key: Cell, n: int, c: Cell)
    requires done <= m.Keys && key in m && key !in done
    requires c != (key.0, key.1 + n) && c !in ShiftDown(m, done, n)
    requires !(c in m - done && c != key)
    ensures AgreeAt(Popped(m, done, key, n), PartlyShifted(m, done + {key}, n), c)
  {
    ShiftDownAt(m, done, n);
    ShiftDownAt(m, done + {key}, n);
    assert (c.0, c.1 - n) != key;
    assert c !in ShiftDown(m, done + {key}, n);
    assert c !in m - (done + {key});
    assert c !in Popped(m, done, key, n);
  }

  /**
   One step of the shift loop: when every cell already moved lies in the
   processed key's row or below, the key still holds its original colour, and
   popping it and storing that colour `n` rows down moves the key too.
   */
  lemma ShiftStep(m: Locked, done: set<Cell>, key: Cell, n: int)
    requires done <= m.Keys && key in m && key !in done
    requires n > 0
    requires forall a :: a in done ==> key.1 <= a.1
    ensures key in PartlyShifted(m, done, n) && PartlyShifted(m, done, n)[key] == m[key]
    ensures Popped(m, done, key, n) == PartlyShifted(m, done + {key}, n)
  {
    ShiftDownAvoids(m, done, key, n);
    var after, want := Popped(m, done, key, n), PartlyShifted(m, done + {key}, n);
    forall c
      ensures (c in after <==> c in want) && (c in want ==> after[c] == want[c])
    {
      if c == (key.0, key.1 + n) {
        ShiftStepTarget(m, done, key, n, c);
      } else if c in ShiftDown(m, done, n) {
        ShiftStepMoved(m, done, key, n, c);
      } else if c in m - done && c != key {
        ShiftStepUntouched(m, done, key, n, c);
      } else {
        ShiftStepAbsent(m, done, key, n, c);
      }
    }
  }

  /** Moving one element from the remaining part of `all` to the processed part keeps the two a partition of `all`. */
  lemma MoveOne<T>(all: set<T>, todo: set<T>, done: set<T>, key: T)
    requires todo <= all && done == all - todo && key in todo
    ensures todo - {key} <= all && done + {key} == all - (todo - {key})
  {
  }

  /** Moving the bottom-most remaining cell from `todo` to `done` keeps every done cell at or below every remaining one. */
  lemma ShiftOrderStep(todo: set<Cell>, done: set<Cell>, key: Cell)
    requires key in todo
    requires forall c :: c in todo ==> c.1 <= key.1
    requires forall a, b :: a in done && b in todo ==> b.1 <= a.1
    ensures forall a, b :: a in done + {key} && b in todo - {key} ==> b.1 <= a.1
    ensures forall a :: a in done ==> key.1 <= a.1
  {
  }

  /** The loop body of the shift, stated on the loop's own variable `r`. */
  lemma ShiftLoopBody(m: Locked, done: set<Cell>, key: Cell, n: int, r: Locked)
    requires done <= m.Keys && key in m && key !in done
    requires n > 0
    requires forall a :: a in done ==> key.1 <= a.1
    requires r == PartlyShifted(m, done, n)
    ensures key in r
    ensures (r - {key})[(key.0, key.1 + n) := r[key]] == PartlyShifted(m, done + {key}, n)
  {
    ShiftStep(m, done, key, n);
    assert r[key] == m[key];
    assert (r - {key})[(key.0, key.1 + n) := r[key]] == Popped(m, done, key, n);
  }

  /** `m` without its cells in columns `0..j-1` of row `i`. */
  function RowPrefixRemoved(m: Locked, i: int, j: int): Locked
  {
    map c | c in m && !(c.1 == i && 0 <= c.0 < j) :: m[c]
  }

  /** Deleting all of row `i` on the board from a map with rows `rows` deleted deletes `rows + {i}`. */
  lemma RemovedRow(locked: Locked, rows: set<int>, i: int)
    ensures RowPrefixRemoved(Removed(locked, rows), i, Columns) == Removed(locked, rows + {i})
  {
  }

  /** The inner loop of the routine: deletes the on-board cells of row `i`, one column at a time. */
  method DeleteRow(m: Locked, i: int) returns (r: Locked)
    ensures r == RowPrefixRemoved(m, i, Columns)
  {
    r := m;
    var j := 0;
    while j < Columns
      invariant 0 <= j <= Columns
      invariant r == RowPrefixRemoved(m, i, j)
    {
      if (j, i) in r {
        r := r - {(j, i)};
      }
      assert r == RowPrefixRemoved(m, i, j + 1);
      j := j + 1;
    }
  }

  /**
   The first half of the routine: scans the rows from the bottom up and deletes
   the on-board locked cells of every full row, counting the full rows and
   remembering the topmost one (`Rows` when there is none).
   */
  method DeleteFullRows(grid: Grid, locked: Locked) returns (increment: int, ind: int, result: Locked)
    requires IsGrid(grid)
    ensures increment == |FullRows(grid)|
    ensures ind == TopFullRowFrom(grid, 0)
    ensures result == Removed(locked, FullRows(grid))
  {
    increment := 0;
    ind := Rows;
    result := locked;
    var i := |grid| - 1;
    while i >= 0
      invariant -1 <= i < Rows
      invariant increment == |FullRowsFrom(grid, i + 1)|
      invariant ind == TopFullRowFrom(grid, i + 1)
      invariant result == Removed(locked, FullRowsFrom(grid, i + 1))
    {
      FullRowsStep(grid, i);
      if Black !in grid[i] {
        increment := increment + 1;
        ind := i;
        RemovedRow(locked, FullRowsFrom(grid, i + 1), i);
        result := DeleteRow(result, i);
        assert result == Removed(locked, FullRowsFrom(grid, i));
      }
      i := i - 1;
    }
  }

  /**
   The second half of the routine: every cell above row `ind` is popped and stored
   `increment` rows further down, taking the cells nearest the bottom first so that
   no cell is overwritten before it has been moved.
   */
  method ShiftAbove(m0: Locked, ind: int, increment: int) returns (result: Locked)
    requires increment > 0
    ensures result == Compact(m0, ind, increment)
  {
    result := m0;
    var above := Above(m0, ind);
    var todo := above;
    ghost var done: set<Cell> := {};
    while todo != {}
      invariant todo <= above
      invariant done == above - todo
      invariant forall a, b :: a in done && b in todo ==> b.1 <= a.1
      invariant result == PartlyShifted(m0, done, increment)
      decreases todo
    {
      BottomCellExists(todo);
      var key :| key in todo && forall c :: c in todo ==> c.1 <= key.1;
      ShiftOrderStep(todo, done, key);
      MoveOne(above, todo, done, key);
      ShiftLoopBody(m0, done, key, increment, result);
      var colour := result[key];
      result := (result - {key})[(key.0, key.1 + increment) := colour];
      todo := todo - {key};
      done := done + {key};
    }
    assert done == above;
  }

  /**
   The row-clearing routine: returns the number of full rows of `grid` and the
   locked map with those rows deleted and the cells above the topmost one moved down.
   */
  method ClearRows(grid: Grid, locked: Locked) returns (increment: int, result: Locked)
    requires IsGrid(grid)
    ensures (increment, result) == ClearRowsSpec(grid, locked)
  {
    var ind;
    increment, ind, result := DeleteFullRows(grid, locked);
    if increment > 0 {
      result := ShiftAbove(result, ind, increment);
    } else {
      assert result == locked;
    }
  }

  /** Cell `c` receives the cell `n` rows above it, which lay strictly above row `t`. */
  predicate ShiftedInto(locked: Locked, t: int, n: int, c: Cell)
  {
    (c.0, c.1 - n) in locked && c.1 - n < t
  }

  /** Cell `c` is a locked cell at or below row `t` that is not on the board in one of the rows `full`. */
  predicate KeptInPlace(locked: Locked, full: set<int>, t: int, c: Cell)
  {
    c in locked && c.1 >= t && !(0 <= c.0 < Columns && c.1 in full)
  }

  /**
   What `r` holds at cell `c` after `n` rows, the topmost at `t`, were deleted
   from `locked`: `c` is present exactly when the cell `n` rows above it was
   locked above `t`, or `c` was locked at or below `t` and is not on the board in
   a full row. A cell moved down keeps its colour and wins over a cell that stayed
   in place; a cell that stayed in place keeps its colour otherwise.
   */
  predicate ClearedAt(locked: Locked, full: set<int>, t: int, n: int, r: Locked, c: Cell)
  {
    (c in r <==> ShiftedInto(locked, t, n, c) || KeptInPlace(locked, full, t, c)) &&
    (ShiftedInto(locked, t, n, c) ==> c in r && r[c] == locked[(c.0, c.1 - n)]) &&
    (KeptInPlace(locked, full, t, c) && !ShiftedInto(locked, t, n, c) ==> c in r && r[c] == locked[c])
  }

  /** At most one full row per grid row. */
  lemma {:induction false} FullRowsBound(g: Grid, lo: int)
    requires IsGrid(g)
    requires 0 <= lo <= Rows
    ensures |FullRowsFrom(g, lo)| <= Rows - lo
    decreases Rows - lo
  {
    if lo == Rows {
      assert FullRowsFrom(g, lo) == {};
    } else {
      FullRowsStep(g, lo);
      FullRowsBound(g, lo + 1);
    }
  }

  /** Deleting rows at or below `t` and then compacting above `t`, seen at one cell. */
  lemma CompactRemovedAt(locked: Locked, full: set<int>, t: int, n: int, c: Cell)
    requires forall i :: i in full ==> t <= i
    ensures ClearedAt(locked, full, t, n, Compact(Removed(locked, full), t, n), c)
  {
    var removed := Removed(locked, full);
    var above := Above(removed, t);
    ShiftDownAt(removed, above, n);
    if ShiftedInto(locked, t, n, c) {
      assert (c.0, c.1 - n) in above;
      assert c in ShiftDown(removed, above, n);
    }
  }

  /** With some row full, clearing reports between 1 and 20 rows and leaves the compacted map. */
  lemma ClearRowsCount(g: Grid, locked: Locked)
    requires IsGrid(g)
    requires FullRows(g) != {}
    ensures 1 <= ClearRowsSpec(g, locked).0 == |FullRows(g)| <= Rows
    ensures ClearRowsSpec(g, locked).1 == Compact(Removed(locked, FullRows(g)), TopFullRowFrom(g, 0), |FullRows(g)|)
  {
    FullRowsBound(g, 0);
  }

  /** What clearing leaves at any cell, when some row is full: the cell as `ClearedAt` describes it. */
  lemma ClearRowsAt(g: Grid, locked: Locked, c: Cell)
    requires IsGrid(g)
    requires FullRows(g) != {}
    ensures ClearedAt(locked, FullRows(g), TopFullRowFrom(g, 0), |FullRows(g)|, ClearRowsSpec(g, locked).1, c)
  {
    ClearRowsCount(g, locked);
    CompactRemovedAt(locked, FullRows(g), TopFullRowFrom(g, 0), |FullRows(g)|, c);
  }

  /** Clearing with no full row changes nothing. */
  lemma ClearRowsNone(g: Grid, locked: Locked)
    requires IsGrid(g)
    requires FullRows(g) == {}
    ensures ClearRowsSpec(g, locked) == (0, locked)
  {
  }

  /** Clearing never puts the empty colour into the locked map. */
  lemma ClearRowsNoBlack(g: Grid, locked: Locked)
    requires IsGrid(g)
    requires NoBlack(locked)
    ensures NoBlack(ClearRowsSpec(g, locked).1)
  {
    if FullRows(g) != {} {
      forall c | c in ClearRowsSpec(g, locked).1
        ensures ClearRowsSpec(g, locked).1[c] != Black
      {
        ClearRowsAt(g, locked, c);
      }
    }
  }
}
