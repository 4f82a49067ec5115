/** What executing each macro command does to a sheet, stated through the
    sheet's public reads (`Get`, `IsEmpty`) and its bounds. */
module MacroProperties {
  import opened Results
  import opened SparseSheet
  import opened Ranges
  import opened Macros

  // ---------------------------------------------------------------------
  // Shared facts about writing a range
  // ---------------------------------------------------------------------

  /** Cells outside the written area read and test empty as before. */
  lemma OutsideUnchanged(s: Sheet, s': Sheet, area: Rect)
    requires Overwrites(s, s', area)
    ensures forall i, j :: !area.Contains(CellPosition(i, j)) ==>
              Get(s', i, j) == Get(s, i, j) && IsEmpty(s', i, j) == IsEmpty(s, i, j)
  {
    forall i, j | !area.Contains(CellPosition(i, j))
      ensures Get(s', i, j) == Get(s, i, j) && IsEmpty(s', i, j) == IsEmpty(s, i, j)
    {
      var p := CellPosition(i, j);
      assert p in s'.cells <==> p in s.cells;
    }
  }

  /** Writing the same values again over an area already written changes nothing. */
  lemma RewriteIsNoOp(s: Sheet, s': Sheet, s'': Sheet, area: Rect)
    requires Overwrites(s, s', area) && Overwrites(s', s'', area)
    requires forall p :: area.Contains(p) ==> p in s'.cells && s''.cells[p] == s'.cells[p]
    ensures s'' == s'
  {
    forall p | p in s''.cells
      ensures p in s'.cells && s''.cells[p] == s'.cells[p]
    {
    }
    assert s''.cells.Keys == s'.cells.Keys;
    assert s''.cells == s'.cells;
  }

  // ---------------------------------------------------------------------
  // Macro: a single cell
  // ---------------------------------------------------------------------

  /** The macro's cell holds its value and is no longer empty; every other
      cell is as it was; the bounds cover the cell. */
  lemma MacroExecute(s: Sheet, row: nat, col: nat, value: real)
    ensures var s' := Execute(Macro(row, col, value), s);
            && Get(s', row, col) == Ok(value)
            && IsEmpty(s', row, col) == Ok(false)
            && (forall i, j :: (i, j) != (row, col) ==> Get(s', i, j) == Get(s, i, j) && IsEmpty(s', i, j) == IsEmpty(s, i, j))
            && s'.height == Max(s.height, row + 1) && s'.width == Max(s.width, col + 1)
  {
    var m := Macro(row, col, value);
    OutsideUnchanged(s, Execute(m, s), m.Footprint());
  }

  /** Executing the macro twice leaves the same sheet as executing it once. */
  lemma MacroIdempotent(s: Sheet, row: nat, col: nat, value: real)
    ensures Execute(Macro(row, col, value), Execute(Macro(row, col, value), s)) == Execute(Macro(row, col, value), s)
  {
    var m := Macro(row, col, value);
    RewriteIsNoOp(s, Execute(m, s), Execute(m, Execute(m, s)), m.Footprint());
  }

  // ---------------------------------------------------------------------
  // BulkMacroAssign: one value over a rectangle
  // ---------------------------------------------------------------------

  /** Every cell of the rectangle holds the value and is non-empty, cells
      outside it are as they were, and the bounds cover the rectangle. */
  lemma BulkFillsRange(s: Sheet, r: Rect, value: real)
    requires BulkMacroAssign(r, value).Valid()
    ensures var s' := Execute(BulkMacroAssign(r, value), s);
            && (forall i, j :: r.Contains(CellPosition(i, j)) ==> Get(s', i, j) == Ok(value) && IsEmpty(s', i, j) == Ok(false))
            && (forall i, j :: !r.Contains(CellPosition(i, j)) ==> Get(s', i, j) == Get(s, i, j) && IsEmpty(s', i, j) == IsEmpty(s, i, j))
            && s'.height == Max(s.height, r.toRow + 1) && s'.width == Max(s.width, r.toCol + 1)
  {
    var s' := Execute(BulkMacroAssign(r, value), s);
    OutsideUnchanged(s, s', r);
    forall i, j | r.Contains(CellPosition(i, j))
      ensures Get(s', i, j) == Ok(value) && IsEmpty(s', i, j) == Ok(false)
    {
      assert s'.cells[CellPosition(i, j)] == value;
    }
  }

  /** Filling the rectangle twice is the same as filling it once. */
  lemma BulkIdempotent(s: Sheet, r: Rect, value: real)
    requires BulkMacroAssign(r, value).Valid()
    ensures Execute(BulkMacroAssign(r, value), Execute(BulkMacroAssign(r, value), s))
            == Execute(BulkMacroAssign(r, value), s)
  {
    var m := BulkMacroAssign(r, value);
    var s' := Execute(m, s);
    var s'' := Execute(m, s');
    forall p | r.Contains(p)
      ensures p in s'.cells && s''.cells[p] == s'.cells[p]
    {
      assert s'.cells[p] == value;
      assert s''.cells[p] == value;
    }
    RewriteIsNoOp(s, s', s'', r);
  }

  /** A one-cell rectangle is accepted, and filling it is the single-cell macro. */
  lemma BulkSingleCell(s: Sheet, row: nat, col: nat, value: real)
    ensures NewBulkMacroAssign(row, col, row, col, value).Ok?
    ensures Execute(NewBulkMacroAssign(row, col, row, col, value).value, s) == Execute(Macro(row, col, value), s)
  {
    var s1 := Execute(NewBulkMacroAssign(row, col, row, col, value).value, s);
    var s2 := Execute(Macro(row, col, value), s);
    var p := CellPosition(row, col);
    assert Rect(row, col, row, col).Contains(p);
    assert s1.cells[p] == value;
    assert s1.cells.Keys == s2.cells.Keys;
    assert s1.cells == s2.cells;
  }

  // ---------------------------------------------------------------------
  // MacroRangeAssign: a running value in row-major order
  // ---------------------------------------------------------------------

  /** The loops' closed form: a cell of rank k gets the start value plus k
      increments. */
  lemma AssignRowsClosedForm(s: Sheet, r: Rect, startValue: real, increment: real, p: CellPosition, k: int)
    requires r.fromRow >= 0 && r.fromCol >= 0
    requires r.Contains(p) && r.Rank(p) == k
    ensures p in AssignRows(s, r.fromRow, r.fromCol, r.toRow, r.toCol, startValue, increment).cells
    ensures AssignRows(s, r.fromRow, r.fromCol, r.toRow, r.toCol, startValue, increment).cells[p]
            == startValue + k as real * increment
  {
    AssignRowsCell(s, r.fromRow, r.fromCol, r.toRow, r.toCol, startValue, increment, p);
    AdvancedBy(startValue, increment, r.Rank(p), k,
               AssignRows(s, r.fromRow, r.fromCol, r.toRow, r.toCol, startValue, increment).cells[p]);
  }

  /** Advancing n times, for n equal to k, adds k increments (kept apart so
      that the solver meets the real multiplication in a small context). */
  lemma AdvancedBy(startValue: real, increment: real, n: nat, k: int, x: real)
    requires n == k && x == Advance(startValue, increment, n)
    ensures x == startValue + k as real * increment
  {
    AdvanceClosedForm(startValue, increment, n);
  }

  /** One cell of the rectangle after executing the command: the cell of
      row-major rank k holds the start value plus k increments. */
  lemma RangeAssignCell(s: Sheet, r: Rect, startValue: real, increment: real, p: CellPosition, k: int)
    requires MacroRangeAssign(r, startValue, increment).Valid()
    requires r.Contains(p) && r.Rank(p) == k
    ensures p in Execute(MacroRangeAssign(r, startValue, increment), s).cells
    ensures Execute(MacroRangeAssign(r, startValue, increment), s).cells[p]
            == startValue + k as real * increment
  {
    var s' := AssignRows(s, r.fromRow, r.fromCol, r.toRow, r.toCol, startValue, increment);
    assert Execute(MacroRangeAssign(r, startValue, increment), s) == s';
    AssignRowsClosedForm(s, r, startValue, increment, p, k);
  }

  /** Cells outside the rectangle read and test empty as before. */
  lemma RangeAssignOutside(s: Sheet, r: Rect, startValue: real, increment: real)
    requires MacroRangeAssign(r, startValue, increment).Valid()
    ensures var s' := Execute(MacroRangeAssign(r, startValue, increment), s);
            forall i, j :: !r.Contains(CellPosition(i, j)) ==>
              Get(s', i, j) == Get(s, i, j) && IsEmpty(s', i, j) == IsEmpty(s, i, j)
  {
    OutsideUnchanged(s, Execute(MacroRangeAssign(r, startValue, increment), s), r);
  }

  /** Cell (i, j) of the rectangle, read back: when the loops visit k cells
      before it, it is non-empty and holds the start value plus k increments
      (`Ranges.RankClosedForm` gives k in closed form). */
  lemma RangeAssignRead(s: Sheet, r: Rect, startValue: real, increment: real, i: int, j: int, k: int)
    requires MacroRangeAssign(r, startValue, increment).Valid()
    requires r.Contains(CellPosition(i, j)) && r.Rank(CellPosition(i, j)) == k
    ensures IsEmpty(Execute(MacroRangeAssign(r, startValue, increment), s), i, j) == Ok(false)
    ensures Get(Execute(MacroRangeAssign(r, startValue, increment), s), i, j) == Ok(startValue + k as real * increment)
  {
    var s' := Execute(MacroRangeAssign(r, startValue, increment), s);
    RangeAssignCell(s, r, startValue, increment, CellPosition(i, j), k);
    var v := s'.cells[CellPosition(i, j)];
    assert Get(s', i, j) == Ok(v);
  }

  /** The cell (i, j) of the range receives the start value advanced once for
      every cell before it in row-major order: k = (i - fromRow) full rows of
      (toCol - fromCol + 1) cells, then (j - fromCol) cells of its own row. */
  lemma RangeAssignClosedForm(s: Sheet, r: Rect, startValue: real, increment: real, i: int, j: int, k: int)
    requires MacroRangeAssign(r, startValue, increment).Valid()
    requires r.Contains(CellPosition(i, j))
    requires k == (i - r.fromRow) * (r.toCol - r.fromCol + 1) + (j - r.fromCol)
    ensures Get(Execute(MacroRangeAssign(r, startValue, increment), s), i, j) == Ok(startValue + k as real * increment)
  {
    assert r.Cols() == r.toCol - r.fromCol + 1;
    RankClosedForm(r, CellPosition(i, j));
    RangeAssignRead(s, r, startValue, increment, i, j, k);
  }

  /** The k-th cell in the loops' visiting order is non-empty and receives
      the start value advanced k times. */
  lemma RangeAssignVisit(s: Sheet, r: Rect, startValue: real, increment: real, k: int)
    requires MacroRangeAssign(r, startValue, increment).Valid()
    requires 0 <= k < |r.RowMajor()|
    ensures var s' := Execute(MacroRangeAssign(r, startValue, increment), s);
            var p := r.RowMajor()[k];
            && IsEmpty(s', p.row, p.column) == Ok(false)
            && Get(s', p.row, p.column) == Ok(startValue + k as real * increment)
  {
    var p := r.RowMajor()[k];
    RankOfRowMajor(r, k);
    RangeAssignCell(s, r, startValue, increment, p, k);
  }

  /** All cells of the rectangle, in visiting order. */
  lemma RangeAssignInVisitOrder(s: Sheet, r: Rect, startValue: real, increment: real)
    requires MacroRangeAssign(r, startValue, increment).Valid()
    ensures var s' := Execute(MacroRangeAssign(r, startValue, increment), s);
            forall k :: 0 <= k < |r.RowMajor()| ==>
              Get(s', r.RowMajor()[k].row, r.RowMajor()[k].column) == Ok(startValue + k as real * increment)
  {
    forall k | 0 <= k < |r.RowMajor()| {
      RangeAssignVisit(s, r, startValue, increment, k);
    }
  }

  /** An inverted range is accepted and leaves the sheet exactly as it was. */
  lemma RangeAssignInverted(s: Sheet, fromRow: nat, fromCol: nat, toRow: nat, toCol: nat,
                            startValue: real, increment: real)
    requires toRow < fromRow || toCol < fromCol
    ensures NewMacroRangeAssign(fromRow, fromCol, toRow, toCol, startValue, increment).Ok?
    ensures Execute(NewMacroRangeAssign(fromRow, fromCol, toRow, toCol, startValue, increment).value, s) == s
  {
    var s' := Execute(NewMacroRangeAssign(fromRow, fromCol, toRow, toCol, startValue, increment).value, s);
    assert s'.cells.Keys == s.cells.Keys;
    assert s'.cells == s.cells;
  }

  /** With increment 0 every cell of the rectangle holds the start value. */
  lemma RangeAssignZeroIncrement(s: Sheet, r: Rect, startValue: real)
    requires MacroRangeAssign(r, startValue, 0.0).Valid()
    ensures forall i, j :: r.Contains(CellPosition(i, j)) ==>
              Get(Execute(MacroRangeAssign(r, startValue, 0.0), s), i, j) == Ok(startValue)
  {
    forall i, j | r.Contains(CellPosition(i, j))
      ensures Get(Execute(MacroRangeAssign(r, startValue, 0.0), s), i, j) == Ok(startValue)
    {
      RangeAssignCell(s, r, startValue, 0.0, CellPosition(i, j), r.Rank(CellPosition(i, j)));
    }
  }

  /** A uniform fill is the incremental fill with increment 0. */
  lemma BulkIsRangeAssignWithoutIncrement(s: Sheet, r: Rect, value: real)
    requires BulkMacroAssign(r, value).Valid()
    ensures MacroRangeAssign(r, value, 0.0).Valid()
    ensures Execute(BulkMacroAssign(r, value), s) == Execute(MacroRangeAssign(r, value, 0.0), s)
  {
    var s1 := Execute(BulkMacroAssign(r, value), s);
    var s2 := Execute(MacroRangeAssign(r, value, 0.0), s);
    forall p | p in s1.cells
      ensures p in s2.cells && s1.cells[p] == s2.cells[p]
    {
      if r.Contains(p) {
        AssignRowsCell(s, r.fromRow, r.fromCol, r.toRow, r.toCol, value, 0.0, p);
        AdvanceClosedForm(value, 0.0, r.Rank(p));
      }
    }
    assert s1.cells.Keys == s2.cells.Keys;
    assert s1.cells == s2.cells;
  }

  /** A one-cell range receives the start value, whatever the increment. */
  lemma RangeAssignSingleCell(s: Sheet, row: nat, col: nat, startValue: real, increment: real)
    ensures Execute(MacroRangeAssign(Rect(row, col, row, col), startValue, increment), s)
            == Execute(Macro(row, col, startValue), s)
  {
    var r := Rect(row, col, row, col);
    var p := CellPosition(row, col);
    var s1 := Execute(MacroRangeAssign(r, startValue, increment), s);
    var s2 := Execute(Macro(row, col, startValue), s);
    AssignRowsCell(s, row, col, row, col, startValue, increment, p);
    assert s1.cells[p] == startValue;
    assert s1.cells.Keys == s2.cells.Keys;
    assert s1.cells == s2.cells;
  }

  /** Executing the incremental fill twice is the same as executing it once:
      the values depend only on the ranks, not on what the cells held. */
  lemma RangeAssignIdempotent(s: Sheet, r: Rect, startValue: real, increment: real)
    requires MacroRangeAssign(r, startValue, increment).Valid()
    ensures Execute(MacroRangeAssign(r, startValue, increment), Execute(MacroRangeAssign(r, startValue, increment), s))
            == Execute(MacroRangeAssign(r, startValue, increment), s)
  {
    var m := MacroRangeAssign(r, startValue, increment);
    var s' := Execute(m, s);
    var s'' := Execute(m, s');
    forall p | r.Contains(p)
      ensures p in s'.cells && s''.cells[p] == s'.cells[p]
    {
      AssignRowsCell(s, r.fromRow, r.fromCol, r.toRow, r.toCol, startValue, increment, p);
      AssignRowsCell(s', r.fromRow, r.fromCol, r.toRow, r.toCol, startValue, increment, p);
    }
    RewriteIsNoOp(s, s', s'', r);
  }

  // ---------------------------------------------------------------------
  // MacroAverage: the mean of a range into one cell
  // ---------------------------------------------------------------------

  /** The destination receives the sum of the values the range held before
      execution (unwritten cells counting 0) over the number of cells, or 0
      for an inverted range; it becomes non-empty; nothing else changes. */
  lemma AverageExecute(s: Sheet, r: Rect, destRow: nat, destCol: nat)
    requires MacroAverage(r, destRow, destCol).Valid()
    ensures var s' := Execute(MacroAverage(r, destRow, destCol), s);
            && Get(s', destRow, destCol)
               == Ok(if r.Inverted() then 0.0
                     else Total(s, r.RowMajor()) / ((r.toRow - r.fromRow + 1) * (r.toCol - r.fromCol + 1)) as real)
            && IsEmpty(s', destRow, destCol) == Ok(false)
            && (forall i, j :: (i, j) != (destRow, destCol) ==> Get(s', i, j) == Get(s, i, j) && IsEmpty(s', i, j) == IsEmpty(s, i, j))
  {
    var m := MacroAverage(r, destRow, destCol);
    var s' := Execute(m, s);
    OutsideUnchanged(s, s', m.Footprint());
    CountZeroIffInverted(r);
  }

  /** Over a single cell the average copies that cell, 0 if it was never written. */
  lemma AverageSingleCell(s: Sheet, row: nat, col: nat, destRow: nat, destCol: nat)
    ensures Get(Execute(MacroAverage(Rect(row, col, row, col), destRow, destCol), s), destRow, destCol)
            == Get(s, row, col)
  {
    var r := Rect(row, col, row, col);
    AverageExecute(s, r, destRow, destCol);
    assert r.RowMajor() == [CellPosition(row, col)];
  }

  // ---------------------------------------------------------------------
  // Worked examples and validation
  // ---------------------------------------------------------------------

  /** Filling a 2x2 block from a in steps of d writes a, a + d on its first
      row and a + 2d, a + 3d on its second. */
  lemma RangeAssignSquare(s: Sheet, x: nat, y: nat, a: real, d: real)
    ensures var s' := Execute(MacroRangeAssign(Rect(x, y, x + 1, y + 1), a, d), s);
            && Get(s', x, y) == Ok(a) && Get(s', x, y + 1) == Ok(a + d)
            && Get(s', x + 1, y) == Ok(a + 2.0 * d) && Get(s', x + 1, y + 1) == Ok(a + 3.0 * d)
  {
    var r := Rect(x, y, x + 1, y + 1);
    assert r.Rest() == Rect(x + 1, y, x + 1, y + 1);
    RangeAssignRead(s, r, a, d, x, y, 0);
    RangeAssignRead(s, r, a, d, x, y + 1, 1);
    RangeAssignRead(s, r, a, d, x + 1, y, 2);
    RangeAssignRead(s, r, a, d, x + 1, y + 1, 3);
    SmallMultiples(a, d);
  }

  /** The start value advanced 0, 1, 2 and 3 times. */
  lemma SmallMultiples(a: real, d: real)
    ensures a + 0 as real * d == a && a + 1 as real * d == a + d
    ensures a + 2 as real * d == a + 2.0 * d && a + 3 as real * d == a + 3.0 * d
  {
  }

  /** Averaging a 2x2 block holding a, a + d, a + 2d, a + 3d (as the
      incremental fill leaves it) into its own top-left cell writes a + 1.5 d,
      e.g. 2.5 for a = d = 1: the mean is taken over the values before the
      destination is written. */
  lemma AverageSquare(s: Sheet, x: nat, y: nat, a: real, d: real)
    requires Get(s, x, y) == Ok(a) && Get(s, x, y + 1) == Ok(a + d)
    requires Get(s, x + 1, y) == Ok(a + 2.0 * d) && Get(s, x + 1, y + 1) == Ok(a + 3.0 * d)
    ensures Get(Execute(MacroAverage(Rect(x, y, x + 1, y + 1), x, y), s), x, y) == Ok(a + 1.5 * d)
  {
    var r := Rect(x, y, x + 1, y + 1);
    SquareTotal(s, x, y, a, d);
    AverageExecute(s, r, x, y);
    QuarterOf(Total(s, r.RowMajor()), (r.toRow - r.fromRow + 1) * (r.toCol - r.fromCol + 1), a, d);
  }

  /** Filling a 2x2 block from 1 in steps of 1 and then averaging it into
      its top-left cell leaves 2.5 there. */
  lemma FillThenAverage(s: Sheet, x: nat, y: nat)
    ensures var r := Rect(x, y, x + 1, y + 1);
            var s' := Execute(MacroRangeAssign(r, 1.0, 1.0), s);
            Get(Execute(MacroAverage(r, x, y), s'), x, y) == Ok(2.5)
  {
    var s' := Execute(MacroRangeAssign(Rect(x, y, x + 1, y + 1), 1.0, 1.0), s);
    RangeAssignSquare(s, x, y, 1.0, 1.0);
    AverageSquare(s', x, y, 1.0, 1.0);
  }

  /** A quarter of 4a + 6d (the arithmetic step of `AverageSquare`). */
  lemma QuarterOf(t: real, n: int, a: real, d: real)
    requires t == 4.0 * a + 6.0 * d && n == 2 * 2
    ensures t / n as real == a + 1.5 * d
  {
  }

  /** The sum over a 2x2 block holding a, a + d, a + 2d, a + 3d. */
  lemma SquareTotal(s: Sheet, x: nat, y: nat, a: real, d: real)
    requires Get(s, x, y) == Ok(a) && Get(s, x, y + 1) == Ok(a + d)
    requires Get(s, x + 1, y) == Ok(a + 2.0 * d) && Get(s, x + 1, y + 1) == Ok(a + 3.0 * d)
    ensures Total(s, Rect(x, y, x + 1, y + 1).RowMajor()) == 4.0 * a + 6.0 * d
  {
    var row0 := [CellPosition(x, y), CellPosition(x, y + 1)];
    var row1 := [CellPosition(x + 1, y), CellPosition(x + 1, y + 1)];
    SquareRowMajor(Rect(x, y, x + 1, y + 1), x, y);
    TotalAppend(s, row0, row1);
    assert Total(s, row0) == 2.0 * a + d by {
      assert row0[1..] == [CellPosition(x, y + 1)];
      assert Total(s, row0[1..]) == a + d;
    }
    assert Total(s, row1) == 2.0 * a + 5.0 * d by {
      assert row1[1..] == [CellPosition(x + 1, y + 1)];
      assert Total(s, row1[1..]) == a + 3.0 * d;
    }
  }

  /** A 2x2 block is visited top-left, top-right, bottom-left, bottom-right. */
  lemma SquareRowMajor(r: Rect, x: int, y: int)
    requires r == Rect(x, y, x + 1, y + 1)
    ensures r.RowMajor() == [CellPosition(x, y), CellPosition(x, y + 1)] + [CellPosition(x + 1, y), CellPosition(x + 1, y + 1)]
  {
    assert RowCells(x, y, y + 1) == [CellPosition(x, y), CellPosition(x, y + 1)];
    assert RowCells(x + 1, y, y + 1) == [CellPosition(x + 1, y), CellPosition(x + 1, y + 1)];
    assert Rect(x + 2, y, x + 1, y + 1).RowMajor() == [];
    assert Rect(x + 1, y, x + 1, y + 1).RowMajor() == RowCells(x + 1, y, y + 1) + Rect(x + 2, y, x + 1, y + 1).RowMajor();
  }

  /** The commands disagree on inverted ranges: a uniform fill rejects one,
      the incremental fill and the average accept it (and do nothing, or
      write 0 respectively). */
  lemma ValidationAsymmetry(fromRow: nat, fromCol: nat, toRow: nat, toCol: nat, v: real, inc: real, destRow: nat, destCol: nat)
    requires toRow < fromRow || toCol < fromCol
    ensures NewBulkMacroAssign(fromRow, fromCol, toRow, toCol, v) == Err(InvalidRange)
    ensures NewMacroRangeAssign(fromRow, fromCol, toRow, toCol, v, inc).Ok?
    ensures NewMacroAverage(fromRow, fromCol, toRow, toCol, destRow, destCol).Ok?
  {
  }
}
