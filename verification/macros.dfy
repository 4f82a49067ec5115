/** The four macro commands, their validating constructors, and their
    execution against a sheet. Each nested Java loop is mirrored by a pair of
    recursive functions, one per loop, whose contracts give the loop's effect
    in closed form. */
module Macros {
  import opened Results
  import opened SparseSheet
  import opened Ranges

  /** The closed set of macro commands; each holds only its own parameters. */
  datatype MacroCommand =
    | Macro(row: int, col: int, value: real)
    | BulkMacroAssign(range: Rect, value: real)
    | MacroRangeAssign(range: Rect, startValue: real, increment: real)
    | MacroAverage(range: Rect, destRow: int, destCol: int)
  {
    /** What each constructor checks. Only the uniform fill demands that the
        range is not inverted; the other two range commands accept it. */
    predicate Valid() {
      match this
      case Macro(row, col, _) => row >= 0 && col >= 0
      case BulkMacroAssign(r, _) =>
        r.fromRow >= 0 && r.fromCol >= 0 && r.toRow >= r.fromRow && r.toCol >= r.fromCol
      case MacroRangeAssign(r, _, _) =>
        r.fromRow >= 0 && r.fromCol >= 0 && r.toRow >= 0 && r.toCol >= 0
      case MacroAverage(r, destRow, destCol) =>
        r.fromRow >= 0 && r.fromCol >= 0 && r.toRow >= 0 && r.toCol >= 0 && destRow >= 0 && destCol >= 0
    }

    /** The cells that executing the command writes. */
    function Footprint(): Rect {
      match this
      case Macro(row, col, _) => Rect(row, col, row, col)
      case BulkMacroAssign(r, _) => r
      case MacroRangeAssign(r, _, _) => r
      case MacroAverage(_, destRow, destCol) => Rect(destRow, destCol, destRow, destCol)
    }
  }

  // ---------------------------------------------------------------------
  // Validating constructors
  // ---------------------------------------------------------------------

  /** `new Macro(row, col, value)`. */
  function NewMacro(row: int, col: int, value: real): (r: Result<MacroCommand>)
    ensures r.Ok? <==> row >= 0 && col >= 0
    ensures r.Ok? ==> r.value == Macro(row, col, value) && r.value.Valid()
    ensures r.Err? ==> r.error == InvalidRange
  {
    if row < 0 || col < 0 then Err(InvalidRange) else Ok(Macro(row, col, value))
  }

  /** `new BulkMacroAssign(fromRow, fromCol, toRow, toCol, value)`. */
  function NewBulkMacroAssign(fromRow: int, fromCol: int, toRow: int, toCol: int, value: real): (r: Result<MacroCommand>)
    ensures r.Ok? <==> fromRow >= 0 && fromCol >= 0 && !Rect(fromRow, fromCol, toRow, toCol).Inverted()
    ensures r.Ok? ==> r.value == BulkMacroAssign(Rect(fromRow, fromCol, toRow, toCol), value) && r.value.Valid()
    ensures r.Err? ==> r.error == InvalidRange
  {
    if fromRow < 0 || fromCol < 0 || toRow < fromRow || toCol < fromCol then Err(InvalidRange)
    else Ok(BulkMacroAssign(Rect(fromRow, fromCol, toRow, toCol), value))
  }

  /** `new MacroRangeAssign(fromRow, fromCol, toRow, toCol, startValue, increment)`. */
  function NewMacroRangeAssign(fromRow: int, fromCol: int, toRow: int, toCol: int,
                               startValue: real, increment: real): (r: Result<MacroCommand>)
    ensures r.Ok? <==> fromRow >= 0 && fromCol >= 0 && toRow >= 0 && toCol >= 0
    ensures r.Ok? ==> r.value == MacroRangeAssign(Rect(fromRow, fromCol, toRow, toCol), startValue, increment)
                      && r.value.Valid()
    ensures r.Err? ==> r.error == InvalidRange
  {
    if fromRow < 0 || fromCol < 0 || toRow < 0 || toCol < 0 then Err(InvalidRange)
    else Ok(MacroRangeAssign(Rect(fromRow, fromCol, toRow, toCol), startValue, increment))
  }

  /** `new MacroAverage(fromRow, fromCol, toRow, toCol, destRow, destCol)`. */
  function NewMacroAverage(fromRow: int, fromCol: int, toRow: int, toCol: int,
                           destRow: int, destCol: int): (r: Result<MacroCommand>)
    ensures r.Ok? <==> fromRow >= 0 && fromCol >= 0 && toRow >= 0 && toCol >= 0 && destRow >= 0 && destCol >= 0
    ensures r.Ok? ==> r.value == MacroAverage(Rect(fromRow, fromCol, toRow, toCol), destRow, destCol)
                      && r.value.Valid()
    ensures r.Err? ==> r.error == InvalidRange
  {
    if fromRow < 0 || fromCol < 0 || toRow < 0 || toCol < 0 || destRow < 0 || destCol < 0 then Err(InvalidRange)
    else Ok(MacroAverage(Rect(fromRow, fromCol, toRow, toCol), destRow, destCol))
  }

  /** `Valid()` is exactly what the constructors check: a command is valid iff
      the matching constructor, given the command's own parameters, accepts
      them and builds that very command. */
  lemma ValidIffAccepted(m: MacroCommand)
    ensures m.Valid() <==>
              match m
              case Macro(row, col, value) => NewMacro(row, col, value) == Ok(m)
              case BulkMacroAssign(r, value) =>
                NewBulkMacroAssign(r.fromRow, r.fromCol, r.toRow, r.toCol, value) == Ok(m)
              case MacroRangeAssign(r, startValue, increment) =>
                NewMacroRangeAssign(r.fromRow, r.fromCol, r.toRow, r.toCol, startValue, increment) == Ok(m)
              case MacroAverage(r, destRow, destCol) =>
                NewMacroAverage(r.fromRow, r.fromCol, r.toRow, r.toCol, destRow, destCol) == Ok(m)
  {
  }

  // ---------------------------------------------------------------------
  // The effect of writing a range
  // ---------------------------------------------------------------------

  /** `s'` is `s` after a write to every cell of `area` and to no other cell:
      the written cells become keys, every other cell keeps its presence and
      value, and the bounds rise to cover the area (if it holds any cell). */
  ghost predicate Overwrites(s: Sheet, s': Sheet, area: Rect) {
    && (forall p {:trigger p in s'.cells} :: p in s'.cells <==> p in s.cells || area.Contains(p))
    && (forall p {:trigger s'.cells[p]} :: p in s.cells && !area.Contains(p) ==> s'.cells[p] == s.cells[p])
    && s'.height == (if area.Inverted() then s.height else Max(s.height, area.toRow + 1))
    && s'.width == (if area.Inverted() then s.width else Max(s.width, area.toCol + 1))
  }

  /** Writing a range of non-negative cells keeps a sheet valid. */
  lemma OverwritesKeepsValid(s: Sheet, s': Sheet, area: Rect)
    requires Overwrites(s, s', area)
    requires area.fromRow >= 0 && area.fromCol >= 0
    ensures Valid(s) ==> Valid(s')
  {
    if Valid(s) && !area.Inverted() {
      if s'.height > 0 {
        if s'.height == s.height {
          var p :| p in s.cells && p.row == s.height - 1;
          assert p in s'.cells;
        } else {
          assert area.Contains(CellPosition(area.toRow, area.fromCol));
        }
      }
      if s'.width > 0 {
        if s'.width == s.width {
          var p :| p in s.cells && p.column == s.width - 1;
          assert p in s'.cells;
        } else {
          assert area.Contains(CellPosition(area.fromRow, area.toCol));
        }
      }
    }
  }

  /** A write to one cell overwrites exactly that cell. */
  lemma PutOverwrites(s: Sheet, row: nat, col: nat, v: real)
    ensures Overwrites(s, Put(s, row, col, v), Rect(row, col, row, col))
  {
  }

  /** Writing the first cell of a row and then the rest of the row writes the row. */
  lemma OverwritesCellThenRow(s: Sheet, s1: Sheet, s2: Sheet, row: int, col: int, toCol: int)
    requires col <= toCol
    requires Overwrites(s, s1, Rect(row, col, row, col))
    requires Overwrites(s1, s2, Rect(row, col + 1, row, toCol))
    ensures Overwrites(s, s2, Rect(row, col, row, toCol))
  {
  }

  /** Writing the first row of a range and then the rest of it writes the range. */
  lemma OverwritesRowThenRest(s: Sheet, s1: Sheet, s2: Sheet, r: Rect)
    requires r.fromRow <= r.toRow
    requires Overwrites(s, s1, Rect(r.fromRow, r.fromCol, r.fromRow, r.toCol))
    requires Overwrites(s1, s2, r.Rest())
    ensures Overwrites(s, s2, r)
  {
  }

  // ---------------------------------------------------------------------
  // BulkMacroAssign.execute: the same value into every cell
  // ---------------------------------------------------------------------

  /** The inner loop: columns `col..toCol` of one row. */
  function FillColumns(s: Sheet, row: nat, col: nat, toCol: int, value: real): (s': Sheet)
    ensures Overwrites(s, s', Rect(row, col, row, toCol))
    ensures forall p :: Rect(row, col, row, toCol).Contains(p) ==> s'.cells[p] == value
    decreases toCol - col
  {
    if col > toCol then s
    else
      var s1 := Put(s, row, col, value);
      var s2 := FillColumns(s1, row, col + 1, toCol, value);
      PutOverwrites(s, row, col, value);
      OverwritesCellThenRow(s, s1, s2, row, col, toCol);
      s2
  }

  /** The outer loop: rows `row..toRow`, each over columns `fromCol..toCol`. */
  function FillRows(s: Sheet, row: nat, fromCol: nat, toRow: int, toCol: int, value: real): (s': Sheet)
    ensures Overwrites(s, s', Rect(row, fromCol, toRow, toCol))
    ensures forall p :: Rect(row, fromCol, toRow, toCol).Contains(p) ==> s'.cells[p] == value
    decreases toRow - row
  {
    if row > toRow then s
    else
      var s1 := FillColumns(s, row, fromCol, toCol, value);
      var s2 := FillRows(s1, row + 1, fromCol, toRow, toCol, value);
      OverwritesRowThenRest(s, s1, s2, Rect(row, fromCol, toRow, toCol));
      s2
  }

  // ---------------------------------------------------------------------
  // MacroRangeAssign.execute: a running value, incremented after each cell
  // ---------------------------------------------------------------------

  lemma Distribute(a: int, b: int, x: real)
    ensures (a + b) as real * x == a as real * x + b as real * x
  {
  }

  /** The writes of the inner loop: the cell at `col` receives the running
      value, which then goes up by the increment for the next column. */
  function AssignColumns(s: Sheet, row: nat, col: nat, toCol: int, current: real, increment: real): (s': Sheet)
    ensures Overwrites(s, s', Rect(row, col, row, toCol))
    decreases toCol - col
  {
    if col > toCol then s
    else
      var s1 := Put(s, row, col, current);
      var s2 := AssignColumns(s1, row, col + 1, toCol, current + increment, increment);
      PutOverwrites(s, row, col, current);
      OverwritesCellThenRow(s, s1, s2, row, col, toCol);
      s2
  }

  /** The running value as the inner loop leaves it. */
  function RunColumns(col: int, toCol: int, current: real, increment: real): real
    decreases toCol - col
  {
    if col > toCol then current else RunColumns(col + 1, toCol, current + increment, increment)
  }

  /** The outer loop; the running value carries over from row to row. */
  function AssignRows(s: Sheet, row: nat, fromCol: nat, toRow: int, toCol: int,
                      current: real, increment: real): (s': Sheet)
    ensures Overwrites(s, s', Rect(row, fromCol, toRow, toCol))
    decreases toRow - row
  {
    if row > toRow then s
    else
      var s1 := AssignColumns(s, row, fromCol, toCol, current, increment);
      var s2 := AssignRows(s1, row + 1, fromCol, toRow, toCol, RunColumns(fromCol, toCol, current, increment), increment);
      OverwritesRowThenRest(s, s1, s2, Rect(row, fromCol, toRow, toCol));
      s2
  }

  /** The running value after `k` executions of `currentValue += increment`. */
  function Advance(current: real, increment: real, k: nat): real {
    if k == 0 then current else Advance(current, increment, k - 1) + increment
  }

  /** Advancing by `a` and then by `b` is advancing by `a + b`. */
  lemma {:induction false} AdvanceAdd(current: real, increment: real, a: nat, b: nat)
    ensures Advance(Advance(current, increment, a), increment, b) == Advance(current, increment, a + b)
    decreases b
  {
    if b > 0 {
      AdvanceAdd(current, increment, a, b - 1);
    }
  }

  /** Starting one increment later is the same as advancing once more. */
  lemma {:induction false} AdvanceSucc(current: real, increment: real, k: nat)
    ensures Advance(current + increment, increment, k) == Advance(current, increment, k + 1)
    decreases k
  {
    if k > 0 {
      AdvanceSucc(current, increment, k - 1);
    }
  }

  /** Advancing `a` times and then `b` times, seen from the value reached after `a`. */
  lemma AdvanceThenAdvance(current: real, increment: real, a: nat, b: nat, x: real, n: nat)
    requires x == Advance(current, increment, a) && n == a + b
    ensures Advance(x, increment, b) == Advance(current, increment, n)
  {
    AdvanceAdd(current, increment, a, b);
  }

  /** The running value after `k` increments is `current + k * increment`. */
  lemma {:induction false} AdvanceClosedForm(current: real, increment: real, k: nat)
    ensures Advance(current, increment, k) == current + k as real * increment
    decreases k
  {
    if k > 0 {
      AdvanceClosedForm(current, increment, k - 1);
      Distribute(k - 1, 1, increment);
    }
  }

  /** After one row, the running value has advanced once per cell of the row. */
  lemma {:induction false} RunColumnsAdvances(col: int, toCol: int, current: real, increment: real)
    ensures RunColumns(col, toCol, current, increment) == Advance(current, increment, Rect(0, col, 0, toCol).Cols())
    decreases toCol - col
  {
    if col <= toCol {
      RunColumnsAdvances(col + 1, toCol, current + increment, increment);
      AdvanceSucc(current, increment, Rect(0, col + 1, 0, toCol).Cols());
    }
  }

  /** A cell outside the written area keeps its value. */
  lemma KeptCell(s: Sheet, s': Sheet, area: Rect, p: CellPosition)
    requires Overwrites(s, s', area)
    requires p in s.cells && !area.Contains(p)
    ensures p in s'.cells && s'.cells[p] == s.cells[p]
  {
  }

  /** Along one row, the cell `j - col` places after the first receives the
      running value advanced that many times. */
  lemma {:induction false} AssignColumnsCell(s: Sheet, row: nat, col: nat, toCol: int, current: real, increment: real, j: int)
    requires col <= j <= toCol
    ensures CellPosition(row, j) in AssignColumns(s, row, col, toCol, current, increment).cells
    ensures AssignColumns(s, row, col, toCol, current, increment).cells[CellPosition(row, j)]
            == Advance(current, increment, j - col)
    decreases toCol - col
  {
    var s1 := Put(s, row, col, current);
    var s2 := AssignColumns(s1, row, col + 1, toCol, current + increment, increment);
    assert AssignColumns(s, row, col, toCol, current, increment) == s2;
    if j == col {
      KeptCell(s1, s2, Rect(row, col + 1, row, toCol), CellPosition(row, col));
    } else {
      AssignColumnsCell(s1, row, col + 1, toCol, current + increment, increment, j);
      AdvanceSucc(current, increment, j - col - 1);
    }
  }

  /** Over the whole range, each cell receives the start value advanced once
      per cell visited before it, i.e. by its row-major rank. */
  lemma {:induction false} AssignRowsCell(s: Sheet, row: nat, fromCol: nat, toRow: int, toCol: int,
                                         current: real, increment: real, p: CellPosition)
    requires Rect(row, fromCol, toRow, toCol).Contains(p)
    ensures p in AssignRows(s, row, fromCol, toRow, toCol, current, increment).cells
    ensures AssignRows(s, row, fromCol, toRow, toCol, current, increment).cells[p]
            == Advance(current, increment, Rect(row, fromCol, toRow, toCol).Rank(p))
    decreases toRow - row
  {
    if p.row == row {
      AssignRowsFirstRow(s, row, fromCol, toRow, toCol, current, increment, p);
    } else {
      var next := RunColumns(fromCol, toCol, current, increment);
      var s1 := AssignColumns(s, row, fromCol, toCol, current, increment);
      AssignRowsCell(s1, row + 1, fromCol, toRow, toCol, next, increment, p);
      AssignRowsLaterRow(s, row, fromCol, toRow, toCol, current, increment, p);
    }
  }

  /** A cell of the first row gets its value from the inner loop, and the
      later rows leave it alone. */
  lemma AssignRowsFirstRow(s: Sheet, row: nat, fromCol: nat, toRow: int, toCol: int,
                           current: real, increment: real, p: CellPosition)
    requires Rect(row, fromCol, toRow, toCol).Contains(p) && p.row == row
    ensures p in AssignRows(s, row, fromCol, toRow, toCol, current, increment).cells
    ensures AssignRows(s, row, fromCol, toRow, toCol, current, increment).cells[p]
            == Advance(current, increment, p.column - fromCol)
  {
    var next := RunColumns(fromCol, toCol, current, increment);
    var s1 := AssignColumns(s, row, fromCol, toCol, current, increment);
    var s2 := AssignRows(s1, row + 1, fromCol, toRow, toCol, next, increment);
    var v := Advance(current, increment, p.column - fromCol);
    AssignColumnsCell(s, row, fromCol, toCol, current, increment, p.column);
    assert p in s1.cells && s1.cells[p] == v;
    KeptCell(s1, s2, Rect(row + 1, fromCol, toRow, toCol), p);
    assert p in s2.cells && s2.cells[p] == v;
    assert AssignRows(s, row, fromCol, toRow, toCol, current, increment) == s2;
  }

  /** A cell below the first row gets the value the later rows give it, with
      the running value as the first row left it. */
  lemma AssignRowsLaterRow(s: Sheet, row: nat, fromCol: nat, toRow: int, toCol: int,
                           current: real, increment: real, p: CellPosition)
    requires Rect(row, fromCol, toRow, toCol).Contains(p) && p.row > row
    requires var next := RunColumns(fromCol, toCol, current, increment);
             var s1 := AssignColumns(s, row, fromCol, toCol, current, increment);
             && p in AssignRows(s1, row + 1, fromCol, toRow, toCol, next, increment).cells
             && AssignRows(s1, row + 1, fromCol, toRow, toCol, next, increment).cells[p]
                == Advance(next, increment, Rect(row + 1, fromCol, toRow, toCol).Rank(p))
    ensures p in AssignRows(s, row, fromCol, toRow, toCol, current, increment).cells
    ensures AssignRows(s, row, fromCol, toRow, toCol, current, increment).cells[p]
            == Advance(current, increment, Rect(row, fromCol, toRow, toCol).Rank(p))
  {
    var r := Rect(row, fromCol, toRow, toCol);
    var next := RunColumns(fromCol, toCol, current, increment);
    RunColumnsAdvances(fromCol, toCol, current, increment);
    assert Rect(0, fromCol, 0, toCol).Cols() == r.Cols();
    var later := Rect(row + 1, fromCol, toRow, toCol).Rank(p);
    assert r.Rest() == Rect(row + 1, fromCol, toRow, toCol);
    assert r.Rank(p) == r.Cols() + later;
    AdvanceThenAdvance(current, increment, r.Cols(), later, next, r.Rank(p));
    var s1 := AssignColumns(s, row, fromCol, toCol, current, increment);
    var s2 := AssignRows(s1, row + 1, fromCol, toRow, toCol, next, increment);
    assert AssignRows(s, row, fromCol, toRow, toCol, current, increment) == s2;
  }

  // ---------------------------------------------------------------------
  // MacroAverage.execute: sum and count over the range, then one write
  // ---------------------------------------------------------------------

  /** The sum of the values read at the given cells (0.0 for unwritten ones). */
  function Total(s: Sheet, ps: seq<CellPosition>): real
    decreases |ps|
  {
    if |ps| == 0 then 0.0 else Read(s, ps[0].row, ps[0].column) + Total(s, ps[1..])
  }

  lemma {:induction false} TotalAppend(s: Sheet, a: seq<CellPosition>, b: seq<CellPosition>)
    ensures Total(s, a + b) == Total(s, a) + Total(s, b)
    decreases |a|
  {
    if |a| > 0 {
      assert (a + b)[1..] == a[1..] + b;
      TotalAppend(s, a[1..], b);
    } else {
      assert a + b == b;
    }
  }

  /** The inner loop; returns the running sum and count after the row. */
  function SumColumns(s: Sheet, row: nat, col: nat, toCol: int, sum: real, count: nat): (res: (real, nat))
    ensures res.0 == sum + Total(s, RowCells(row, col, toCol))
    ensures res.1 == count + Rect(row, col, row, toCol).Count()
    decreases toCol - col
  {
    if col > toCol then (sum, count)
    else
      RowCellsFirst(row, col, toCol);
      assert ([CellPosition(row, col)] + RowCells(row, col + 1, toCol))[1..] == RowCells(row, col + 1, toCol);
      SumColumns(s, row, col + 1, toCol, sum + Read(s, row, col), count + 1)
  }

  /** The outer loop; sum and count carry over from row to row. */
  function SumRows(s: Sheet, row: nat, fromCol: nat, toRow: int, toCol: int, sum: real, count: nat): (res: (real, nat))
    ensures res.0 == sum + Total(s, Rect(row, fromCol, toRow, toCol).RowMajor())
    ensures res.1 == count + Rect(row, fromCol, toRow, toCol).Count()
    decreases toRow - row
  {
    if row > toRow then (sum, count)
    else
      var r := Rect(row, fromCol, toRow, toCol);
      var first := SumColumns(s, row, fromCol, toCol, sum, count);
      TotalAppend(s, RowCells(row, fromCol, toCol), r.Rest().RowMajor());
      MulSucc(r.Rest().Rows(), r.Cols());
      SumRows(s, row + 1, fromCol, toRow, toCol, first.0, first.1)
  }

  /** The value the average macro writes: the sum over the count, or 0 when
      the loops visited no cell. */
  function Average(sum: real, count: nat): (a: real)
    ensures count > 0 ==> a * count as real == sum
    ensures count == 0 ==> a == 0.0
  {
    if count > 0 then sum / count as real else 0.0
  }

  // ---------------------------------------------------------------------
  // MacroCommand.execute, and MacroSpreadSheet.execute which delegates to it
  // ---------------------------------------------------------------------

  /** `command.execute(sheet)`, which `MacroSpreadSheet.execute(command)` delegates
      to. Construction guarantees that every cell the command writes has
      non-negative coordinates, so no write inside the loops can fail. */
  function Execute(m: MacroCommand, s: Sheet): (s': Sheet)
    requires m.Valid()
    ensures Overwrites(s, s', m.Footprint())
    ensures Valid(s) ==> Valid(s')
  {
    var s' :=
      match m
      case Macro(row, col, value) => Put(s, row, col, value)
      case BulkMacroAssign(r, value) => FillRows(s, r.fromRow, r.fromCol, r.toRow, r.toCol, value)
      case MacroRangeAssign(r, startValue, increment) =>
        AssignRows(s, r.fromRow, r.fromCol, r.toRow, r.toCol, startValue, increment)
      case MacroAverage(r, destRow, destCol) =>
        var res := SumRows(s, r.fromRow, r.fromCol, r.toRow, r.toCol, 0.0, 0);
        Put(s, destRow, destCol, Average(res.0, res.1));
    OverwritesKeepsValid(s, s', m.Footprint());
    s'
  }
}
