# Sparse spreadsheet with macros — a verified Dafny model

This project models the core of a small Java spreadsheet:

- **The sparse cell store** (`SparseSpreadSheet`). It maps `(row, column)` positions to numbers. A cell that was never written reads as 0. `width` and `height` are high-water marks: one more than the largest column and the largest row ever written. Every operation refuses negative coordinates.
- **The four macro commands**, each with its validating constructor and its `execute`:
  - `Macro`: write one cell.
  - `BulkMacroAssign`: write one value over a rectangle.
  - `MacroRangeAssign`: write a running value over a rectangle in row-major order, adding an increment after each cell.
  - `MacroAverage`: write the mean of a rectangle into a destination cell.

  A macro-capable sheet (`NewSparseSpreadSheet.execute`) simply runs the command on itself.
- **Row-label decoding** of the text controller (`getRowNum`). It reads a label such as `A`, `Z` or `AA` into a zero-based row number, in bijective base 26, ignoring case. It fails on any character that is not a letter.

Modules:

| module | file | contents |
|---|---|---|
| `Results` | results.dfy | `Result<T>` and the three error kinds. |
| `SparseSheet` | sparse_sheet.dfy | The store as an immutable record (`cells: map<CellPosition, real>`, `width`, `height`), `Get` / `Set` / `IsEmpty`, and the replay of a history of writes. |
| `Ranges` | ranges.dfy | Rectangles of cells, their row-major enumeration (`RowMajor`), and the rank of a cell in it (`Rank`). |
| `Macros` | macros.dfy | The closed `MacroCommand` datatype, the validating constructors, one recursive function per Java loop, and `Execute`. |
| `MacroProperties` | macro_properties.dfy | What each command does, stated through `Get` and `IsEmpty`. |
| `RowLabel` | row_label.dfy | `GetRowNum` with Java `int` wrap-around, the loop itself as a method, and the inverse `LabelOfRow`. |

Java exceptions become `Err` values. `Execute` requires `Valid()`, which holds exactly when the matching `New…` constructor returns `Ok` for the command's parameters (`ValidIffAccepted`). So `Execute` runs on just the commands a Java constructor can build without throwing. The properties in `MacroProperties` build commands directly and state `Valid()` as a precondition.

Each nested `for` loop of a command is a pair of recursive functions, one for the outer loop and one for the inner loop. Each takes the loop counter as a parameter and gives the next iteration's state to the recursive call.

For `MacroRangeAssign`, the running value leaves the inner loop through a separate function, `RunColumns`. That value feeds the next row. The contract proved about the loops is the closed form: the cell visited k-th receives `startValue + k * increment`.

The common frame for every command is `Overwrites(s, s', area)`. It says that:
- the keys of `s'` are the keys of `s` plus the cells of `area`;
- cells outside `area` keep their values;
- the bounds grow exactly to cover `area` (and stay put when `area` is inverted).

## Model

| member | source | states |
|---|---|---|
| SparseSheet.Empty | src/spreadsheet/SparseSpreadSheet.java:19-23 | A new sheet holds no cell, has width and height 0, and satisfies the store invariant. |
| SparseSheet.Get | src/spreadsheet/SparseSpreadSheet.java:34-39 | Fails exactly when a coordinate is negative, with the negative-coordinate error. Otherwise it returns the value stored at the position, or 0 if the position was never written. |
| SparseSheet.Put | src/spreadsheet/SparseSpreadSheet.java:54-61 | After a write, the keys are the old keys plus the written position, and that position reads the written value. Every other key keeps its value. Height and width become the max of the old bound and coordinate + 1. |
| SparseSheet.Set | src/spreadsheet/SparseSpreadSheet.java:50-62 | Fails exactly on a negative coordinate. Otherwise the written cell reads back the value and every other cell reads as before. Height and width become the max of the old bound and coordinate + 1, so they never decrease. The store invariant is kept. |
| SparseSheet.PutKeepsValid | src/spreadsheet/SparseSpreadSheet.java:54-61 | Writing a cell keeps the invariant: every key lies inside the bounds, and the last row and column are each reached by a key. |
| SparseSheet.IsEmpty | src/spreadsheet/SparseSpreadSheet.java:73-78 | Fails exactly on a negative coordinate. Otherwise it answers true iff the position is not a key, and an empty cell reads as 0. |
| SparseSheet.SetMakesNonEmpty | src/spreadsheet/SparseSpreadSheet.java:54 | After any write, even of 0, the cell is not empty, and no other cell changes emptiness. |
| SparseSheet.ReplaySucceeds | src/spreadsheet/SparseSpreadSheet.java:50-62 | A history of `set` calls from a new sheet runs through iff no write has a negative coordinate. The resulting sheet satisfies the invariant. |
| SparseSheet.ReplayBounds | src/spreadsheet/SparseSpreadSheet.java:87-100 | After a history of writes, `height` is 1 + the largest row written and `width` is 1 + the largest column written. Both are 0 iff nothing was written. |
| SparseSheet.ReplayCells | src/spreadsheet/SparseSpreadSheet.java:38 | After a history of writes, a cell is empty iff no write named it, and it reads the value of the last write naming it, or 0 if none did. |
| SparseSheet.WrittenLast | src/spreadsheet/SparseSpreadSheet.java:77 | A cell was written by a history iff the last write names it or an earlier write did. |
| Ranges.CountZeroIffInverted | src/spreadsheet/MacroAverage.java:49-55 | The nested loops visit no cell exactly when the range is inverted (to < from in a dimension). |
| Ranges.RankClosedForm | src/spreadsheet/MacroRangeAssign.java:49-53 | The rank of cell (i, j) in loop order is (i - fromRow) * (toCol - fromCol + 1) + (j - fromCol). |
| Ranges.RankBounds | src/spreadsheet/MacroRangeAssign.java:49-53 | A cell's rank is below the number of cells the loops visit. |
| Ranges.RowMajorIsRankOrder | src/spreadsheet/MacroRangeAssign.java:49-50 | The row-major enumeration and the rank are inverse, both ways: the k-th cell visited has rank k, and the cell of rank k is visited k-th. |
| Macros.NewMacro | src/spreadsheet/Macro.java:21-29 | Succeeds iff row and column are non-negative, for any value, and then yields a valid single-cell command. Otherwise it fails with the invalid-range error. |
| Macros.NewBulkMacroAssign | src/spreadsheet/BulkMacroAssign.java:24-33 | Succeeds iff both starts are non-negative and the range is not inverted. It fails otherwise. |
| Macros.NewMacroRangeAssign | src/spreadsheet/MacroRangeAssign.java:28-39 | Succeeds iff all four coordinates are non-negative. An inverted range is accepted. |
| Macros.NewMacroAverage | src/spreadsheet/MacroAverage.java:27-38 | Succeeds iff all six coordinates are non-negative. An inverted range is accepted. |
| Macros.ValidIffAccepted | src/spreadsheet/BulkMacroAssign.java:24-33 | A command is valid iff the constructor of its kind, given the command's own parameters, accepts them and builds that same command. |
| Macros.FillColumns | src/spreadsheet/BulkMacroAssign.java:43-45 | The inner loop writes the value into every cell of its row segment and into nothing else. |
| Macros.FillRows | src/spreadsheet/BulkMacroAssign.java:42-46 | The outer loop writes the value into every cell of the rectangle. Outside cells keep their values, and the bounds grow to cover the rectangle. |
| Macros.AssignColumns | src/spreadsheet/MacroRangeAssign.java:50-53 | The inner loop's writes touch exactly its row segment. |
| Macros.AssignRows | src/spreadsheet/MacroRangeAssign.java:49-54 | The outer loop's writes touch exactly the rectangle. |
| Macros.RunColumnsAdvances | src/spreadsheet/MacroRangeAssign.java:50-53 | After the inner loop, the running value has advanced once per column of the segment. |
| Macros.AdvanceClosedForm | src/spreadsheet/MacroRangeAssign.java:48-52 | Adding the increment k times to the start value gives start + k * increment. |
| Macros.AssignColumnsCell | src/spreadsheet/MacroRangeAssign.java:50-53 | Within a row segment, cell (row, j) receives the start value advanced j - col times. |
| Macros.AssignRowsCell | src/spreadsheet/MacroRangeAssign.java:48-54 | Over the rectangle, each cell receives the start value advanced by its row-major rank, i.e. once per cell visited before it. |
| Macros.TotalAppend | src/spreadsheet/MacroAverage.java:49-54 | The sum over two cell lists visited one after the other is the sum of the two sums. |
| Macros.SumColumns | src/spreadsheet/MacroAverage.java:50-53 | The inner loop adds the values of its row segment to the running sum, and the segment's length to the count. |
| Macros.SumRows | src/spreadsheet/MacroAverage.java:49-54 | The nested loops add the sum of the rectangle's values in row-major order to the sum, and its number of cells to the count. |
| Macros.Average | src/spreadsheet/MacroAverage.java:55 | For a positive count the result times the count is the sum. For a count of 0 the result is 0. |
| Macros.OverwritesKeepsValid | src/spreadsheet/SparseSpreadSheet.java:54-61 | A command's writes in a range of non-negative coordinates keep the store invariant. |
| Macros.Execute | src/spreadsheet/NewSparseSpreadSheet.java:15-17 | Running any valid command changes only the cells of its footprint: the cell, the rectangle or the destination. It adds those cells as keys, grows the bounds exactly over them, and keeps the store invariant. |
| MacroProperties.OutsideUnchanged | src/spreadsheet/BulkMacroAssign.java:42-46 | Cells outside a command's footprint read and test empty as before. |
| MacroProperties.MacroExecute | src/spreadsheet/Macro.java:37-39 | The macro's cell reads the value and is no longer empty. Every other cell reads and tests empty as before, and the bounds cover the cell. |
| MacroProperties.MacroIdempotent | src/spreadsheet/Macro.java:37-39 | Executing the macro twice leaves the same sheet as executing it once. |
| MacroProperties.BulkFillsRange | src/spreadsheet/BulkMacroAssign.java:42-46 | Every cell of the rectangle reads the value and is non-empty. Cells outside read and test empty as before. Height and width grow to cover the rectangle. |
| MacroProperties.BulkIdempotent | src/spreadsheet/BulkMacroAssign.java:42-46 | Filling the rectangle twice leaves the same sheet as filling it once. |
| MacroProperties.BulkSingleCell | test/BulkMacroAssignTest.java:30-35 | A one-cell range is accepted, and filling it leaves the same sheet as the single-cell macro. |
| MacroProperties.BulkIsRangeAssignWithoutIncrement | src/spreadsheet/BulkMacroAssign.java:42-46 | A uniform fill leaves the same sheet as the incremental fill with increment 0. |
| MacroProperties.AssignRowsClosedForm | src/spreadsheet/MacroRangeAssign.java:48-54 | After the loops, the cell of rank k holds the start value plus k increments. |
| MacroProperties.RangeAssignCell | src/spreadsheet/MacroRangeAssign.java:47-55 | Executing the command leaves start + k * increment in the cell the loops visit k-th. |
| MacroProperties.RangeAssignOutside | src/spreadsheet/MacroRangeAssign.java:49-54 | The incremental fill changes no cell outside its rectangle. |
| MacroProperties.RangeAssignRead | src/spreadsheet/MacroRangeAssign.java:47-55 | Read back through `get`, a cell of rank k in the rectangle holds start + k * increment and is non-empty. |
| MacroProperties.RangeAssignClosedForm | src/spreadsheet/MacroRangeAssign.java:48-54 | Read back through `get`, cell (i, j) of the rectangle holds start + k * increment, where k = (i - fromRow) * (toCol - fromCol + 1) + (j - fromCol). |
| MacroProperties.RangeAssignVisit | src/spreadsheet/MacroRangeAssign.java:49-53 | The k-th cell in loop order is non-empty and reads start + k * increment. |
| MacroProperties.RangeAssignInVisitOrder | src/spreadsheet/MacroRangeAssign.java:48-54 | For every k below the number of cells, the k-th cell in loop order reads start + k * increment. |
| MacroProperties.RangeAssignInverted | src/spreadsheet/MacroRangeAssign.java:30-32 | An inverted range is accepted, and executing it leaves the sheet exactly as it was. |
| MacroProperties.RangeAssignZeroIncrement | test/MacroRangeAssignTest.java:62-72 | With increment 0, every cell of the rectangle reads the start value. |
| MacroProperties.RangeAssignSingleCell | test/MacroRangeAssignTest.java:51-57 | A one-cell range leaves the same sheet as the single-cell macro with the start value, whatever the increment. |
| MacroProperties.RangeAssignIdempotent | src/spreadsheet/MacroRangeAssign.java:47-55 | Executing the incremental fill twice leaves the same sheet as executing it once. |
| MacroProperties.RangeAssignSquare | test/MacroRangeAssignTest.java:29-38 | On any sheet, a 2x2 fill from a in steps of d reads a, a + d / a + 2d, a + 3d. With a = d = 1 that is 1, 2 / 3, 4. |
| MacroProperties.AverageExecute | src/spreadsheet/MacroAverage.java:46-57 | The destination reads the sum of the range's pre-execution values, unwritten cells counting 0, divided by (toRow - fromRow + 1) * (toCol - fromCol + 1). For an inverted range it reads exactly 0. It becomes non-empty either way, and no other cell changes. |
| MacroProperties.AverageSingleCell | test/MacroAverageTest.java:52-58 | Averaging one cell copies its value into the destination, or 0 if it was never written. |
| MacroProperties.SquareTotal | src/spreadsheet/MacroAverage.java:49-54 | The sum over a 2x2 block holding a, a + d, a + 2d, a + 3d is 4a + 6d. |
| MacroProperties.AverageSquare | test/MacroAverageTest.java:87-93 | Averaging that block into its own top-left cell writes a + 1.5d. The sum uses the values from before the destination is overwritten. |
| MacroProperties.FillThenAverage | src/spreadsheet/MacroAverage.java:46-57 | Filling a 2x2 block with 1, 2, 3, 4 and averaging it into its top-left cell leaves 2.5 there. |
| MacroProperties.ValidationAsymmetry | src/spreadsheet/BulkMacroAssign.java:25-27 | For an inverted range with non-negative coordinates, the uniform fill refuses it while the incremental fill and the average accept it. |
| RowLabel.Wrap32 | src/spreadsheet/SpreadSheetController.java:108-117 | Java `int` arithmetic: the result is in [-2^31, 2^31), congruent to the input modulo 2^32, and equal to it when the input is in range. |
| RowLabel.WrapStep | src/spreadsheet/SpreadSheetController.java:115 | One step of `rownumber = 26 * rownumber + v` in `int` arithmetic gives the wrapped value of the unbounded step. |
| RowLabel.GetRowNum | src/spreadsheet/SpreadSheetController.java:107-118 | Fails, with the invalid-row error, iff some character is not a letter. Otherwise the result is a 32-bit value, and the empty label gives -1. |
| RowLabel.GetRowNumLoop | src/spreadsheet/SpreadSheetController.java:107-118 | The loop as written agrees with `GetRowNum`, including where it stops at the first non-letter and its `int` wrap-around. |
| RowLabel.ToLower | src/spreadsheet/SpreadSheetController.java:115 | A capital letter maps to the small letter at the same place in the alphabet. Any other character is unchanged. |
| RowLabel.LetterValue | src/spreadsheet/SpreadSheetController.java:115 | A letter of either case is worth its place in the alphabet, 1 to 26. |
| RowLabel.Accumulate | src/spreadsheet/SpreadSheetController.java:110-116 | The unbounded accumulation is 0 exactly for the empty label and non-negative otherwise. |
| RowLabel.GetRowNumNoOverflow | src/spreadsheet/SpreadSheetController.java:115-117 | A label of one to six letters reads, without overflow, to a row >= 0. |
| RowLabel.GetRowNumRecurrence | src/spreadsheet/SpreadSheetController.java:110-117 | For labels of at most five letters, appending letter c gives a new row + 1 equal to 26 * (old row + 1) + place(c). |
| RowLabel.GetRowNumWrappedRecurrence | src/spreadsheet/SpreadSheetController.java:110-117 | For labels of any length, appending letter c gives a new row + 1 that equals 26 * (old row + 1) + place(c) in 32-bit arithmetic. |
| RowLabel.AccumulateLabel | src/spreadsheet/SpreadSheetController.java:110-116 | The label written for n >= 1 reads back to n. |
| RowLabel.LabelAccumulate | src/spreadsheet/SpreadSheetController.java:110-116 | A non-empty capital label is the label written for its own value. |
| RowLabel.RowLabelRoundTrip | src/spreadsheet/SpreadSheetController.java:107-118 | Every row below 2^31 has a label that `getRowNum` reads back to that row. |
| RowLabel.GetRowNumRoundTrip | src/spreadsheet/SpreadSheetController.java:107-118 | A capital label of one to six letters reads to a row >= 0 whose written label is the same label. |
| RowLabel.AccumulateBound | src/spreadsheet/SpreadSheetController.java:110-116 | A label of k letters is worth less than 27^k. |
| RowLabel.GetRowNumIgnoresCase | src/spreadsheet/SpreadSheetController.java:115 | Labels that differ only in letter case name the same row, and fail together. |
| RowLabel.GetRowNumExamples | test/NewSpreadSheetControllerTest.java:69-71 | A is 0, J is 9, and both z and Z are 25. The empty label is -1. A1 is refused. |
| RowLabel.GetRowNumTwoLetterExamples | src/spreadsheet/SpreadSheetController.java:110-118 | AA is 26 and ab is 27. |
| RowLabel.GetRowNumOverflowExample | src/spreadsheet/SpreadSheetController.java:115-117 | FXSHRXY is worth 2^31 + 1, so its row number overflows to -2^31. |

## Left out

- The controller's REPL: the command loop, `Scanner` tokenising, messages, menu and output. These are I/O. The controller also passes `col - 1` to the sheet, so columns are typed starting from 1; that shift is not modelled.
- `NewSpreadSheetController.processCommand` and the `case` arms of `SpreadSheetController.processCommand` are argument parsing and are not modelled.
- Cell values are `real`, not IEEE-754 `double`: rounding, NaN and infinities are not modelled. With reals, the running `currentValue += increment` equals `start + k * increment` exactly, and `sum / count` is exact division.
- SparseSheet.Set: `row + 1` and `col + 1` are unbounded. The Java `int` overflow at `Integer.MAX_VALUE` (and the loop counters' overflow when a range ends there) is not modelled.
- Macros.SumRows: the count is an unbounded `nat`. In `MacroAverage.execute` it is an `int` (`MacroAverage.java:48`, `:52`), which wraps for a range of 2^31 cells or more and can then give a zero or negative divisor. That overflow is not modelled.
- `HashMap` and the `hashCode`/`equals` of the position key are not modelled: a Dafny `map` keyed by the `CellPosition` datatype has the same structural equality.
- RowLabel.IsLetter: only ASCII letters count as letters. For other Unicode letters, Java's `Character.isAlphabetic` accepts them and the loop computes some number from their lower-case code. Here they are treated as failures.
- The `MacroCommand` and `MacroSpreadSheet` interfaces, and the delegation in `NewSparseSpreadSheet.execute`, have no logic of their own. They are folded into `Macros.Execute`'s dispatch on the command.
- That `get`, `isEmpty`, `getWidth` and `getHeight` do not change the sheet is not stated as a lemma: the model's store is an immutable value, so a read cannot change it.
- `getWidth` and `getHeight` are the `width` and `height` fields of the `Sheet` record. What they return is stated by `ReplayBounds` and by the bounds clauses of `Set` and `Execute`.
- A failed `set` leaves the store unchanged. In the model that holds by construction, because `Set` returns an error instead of a sheet.
- RowLabel.GetRowNumRecurrence and RowLabel.GetRowNumNoOverflow are stated only for labels short enough not to overflow a Java `int`. For longer labels, `GetRowNumWrappedRecurrence` states the same step modulo 2^32, and `GetRowNum` and `GetRowNumLoop` model the wrap-around itself.
