/** The sparse cell store: a map from cell positions to values, with a width
    and a height that are high-water marks of every write ever made. */
module SparseSheet {
  import opened Results

  /** A cell address. Equality is structural, so it can key a map. */
  datatype CellPosition = CellPosition(row: int, column: int)

  /** Only cells that were written at least once are keys of `cells`. */
  datatype Sheet = Sheet(cells: map<CellPosition, real>, width: nat, height: nat)

  function Max(a: int, b: int): int {
    if a < b then b else a
  }

  /** The invariant every sheet built by `Set` from `Empty` keeps: keys are
      non-negative and the bounds are tight around them. */
  ghost predicate Valid(s: Sheet) {
    && (forall p :: p in s.cells ==> 0 <= p.row < s.height && 0 <= p.column < s.width)
    && (s.height > 0 ==> exists p :: p in s.cells && p.row == s.height - 1)
    && (s.width > 0 ==> exists p :: p in s.cells && p.column == s.width - 1)
  }

  /** A new sheet: no cells, zero width and height. */
  function Empty(): (s: Sheet)
    ensures Valid(s)
    ensures s.width == 0 && s.height == 0
    ensures forall row, col :: CellPosition(row, col) !in s.cells
  {
    Sheet(map[], 0, 0)
  }

  /** The value stored at a position, or 0.0 if it was never written. */
  function Read(s: Sheet, row: int, col: int): real {
    var p := CellPosition(row, col);
    if p in s.cells then s.cells[p] else 0.0
  }

  /** `get`: refuses negative coordinates, otherwise reads (never writes). */
  function Get(s: Sheet, row: int, col: int): (r: Result<real>)
    ensures r.Err? <==> row < 0 || col < 0
    ensures r.Err? ==> r.error == NegativeCoordinate
    ensures r.Ok? && CellPosition(row, col) in s.cells ==> r.value == s.cells[CellPosition(row, col)]
    ensures r.Ok? && CellPosition(row, col) !in s.cells ==> r.value == 0.0
  {
    if row < 0 || col < 0 then Err(NegativeCoordinate) else Ok(Read(s, row, col))
  }

  /** The write that `set` performs once its coordinates passed the check. */
  function Put(s: Sheet, row: nat, col: nat, v: real): (s': Sheet)
    ensures s'.cells.Keys == s.cells.Keys + {CellPosition(row, col)}
    ensures Read(s', row, col) == v
    ensures forall p :: p in s.cells && p != CellPosition(row, col) ==> s'.cells[p] == s.cells[p]
    ensures s'.height == Max(s.height, row + 1) && s'.width == Max(s.width, col + 1)
  {
    Sheet(s.cells[CellPosition(row, col) := v], Max(s.width, col + 1), Max(s.height, row + 1))
  }

  /** A write keeps the sheet valid. */
  lemma PutKeepsValid(s: Sheet, row: nat, col: nat, v: real)
    ensures Valid(s) ==> Valid(Put(s, row, col, v))
  {
    var s' := Put(s, row, col, v);
    if Valid(s) {
      var q := CellPosition(row, col);
      assert q in s'.cells;
      if s'.height > 0 {
        if s'.height == row + 1 {
          assert q.row == s'.height - 1;
        } else {
          var p :| p in s.cells && p.row == s.height - 1;
          assert p in s'.cells;
        }
      }
      if s'.width > 0 {
        if s'.width == col + 1 {
          assert q.column == s'.width - 1;
        } else {
          var p :| p in s.cells && p.column == s.width - 1;
          assert p in s'.cells;
        }
      }
    }
  }

  /** `set`: refuses negative coordinates and otherwise stores the value,
      raising width and height to cover the cell. */
  function Set(s: Sheet, row: int, col: int, v: real): (r: Result<Sheet>)
    ensures r.Err? <==> row < 0 || col < 0
    ensures r.Err? ==> r.error == NegativeCoordinate
    ensures r.Ok? ==> Get(r.value, row, col) == Ok(v)
    ensures r.Ok? ==> forall i, j :: (i, j) != (row, col) ==> Get(r.value, i, j) == Get(s, i, j)
    ensures r.Ok? ==> r.value.height == Max(s.height, row + 1) && r.value.width == Max(s.width, col + 1)
    ensures r.Ok? ==> r.value.height >= s.height && r.value.width >= s.width
    ensures r.Ok? && Valid(s) ==> Valid(r.value)
  {
    if row < 0 || col < 0 then Err(NegativeCoordinate)
    else
      PutKeepsValid(s, row, col, v);
      Ok(Put(s, row, col, v))
  }

  /** `isEmpty`: refuses negative coordinates; true iff the position is not a key. */
  function IsEmpty(s: Sheet, row: int, col: int): (r: Result<bool>)
    ensures r.Err? <==> row < 0 || col < 0
    ensures r.Err? ==> r.error == NegativeCoordinate
    ensures r.Ok? ==> (r.value <==> CellPosition(row, col) !in s.cells)
    ensures r.Ok? && r.value ==> Get(s, row, col) == Ok(0.0)
  {
    if row < 0 || col < 0 then Err(NegativeCoordinate) else Ok(CellPosition(row, col) !in s.cells)
  }

  // ---------------------------------------------------------------------
  // Properties of single operations
  // ---------------------------------------------------------------------

  /** Writing a cell makes it non-empty, whatever the value, including 0.0. */
  lemma SetMakesNonEmpty(s: Sheet, row: nat, col: nat, v: real)
    ensures Set(s, row, col, v).Ok?
    ensures IsEmpty(Set(s, row, col, v).value, row, col) == Ok(false)
    ensures forall i: nat, j: nat :: (i, j) != (row, col) ==>
              IsEmpty(Set(s, row, col, v).value, i, j) == IsEmpty(s, i, j)
  {
  }

  // ---------------------------------------------------------------------
  // Histories of writes
  // ---------------------------------------------------------------------

  /** One `set(row, col, value)` call. */
  datatype Assignment = Assignment(row: int, col: int, value: real)

  /** The sheet obtained by running the writes, in order, on a new sheet;
      the first write with a negative coordinate aborts with its error. */
  function Replay(writes: seq<Assignment>): Result<Sheet>
    decreases |writes|
  {
    if |writes| == 0 then Ok(Empty())
    else
      var w := writes[|writes| - 1];
      match Replay(writes[..|writes| - 1])
      case Err(e) => Err(e)
      case Ok(s) => Set(s, w.row, w.col, w.value)
  }

  /** True iff the history contains a write to (row, col). */
  predicate Written(writes: seq<Assignment>, row: int, col: int) {
    exists k :: 0 <= k < |writes| && writes[k].row == row && writes[k].col == col
  }

  /** The value of the last write to (row, col) in the history, 0.0 if there is none:
      what a log of the writes says the cell holds. */
  function LastWritten(writes: seq<Assignment>, row: int, col: int): real
    decreases |writes|
  {
    if |writes| == 0 then 0.0
    else
      var w := writes[|writes| - 1];
      if w.row == row && w.col == col then w.value else LastWritten(writes[..|writes| - 1], row, col)
  }

  /** Replaying a non-empty history is replaying its prefix, then its last write. */
  lemma ReplayLast(writes: seq<Assignment>)
    requires |writes| > 0
    ensures Replay(writes) ==
              match Replay(writes[..|writes| - 1])
              case Err(e) => Err(e)
              case Ok(s) => Set(s, writes[|writes| - 1].row, writes[|writes| - 1].col, writes[|writes| - 1].value)
  {
  }

  lemma WrittenLast(writes: seq<Assignment>, row: int, col: int)
    requires |writes| > 0
    ensures Written(writes, row, col) <==>
              Written(writes[..|writes| - 1], row, col)
              || (writes[|writes| - 1].row == row && writes[|writes| - 1].col == col)
  {
    var prefix := writes[..|writes| - 1];
    if Written(writes, row, col) && !(writes[|writes| - 1].row == row && writes[|writes| - 1].col == col) {
      var k :| 0 <= k < |writes| && writes[k].row == row && writes[k].col == col;
      assert prefix[k] == writes[k];
    }
    if Written(prefix, row, col) {
      var k :| 0 <= k < |prefix| && prefix[k].row == row && prefix[k].col == col;
      assert writes[k] == prefix[k];
    }
  }

  /** A history replays without error iff every write has non-negative coordinates. */
  lemma {:induction false} ReplayOkIff(writes: seq<Assignment>)
    ensures Replay(writes).Ok? <==> forall k :: 0 <= k < |writes| ==> writes[k].row >= 0 && writes[k].col >= 0
    decreases |writes|
  {
    if |writes| > 0 {
      var prefix := writes[..|writes| - 1];
      var w := writes[|writes| - 1];
      ReplayOkIff(prefix);
      assert Replay(writes).Ok? <==> Replay(prefix).Ok? && w.row >= 0 && w.col >= 0;
      NonNegativeSnoc(writes);
    }
  }

  /** No write of the history names a negative coordinate. */
  predicate NonNegative(writes: seq<Assignment>) {
    forall k :: 0 <= k < |writes| ==> writes[k].row >= 0 && writes[k].col >= 0
  }

  /** A history is free of negative coordinates iff its prefix is and its
      last write is. */
  lemma NonNegativeSnoc(writes: seq<Assignment>)
    requires |writes| > 0
    ensures NonNegative(writes) <==>
              NonNegative(writes[..|writes| - 1]) && writes[|writes| - 1].row >= 0 && writes[|writes| - 1].col >= 0
  {
    var prefix := writes[..|writes| - 1];
    assert forall k :: 0 <= k < |prefix| ==> prefix[k] == writes[k];
  }

  /** A history that replays without error yields a sheet satisfying the invariant. */
  lemma {:induction false} ReplayValid(writes: seq<Assignment>)
    ensures Replay(writes).Ok? ==> Valid(Replay(writes).value)
    decreases |writes|
  {
    if |writes| > 0 {
      ReplayValid(writes[..|writes| - 1]);
    }
  }

  /** A history replays without error iff every write has non-negative coordinates,
      and the result is then always a valid sheet. */
  lemma {:induction false} ReplaySucceeds(writes: seq<Assignment>)
    ensures Replay(writes).Ok? <==> forall k :: 0 <= k < |writes| ==> writes[k].row >= 0 && writes[k].col >= 0
    ensures Replay(writes).Ok? ==> Valid(Replay(writes).value)
  {
    ReplayOkIff(writes);
    ReplayValid(writes);
  }

  /** The height is one more than the largest row ever written (0 if nothing
      was written), and the width likewise for columns. */
  lemma {:induction false} ReplayBounds(writes: seq<Assignment>, s: Sheet)
    requires Replay(writes) == Ok(s)
    ensures forall k :: 0 <= k < |writes| ==> writes[k].row < s.height && writes[k].col < s.width
    ensures s.height > 0 ==> exists k :: 0 <= k < |writes| && writes[k].row == s.height - 1
    ensures s.width > 0 ==> exists k :: 0 <= k < |writes| && writes[k].col == s.width - 1
    ensures s.height == 0 <==> |writes| == 0
    ensures s.width == 0 <==> |writes| == 0
    decreases |writes|
  {
    if |writes| > 0 {
      var prefix := writes[..|writes| - 1];
      var w := writes[|writes| - 1];
      ReplayLast(writes);
      var s0 := Replay(prefix).value;
      ReplayBounds(prefix, s0);
      assert s == Put(s0, w.row, w.col, w.value);
      assert forall k :: 0 <= k < |prefix| ==> prefix[k] == writes[k];
      if s.height != s0.height {
        assert writes[|writes| - 1].row == s.height - 1;
      } else {
        var k :| 0 <= k < |prefix| && prefix[k].row == s0.height - 1;
        assert writes[k].row == s.height - 1;
      }
      if s.width != s0.width {
        assert writes[|writes| - 1].col == s.width - 1;
      } else {
        var k :| 0 <= k < |prefix| && prefix[k].col == s0.width - 1;
        assert writes[k].col == s.width - 1;
      }
    }
  }

  /** A cell is empty iff no write in the history targeted it, and a read
      returns the value of the last write to it (0.0 if there was none). */
  lemma {:induction false} ReplayCells(writes: seq<Assignment>, s: Sheet, row: nat, col: nat)
    requires Replay(writes) == Ok(s)
    ensures IsEmpty(s, row, col) == Ok(!Written(writes, row, col))
    ensures Get(s, row, col) == Ok(LastWritten(writes, row, col))
    decreases |writes|
  {
    if |writes| > 0 {
      var prefix := writes[..|writes| - 1];
      var w := writes[|writes| - 1];
      ReplayLast(writes);
      var s0 := Replay(prefix).value;
      ReplayCells(prefix, s0, row, col);
      WrittenLast(writes, row, col);
      assert s == Put(s0, w.row, w.col, w.value);
    }
  }
}
