/** Rectangular cell ranges as the macros iterate them: rows `fromRow..toRow`,
    and within each row columns `fromCol..toCol`, both bounds inclusive. */
module Ranges {
  import opened SparseSheet

  /** A range is inverted when either upper bound is below its lower bound;
      the nested loops then visit no cell. */
  datatype Rect = Rect(fromRow: int, fromCol: int, toRow: int, toCol: int) {

    function Rows(): nat {
      if toRow < fromRow then 0 else toRow - fromRow + 1
    }

    function Cols(): nat {
      if toCol < fromCol then 0 else toCol - fromCol + 1
    }

    /** How many cells the nested loops visit. */
    function Count(): nat {
      Rows() * Cols()
    }

    predicate Inverted() {
      toRow < fromRow || toCol < fromCol
    }

    predicate Contains(p: CellPosition) {
      fromRow <= p.row <= toRow && fromCol <= p.column <= toCol
    }

    /** The 0-based position at which the row-major loops visit `p`: its
        offset within its row, after every full row above it. */
    function Rank(p: CellPosition): nat
      requires Contains(p)
      decreases p.row - fromRow
    {
      if p.row == fromRow then p.column - fromCol else Cols() + Rest().Rank(p)
    }

    /** The range without its first row. */
    function Rest(): Rect {
      Rect(fromRow + 1, fromCol, toRow, toCol)
    }

    /** The cells in the order the row-major loops visit them: the first row,
        left to right, then the rest of the range. */
    function RowMajor(): (ps: seq<CellPosition>)
      ensures |ps| == Count()
      decreases toRow - fromRow
    {
      if toRow < fromRow then []
      else
        assert Count() == Cols() + Rest().Count() by { MulSucc(Rest().Rows(), Cols()); }
        RowCells(fromRow, fromCol, toCol) + Rest().RowMajor()
    }
  }

  /** The cells of one row from `fromCol` to `toCol`, left to right. */
  function RowCells(row: int, fromCol: int, toCol: int): (ps: seq<CellPosition>)
    ensures |ps| == Rect(row, fromCol, row, toCol).Cols()
    ensures forall j :: 0 <= j < |ps| ==> ps[j] == CellPosition(row, fromCol + j)
  {
    seq(Rect(row, fromCol, row, toCol).Cols(), j => CellPosition(row, fromCol + j))
  }

  lemma MulSucc(a: int, c: int)
    ensures (a + 1) * c == a * c + c
  {
  }

  lemma MulPositive(a: int, b: int)
    requires a >= 1 && b >= 1
    ensures a * b >= 1
  {
  }

  /** The loops visit no cell exactly when the range is inverted. */
  lemma CountZeroIffInverted(r: Rect)
    ensures r.Count() == 0 <==> r.Inverted()
  {
    if !r.Inverted() {
      MulPositive(r.Rows(), r.Cols());
    }
  }

  /** The rank is the number of full rows above the cell times the row
      length, plus the cell's offset within its row. */
  lemma {:induction false} RankClosedForm(r: Rect, p: CellPosition)
    requires r.Contains(p)
    ensures r.Rank(p) == (p.row - r.fromRow) * r.Cols() + (p.column - r.fromCol)
    decreases p.row - r.fromRow
  {
    if p.row > r.fromRow {
      RankClosedForm(r.Rest(), p);
      MulSucc(p.row - r.fromRow - 1, r.Cols());
    }
  }

  /** Every cell of the range has a rank below the number of cells visited. */
  lemma {:induction false} RankBounds(r: Rect, p: CellPosition)
    requires r.Contains(p)
    ensures r.Rank(p) < r.Count()
    decreases p.row - r.fromRow
  {
    MulSucc(r.Rest().Rows(), r.Cols());
    if p.row > r.fromRow {
      RankBounds(r.Rest(), p);
    }
  }

  /** The row-major enumeration lists exactly the cells of the range, each at
      the index given by its rank: it and `Rank` are inverse to each other. */
  lemma RowMajorIsRankOrder(r: Rect)
    ensures forall k :: 0 <= k < r.Count() ==> r.Contains(r.RowMajor()[k]) && r.Rank(r.RowMajor()[k]) == k
    ensures forall p :: r.Contains(p) ==> 0 <= r.Rank(p) < r.Count() && r.RowMajor()[r.Rank(p)] == p
  {
    forall k | 0 <= k < r.Count()
      ensures r.Contains(r.RowMajor()[k]) && r.Rank(r.RowMajor()[k]) == k
    {
      RankOfRowMajor(r, k);
    }
    forall p | r.Contains(p)
      ensures 0 <= r.Rank(p) < r.Count() && r.RowMajor()[r.Rank(p)] == p
    {
      RankBounds(r, p);
      RowMajorAtRank(r, p);
    }
  }

  lemma {:induction false} RankOfRowMajor(r: Rect, k: int)
    requires 0 <= k < r.Count()
    ensures r.Contains(r.RowMajor()[k]) && r.Rank(r.RowMajor()[k]) == k
    decreases r.toRow - r.fromRow
  {
    var c := r.Cols();
    if k >= c {
      var p := r.Rest().RowMajor()[k - c];
      assert r.RowMajor()[k] == p;
      RankOfRowMajor(r.Rest(), k - c);
    }
  }

  lemma {:induction false} RowMajorAtRank(r: Rect, p: CellPosition)
    requires r.Contains(p)
    ensures 0 <= r.Rank(p) < r.Count() && r.RowMajor()[r.Rank(p)] == p
    decreases r.toRow - r.fromRow
  {
    RankBounds(r, p);
    if p.row > r.fromRow {
      RowMajorAtRank(r.Rest(), p);
    }
  }

  /** A single row that is not empty is its first cell followed by the rest. */
  lemma RowCellsFirst(row: int, fromCol: int, toCol: int)
    requires fromCol <= toCol
    ensures RowCells(row, fromCol, toCol) == [CellPosition(row, fromCol)] + RowCells(row, fromCol + 1, toCol)
  {
  }
}
