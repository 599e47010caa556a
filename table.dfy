/**
  The table the validation pipeline works on, as loaded from the CSV file:
  named columns, rows of cells, and null cells written as `None`.
  Also the missing-value report, which is computed on this table before
  anything else touches it.
*/
module Table {
  import opened Wrappers

  /** A loaded cell value: text or a number. */
  datatype Cell = Text(text: string) | Num(num: real)

  type Row = seq<Option<Cell>>

  /** The cells of one column, top to bottom. */
  type Column = seq<Option<Cell>>

  /** Every row has a cell for each column. */
  ghost predicate Rectangular(width: nat, rows: seq<Row>) {
    forall r :: 0 <= r < |rows| ==> |rows[r]| == width
  }

  /** Column names are distinct and every row has one cell per name. */
  ghost predicate WellFormed(names: seq<string>, rows: seq<Row>) {
    && (forall i, j :: 0 <= i < j < |names| ==> names[i] != names[j])
    && Rectangular(|names|, rows)
  }

  /** Column `c` of the table, as `df[col]` selects it. */
  function ColumnAt(rows: seq<Row>, c: nat): (col: Column)
    requires forall r :: 0 <= r < |rows| ==> c < |rows[r]|
    ensures |col| == |rows|
    ensures forall r :: 0 <= r < |rows| ==> col[r] == rows[r][c]
  {
    seq(|rows|, r requires 0 <= r < |rows| => rows[r][c])
  }

  /** Two rectangular tables with the same row count and the same columns are equal. */
  lemma TableExtensionality(width: nat, rows: seq<Row>, rows': seq<Row>)
    requires Rectangular(width, rows) && Rectangular(width, rows')
    requires |rows| == |rows'|
    requires forall c :: 0 <= c < width ==> ColumnAt(rows, c) == ColumnAt(rows', c)
    ensures rows == rows'
  {
    forall r | 0 <= r < |rows|
      ensures rows[r] == rows'[r]
    {
      forall c | 0 <= c < width
        ensures rows[r][c] == rows'[r][c]
      {
        assert ColumnAt(rows, c)[r] == ColumnAt(rows', c)[r];
      }
    }
  }

  /** Number of null cells in a column (`isnull().sum()`). */
  function NullCount(col: Column): (n: nat)
    ensures n <= |col|
  {
    if col == [] then 0
    else NullCount(col[..|col| - 1]) + (if col[|col| - 1].None? then 1 else 0)
  }

  /**
    The `missing_values` section of the report: for each column name, the
    number of null cells in that column of the table as loaded.
  */
  function MissingValues(names: seq<string>, rows: seq<Row>): (m: map<string, nat>)
    requires WellFormed(names, rows)
    ensures forall n :: n in m <==> n in names
    ensures forall c :: 0 <= c < |names| ==> m[names[c]] == NullCount(ColumnAt(rows, c))
  {
    map c | 0 <= c < |names| :: names[c] := NullCount(ColumnAt(rows, c))
  }

  /** Null cells counted row by row over the whole table. */
  function TotalNulls(rows: seq<Row>): nat {
    if rows == [] then 0 else TotalNulls(rows[..|rows| - 1]) + NullCount(rows[|rows| - 1])
  }

  /** Null cells counted column by column over the first `k` columns. */
  function ColumnNullSum(rows: seq<Row>, k: nat): nat
    requires forall r :: 0 <= r < |rows| ==> k <= |rows[r]|
  {
    if k == 0 then 0 else ColumnNullSum(rows, k - 1) + NullCount(ColumnAt(rows, k - 1))
  }

  /** Sum of the counts a report map holds for the given names. */
  function SumOver(names: seq<string>, m: map<string, nat>): nat
    requires forall n :: n in names ==> n in m
  {
    if names == [] then 0 else SumOver(names[..|names| - 1], m) + m[names[|names| - 1]]
  }

  lemma {:induction false} NullCountAppend(col: Column, x: Option<Cell>)
    ensures NullCount(col + [x]) == NullCount(col) + (if x.None? then 1 else 0)
  {
    assert (col + [x])[..|col|] == col;
  }

  lemma ColumnAtSnoc(rows: seq<Row>, c: nat)
    requires rows != []
    requires forall r :: 0 <= r < |rows| ==> c < |rows[r]|
    ensures ColumnAt(rows, c) == ColumnAt(rows[..|rows| - 1], c) + [rows[|rows| - 1][c]]
  {
  }

  /** Adding a row adds that row's nulls to the first `k` column counts. */
  lemma {:induction false} ColumnNullSumSnoc(rows: seq<Row>, k: nat)
    requires rows != []
    requires forall r :: 0 <= r < |rows| ==> k <= |rows[r]|
    ensures ColumnNullSum(rows, k)
         == ColumnNullSum(rows[..|rows| - 1], k) + NullCount(rows[|rows| - 1][..k])
  {
    var init, last := rows[..|rows| - 1], rows[|rows| - 1];
    if k > 0 {
      ColumnNullSumSnoc(rows, k - 1);
      ColumnAtSnoc(rows, k - 1);
      NullCountAppend(ColumnAt(init, k - 1), last[k - 1]);
      assert last[..k] == last[..k - 1] + [last[k - 1]];
      NullCountAppend(last[..k - 1], last[k - 1]);
      calc {
        ColumnNullSum(rows, k);
        ColumnNullSum(rows, k - 1) + NullCount(ColumnAt(rows, k - 1));
        ColumnNullSum(init, k - 1) + NullCount(last[..k - 1]) + NullCount(ColumnAt(init, k - 1))
          + (if last[k - 1].None? then 1 else 0);
        ColumnNullSum(init, k) + NullCount(last[..k]);
      }
    } else {
      assert last[..k] == [];
    }
  }

  lemma {:induction false} NoRowsNoNulls(k: nat)
    ensures ColumnNullSum([], k) == 0
  {
    if k > 0 {
      NoRowsNoNulls(k - 1);
    }
  }

  lemma {:induction false} RowAndColumnCountsAgree(rows: seq<Row>, width: nat)
    requires Rectangular(width, rows)
    ensures ColumnNullSum(rows, width) == TotalNulls(rows)
  {
    if rows != [] {
      var init, last := rows[..|rows| - 1], rows[|rows| - 1];
      ColumnNullSumSnoc(rows, width);
      RowAndColumnCountsAgree(init, width);
      assert last[..width] == last;
      assert TotalNulls(rows) == TotalNulls(init) + NullCount(last);
    } else {
      NoRowsNoNulls(width);
    }
  }

  lemma {:induction false} SumOverMissing(names: seq<string>, rows: seq<Row>, k: nat)
    requires WellFormed(names, rows) && k <= |names|
    ensures SumOver(names[..k], MissingValues(names, rows)) == ColumnNullSum(rows, k)
  {
    if k > 0 {
      SumOverMissing(names, rows, k - 1);
      assert names[..k][..k - 1] == names[..k - 1];
    }
  }

  /**
    Missing-value conservation: the counts in `missing_values` add up to the
    number of null cells in the table as loaded.
  */
  lemma MissingValuesConserveNulls(names: seq<string>, rows: seq<Row>)
    requires WellFormed(names, rows)
    ensures SumOver(names, MissingValues(names, rows)) == TotalNulls(rows)
  {
    SumOverMissing(names, rows, |names|);
    assert names[..|names|] == names;
    RowAndColumnCountsAgree(rows, |names|);
  }

  /** A column has no null cell exactly when its null count is zero. */
  lemma {:induction false} NullCountZero(col: Column)
    ensures NullCount(col) == 0 <==> forall i :: 0 <= i < |col| ==> col[i].Some?
  {
    if col != [] {
      var init := col[..|col| - 1];
      NullCountZero(init);
      assert forall i :: 0 <= i < |init| ==> init[i] == col[i];
    }
  }

  /** A column is all-null exactly when its null count is its length. */
  lemma {:induction false} NullCountFull(col: Column)
    ensures NullCount(col) == |col| <==> forall i :: 0 <= i < |col| ==> col[i].None?
  {
    if col != [] {
      var init := col[..|col| - 1];
      NullCountFull(init);
      assert forall i :: 0 <= i < |init| ==> init[i] == col[i];
    }
  }

  /** `df[col] = new_col`: the table with column `c` replaced. */
  function WithColumn(rows: seq<Row>, c: nat, col: Column): (rows': seq<Row>)
    requires forall r :: 0 <= r < |rows| ==> c < |rows[r]|
    requires |col| == |rows|
    ensures |rows'| == |rows|
    ensures forall r :: 0 <= r < |rows| ==> |rows'[r]| == |rows[r]|
    ensures ColumnAt(rows', c) == col
    ensures forall r, d :: 0 <= r < |rows| && 0 <= d < |rows[r]| && d != c ==> rows'[r][d] == rows[r][d]
  {
    seq(|rows|, r requires 0 <= r < |rows| => rows[r][c := col[r]])
  }

  /** Replacing column `c` leaves every other column as it was. */
  lemma WithColumnOther(rows: seq<Row>, c: nat, col: Column, d: nat)
    requires forall r :: 0 <= r < |rows| ==> c < |rows[r]| && d < |rows[r]|
    requires |col| == |rows| && d != c
    ensures ColumnAt(WithColumn(rows, c, col), d) == ColumnAt(rows, d)
  {
  }
}
