/**
  The per-column cleaning stages of `run_validation`.

  Numeric columns: `pd.to_numeric(..., errors="coerce")`, then the outlier
  count, then `fillna(median)`. Categorical columns: `astype(str)`, then
  `fillna("UNKNOWN")`, then `nunique()`.
*/
module Cleaning {
  import opened Wrappers
  import opened Table
  import opened Schema
  import opened Stats

  /** Coercion of one cell: numbers stay, parseable text becomes its number, the rest null. */
  function Coerce(cell: Option<Cell>, parseNum: string -> Option<real>): (r: Option<Cell>)
    ensures r.None? <==> cell.None? || NumberOf(cell.value, parseNum).None?
    ensures r.Some? ==> r.value.Num? && NumberOf(cell.value, parseNum) == Some(r.value.num)
  {
    match cell
    case None => None
    case Some(x) =>
      match NumberOf(x, parseNum)
      case None => None
      case Some(v) => Some(Num(v))
  }

  /** `pd.to_numeric(df[col], errors="coerce")`. */
  function CoerceColumn(col: Column, parseNum: string -> Option<real>): (r: Column)
    ensures |r| == |col|
    ensures forall i :: 0 <= i < |col| ==>
              (r[i].None? <==> col[i].None? || NumberOf(col[i].value, parseNum).None?)
    ensures forall i :: 0 <= i < |col| && r[i].Some? ==>
              r[i] == Some(Num(NumberOf(col[i].value, parseNum).value))
  {
    seq(|col|, i requires 0 <= i < |col| => Coerce(col[i], parseNum))
  }

  /** Every non-null cell holds a number. */
  ghost predicate AllNumeric(col: Column) {
    forall i :: 0 <= i < |col| && col[i].Some? ==> col[i].value.Num?
  }

  /** The numbers of the non-null cells, top to bottom (what pandas aggregates over). */
  function Values(col: Column): (vs: seq<real>)
    ensures |vs| + NullCount(col) <= |col|
    ensures AllNumeric(col) ==> |vs| + NullCount(col) == |col|
    ensures forall v :: v in vs <==> Some(Num(v)) in col
  {
    if col == [] then []
    else
      var init, last := col[..|col| - 1], col[|col| - 1];
      assert col == init + [last];
      assert AllNumeric(col) ==> AllNumeric(init);
      Values(init) + (if last.Some? && last.value.Num? then [last.value.num] else [])
  }

  /**
    Each number occurs among the values as often as a cell holding it occurs
    in the column, so the quantiles and the median see every repeat.
  */
  lemma {:induction false} ValuesKeepMultiplicity(col: Column)
    ensures forall v :: multiset(Values(col))[v] == multiset(col)[Some(Num(v))]
  {
    if col != [] {
      var init, last := col[..|col| - 1], col[|col| - 1];
      ValuesKeepMultiplicity(init);
      assert col == init + [last];
      assert multiset(col) == multiset(init) + multiset{last};
    }
  }

  /** `fillna(v)`: every null cell becomes `v`, the other cells stay. */
  function FillNull(col: Column, v: Cell): (r: Column)
    ensures |r| == |col|
    ensures forall i :: 0 <= i < |col| ==> r[i] == if col[i].None? then Some(v) else col[i]
  {
    seq(|col|, i requires 0 <= i < |col| => if col[i].None? then Some(v) else col[i])
  }

  /**
    `fillna(median())`: with no values the median is NaN and `fillna` changes
    nothing; otherwise every null becomes the median of the values.
  */
  function ImputeMedian(col: Column): (r: Column)
    ensures |r| == |col|
    ensures forall i :: 0 <= i < |col| && col[i].Some? ==> r[i] == col[i]
    ensures Values(col) == [] ==> r == col
    ensures Values(col) != [] ==>
              forall i :: 0 <= i < |col| && col[i].None? ==> r[i] == Some(Num(MedianOf(Values(col))))
  {
    var vs := Values(col);
    if vs == [] then col else FillNull(col, Num(MedianOf(vs)))
  }

  /** Result of the numeric stage for one column. */
  datatype NumericOutcome = NumericOutcome(column: Column, outliers: nat)

  /** Lines 54-56: coerce, count outliers on the coerced column, then fill with the median. */
  function NumericStage(col: Column, parseNum: string -> Option<real>): (o: NumericOutcome)
    ensures |o.column| == |col|
    ensures o.outliers <= |col|
  {
    var coerced := CoerceColumn(col, parseNum);
    NumericOutcome(ImputeMedian(coerced), DetectOutliers(Values(coerced)))
  }

  /** Coercion can only add nulls, and keeps the numbers of the cells it keeps. */
  lemma CoercionOnlyAddsNulls(col: Column, parseNum: string -> Option<real>)
    ensures var coerced := CoerceColumn(col, parseNum);
            && AllNumeric(coerced)
            && NullCount(coerced) >= NullCount(col)
            && (forall i :: 0 <= i < |col| && col[i].Some? && col[i].value.Num? ==> coerced[i] == col[i])
  {
    var coerced := CoerceColumn(col, parseNum);
    NullsOnlyGrow(col, coerced);
  }

  lemma {:induction false} NullsOnlyGrow(col: Column, col': Column)
    requires |col'| == |col|
    requires forall i :: 0 <= i < |col| && col[i].None? ==> col'[i].None?
    ensures NullCount(col') >= NullCount(col)
  {
    if col != [] {
      var n := |col| - 1;
      NullsOnlyGrow(col[..n], col'[..n]);
    }
  }

  /**
    On a column every cell of which parses, coercion turns no cell into null:
    the nulls of the coerced column are exactly the original nulls.
  */
  lemma CoercionKeepsParsedColumn(col: Column, parseNum: string -> Option<real>)
    requires forall i :: 0 <= i < |col| ==> Parses(col[i], parseNum)
    ensures var coerced := CoerceColumn(col, parseNum);
            && (forall i :: 0 <= i < |col| ==> (coerced[i].None? <==> col[i].None?))
            && NullCount(coerced) == NullCount(col)
            && (Values(coerced) == [] <==> forall i :: 0 <= i < |col| ==> col[i].None?)
  {
    var coerced := CoerceColumn(col, parseNum);
    NullsOnlyGrow(col, coerced);
    NullsOnlyGrow(coerced, col);
    CoercionOnlyAddsNulls(col, parseNum);
    if Values(coerced) == [] {
      NoValuesAllNull(coerced);
    } else {
      var v := Values(coerced)[0];
      assert Some(Num(v)) in coerced;
    }
  }

  /** A column with no numeric value is entirely null once coerced. */
  lemma NoValuesAllNull(col: Column)
    requires AllNumeric(col) && Values(col) == []
    ensures forall i :: 0 <= i < |col| ==> col[i].None?
  {
    forall i | 0 <= i < |col|
      ensures col[i].None?
    {
      if col[i].Some? {
        assert false;
      }
    }
  }

  /**
    The numeric stage: the outlier count never exceeds the non-null coerced
    cells; non-null coerced cells are kept; if some value exists no null
    remains and each former null holds the median, which lies between the
    smallest and largest value; otherwise the column stays all-null.
  */
  lemma NumericStageSpec(col: Column, parseNum: string -> Option<real>)
    ensures var coerced := CoerceColumn(col, parseNum);
            var o := NumericStage(col, parseNum);
            && |o.column| == |col|
            && o.outliers + NullCount(coerced) <= |col|
            && (forall i :: 0 <= i < |col| && coerced[i].Some? ==> o.column[i] == coerced[i])
            && (Values(coerced) != [] ==> NullCount(o.column) == 0)
            && (Values(coerced) != [] ==>
                  forall i :: 0 <= i < |col| && coerced[i].None? ==> o.column[i] == Some(Num(MedianOf(Values(coerced)))))
            && (Values(coerced) == [] ==> o.column == coerced && NullCount(o.column) == |col| && o.outliers == 0)
  {
    NumericStageBound(col, parseNum);
    if Values(CoerceColumn(col, parseNum)) != [] {
      NumericStageFills(col, parseNum);
    } else {
      NumericStageAllNull(col, parseNum);
    }
  }

  lemma NumericStageBound(col: Column, parseNum: string -> Option<real>)
    ensures var coerced := CoerceColumn(col, parseNum);
            var o := NumericStage(col, parseNum);
            && |o.column| == |col|
            && o.outliers + NullCount(coerced) <= |col|
            && (forall i :: 0 <= i < |col| && coerced[i].Some? ==> o.column[i] == coerced[i])
  {
    var coerced := CoerceColumn(col, parseNum);
    CoercionOnlyAddsNulls(col, parseNum);
    assert NumericStage(col, parseNum).outliers <= |Values(coerced)|;
  }

  lemma NumericStageFills(col: Column, parseNum: string -> Option<real>)
    requires Values(CoerceColumn(col, parseNum)) != []
    ensures NullCount(NumericStage(col, parseNum).column) == 0
    ensures var coerced := CoerceColumn(col, parseNum);
            forall i :: 0 <= i < |col| && coerced[i].None? ==>
              NumericStage(col, parseNum).column[i] == Some(Num(MedianOf(Values(coerced))))
  {
    var filled := ImputeMedian(CoerceColumn(col, parseNum));
    assert forall i :: 0 <= i < |filled| ==> filled[i].Some?;
    NullCountZero(filled);
  }

  lemma NumericStageAllNull(col: Column, parseNum: string -> Option<real>)
    requires Values(CoerceColumn(col, parseNum)) == []
    ensures var coerced := CoerceColumn(col, parseNum);
            var o := NumericStage(col, parseNum);
            o.column == coerced && NullCount(o.column) == |col| && o.outliers == 0
  {
    var coerced := CoerceColumn(col, parseNum);
    CoercionOnlyAddsNulls(col, parseNum);
    NoValuesAllNull(coerced);
    NullCountFull(coerced);
  }

  /**
    The numeric stage on a column inference called numeric: every non-null
    cell becomes its number, and no null is left unless the column was
    entirely null, in which case it is left as it was.
  */
  lemma ParsedColumnStage(col: Column, parseNum: string -> Option<real>)
    requires forall i :: 0 <= i < |col| ==> Parses(col[i], parseNum)
    ensures var r := NumericStage(col, parseNum).column;
            && |r| == |col|
            && (forall i :: 0 <= i < |col| && col[i].Some? ==>
                  r[i].Some? && r[i].value.Num? && NumberOf(col[i].value, parseNum) == Some(r[i].value.num))
            && ((exists i :: 0 <= i < |col| && col[i].Some?) ==> NullCount(r) == 0)
            && ((forall i :: 0 <= i < |col| ==> col[i].None?) ==> r == col)
  {
    ParsedCellsKept(col, parseNum);
    if exists i :: 0 <= i < |col| && col[i].Some? {
      var i :| 0 <= i < |col| && col[i].Some?;
      ParsedValueFillsAll(col, parseNum, i);
    }
    if forall i :: 0 <= i < |col| ==> col[i].None? {
      AllNullUnchanged(col, parseNum);
    }
  }

  lemma ParsedCellsKept(col: Column, parseNum: string -> Option<real>)
    requires forall i :: 0 <= i < |col| ==> Parses(col[i], parseNum)
    ensures var r := NumericStage(col, parseNum).column;
            forall i :: 0 <= i < |col| && col[i].Some? ==>
              r[i].Some? && r[i].value.Num? && NumberOf(col[i].value, parseNum) == Some(r[i].value.num)
  {
    var r := NumericStage(col, parseNum).column;
    forall i | 0 <= i < |col| && col[i].Some?
      ensures r[i].Some? && r[i].value.Num? && NumberOf(col[i].value, parseNum) == Some(r[i].value.num)
    {
      assert Parses(col[i], parseNum);
    }
  }

  lemma ParsedValueFillsAll(col: Column, parseNum: string -> Option<real>, i: nat)
    requires i < |col| && col[i].Some? && Parses(col[i], parseNum)
    ensures NullCount(NumericStage(col, parseNum).column) == 0
  {
    var coerced := CoerceColumn(col, parseNum);
    assert Some(Num(coerced[i].value.num)) in coerced;
    NumericStageSpec(col, parseNum);
  }

  lemma AllNullUnchanged(col: Column, parseNum: string -> Option<real>)
    requires forall i :: 0 <= i < |col| ==> col[i].None?
    ensures NumericStage(col, parseNum).column == col
  {
    var coerced := CoerceColumn(col, parseNum);
    assert coerced == col;
    NullCountFull(coerced);
    CoercionOnlyAddsNulls(col, parseNum);
    assert Values(coerced) == [];
  }

  /** The median used for filling lies between the smallest and largest coerced value. */
  lemma FillValueInRange(col: Column, parseNum: string -> Option<real>, i: nat)
    requires i < |col|
    requires CoerceColumn(col, parseNum)[i].None? && Values(CoerceColumn(col, parseNum)) != []
    ensures var vs := Values(CoerceColumn(col, parseNum));
            && NumericStage(col, parseNum).column[i].Some?
            && NumericStage(col, parseNum).column[i].value.Num?
            && (exists j :: 0 <= j < |vs| && vs[j] <= NumericStage(col, parseNum).column[i].value.num)
            && (exists j :: 0 <= j < |vs| && NumericStage(col, parseNum).column[i].value.num <= vs[j])
  {
  }

  /** The sentinel `fillna("UNKNOWN")` writes. */
  const Unknown: string := "UNKNOWN"

  /**
    `astype(str)` on an object-dtype column (the pandas default before 3.0):
    every cell, null included, becomes its text rendering.
  */
  function CastText(col: Column, toText: Option<Cell> -> string): (r: Column)
    ensures |r| == |col|
    ensures forall i :: 0 <= i < |col| ==> r[i] == Some(Text(toText(col[i])))
  {
    seq(|col|, i requires 0 <= i < |col| => Some(Text(toText(col[i]))))
  }

  /** Line 63: cast to text, then fill the nulls with the sentinel. */
  function CategoricalStage(col: Column, toText: Option<Cell> -> string): (r: Column)
    ensures |r| == |col|
    ensures forall i :: 0 <= i < |col| ==> r[i].Some? && r[i].value.Text?
  {
    FillNull(CastText(col, toText), Text(Unknown))
  }

  /**
    On an object-dtype column the cast runs first and leaves no null, so the
    fill never fires: a null cell ends up as the cast's rendering of null,
    not as the sentinel.
  */
  lemma SentinelNeverWritten(col: Column, toText: Option<Cell> -> string)
    ensures CategoricalStage(col, toText) == CastText(col, toText)
  {
  }

  /** The distinct non-null values of a column. */
  function DistinctValues(col: Column): (s: set<Cell>)
    ensures |s| + NullCount(col) <= |col|
    ensures forall x :: x in s <==> Some(x) in col
  {
    if col == [] then {}
    else
      var init, last := col[..|col| - 1], col[|col| - 1];
      assert col == init + [last];
      DistinctValues(init) + (if last.Some? then {last.value} else {})
  }

  /** `nunique()`: the number of distinct non-null values. */
  function Cardinality(col: Column): (n: nat)
    ensures n + NullCount(col) <= |col|
    ensures (exists i :: 0 <= i < |col| && col[i].Some?) ==> 1 <= n
  {
    assert forall i :: 0 <= i < |col| && col[i].Some? ==> col[i].value in DistinctValues(col);
    |DistinctValues(col)|
  }

  /**
    The categorical stage leaves no null and only text, and its cardinality
    is at least 1 when there are rows and at most the row count.
  */
  lemma CategoricalStageSpec(col: Column, toText: Option<Cell> -> string)
    ensures var r := CategoricalStage(col, toText);
            && NullCount(r) == 0
            && (forall i :: 0 <= i < |r| ==> r[i].value.Text?)
            && Cardinality(r) <= |col|
            && (|col| > 0 ==> 1 <= Cardinality(r))
  {
    var r := CategoricalStage(col, toText);
    NullCountZero(r);
    if |col| > 0 {
      assert r[0].value in DistinctValues(r);
    }
  }
}
