/**
  `run_validation` without its file I/O: the DataFrame `df` is a mutable
  table that the stages update in place, and the report is filled section by
  section. `ExpectedReport` and `CleanedTable` state what one run produces;
  the lemmas below state what those results promise.
*/
module Pipeline {
  import opened Wrappers
  import opened Table
  import opened Dedup
  import opened Schema
  import opened Stats
  import opened Cleaning
  import opened Convert

  /** The DataFrame: column names and rows, updated in place. */
  class Frame {
    var names: seq<string>
    var rows: seq<Row>

    ghost predicate Valid()
      reads this
    {
      WellFormed(names, rows)
    }

    constructor (names: seq<string>, rows: seq<Row>)
      requires WellFormed(names, rows)
      ensures Valid() && this.names == names && this.rows == rows
    {
      this.names := names;
      this.rows := rows;
    }

    /** `df.duplicated().sum()`: rows equal to an earlier row. */
    method CountDuplicated() returns (n: nat)
      ensures n == DuplicateCount(rows)
    {
      n := 0;
      var seen: set<Row> := {};
      var i := 0;
      while i < |rows|
        invariant 0 <= i <= |rows|
        invariant forall x :: x in seen <==> x in rows[..i]
        invariant n == DuplicateCount(rows[..i])
      {
        assert rows[..i + 1][..i] == rows[..i];
        if rows[i] in seen {
          n := n + 1;
        }
        seen := seen + {rows[i]};
        i := i + 1;
      }
      assert rows[..|rows|] == rows;
    }

    /** `df = df.drop_duplicates()`: keep the first occurrence of each row. */
    method DropDuplicates()
      requires Valid()
      modifies this
      ensures Valid() && names == old(names)
      ensures rows == KeepFirst(old(rows))
    {
      var kept: seq<Row> := [];
      var seen: set<Row> := {};
      var i := 0;
      while i < |rows|
        invariant 0 <= i <= |rows|
        invariant forall x :: x in seen <==> x in rows[..i]
        invariant kept == KeepFirst(rows[..i])
      {
        assert rows[..i + 1][..i] == rows[..i];
        if rows[i] !in seen {
          kept := kept + [rows[i]];
        }
        seen := seen + {rows[i]};
        i := i + 1;
      }
      assert rows[..|rows|] == rows;
      assert forall r :: 0 <= r < |kept| ==> kept[r] in rows;
      rows := kept;
    }

    /** `df[col] = new_col`: overwrite column `c`, row by row. */
    method SetColumn(c: nat, col: Column)
      requires Valid() && c < |names| && |col| == |rows|
      modifies this
      ensures Valid() && names == old(names)
      ensures rows == WithColumn(old(rows), c, col)
    {
      var r := 0;
      while r < |rows|
        invariant 0 <= r <= |rows| == |old(rows)|
        invariant names == old(names)
        invariant forall k :: 0 <= k < r ==> rows[k] == old(rows)[k][c := col[k]]
        invariant forall k :: r <= k < |rows| ==> rows[k] == old(rows)[k]
      {
        rows := rows[r := rows[r][c := col[r]]];
        r := r + 1;
      }
    }
  }

  /** The report's five sections. */
  datatype Report = Report(
    missingValues: map<string, nat>,
    duplicateRows: nat,
    inferredSchema: map<string, Kind>,
    outliers: map<string, nat>,
    categoricalCardinality: map<string, nat>)

  /** A column after the numeric loop (lines 52-56). */
  function AfterNumeric(kind: Kind, col: Column, parseNum: string -> Option<real>): (r: Column)
    ensures |r| == |col|
  {
    if kind == Numeric then NumericStage(col, parseNum).column else col
  }

  /** A column after the categorical loop (lines 61-64). */
  function AfterCategorical(kind: Kind, col: Column, toText: Option<Cell> -> string): (r: Column)
    ensures |r| == |col|
  {
    if kind == Categorical then CategoricalStage(col, toText) else col
  }

  /** What a column of the given kind holds in the cleaned table. */
  function CleanColumn(kind: Kind, col: Column, parseNum: string -> Option<real>, toText: Option<Cell> -> string)
    : (r: Column)
    ensures |r| == |col|
  {
    AfterCategorical(kind, AfterNumeric(kind, col, parseNum), toText)
  }

  /** Every column name has a kind. */
  ghost predicate Covers(names: seq<string>, schema: map<string, Kind>) {
    forall n :: n in names ==> n in schema
  }

  /**
    The dict a column loop fills: in column order, `names[c] := count(c)` for
    every column `c < k` that `keep` selects.
  */
  function Tally(names: seq<string>, keep: nat -> bool, count: nat -> nat, k: nat): map<string, nat>
    requires k <= |names|
  {
    if k == 0 then map[]
    else
      var m := Tally(names, keep, count, k - 1);
      if keep(k - 1) then m[names[k - 1] := count(k - 1)] else m
  }

  /**
    With distinct names, the filled dict has exactly the selected columns as
    keys, each mapped to its own count.
  */
  lemma {:induction false} TallySpec(names: seq<string>, keep: nat -> bool, count: nat -> nat, k: nat)
    requires k <= |names|
    requires forall i, j :: 0 <= i < j < |names| ==> names[i] != names[j]
    ensures var m := Tally(names, keep, count, k);
            && (forall n :: n in m ==> n in names[..k])
            && (forall c :: 0 <= c < k ==> (names[c] in m <==> keep(c)))
            && (forall c :: 0 <= c < k && keep(c) ==> m[names[c]] == count(c))
  {
    if k > 0 {
      TallySpec(names, keep, count, k - 1);
      TallyStep(names, keep, count, k);
      assert names[..k] == names[..k - 1] + [names[k - 1]];
    }
  }

  /** The `k`-th turn touches only the entry of `names[k - 1]`. */
  lemma TallyStep(names: seq<string>, keep: nat -> bool, count: nat -> nat, k: nat)
    requires 0 < k <= |names|
    requires forall i, j :: 0 <= i < j < |names| ==> names[i] != names[j]
    ensures var m', m := Tally(names, keep, count, k - 1), Tally(names, keep, count, k);
            && (forall n :: n in m <==> n in m' || (keep(k - 1) && n == names[k - 1]))
            && (keep(k - 1) ==> m[names[k - 1]] == count(k - 1))
            && (forall c :: 0 <= c < k - 1 && names[c] in m' ==> m[names[c]] == m'[names[c]])
  {
    var m', m := Tally(names, keep, count, k - 1), Tally(names, keep, count, k);
    assert m == if keep(k - 1) then m'[names[k - 1] := count(k - 1)] else m';
    forall c | 0 <= c < k - 1 && names[c] in m'
      ensures m[names[c]] == m'[names[c]]
    {
      assert names[c] != names[k - 1];
    }
  }

  /** Two tallies whose selected counts agree are equal. */
  lemma {:induction false} TallyAgrees(names: seq<string>, keep: nat -> bool, count: nat -> nat, count': nat -> nat, k: nat)
    requires k <= |names|
    requires forall c :: 0 <= c < k && keep(c) ==> count(c) == count'(c)
    ensures Tally(names, keep, count, k) == Tally(names, keep, count', k)
  {
    if k > 0 {
      TallyAgrees(names, keep, count, count', k - 1);
    }
  }

  /** Whether the schema gives column `c` the kind `kind`. */
  function IsKind(names: seq<string>, schema: map<string, Kind>, kind: Kind): nat -> bool {
    (c: nat) => c < |names| && names[c] in schema && schema[names[c]] == kind
  }

  /** Outlier count of column `c` after coercion (0 past the last column). */
  function OutlierCounts(names: seq<string>, rows: seq<Row>, parseNum: string -> Option<real>): nat -> nat
    requires WellFormed(names, rows)
  {
    (c: nat) => if c < |names| then NumericStage(ColumnAt(rows, c), parseNum).outliers else 0
  }

  /** Cardinality of column `c` after the categorical stage (0 past the last column). */
  function CardinalityCounts(names: seq<string>, rows: seq<Row>, toText: Option<Cell> -> string): nat -> nat
    requires WellFormed(names, rows)
  {
    (c: nat) => if c < |names| then Cardinality(CategoricalStage(ColumnAt(rows, c), toText)) else 0
  }

  lemma IsKindAt(names: seq<string>, schema: map<string, Kind>, kind: Kind, c: nat)
    requires Covers(names, schema) && c < |names|
    ensures IsKind(names, schema, kind)(c) == (schema[names[c]] == kind)
  {
  }

  lemma TallyUnfold(names: seq<string>, keep: nat -> bool, count: nat -> nat, k: nat)
    requires 0 < k <= |names|
    ensures Tally(names, keep, count, k)
            == if keep(k - 1) then Tally(names, keep, count, k - 1)[names[k - 1] := count(k - 1)]
               else Tally(names, keep, count, k - 1)
  {
  }

  lemma OutlierCountsAt(names: seq<string>, rows: seq<Row>, parseNum: string -> Option<real>, c: nat)
    requires WellFormed(names, rows) && c < |names|
    ensures OutlierCounts(names, rows, parseNum)(c) == NumericStage(ColumnAt(rows, c), parseNum).outliers
  {
  }

  lemma CardinalityCountsAt(names: seq<string>, rows: seq<Row>, toText: Option<Cell> -> string, c: nat)
    requires WellFormed(names, rows) && c < |names|
    ensures CardinalityCounts(names, rows, toText)(c) == Cardinality(CategoricalStage(ColumnAt(rows, c), toText))
  {
  }

  /** The `outliers` map after the first `k` columns of the numeric loop. */
  function OutlierReport(names: seq<string>, schema: map<string, Kind>, rows: seq<Row>,
                         parseNum: string -> Option<real>, k: nat): (m: map<string, nat>)
    requires WellFormed(names, rows) && Covers(names, schema) && k <= |names|
    ensures forall n :: n in m ==> n in names
  {
    var keep, count := IsKind(names, schema, Numeric), OutlierCounts(names, rows, parseNum);
    TallySpec(names, keep, count, k);
    assert forall n :: n in names[..k] ==> n in names;
    Tally(names, keep, count, k)
  }

  /** The `category_info` map after the first `k` columns of the categorical loop. */
  function CardinalityReport(names: seq<string>, schema: map<string, Kind>, rows: seq<Row>,
                             toText: Option<Cell> -> string, k: nat): (m: map<string, nat>)
    requires WellFormed(names, rows) && Covers(names, schema) && k <= |names|
    ensures forall n :: n in m ==> n in names
  {
    var keep, count := IsKind(names, schema, Categorical), CardinalityCounts(names, rows, toText);
    TallySpec(names, keep, count, k);
    assert forall n :: n in names[..k] ==> n in names;
    Tally(names, keep, count, k)
  }

  /** One turn of the numeric loop adds the column's count when the column is numeric. */
  lemma OutlierReportStep(names: seq<string>, schema: map<string, Kind>, rows: seq<Row>,
                          parseNum: string -> Option<real>, c: nat, count: nat)
    requires WellFormed(names, rows) && Covers(names, schema) && c < |names|
    requires count == NumericStage(ColumnAt(rows, c), parseNum).outliers
    ensures OutlierReport(names, schema, rows, parseNum, c + 1)
            == if schema[names[c]] == Numeric
               then OutlierReport(names, schema, rows, parseNum, c)[names[c] := count]
               else OutlierReport(names, schema, rows, parseNum, c)
  {
    IsKindAt(names, schema, Numeric, c);
    OutlierCountsAt(names, rows, parseNum, c);
    TallyUnfold(names, IsKind(names, schema, Numeric), OutlierCounts(names, rows, parseNum), c + 1);
  }

  /** One turn of the categorical loop adds the column's cardinality when the column is categorical. */
  lemma CardinalityReportStep(names: seq<string>, schema: map<string, Kind>, rows: seq<Row>,
                              toText: Option<Cell> -> string, c: nat, count: nat)
    requires WellFormed(names, rows) && Covers(names, schema) && c < |names|
    requires count == Cardinality(CategoricalStage(ColumnAt(rows, c), toText))
    ensures CardinalityReport(names, schema, rows, toText, c + 1)
            == if schema[names[c]] == Categorical
               then CardinalityReport(names, schema, rows, toText, c)[names[c] := count]
               else CardinalityReport(names, schema, rows, toText, c)
  {
    IsKindAt(names, schema, Categorical, c);
    CardinalityCountsAt(names, rows, toText, c);
    TallyUnfold(names, IsKind(names, schema, Categorical), CardinalityCounts(names, rows, toText), c + 1);
  }

  lemma KeepFirstWellFormed(names: seq<string>, rows: seq<Row>)
    requires WellFormed(names, rows)
    ensures WellFormed(names, KeepFirst(rows))
  {
    var r := KeepFirst(rows);
    assert forall i :: 0 <= i < |r| ==> r[i] in rows;
  }

  /** The report one run produces on a loaded table. */
  function ExpectedReport(names: seq<string>, rows: seq<Row>,
                          parseNum: string -> Option<real>, toText: Option<Cell> -> string): (r: Report)
    requires WellFormed(names, rows)
    ensures r.duplicateRows <= |rows|
    ensures forall n :: n in r.inferredSchema <==> n in names
  {
    KeepFirstWellFormed(names, rows);
    var deduped := KeepFirst(rows);
    var schema := InferredSchema(names, deduped, parseNum);
    Report(
      MissingValues(names, rows),
      DuplicateCount(rows),
      schema,
      OutlierReport(names, schema, deduped, parseNum, |names|),
      CardinalityReport(names, schema, deduped, toText, |names|))
  }

  /** The cleaned table one run produces: the deduplicated rows, column by column cleaned. */
  function CleanedTable(names: seq<string>, rows: seq<Row>,
                        parseNum: string -> Option<real>, toText: Option<Cell> -> string): (t: seq<Row>)
    requires WellFormed(names, rows)
    ensures |t| == |KeepFirst(rows)|
    ensures Rectangular(|names|, t)
  {
    KeepFirstWellFormed(names, rows);
    var deduped := KeepFirst(rows);
    var schema := InferredSchema(names, deduped, parseNum);
    seq(|deduped|, r requires 0 <= r < |deduped| =>
      seq(|names|, c requires 0 <= c < |names| =>
        CleanColumn(schema[names[c]], ColumnAt(deduped, c), parseNum, toText)[r]))
  }

  /** Lines 54-56 for one numeric column: coerce, count outliers, fill with the median. */
  method CleanNumericColumn(df: Frame, c: nat, parseNum: string -> Option<real>) returns (count: nat)
    requires df.Valid() && c < |df.names|
    modifies df
    ensures df.Valid() && df.names == old(df.names)
    ensures df.rows == WithColumn(old(df.rows), c, NumericStage(ColumnAt(old(df.rows), c), parseNum).column)
    ensures count == NumericStage(ColumnAt(old(df.rows), c), parseNum).outliers
  {
    ghost var before := df.rows;
    var coerced := CoerceColumn(ColumnAt(df.rows, c), parseNum);
    df.SetColumn(c, coerced);
    count := DetectOutliers(Values(ColumnAt(df.rows, c)));
    df.SetColumn(c, ImputeMedian(ColumnAt(df.rows, c)));
    assert df.rows == WithColumn(before, c, ImputeMedian(coerced)) by {
      forall d | 0 <= d < |df.names|
        ensures ColumnAt(df.rows, d) == ColumnAt(WithColumn(before, c, ImputeMedian(coerced)), d)
      {
        if d != c {
          var once := WithColumn(before, c, coerced);
          WithColumnOther(once, c, ImputeMedian(coerced), d);
          WithColumnOther(before, c, coerced, d);
          WithColumnOther(before, c, ImputeMedian(coerced), d);
        }
      }
      TableExtensionality(|df.names|, df.rows, WithColumn(before, c, ImputeMedian(coerced)));
    }
  }

  /** One turn of the numeric loop keeps its column invariant. */
  lemma NumericLoopStep(names: seq<string>, schema: map<string, Kind>, start: seq<Row>, prev: seq<Row>, next: seq<Row>,
                parseNum: string -> Option<real>, c: nat)
    requires WellFormed(names, start) && WellFormed(names, prev) && Covers(names, schema) && c < |names|
    requires |prev| == |start|
    requires forall d :: 0 <= d < |names| ==>
               ColumnAt(prev, d) == if d < c then AfterNumeric(schema[names[d]], ColumnAt(start, d), parseNum) else ColumnAt(start, d)
    requires schema[names[c]] == Numeric ==> next == WithColumn(prev, c, NumericStage(ColumnAt(prev, c), parseNum).column)
    requires schema[names[c]] != Numeric ==> next == prev
    ensures forall d :: 0 <= d < |names| ==>
              ColumnAt(next, d) == if d < c + 1 then AfterNumeric(schema[names[d]], ColumnAt(start, d), parseNum) else ColumnAt(start, d)
  {
    var cleaned := NumericStage(ColumnAt(prev, c), parseNum).column;
    forall d | 0 <= d < |names|
      ensures ColumnAt(next, d) == if d < c + 1 then AfterNumeric(schema[names[d]], ColumnAt(start, d), parseNum) else ColumnAt(start, d)
    {
      if d != c {
        if schema[names[c]] == Numeric {
          WithColumnOther(prev, c, cleaned, d);
        }
      } else {
        assert ColumnAt(prev, c) == ColumnAt(start, c);
      }
    }
  }

  /** Column invariant of the numeric loop: columns before `c` are cleaned, the rest as at the start. */
  ghost predicate NumericDoneUpTo(names: seq<string>, schema: map<string, Kind>, start: seq<Row>, rows: seq<Row>,
                                  parseNum: string -> Option<real>, c: nat)
    requires WellFormed(names, start) && WellFormed(names, rows) && Covers(names, schema)
  {
    forall d :: 0 <= d < |names| ==>
      ColumnAt(rows, d) == if d < c then AfterNumeric(schema[names[d]], ColumnAt(start, d), parseNum) else ColumnAt(start, d)
  }

  /** One turn of the loop of lines 52-56: clean column `c` if it is numeric and record its outlier count. */
  method NumericTurn(df: Frame, schema: map<string, Kind>, parseNum: string -> Option<real>, c: nat,
                     ghost start: seq<Row>, outliers: map<string, nat>)
    returns (outliers': map<string, nat>)
    requires df.Valid() && Covers(df.names, schema) && c < |df.names|
    requires WellFormed(df.names, start) && |df.rows| == |start|
    requires NumericDoneUpTo(df.names, schema, start, df.rows, parseNum, c)
    requires outliers == OutlierReport(df.names, schema, start, parseNum, c)
    modifies df
    ensures df.Valid() && df.names == old(df.names) && |df.rows| == |start|
    ensures NumericDoneUpTo(df.names, schema, start, df.rows, parseNum, c + 1)
    ensures outliers' == OutlierReport(df.names, schema, start, parseNum, c + 1)
  {
    ghost var prev := df.rows;
    outliers' := outliers;
    if schema[df.names[c]] == Numeric {
      var count := CleanNumericColumn(df, c, parseNum);
      assert ColumnAt(prev, c) == ColumnAt(start, c);
      OutlierReportStep(df.names, schema, start, parseNum, c, count);
      outliers' := outliers[df.names[c] := count];
    } else {
      OutlierReportStep(df.names, schema, start, parseNum, c, NumericStage(ColumnAt(start, c), parseNum).outliers);
    }
    NumericLoopStep(df.names, schema, start, prev, df.rows, parseNum, c);
  }

  /** The loop of lines 52-56 over all columns, in order. */
  method CleanNumericColumns(df: Frame, schema: map<string, Kind>, parseNum: string -> Option<real>)
    returns (outliers: map<string, nat>)
    requires df.Valid() && Covers(df.names, schema)
    modifies df
    ensures df.Valid() && df.names == old(df.names) && |df.rows| == |old(df.rows)|
    ensures forall d :: 0 <= d < |df.names| ==>
              ColumnAt(df.rows, d) == AfterNumeric(schema[df.names[d]], ColumnAt(old(df.rows), d), parseNum)
    ensures outliers == OutlierReport(df.names, schema, old(df.rows), parseNum, |df.names|)
  {
    ghost var start := df.rows;
    var names := df.names;
    outliers := map[];
    for c := 0 to |names|
      invariant df.Valid() && df.names == names && |df.rows| == |start|
      invariant NumericDoneUpTo(names, schema, start, df.rows, parseNum, c)
      invariant outliers == OutlierReport(names, schema, start, parseNum, c)
    {
      outliers := NumericTurn(df, schema, parseNum, c, start, outliers);
    }
  }

  /** Lines 63-64 for one categorical column: cast and fill, then count the distinct values. */
  method CleanCategoricalColumn(df: Frame, c: nat, toText: Option<Cell> -> string) returns (count: nat)
    requires df.Valid() && c < |df.names|
    modifies df
    ensures df.Valid() && df.names == old(df.names)
    ensures df.rows == WithColumn(old(df.rows), c, CategoricalStage(ColumnAt(old(df.rows), c), toText))
    ensures count == Cardinality(CategoricalStage(ColumnAt(old(df.rows), c), toText))
  {
    df.SetColumn(c, CategoricalStage(ColumnAt(df.rows, c), toText));
    count := Cardinality(ColumnAt(df.rows, c));
  }

  /** One turn of the categorical loop keeps its column invariant. */
  lemma CategoricalLoopStep(names: seq<string>, schema: map<string, Kind>, start: seq<Row>, prev: seq<Row>, next: seq<Row>,
                toText: Option<Cell> -> string, c: nat)
    requires WellFormed(names, start) && WellFormed(names, prev) && Covers(names, schema) && c < |names|
    requires |prev| == |start|
    requires forall d :: 0 <= d < |names| ==>
               ColumnAt(prev, d) == if d < c then AfterCategorical(schema[names[d]], ColumnAt(start, d), toText) else ColumnAt(start, d)
    requires schema[names[c]] == Categorical ==> next == WithColumn(prev, c, CategoricalStage(ColumnAt(prev, c), toText))
    requires schema[names[c]] != Categorical ==> next == prev
    ensures forall d :: 0 <= d < |names| ==>
              ColumnAt(next, d) == if d < c + 1 then AfterCategorical(schema[names[d]], ColumnAt(start, d), toText) else ColumnAt(start, d)
  {
    var cleaned := CategoricalStage(ColumnAt(prev, c), toText);
    forall d | 0 <= d < |names|
      ensures ColumnAt(next, d) == if d < c + 1 then AfterCategorical(schema[names[d]], ColumnAt(start, d), toText) else ColumnAt(start, d)
    {
      if d != c {
        if schema[names[c]] == Categorical {
          WithColumnOther(prev, c, cleaned, d);
        }
      } else {
        assert ColumnAt(prev, c) == ColumnAt(start, c);
      }
    }
  }

  /** Column invariant of the categorical loop: columns before `c` are cleaned, the rest as at the start. */
  ghost predicate CategoricalDoneUpTo(names: seq<string>, schema: map<string, Kind>, start: seq<Row>, rows: seq<Row>,
                                      toText: Option<Cell> -> string, c: nat)
    requires WellFormed(names, start) && WellFormed(names, rows) && Covers(names, schema)
  {
    forall d :: 0 <= d < |names| ==>
      ColumnAt(rows, d) == if d < c then AfterCategorical(schema[names[d]], ColumnAt(start, d), toText) else ColumnAt(start, d)
  }

  /** One turn of the loop of lines 61-64: clean column `c` if it is categorical and record its cardinality. */
  method CategoricalTurn(df: Frame, schema: map<string, Kind>, toText: Option<Cell> -> string, c: nat,
                         ghost start: seq<Row>, categories: map<string, nat>)
    returns (categories': map<string, nat>)
    requires df.Valid() && Covers(df.names, schema) && c < |df.names|
    requires WellFormed(df.names, start) && |df.rows| == |start|
    requires CategoricalDoneUpTo(df.names, schema, start, df.rows, toText, c)
    requires categories == CardinalityReport(df.names, schema, start, toText, c)
    modifies df
    ensures df.Valid() && df.names == old(df.names) && |df.rows| == |start|
    ensures CategoricalDoneUpTo(df.names, schema, start, df.rows, toText, c + 1)
    ensures categories' == CardinalityReport(df.names, schema, start, toText, c + 1)
  {
    ghost var prev := df.rows;
    categories' := categories;
    if schema[df.names[c]] == Categorical {
      var count := CleanCategoricalColumn(df, c, toText);
      assert ColumnAt(prev, c) == ColumnAt(start, c);
      CardinalityReportStep(df.names, schema, start, toText, c, count);
      categories' := categories[df.names[c] := count];
    } else {
      CardinalityReportStep(df.names, schema, start, toText, c, Cardinality(CategoricalStage(ColumnAt(start, c), toText)));
    }
    CategoricalLoopStep(df.names, schema, start, prev, df.rows, toText, c);
  }

  /** The loop of lines 61-64 over all columns, in order. */
  method CleanCategoricalColumns(df: Frame, schema: map<string, Kind>, toText: Option<Cell> -> string)
    returns (categories: map<string, nat>)
    requires df.Valid() && Covers(df.names, schema)
    modifies df
    ensures df.Valid() && df.names == old(df.names) && |df.rows| == |old(df.rows)|
    ensures forall d :: 0 <= d < |df.names| ==>
              ColumnAt(df.rows, d) == AfterCategorical(schema[df.names[d]], ColumnAt(old(df.rows), d), toText)
    ensures categories == CardinalityReport(df.names, schema, old(df.rows), toText, |df.names|)
  {
    ghost var start := df.rows;
    var names := df.names;
    categories := map[];
    for c := 0 to |names|
      invariant df.Valid() && df.names == names && |df.rows| == |start|
      invariant CategoricalDoneUpTo(names, schema, start, df.rows, toText, c)
      invariant categories == CardinalityReport(names, schema, start, toText, c)
    {
      categories := CategoricalTurn(df, schema, toText, c, start, categories);
    }
  }

  /** The cardinality section reads only the categorical columns. */
  lemma CardinalityReportAgrees(names: seq<string>, schema: map<string, Kind>,
                                t: seq<Row>, t': seq<Row>, toText: Option<Cell> -> string)
    requires WellFormed(names, t) && WellFormed(names, t') && Covers(names, schema)
    requires forall d :: 0 <= d < |names| && schema[names[d]] == Categorical ==> ColumnAt(t, d) == ColumnAt(t', d)
    ensures CardinalityReport(names, schema, t, toText, |names|) == CardinalityReport(names, schema, t', toText, |names|)
  {
    TallyAgrees(names, IsKind(names, schema, Categorical),
                CardinalityCounts(names, t, toText), CardinalityCounts(names, t', toText), |names|);
  }

  /** The table after both loops is the cleaned table. */
  lemma AssembleCleaned(names: seq<string>, rows: seq<Row>, numericDone: seq<Row>, final: seq<Row>,
                        parseNum: string -> Option<real>, toText: Option<Cell> -> string)
    requires WellFormed(names, rows) && WellFormed(names, KeepFirst(rows))
    requires WellFormed(names, numericDone) && WellFormed(names, final)
    requires |final| == |numericDone| == |KeepFirst(rows)|
    requires forall d :: 0 <= d < |names| ==>
               ColumnAt(numericDone, d)
               == AfterNumeric(InferredSchema(names, KeepFirst(rows), parseNum)[names[d]], ColumnAt(KeepFirst(rows), d), parseNum)
    requires forall d :: 0 <= d < |names| ==>
               ColumnAt(final, d)
               == AfterCategorical(InferredSchema(names, KeepFirst(rows), parseNum)[names[d]], ColumnAt(numericDone, d), toText)
    ensures final == CleanedTable(names, rows, parseNum, toText)
  {
    var cleaned := CleanedTable(names, rows, parseNum, toText);
    forall c | 0 <= c < |names|
      ensures ColumnAt(final, c) == ColumnAt(cleaned, c)
    {
      CleanedColumnSpec(names, rows, parseNum, toText, c);
    }
    TableExtensionality(|names|, final, cleaned);
  }

  /**
    `run_validation` on a loaded table: missing values on the table as
    loaded, then duplicate count and removal, schema inference, the numeric
    loop and the categorical loop, each updating `df` in place.
  */
  method RunValidation(df: Frame, parseNum: string -> Option<real>, toText: Option<Cell> -> string)
    returns (report: Report)
    requires df.Valid()
    modifies df
    ensures df.Valid() && df.names == old(df.names)
    ensures df.rows == CleanedTable(old(df.names), old(df.rows), parseNum, toText)
    ensures report == ExpectedReport(old(df.names), old(df.rows), parseNum, toText)
  {
    ghost var names, loaded := df.names, df.rows;
    var missing := MissingValues(df.names, df.rows);
    var duplicates := df.CountDuplicated();
    df.DropDuplicates();
    ghost var deduped := df.rows;
    var schema := InferColumnTypes(df.names, df.rows, parseNum);
    var outliers := CleanNumericColumns(df, schema, parseNum);
    ghost var numericDone := df.rows;
    var categories := CleanCategoricalColumns(df, schema, toText);
    report := Report(missing, duplicates, schema, outliers, categories);

    AssembleCleaned(names, loaded, numericDone, df.rows, parseNum, toText);
    CardinalityReportAgrees(names, schema, numericDone, deduped, toText);
    assert report == ExpectedReport(names, loaded, parseNum, toText);
  }

  /**
    `missing_values` is taken on the table as loaded, so it counts the nulls
    of the rows that deduplication later removes as well; `duplicate_rows` is
    the number of rows the cleaned table lacks, and every column name has a
    kind in `inferred_schema`.
  */
  lemma ReportCounts(names: seq<string>, rows: seq<Row>,
                     parseNum: string -> Option<real>, toText: Option<Cell> -> string)
    requires WellFormed(names, rows)
    ensures var r := ExpectedReport(names, rows, parseNum, toText);
            && (forall n :: n in r.missingValues <==> n in names)
            && (forall c :: 0 <= c < |names| ==> r.missingValues[names[c]] == NullCount(ColumnAt(rows, c)))
            && SumOver(names, r.missingValues) == TotalNulls(rows)
            && r.duplicateRows == |rows| - |CleanedTable(names, rows, parseNum, toText)|
            && (forall n :: n in r.inferredSchema <==> n in names)
  {
    MissingValuesConserveNulls(names, rows);
    DuplicateCountIsRemoved(rows);
  }

  /** The cleaned table has one row per distinct loaded row. */
  lemma CleanedRowCount(names: seq<string>, rows: seq<Row>,
                        parseNum: string -> Option<real>, toText: Option<Cell> -> string)
    requires WellFormed(names, rows)
    ensures |CleanedTable(names, rows, parseNum, toText)| == |Elements(rows)|
  {
    KeepFirstSize(rows);
  }

  /** One column's outlier count plus the nulls of its coerced column is at most the row count. */
  lemma OutlierCountBound(names: seq<string>, rows: seq<Row>, parseNum: string -> Option<real>, c: nat)
    requires WellFormed(names, rows) && c < |names|
    ensures OutlierCounts(names, rows, parseNum)(c) + NullCount(CoerceColumn(ColumnAt(rows, c), parseNum)) <= |rows|
  {
    NumericStageSpec(ColumnAt(rows, c), parseNum);
  }

  /** One column's cardinality after the categorical stage is between 1 (given rows) and the row count. */
  lemma CardinalityBound(names: seq<string>, rows: seq<Row>, toText: Option<Cell> -> string, c: nat)
    requires WellFormed(names, rows) && c < |names|
    ensures CardinalityCounts(names, rows, toText)(c) <= |rows|
    ensures rows != [] ==> 1 <= CardinalityCounts(names, rows, toText)(c)
  {
    CategoricalStageSpec(ColumnAt(rows, c), toText);
  }

  /**
    The `outliers` map lists exactly the columns the schema calls numeric,
    and each count plus the nulls of the coerced column is at most the row count.
  */
  lemma OutlierReportSpec(names: seq<string>, schema: map<string, Kind>, rows: seq<Row>,
                          parseNum: string -> Option<real>)
    requires WellFormed(names, rows) && Covers(names, schema)
    ensures var m := OutlierReport(names, schema, rows, parseNum, |names|);
            && (forall n :: n in m <==> n in names && schema[n] == Numeric)
            && (forall c :: 0 <= c < |names| && names[c] in m ==>
                  m[names[c]] == NumericStage(ColumnAt(rows, c), parseNum).outliers)
            && (forall c :: 0 <= c < |names| && names[c] in m ==>
                  m[names[c]] + NullCount(CoerceColumn(ColumnAt(rows, c), parseNum)) <= |rows|)
  {
    var keep, count := IsKind(names, schema, Numeric), OutlierCounts(names, rows, parseNum);
    var m := Tally(names, keep, count, |names|);
    TallySpec(names, keep, count, |names|);
    assert names[..|names|] == names;
    forall n
      ensures n in m <==> n in names && schema[n] == Numeric
    {
      if n in names {
        var c :| 0 <= c < |names| && names[c] == n;
      }
    }
    forall c | 0 <= c < |names| && names[c] in m
      ensures m[names[c]] == NumericStage(ColumnAt(rows, c), parseNum).outliers
      ensures m[names[c]] + NullCount(CoerceColumn(ColumnAt(rows, c), parseNum)) <= |rows|
    {
      OutlierCountsAt(names, rows, parseNum, c);
      OutlierCountBound(names, rows, parseNum, c);
    }
  }

  /**
    The `categorical_cardinality` map lists exactly the columns the schema
    calls categorical, each count at most the row count and at least 1 when
    there are rows.
  */
  lemma CardinalityReportSpec(names: seq<string>, schema: map<string, Kind>, rows: seq<Row>,
                              toText: Option<Cell> -> string)
    requires WellFormed(names, rows) && Covers(names, schema)
    ensures var m := CardinalityReport(names, schema, rows, toText, |names|);
            && (forall n :: n in m <==> n in names && schema[n] == Categorical)
            && (forall c :: 0 <= c < |names| && names[c] in m ==>
                  m[names[c]] == Cardinality(CategoricalStage(ColumnAt(rows, c), toText)))
            && (forall n :: n in m ==> m[n] <= |rows| && (rows != [] ==> 1 <= m[n]))
  {
    var keep, count := IsKind(names, schema, Categorical), CardinalityCounts(names, rows, toText);
    var m := Tally(names, keep, count, |names|);
    TallySpec(names, keep, count, |names|);
    assert names[..|names|] == names;
    forall n
      ensures n in m <==> n in names && schema[n] == Categorical
      ensures n in m ==> m[n] <= |rows| && (rows != [] ==> 1 <= m[n])
    {
      if n in names {
        var c :| 0 <= c < |names| && names[c] == n;
        CardinalityBound(names, rows, toText, c);
      }
    }
    forall c | 0 <= c < |names| && names[c] in m
      ensures m[names[c]] == Cardinality(CategoricalStage(ColumnAt(rows, c), toText))
    {
      CardinalityCountsAt(names, rows, toText, c);
    }
  }

  /**
    The `outliers` section: its keys are the numeric columns, and no count
    exceeds the deduplicated row count.
  */
  lemma ReportOutliers(names: seq<string>, rows: seq<Row>,
                       parseNum: string -> Option<real>, toText: Option<Cell> -> string)
    requires WellFormed(names, rows)
    ensures var r := ExpectedReport(names, rows, parseNum, toText);
            forall n :: n in r.outliers ==> r.outliers[n] <= |KeepFirst(rows)|
    ensures var r := ExpectedReport(names, rows, parseNum, toText);
            forall n :: n in r.outliers <==> n in names && r.inferredSchema[n] == Numeric
  {
    KeepFirstWellFormed(names, rows);
    var r, deduped := ExpectedReport(names, rows, parseNum, toText), KeepFirst(rows);
    var schema := InferredSchema(names, deduped, parseNum);
    assert r.inferredSchema == schema && r.outliers == OutlierReport(names, schema, deduped, parseNum, |names|);
    OutlierReportSpec(names, schema, deduped, parseNum);
  }

  /**
    The `categorical_cardinality` section: its keys are the categorical
    columns, and each count is at most the deduplicated row count and at
    least 1 when some row is left.
  */
  lemma ReportCardinality(names: seq<string>, rows: seq<Row>,
                          parseNum: string -> Option<real>, toText: Option<Cell> -> string)
    requires WellFormed(names, rows)
    ensures var r := ExpectedReport(names, rows, parseNum, toText);
            forall n :: n in r.categoricalCardinality <==> n in names && r.inferredSchema[n] == Categorical
    ensures var r := ExpectedReport(names, rows, parseNum, toText);
            forall n :: n in r.categoricalCardinality ==> r.categoricalCardinality[n] <= |KeepFirst(rows)|
    ensures var r := ExpectedReport(names, rows, parseNum, toText);
            rows != [] ==> forall n :: n in r.categoricalCardinality ==> 1 <= r.categoricalCardinality[n]
  {
    KeepFirstWellFormed(names, rows);
    var r, deduped := ExpectedReport(names, rows, parseNum, toText), KeepFirst(rows);
    var schema := InferredSchema(names, deduped, parseNum);
    assert r.inferredSchema == schema && r.categoricalCardinality == CardinalityReport(names, schema, deduped, toText, |names|);
    CardinalityReportSpec(names, schema, deduped, toText);
  }

  /**
    A column cleaned according to its inferred kind: a categorical column
    holds only non-null text; a numeric column keeps its non-null cells as
    their numbers, and has no null left unless it was entirely null, in which
    case it is left as it was.
  */
  lemma CleanColumnSpec(col: Column, parseNum: string -> Option<real>, toText: Option<Cell> -> string)
    ensures var kind := KindOf(col, parseNum);
            var r := CleanColumn(kind, col, parseNum, toText);
            && |r| == |col|
            && (kind == Categorical ==> forall i :: 0 <= i < |r| ==> r[i].Some? && r[i].value.Text?)
            && (kind == Numeric ==>
                  && (forall i :: 0 <= i < |col| && col[i].Some? ==>
                        r[i].Some? && r[i].value.Num? && NumberOf(col[i].value, parseNum) == Some(r[i].value.num))
                  && ((exists i :: 0 <= i < |col| && col[i].Some?) ==> NullCount(r) == 0)
                  && ((forall i :: 0 <= i < |col| ==> col[i].None?) ==> r == col))
  {
    if KindOf(col, parseNum) == Numeric {
      ParsedColumnStage(col, parseNum);
    } else {
      CategoricalStageSpec(col, toText);
    }
  }

  /** Column by column, the cleaned table is the deduplicated column cleaned by its inferred kind. */
  lemma CleanedColumnSpec(names: seq<string>, rows: seq<Row>,
                          parseNum: string -> Option<real>, toText: Option<Cell> -> string, c: nat)
    requires WellFormed(names, rows) && c < |names|
    ensures WellFormed(names, KeepFirst(rows))
    ensures var deduped := ColumnAt(KeepFirst(rows), c);
            ColumnAt(CleanedTable(names, rows, parseNum, toText), c)
            == CleanColumn(KindOf(deduped, parseNum), deduped, parseNum, toText)
  {
    KeepFirstWellFormed(names, rows);
  }
}
