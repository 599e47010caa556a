/**
  `infer_column_types`: a column is numeric when `pd.to_numeric` accepts the
  whole column, that is when every non-null cell is a number or text that
  parses as one; otherwise the call raises and the column is categorical.
*/
module Schema {
  import opened Wrappers
  import opened Table

  datatype Kind = Numeric | Categorical

  /** What `pd.to_numeric` makes of one non-null cell; `None` when it cannot parse it. */
  function NumberOf(x: Cell, parseNum: string -> Option<real>): Option<real> {
    match x
    case Num(v) => Some(v)
    case Text(s) => parseNum(s)
  }

  /** A cell `pd.to_numeric` accepts: null, or a value that parses. */
  predicate Parses(cell: Option<Cell>, parseNum: string -> Option<real>) {
    cell.None? || NumberOf(cell.value, parseNum).Some?
  }

  /** Every cell of column `c` parses. */
  predicate ColumnParses(rows: seq<Row>, c: nat, parseNum: string -> Option<real>)
    requires forall r :: 0 <= r < |rows| ==> c < |rows[r]|
  {
    forall r :: 0 <= r < |rows| ==> Parses(rows[r][c], parseNum)
  }

  /** Column `c` holds only nulls. */
  predicate ColumnAllNull(rows: seq<Row>, c: nat)
    requires forall r :: 0 <= r < |rows| ==> c < |rows[r]|
  {
    forall r :: 0 <= r < |rows| ==> rows[r][c].None?
  }

  /** The kind the inference assigns to one column. */
  function KindOf(col: Column, parseNum: string -> Option<real>): Kind {
    if forall r :: 0 <= r < |col| ==> Parses(col[r], parseNum) then Numeric else Categorical
  }

  /**
    A column is categorical exactly when some non-null cell does not parse,
    the cell at which `pd.to_numeric` raises; an all-null column is numeric.
  */
  lemma KindOfSpec(col: Column, parseNum: string -> Option<real>)
    ensures KindOf(col, parseNum) == Categorical <==>
            exists r :: 0 <= r < |col| && col[r].Some? && NumberOf(col[r].value, parseNum).None?
    ensures (forall r :: 0 <= r < |col| ==> col[r].None?) ==> KindOf(col, parseNum) == Numeric
  {
    if KindOf(col, parseNum) == Categorical {
      var r :| 0 <= r < |col| && !Parses(col[r], parseNum);
    }
  }

  /** The `inferred_schema` map: each column name to its kind. */
  function InferredSchema(names: seq<string>, rows: seq<Row>, parseNum: string -> Option<real>)
    : (schema: map<string, Kind>)
    requires WellFormed(names, rows)
    ensures forall n :: n in schema <==> n in names
    ensures forall c :: 0 <= c < |names| ==> schema[names[c]] == KindOf(ColumnAt(rows, c), parseNum)
  {
    map c | 0 <= c < |names| :: names[c] := KindOf(ColumnAt(rows, c), parseNum)
  }

  /**
    `pd.to_numeric(df[col])` without `errors=`: scans the column and stops
    (raises) at the first cell it cannot parse.
  */
  method ToNumericSucceeds(col: Column, parseNum: string -> Option<real>) returns (ok: bool)
    ensures ok <==> forall r :: 0 <= r < |col| ==> Parses(col[r], parseNum)
  {
    ok := true;
    var r := 0;
    while r < |col| && ok
      invariant 0 <= r <= |col|
      invariant ok <==> forall k :: 0 <= k < r ==> Parses(col[k], parseNum)
    {
      if col[r].Some? && NumberOf(col[r].value, parseNum).None? {
        ok := false;
      }
      r := r + 1;
    }
  }

  /**
    The loop of `infer_column_types`: each column, in order, is numeric when
    the conversion succeeds and categorical when it raises.
  */
  method InferColumnTypes(names: seq<string>, rows: seq<Row>, parseNum: string -> Option<real>)
    returns (inferred: map<string, Kind>)
    requires WellFormed(names, rows)
    ensures inferred == InferredSchema(names, rows, parseNum)
    ensures forall n :: n in inferred <==> n in names
    ensures forall c :: 0 <= c < |names| ==>
              (inferred[names[c]] == Numeric <==> ColumnParses(rows, c, parseNum))
    ensures forall c :: 0 <= c < |names| && ColumnAllNull(rows, c) ==>
              inferred[names[c]] == Numeric
  {
    inferred := map[];
    for c := 0 to |names|
      invariant forall n :: n in inferred <==> n in names[..c]
      invariant forall d :: 0 <= d < c ==> inferred[names[d]] == KindOf(ColumnAt(rows, d), parseNum)
    {
      var numeric := ToNumericSucceeds(ColumnAt(rows, c), parseNum);
      InferStep(names, rows, parseNum, inferred, c);
      inferred := inferred[names[c] := if numeric then Numeric else Categorical];
    }
    assert names[..|names|] == names;
    InferredSchemaUnique(names, rows, parseNum, inferred);
  }

  /** One turn of the loop records column `c` and keeps the earlier columns' kinds. */
  lemma InferStep(names: seq<string>, rows: seq<Row>, parseNum: string -> Option<real>,
                  inferred: map<string, Kind>, c: nat)
    requires WellFormed(names, rows) && c < |names|
    requires forall n :: n in inferred <==> n in names[..c]
    requires forall d :: 0 <= d < c ==> inferred[names[d]] == KindOf(ColumnAt(rows, d), parseNum)
    ensures var next := inferred[names[c] := KindOf(ColumnAt(rows, c), parseNum)];
            && (forall n :: n in next <==> n in names[..c + 1])
            && (forall d :: 0 <= d < c + 1 ==> next[names[d]] == KindOf(ColumnAt(rows, d), parseNum))
  {
    assert names[..c + 1] == names[..c] + [names[c]];
  }

  /** A map with the columns as keys, each mapped to its kind, is the inferred schema. */
  lemma InferredSchemaUnique(names: seq<string>, rows: seq<Row>, parseNum: string -> Option<real>,
                             schema: map<string, Kind>)
    requires WellFormed(names, rows)
    requires forall n :: n in schema <==> n in names
    requires forall c :: 0 <= c < |names| ==> schema[names[c]] == KindOf(ColumnAt(rows, c), parseNum)
    ensures schema == InferredSchema(names, rows, parseNum)
    ensures forall c :: 0 <= c < |names| ==>
              (schema[names[c]] == Numeric <==> ColumnParses(rows, c, parseNum))
    ensures forall c :: 0 <= c < |names| && ColumnAllNull(rows, c) ==>
              schema[names[c]] == Numeric
  {
    InferredSchemaKinds(names, rows, parseNum);
    var spec := InferredSchema(names, rows, parseNum);
    assert schema.Keys == spec.Keys;
    forall n | n in schema
      ensures schema[n] == spec[n]
    {
      var c :| 0 <= c < |names| && names[c] == n;
    }
  }

  /**
    In the inferred schema a column is numeric exactly when every cell of it
    parses, so in particular when it holds only nulls.
  */
  lemma InferredSchemaKinds(names: seq<string>, rows: seq<Row>, parseNum: string -> Option<real>)
    requires WellFormed(names, rows)
    ensures var schema := InferredSchema(names, rows, parseNum);
            forall c :: 0 <= c < |names| ==>
              (schema[names[c]] == Numeric <==> ColumnParses(rows, c, parseNum))
    ensures var schema := InferredSchema(names, rows, parseNum);
            forall c :: 0 <= c < |names| && ColumnAllNull(rows, c) ==>
              schema[names[c]] == Numeric
  {
    forall c | 0 <= c < |names|
      ensures KindOf(ColumnAt(rows, c), parseNum) == Numeric <==> ColumnParses(rows, c, parseNum)
    {
      var col := ColumnAt(rows, c);
      assert forall r :: 0 <= r < |rows| ==> col[r] == rows[r][c];
    }
  }
}
