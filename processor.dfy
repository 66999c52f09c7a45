/**
 * The table transformations of `TransformationService` in app/processor.py.
 *
 * A table is an ordered sequence of distinct column names and a sequence of
 * rows, each row mapping every column to a cell; a cell is None where pandas
 * holds a missing value. `apply_transform` works on a copy of its input, so it
 * is modelled as a function on table values: the input can never change.
 */
module Processor {
  import opened Wrappers

  /** A scalar cell value or request parameter. Floating point is not modelled. */
  datatype Value = Int(i: int) | Text(s: string) | Bool(b: bool)

  /** A table cell; None is a missing value (NaN, None, NaT). */
  type Cell = Option<Value>

  type Row = map<string, Cell>

  datatype Table = Table(columns: seq<string>, rows: seq<Row>)

  /** The parameters of a request: JSON keys to scalars, None for JSON null. */
  type Params = map<string, Cell>

  /** Column names are distinct and every row has exactly the table's columns. */
  ghost predicate Valid(t: Table) {
    && (forall i, j :: 0 <= i < j < |t.columns| ==> t.columns[i] != t.columns[j])
    && (forall i :: 0 <= i < |t.rows| ==> forall c :: c in t.rows[i] <==> c in t.columns)
  }

  predicate IsNull(row: Row, c: string) {
    c in row && row[c].None?
  }

  // ---------------------------------------------------------------------
  // Null report
  // ---------------------------------------------------------------------

  /** Number of rows whose cell in column `c` is missing (`df.isnull().sum()[c]`). */
  function NullCount(rows: seq<Row>, c: string): nat {
    if rows == [] then 0
    else (if IsNull(rows[0], c) then 1 else 0) + NullCount(rows[1..], c)
  }

  /** `get_null_report`: each column holding a missing value, mapped to how many it holds. */
  function NullReport(t: Table): map<string, nat> {
    map c | c in t.columns && NullCount(t.rows, c) > 0 :: NullCount(t.rows, c)
  }

  /** A column has a positive null count exactly when some row misses its value. */
  lemma {:induction false} NullCountPositive(rows: seq<Row>, c: string)
    ensures NullCount(rows, c) > 0 <==> exists i :: 0 <= i < |rows| && IsNull(rows[i], c)
  {
    if rows != [] {
      NullCountPositive(rows[1..], c);
      if !IsNull(rows[0], c) && exists i :: 0 <= i < |rows| && IsNull(rows[i], c) {
        var i :| 0 <= i < |rows| && IsNull(rows[i], c);
        assert IsNull(rows[1..][i - 1], c);
      }
    }
  }

  /** The report lists exactly the columns with a missing value, each with its count. */
  lemma NullReportSpec(t: Table, c: string)
    ensures c in NullReport(t) <==> c in t.columns && exists i :: 0 <= i < |t.rows| && IsNull(t.rows[i], c)
    ensures c in NullReport(t) ==> NullReport(t)[c] == NullCount(t.rows, c) > 0
  {
    NullCountPositive(t.rows, c);
  }

  // ---------------------------------------------------------------------
  // The three column actions
  // ---------------------------------------------------------------------

  /** The rows whose cell in column `c` is present, in their original order (`dropna(subset=[c])`). */
  function DropNullRows(rows: seq<Row>, c: string): (r: seq<Row>)
    ensures forall x :: x in r <==> x in rows && !IsNull(x, c)
    ensures |r| + NullCount(rows, c) == |rows|
  {
    if rows == [] then []
    else if IsNull(rows[0], c) then DropNullRows(rows[1..], c)
    else [rows[0]] + DropNullRows(rows[1..], c)
  }

  /** The row with a missing cell in column `c` filled with `v`. */
  function FillCell(row: Row, c: string, v: Value): Row {
    if IsNull(row, c) then row[c := Some(v)] else row
  }

  /** `df[c].fillna(v)` assigned back to column `c`. */
  function FillNulls(rows: seq<Row>, c: string, v: Value): (r: seq<Row>)
    ensures |r| == |rows|
    ensures forall i :: 0 <= i < |rows| ==> r[i] == FillCell(rows[i], c, v)
  {
    if rows == [] then [] else [FillCell(rows[0], c, v)] + FillNulls(rows[1..], c, v)
  }

  /** Every occurrence of `c` removed from a list of column names, the others kept in order. */
  function RemoveColumn(columns: seq<string>, c: string): (r: seq<string>)
    ensures forall d :: d in r <==> d in columns && d != c
    ensures |r| <= |columns|
  {
    if columns == [] then []
    else if columns[0] == c then RemoveColumn(columns[1..], c)
    else [columns[0]] + RemoveColumn(columns[1..], c)
  }

  /** Every row without its cell in column `c`. */
  function RemoveCells(rows: seq<Row>, c: string): (r: seq<Row>)
    ensures |r| == |rows|
    ensures forall i :: 0 <= i < |rows| ==> r[i] == rows[i] - {c}
  {
    if rows == [] then [] else [rows[0] - {c}] + RemoveCells(rows[1..], c)
  }

  /** The `column` parameter, when it is a string; any other value names no column. */
  function ColumnParam(params: Params): Option<string> {
    if "column" in params && params["column"].Some? && params["column"].value.Text? then
      Some(params["column"].value.s)
    else None
  }

  /** `params.get('value', 0)`: None when the key is present with a null value. */
  function FillValueParam(params: Params): Option<Value> {
    if "value" in params then params["value"] else Some(Int(0))
  }

  predicate HasColumn(t: Table, col: Option<string>) {
    col.Some? && col.value in t.columns
  }

  /** The `dropna_col` branch: KeyError when the column does not exist. */
  function DropNaColumn(t: Table, col: Option<string>): (r: Result<Table>)
    ensures r.Ok? <==> HasColumn(t, col)
  {
    if HasColumn(t, col) then Ok(Table(t.columns, DropNullRows(t.rows, col.value)))
    else Err("KeyError: column not found")
  }

  /** The `fillna_col` branch: KeyError when the column does not exist, ValueError when the fill value is null. */
  function FillNaColumn(t: Table, col: Option<string>, value: Option<Value>): (r: Result<Table>)
    ensures r.Ok? <==> HasColumn(t, col) && value.Some?
  {
    if !HasColumn(t, col) then Err("KeyError: column not found")
    else if value.None? then Err("ValueError: Must specify a fill 'value'")
    else Ok(Table(t.columns, FillNulls(t.rows, col.value, value.value)))
  }

  /** The `drop_col` branch: the column is dropped when present; otherwise the table is unchanged. */
  function DropColumn(t: Table, col: Option<string>): Table {
    if HasColumn(t, col) then Table(RemoveColumn(t.columns, col.value), RemoveCells(t.rows, col.value))
    else t
  }

  /** The body of the `try` block of `apply_transform`: the new table, or the exception raised. */
  function Dispatch(t: Table, action: string, params: Params,
                    groupBy: (Table, Params) -> Result<Table>): Result<Table>
  {
    if action == "dropna_col" then DropNaColumn(t, ColumnParam(params))
    else if action == "fillna_col" then FillNaColumn(t, ColumnParam(params), FillValueParam(params))
    else if action == "drop_col" then Ok(DropColumn(t, ColumnParam(params)))
    else if action == "groupby" then groupBy(t, params)
    else Ok(t)
  }

  /**
   * `apply_transform(df, action, params)`: the transformed copy and no error,
   * or, when the transformation raises, the original table and the error text.
   * The `groupby` aggregation is the parameter `groupBy`.
   */
  function ApplyTransform(t: Table, action: string, params: Params,
                          groupBy: (Table, Params) -> Result<Table>): (r: (Table, Option<string>))
    ensures r.1.Some? ==> r.0 == t
    ensures action !in {"dropna_col", "fillna_col", "drop_col", "groupby"} ==> r == (t, None)
    ensures action == "drop_col" ==> r.1 == None
    ensures action == "dropna_col" ==> (r.1.None? <==> HasColumn(t, ColumnParam(params)))
    ensures action == "fillna_col" ==>
      (r.1.None? <==> HasColumn(t, ColumnParam(params)) && FillValueParam(params).Some?)
    ensures action == "groupby" ==>
      r == match groupBy(t, params) case Ok(g) => (g, None) case Err(m) => (t, Some(m))
  {
    match Dispatch(t, action, params, groupBy)
    case Ok(result) => (result, None)
    case Err(message) => (t, Some(message))
  }

  // ---------------------------------------------------------------------
  // Properties of the column actions
  // ---------------------------------------------------------------------

  /** Dropping null rows distributes over concatenation: it keeps rows in their original order. */
  lemma {:induction false} DropNullRowsAppend(a: seq<Row>, b: seq<Row>, c: string)
    ensures DropNullRows(a + b, c) == DropNullRows(a, c) + DropNullRows(b, c)
  {
    if a == [] {
      assert a + b == b;
    } else {
      var ab := a + b;
      assert ab[0] == a[0] && ab[1..] == a[1..] + b;
      DropNullRowsAppend(a[1..], b, c);
      if !IsNull(a[0], c) {
        calc {
          DropNullRows(ab, c);
          [a[0]] + DropNullRows(a[1..] + b, c);
          [a[0]] + (DropNullRows(a[1..], c) + DropNullRows(b, c));
          ([a[0]] + DropNullRows(a[1..], c)) + DropNullRows(b, c);
        }
      }
    }
  }

  /** After filling column `c`, it has no missing value and the other columns keep their counts. */
  lemma {:induction false} FillNullsCounts(rows: seq<Row>, c: string, v: Value, d: string)
    ensures NullCount(FillNulls(rows, c, v), d) == if d == c then 0 else NullCount(rows, d)
  {
    if rows != [] {
      FillNullsCounts(rows[1..], c, v, d);
      assert FillNulls(rows, c, v)[1..] == FillNulls(rows[1..], c, v);
    }
  }

  /** After removing column `c` from every row, it has no missing value and the other columns keep their counts. */
  lemma {:induction false} RemoveCellsCounts(rows: seq<Row>, c: string, d: string)
    ensures NullCount(RemoveCells(rows, c), d) == if d == c then 0 else NullCount(rows, d)
  {
    if rows != [] {
      RemoveCellsCounts(rows[1..], c, d);
      assert RemoveCells(rows, c)[1..] == RemoveCells(rows[1..], c);
    }
  }

  /** A column without missing values has a null count of zero. */
  lemma {:induction false} NullCountZero(rows: seq<Row>, c: string)
    requires forall i :: 0 <= i < |rows| ==> !IsNull(rows[i], c)
    ensures NullCount(rows, c) == 0
  {
    if rows != [] {
      assert forall i :: 0 <= i < |rows[1..]| ==> rows[1..][i] == rows[i + 1];
      NullCountZero(rows[1..], c);
    }
  }

  /** When only column `c` changes, and it ends up without missing values, the report loses `c` and nothing else. */
  lemma ReportLosesColumn(t: Table, u: Table, c: string)
    requires forall d :: d != c ==> (d in u.columns <==> d in t.columns)
    requires NullCount(u.rows, c) == 0
    requires forall d :: d != c ==> NullCount(u.rows, d) == NullCount(t.rows, d)
    ensures NullReport(u) == NullReport(t) - {c}
  {
    assert NullReport(u).Keys == NullReport(t).Keys - {c};
  }

  /** Removing a name that does not occur leaves the list as it is. */
  lemma {:induction false} RemoveAbsentColumn(columns: seq<string>, c: string)
    requires c !in columns
    ensures RemoveColumn(columns, c) == columns
  {
    if columns != [] {
      RemoveAbsentColumn(columns[1..], c);
    }
  }

  /** In a list of distinct names, removing `c` cuts out its one position and keeps the others in order. */
  lemma {:induction false} RemoveColumnAt(columns: seq<string>, c: string, k: nat)
    requires forall i, j :: 0 <= i < j < |columns| ==> columns[i] != columns[j]
    requires k < |columns| && columns[k] == c
    ensures RemoveColumn(columns, c) == columns[..k] + columns[k + 1..]
  {
    if k == 0 {
      assert c !in columns[1..];
      RemoveAbsentColumn(columns[1..], c);
    } else {
      RemoveColumnAt(columns[1..], c, k - 1);
      assert columns[..k] == [columns[0]] + columns[1..][..k - 1];
      assert columns[k + 1..] == columns[1..][k..];
    }
  }

  // ---------------------------------------------------------------------
  // apply_transform
  // ---------------------------------------------------------------------

  /**
   * `dropna_col` on an existing column keeps exactly the rows whose cell in it
   * is present, in order, with all columns; the column then leaves the report,
   * and the table shrinks by the count the report gave it.
   */
  lemma DropNaColKeepsPresentRows(t: Table, params: Params, groupBy: (Table, Params) -> Result<Table>)
    requires Valid(t)
    requires HasColumn(t, ColumnParam(params))
    ensures var c := ColumnParam(params).value;
      var r := ApplyTransform(t, "dropna_col", params, groupBy);
      && r.1 == None
      && r.0.columns == t.columns
      && r.0.rows == DropNullRows(t.rows, c)
      && (forall x :: x in r.0.rows <==> x in t.rows && !IsNull(x, c))
      && Valid(r.0)
      && c !in NullReport(r.0)
      && |r.0.rows| == |t.rows| - (if c in NullReport(t) then NullReport(t)[c] else 0)
  {
    var c := ColumnParam(params).value;
    var rows := DropNullRows(t.rows, c);
    forall i | 0 <= i < |rows| ensures !IsNull(rows[i], c) && forall d :: d in rows[i] <==> d in t.columns {
      assert rows[i] in t.rows;
    }
    NullCountZero(rows, c);
  }

  /**
   * `fillna_col` on an existing column with a non-null value fills exactly the
   * missing cells of that column; every other cell, the column order and the
   * row count are unchanged, and only that column leaves the report.
   */
  lemma FillNaColFillsOnlyThatColumn(t: Table, params: Params, groupBy: (Table, Params) -> Result<Table>)
    requires Valid(t)
    requires HasColumn(t, ColumnParam(params)) && FillValueParam(params).Some?
    ensures var c, v := ColumnParam(params).value, FillValueParam(params).value;
      var r := ApplyTransform(t, "fillna_col", params, groupBy);
      && r.1 == None
      && r.0.columns == t.columns
      && |r.0.rows| == |t.rows|
      && (forall i, d :: 0 <= i < |t.rows| && d in t.columns ==>
            d in r.0.rows[i] &&
            r.0.rows[i][d] == if d == c && t.rows[i][d].None? then Some(v) else t.rows[i][d])
      && Valid(r.0)
      && NullReport(r.0) == NullReport(t) - {c}
  {
    var c, v := ColumnParam(params).value, FillValueParam(params).value;
    var u := Table(t.columns, FillNulls(t.rows, c, v));
    forall d ensures NullCount(u.rows, d) == if d == c then 0 else NullCount(t.rows, d) {
      FillNullsCounts(t.rows, c, v, d);
    }
    ReportLosesColumn(t, u, c);
  }

  /** The fill value defaults to 0 when the request gives none. */
  lemma FillValueDefaultsToZero(params: Params)
    requires "value" !in params
    ensures FillValueParam(params) == Some(Int(0))
  {
  }

  /**
   * `drop_col` on an existing column removes it, and only it: the other
   * columns keep their order, every row loses exactly that cell, and only that
   * column leaves the report.
   */
  lemma DropColRemovesOnlyThatColumn(t: Table, params: Params, groupBy: (Table, Params) -> Result<Table>, k: nat)
    requires Valid(t)
    requires k < |t.columns| && ColumnParam(params) == Some(t.columns[k])
    ensures var c := t.columns[k];
      var r := ApplyTransform(t, "drop_col", params, groupBy);
      && r.1 == None
      && r.0.columns == t.columns[..k] + t.columns[k + 1..]
      && c !in r.0.columns
      && |r.0.rows| == |t.rows|
      && (forall i :: 0 <= i < |t.rows| ==> r.0.rows[i] == t.rows[i] - {c})
      && Valid(r.0)
      && NullReport(r.0) == NullReport(t) - {c}
  {
    var c := t.columns[k];
    RemoveColumnAt(t.columns, c, k);
    var u := DropColumn(t, Some(c));
    assert u.columns == t.columns[..k] + t.columns[k + 1..];
    forall i, j | 0 <= i < j < |u.columns| ensures u.columns[i] != u.columns[j] {
      var i', j' := if i < k then i else i + 1, if j < k then j else j + 1;
      assert u.columns[i] == t.columns[i'] && u.columns[j] == t.columns[j'];
    }
    forall d ensures NullCount(u.rows, d) == if d == c then 0 else NullCount(t.rows, d) {
      RemoveCellsCounts(t.rows, c, d);
    }
    ReportLosesColumn(t, u, c);
  }

  /** `drop_col` on a column that does not exist returns the table unchanged, without error. */
  lemma DropColAbsentIsNoOp(t: Table, params: Params, groupBy: (Table, Params) -> Result<Table>)
    requires !HasColumn(t, ColumnParam(params))
    ensures ApplyTransform(t, "drop_col", params, groupBy) == (t, None)
  {
  }

  /** Unlike `drop_col`, `dropna_col` and `fillna_col` on a missing column take the error path and return the original. */
  lemma MissingColumnIsAnError(t: Table, params: Params, groupBy: (Table, Params) -> Result<Table>)
    requires !HasColumn(t, ColumnParam(params))
    ensures var r := ApplyTransform(t, "dropna_col", params, groupBy); r.0 == t && r.1.Some?
    ensures var r := ApplyTransform(t, "fillna_col", params, groupBy); r.0 == t && r.1.Some?
  {
  }

  /** Every action other than `groupby` turns a well-formed table into a well-formed table. */
  lemma ApplyTransformPreservesValid(t: Table, action: string, params: Params,
                                     groupBy: (Table, Params) -> Result<Table>)
    requires Valid(t) && action != "groupby"
    ensures Valid(ApplyTransform(t, action, params, groupBy).0)
  {
    if action == "dropna_col" && HasColumn(t, ColumnParam(params)) {
      DropNaColKeepsPresentRows(t, params, groupBy);
    } else if action == "fillna_col" && HasColumn(t, ColumnParam(params)) && FillValueParam(params).Some? {
      FillNaColFillsOnlyThatColumn(t, params, groupBy);
    } else if action == "drop_col" && HasColumn(t, ColumnParam(params)) {
      var k :| 0 <= k < |t.columns| && t.columns[k] == ColumnParam(params).value;
      DropColRemovesOnlyThatColumn(t, params, groupBy, k);
    }
  }
}
