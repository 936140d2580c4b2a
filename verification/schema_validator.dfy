/** schema_validator.go: checks a request's data against the table
    descriptor: unknown table, unknown columns (strict mode), per-column
    value checks with the operation's skips, and required columns on create.

    The per-column value check (query.ValidateColumn) is not part of this
    model; it is a parameter that returns an error message or None. */
module SchemaValidation {
  import opened Base
  import opened Text
  import opened Assoc
  import opened Values
  import opened Schema
  import opened Errors

  datatype Operation = Create | Update

  datatype SchemaValidator = SchemaValidator(schema: SchemaCache, strictMode: bool)

  /** query.ValidateColumn: Some(message) when the value does not fit the column. */
  type ColumnCheck = (Column, Value) -> Option<string>

  function TableNotFoundError(tableName: string): ValidationError
  {
    NewValidationError("_table", "Table '" + tableName + "' not found")
  }

  function UnknownColumnError(field: string, tableName: string): ValidationError
  {
    NewValidationError(field, "Unknown column '" + field + "' in table '" + tableName + "'")
  }

  function RequiredColumnError(col: Column): ValidationError
  {
    NewValidationError(col.name, "Column '" + col.name + "' is required and does not allow NULL")
  }

  predicate HasUnknownKey(t: Table, data: seq<(string, Value)>) {
    exists j | 0 <= j < |data| :: !Known(t, data[j].0)
  }

  /* ---------------- unknown columns ---------------- */

  /** The strict-mode loop body for one entry. */
  function UnknownErrorOf(t: Table, tableName: string, e: (string, Value)): Option<ValidationError>
  {
    if Known(t, e.0) then None else Some(UnknownColumnError(e.0, tableName))
  }

  /** `e` is the unknown-column error of some key of `data`. */
  predicate UnknownErrorFrom(t: Table, tableName: string, data: seq<(string, Value)>, e: ValidationError) {
    exists j | 0 <= j < |data| :: !Known(t, data[j].0) && e == UnknownColumnError(data[j].0, tableName)
  }

  /** The strict-mode loop: one error per key that names no column, in data
      order, and no other. */
  function UnknownErrors(t: Table, tableName: string, data: AList<Value>): (r: ValidationErrors)
    ensures forall i | 0 <= i < |r| :: UnknownErrorFrom(t, tableName, data, r[i])
    ensures forall j | 0 <= j < |data| && !Known(t, data[j].0) :: UnknownColumnError(data[j].0, tableName) in r
    ensures forall i, k | 0 <= i < k < |r| :: r[i].field != r[k].field
    ensures |r| > 0 <==> HasUnknownKey(t, data)
  {
    var f := (e: (string, Value)) => UnknownErrorOf(t, tableName, e);
    var r := Collect(data, f);
    assert forall i | 0 <= i < |r| :: UnknownErrorFrom(t, tableName, data, r[i]) by {
      forall i | 0 <= i < |r| ensures UnknownErrorFrom(t, tableName, data, r[i]) {
        CollectSound(data, f, i);
      }
    }
    assert forall j | 0 <= j < |data| && !Known(t, data[j].0) :: UnknownColumnError(data[j].0, tableName) in r by {
      forall j | 0 <= j < |data| && !Known(t, data[j].0) ensures UnknownColumnError(data[j].0, tableName) in r {
        CollectComplete(data, f, j);
      }
    }
    assert forall i, k | 0 <= i < k < |r| :: r[i].field != r[k].field by {
      forall i, k | 0 <= i < k < |r| ensures r[i].field != r[k].field {
        CollectOrdered(data, f, i, k);
      }
    }
    CollectCount(data, f);
    r
  }

  /* ---------------- value checks ---------------- */

  /** A data entry whose value is checked: its key names a column, which is
      not auto-increment on Create and not the primary key on Update. */
  predicate Checked(t: Table, op: Operation, e: (string, Value)) {
    && Known(t, e.0)
    && !(op == Create && Resolve(t, e.0).value.isAutoIncrement)
    && !(op == Update && Resolve(t, e.0).value.isPrimaryKey)
  }

  /** Entry `e` fails the column check, with message `m`. */
  predicate FailsCheck(t: Table, op: Operation, check: ColumnCheck, e: (string, Value), m: string) {
    Checked(t, op, e) && check(Resolve(t, e.0).value, e.1) == Some(m)
  }

  /** The value loop body for one entry: unknown keys and the operation's
      skipped columns give nothing, a failing check gives its message under
      the caller's key. */
  function ValueErrorOf(t: Table, op: Operation, check: ColumnCheck, e: (string, Value)): Option<ValidationError>
  {
    if !Checked(t, op, e) then None
    else match check(Resolve(t, e.0).value, e.1)
      case None => None
      case Some(m) => Some(NewValidationError(e.0, m))
  }

  /** `e` reports a failed check on some entry of `data`, under its key. */
  predicate ValueErrorFrom(t: Table, op: Operation, check: ColumnCheck, data: seq<(string, Value)>, e: ValidationError) {
    exists j | 0 <= j < |data| :: e.field == data[j].0 && FailsCheck(t, op, check, data[j], e.message)
  }

  /** The value loop: one error per checked entry whose check fails, in data
      order, and no other. */
  function ValueErrors(t: Table, op: Operation, check: ColumnCheck, data: AList<Value>): (r: ValidationErrors)
    ensures forall i | 0 <= i < |r| :: ValueErrorFrom(t, op, check, data, r[i])
    ensures forall j, m | 0 <= j < |data| && FailsCheck(t, op, check, data[j], m) :: NewValidationError(data[j].0, m) in r
    ensures forall i, k | 0 <= i < k < |r| :: r[i].field != r[k].field
    ensures |r| <= |data|
  {
    var f := (e: (string, Value)) => ValueErrorOf(t, op, check, e);
    var r := Collect(data, f);
    assert forall i | 0 <= i < |r| :: ValueErrorFrom(t, op, check, data, r[i]) by {
      forall i | 0 <= i < |r| ensures ValueErrorFrom(t, op, check, data, r[i]) {
        CollectSound(data, f, i);
        var j :| 0 <= j < |data| && f(data[j]) == Some(r[i]);
        assert FailsCheck(t, op, check, data[j], r[i].message);
      }
    }
    assert forall j, m | 0 <= j < |data| && FailsCheck(t, op, check, data[j], m) :: NewValidationError(data[j].0, m) in r by {
      forall j, m | 0 <= j < |data| && FailsCheck(t, op, check, data[j], m) ensures NewValidationError(data[j].0, m) in r {
        CollectComplete(data, f, j);
      }
    }
    assert forall i, k | 0 <= i < k < |r| :: r[i].field != r[k].field by {
      forall i, k | 0 <= i < k < |r| ensures r[i].field != r[k].field {
        CollectOrdered(data, f, i, k);
      }
    }
    CollectCount(data, f);
    r
  }

  /* ---------------- required columns ---------------- */

  /** The inner search with `break`: does some data key equal the column key,
      ignoring ASCII case? */
  function Found(data: seq<(string, Value)>, colName: string): (r: bool)
    ensures r <==> exists j | 0 <= j < |data| :: EqualFold(data[j].0, colName)
    decreases |data|
  {
    if |data| == 0 then false
    else if EqualFold(data[0].0, colName) then true
    else
      var r := Found(data[1..], colName);
      assert r <==> exists j | 0 <= j < |data| :: EqualFold(data[j].0, colName) by {
        if exists j | 0 <= j < |data| :: EqualFold(data[j].0, colName) {
          var j :| 0 <= j < |data| && EqualFold(data[j].0, colName);
          assert data[1..][j - 1] == data[j];
        }
        if r {
          var j :| 0 <= j < |data[1..]| && EqualFold(data[1..][j].0, colName);
          assert data[j + 1] == data[1..][j];
        }
      }
      r
  }

  /** A column that must be supplied on Create and is not. */
  predicate MissingRequired(c: (string, Column), data: seq<(string, Value)>) {
    !c.1.isAutoIncrement && !c.1.nullable && !Found(data, c.0)
  }

  /** The required-column loop body for one column. */
  function RequiredErrorOf(data: seq<(string, Value)>, c: (string, Column)): Option<ValidationError>
  {
    if MissingRequired(c, data) then Some(RequiredColumnError(c.1)) else None
  }

  /** `e` is the required-column error of some column of `columns`. */
  predicate RequiredErrorFrom(columns: seq<(string, Column)>, data: seq<(string, Value)>, e: ValidationError) {
    exists j | 0 <= j < |columns| :: MissingRequired(columns[j], data) && e == RequiredColumnError(columns[j].1)
  }

  /** The number of columns of `columns` missing from `data`. */
  function MissingCount(columns: seq<(string, Column)>, data: seq<(string, Value)>): nat
    decreases |columns|
  {
    if |columns| == 0 then 0
    else MissingCount(columns[..|columns| - 1], data) + (if MissingRequired(columns[|columns| - 1], data) then 1 else 0)
  }

  lemma {:induction false} MissingHits(columns: seq<(string, Column)>, data: seq<(string, Value)>,
                                       f: ((string, Column)) -> Option<ValidationError>)
    requires forall c :: f(c) == RequiredErrorOf(data, c)
    ensures Hits(columns, f) == MissingCount(columns, data)
    decreases |columns|
  {
    if |columns| > 0 {
      MissingHits(columns[..|columns| - 1], data, f);
    }
  }

  /** The required-column loop over the table's columns, in the column map's
      iteration order; errors are reported under the schema's column name. */
  function RequiredErrors(columns: seq<(string, Column)>, data: AList<Value>): (r: ValidationErrors)
    ensures forall i | 0 <= i < |r| :: RequiredErrorFrom(columns, data, r[i])
    ensures forall j | 0 <= j < |columns| && MissingRequired(columns[j], data) :: RequiredColumnError(columns[j].1) in r
    ensures |r| == MissingCount(columns, data)
    ensures |r| <= |columns|
  {
    var f := (c: (string, Column)) => RequiredErrorOf(data, c);
    MissingHits(columns, data, f);
    var r := Collect(columns, f);
    assert forall i | 0 <= i < |r| :: RequiredErrorFrom(columns, data, r[i]) by {
      forall i | 0 <= i < |r| ensures RequiredErrorFrom(columns, data, r[i]) {
        CollectSound(columns, f, i);
      }
    }
    assert forall j | 0 <= j < |columns| && MissingRequired(columns[j], data) :: RequiredColumnError(columns[j].1) in r by {
      forall j | 0 <= j < |columns| && MissingRequired(columns[j], data) ensures RequiredColumnError(columns[j].1) in r {
        CollectComplete(columns, f, j);
      }
    }
    CollectCount(columns, f);
    r
  }

  /* ---------------- Validate ---------------- */

  /** SchemaValidator.Validate. */
  function Validate(sv: SchemaValidator, check: ColumnCheck, tableName: string, data: AList<Value>, op: Operation)
    : (r: ValidationErrors)
    ensures tableName !in sv.schema ==> r == [TableNotFoundError(tableName)]
    ensures (tableName in sv.schema && sv.strictMode && HasUnknownKey(sv.schema[tableName], data)) ==>
      r == UnknownErrors(sv.schema[tableName], tableName, data) && |r| > 0
    ensures (tableName in sv.schema && !(sv.strictMode && HasUnknownKey(sv.schema[tableName], data))) ==>
      r == ValueErrors(sv.schema[tableName], op, check, data)
           + (if op == Create then RequiredErrors(sv.schema[tableName].columns, data) else [])
  {
    if tableName !in sv.schema then [TableNotFoundError(tableName)]
    else
      var t := sv.schema[tableName];
      var unknown := if sv.strictMode then UnknownErrors(t, tableName, data) else [];
      if |unknown| > 0 then unknown
      else
        var values := ValueErrors(t, op, check, data);
        if op == Create then values + RequiredErrors(t.columns, data) else values
  }

  /** An unknown table yields exactly one error, on the "_table" field. */
  lemma UnknownTableSingleError(sv: SchemaValidator, check: ColumnCheck, tableName: string, data: AList<Value>,
                                op: Operation)
    requires tableName !in sv.schema
    ensures |Validate(sv, check, tableName, data, op)| == 1
    ensures Validate(sv, check, tableName, data, op)[0].field == "_table"
  {
  }

  /** On Update without strict-mode unknown keys, every error reports a
      failed column check on a checked key, and every failed check is
      reported: no required-column errors and nothing from unknown keys. */
  lemma UpdateErrorsComeFromChecks(sv: SchemaValidator, check: ColumnCheck, tableName: string, data: AList<Value>)
    requires tableName in sv.schema
    requires !(sv.strictMode && HasUnknownKey(sv.schema[tableName], data))
    ensures forall i | 0 <= i < |Validate(sv, check, tableName, data, Update)| ::
      ValueErrorFrom(sv.schema[tableName], Update, check, data, Validate(sv, check, tableName, data, Update)[i])
    ensures forall j, m | 0 <= j < |data| && FailsCheck(sv.schema[tableName], Update, check, data[j], m) ::
      NewValidationError(data[j].0, m) in Validate(sv, check, tableName, data, Update)
  {
  }

  /** Outside strict mode, unknown keys produce no errors: every error is a
      failed check on a known key or, on Create, a missing required column. */
  lemma LenientIgnoresUnknownKeys(sv: SchemaValidator, check: ColumnCheck, tableName: string, data: AList<Value>,
                                 op: Operation, i: int)
    requires tableName in sv.schema && !sv.strictMode
    requires 0 <= i < |Validate(sv, check, tableName, data, op)|
    ensures
      var t := sv.schema[tableName];
      var e := Validate(sv, check, tableName, data, op)[i];
      ValueErrorFrom(t, op, check, data, e) || (op == Create && RequiredErrorFrom(t.columns, data, e))
  {
    var t := sv.schema[tableName];
    var values := ValueErrors(t, op, check, data);
    var r := Validate(sv, check, tableName, data, op);
    if i < |values| {
      assert r[i] == values[i];
    } else {
      var req := RequiredErrors(t.columns, data);
      assert r[i] == req[i - |values|];
    }
  }

  /** On Create an auto-increment column's value is never checked; on Update
      the primary key's is not, while an auto-increment column that is not
      the primary key still is. */
  lemma OperationSkips(t: Table, check: ColumnCheck, e: (string, Value))
    requires Known(t, e.0)
    ensures Resolve(t, e.0).value.isAutoIncrement ==> !Checked(t, Create, e)
    ensures Resolve(t, e.0).value.isPrimaryKey ==> !Checked(t, Update, e)
    ensures (Resolve(t, e.0).value.isAutoIncrement && !Resolve(t, e.0).value.isPrimaryKey) ==> Checked(t, Update, e)
  {
  }
}
