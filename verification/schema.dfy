/** The table descriptors the schema cache hands out. The cache itself
    (introspection, refresh, locking) is external: here it is a map from
    table name to descriptor. */
module Schema {
  import opened Base
  import opened Text
  import opened Assoc

  /** A column: its original-case name, declared type and flags. The
      length and precision constraints only feed the external column-value
      check and are left out. */
  datatype Column = Column(
    name: string,
    dataType: string,
    nullable: bool,
    isPrimaryKey: bool,
    isAutoIncrement: bool)

  /** A table: its columns keyed by lower-cased name, in the cache map's
      iteration order, and the primary-key name ("" when there is none). */
  datatype Table = Table(name: string, columns: AList<Column>, primaryKey: string)

  type SchemaCache = map<string, Table>

  /** The cache's own invariant: each column is keyed by its lower-cased name. */
  predicate WellKeyed(t: Table) {
    forall i | 0 <= i < |t.columns| :: t.columns[i].0 == Lower(t.columns[i].1.name)
  }

  /** The case-insensitive column lookup `Columns[strings.ToLower(field)]`. */
  function Resolve(t: Table, field: string): Option<Column>
  {
    Get(t.columns, Lower(field))
  }

  predicate Known(t: Table, field: string) {
    Resolve(t, field).Some?
  }

  /** Case variants of a field name resolve to the same column. */
  lemma ResolveIgnoresCase(t: Table, a: string, b: string)
    requires EqualFold(a, b)
    ensures Resolve(t, a) == Resolve(t, b)
  {
  }

  /** In a well-keyed table, distinct columns have distinct names, so a
      column found by lookup is the only one carrying its name. */
  lemma {:induction false} ResolvedNameIsUnique(t: Table, field: string, i: int)
    requires WellKeyed(t) && Known(t, field) && 0 <= i < |t.columns|
    requires t.columns[i].1.name == Resolve(t, field).value.name
    ensures t.columns[i].1 == Resolve(t, field).value
  {
    var c := Resolve(t, field).value;
    var j :| 0 <= j < |t.columns| && t.columns[j] == (Lower(field), c);
    assert t.columns[i].0 == Lower(c.name) == t.columns[j].0;
    assert i == j;
  }
}
