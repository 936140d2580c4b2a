/** builder.go: turns a table name plus query parameters, or a mutation
    payload, into a parameterised statement. Every builder first looks the
    table up in the schema cache; column names are resolved case-insensitively
    against the lower-cased column keys; every identifier is quoted. */
module Builder {
  import opened Base
  import opened Text
  import opened Assoc
  import opened Values
  import opened Schema
  import opened Identifiers
  import opened Statements

  /** The filter operators. `OpOther` stands for an operator value that equals
      none of the ten named constants; a value equal to one of them is written
      with that constructor. The constants' spellings live in a file that is
      not part of this model, so the token is not checked against them. */
  datatype Operator =
    | OpEqual | OpNotEqual
    | OpGreater | OpGreaterEqual
    | OpLess | OpLessEqual
    | OpLike | OpNotLike
    | OpIn | OpNotIn
    | OpOther(token: string)

  /** `value` is bound by the single-value operators, `values` by in / not-in. */
  datatype Filter = Filter(field: string, op: Operator, value: Value, values: seq<Value>)

  datatype Sorting = Sorting(field: string, direction: string)

  datatype Pagination = Pagination(limit: int, offset: int)

  datatype QueryParams = QueryParams(
    fields: seq<string>,
    filters: seq<Filter>,
    sorting: Option<Sorting>,
    pagination: Option<Pagination>)

  /** The error returns of the builders (their `fmt.Errorf` texts). */
  datatype BuildError =
    | TableNotFound(table: string)
    | UnknownColumn(column: string, table: string)
    | UnknownSortColumn(column: string)
    | NoPrimaryKey(table: string)
    | PrimaryKeyColumnMissing
    | NoUpdatableColumns

  /* ---------------- filters ---------------- */

  function PredicateFor(op: Operator): Pred
  {
    match op
    case OpEqual => Eq
    case OpNotEqual => NotEq
    case OpGreater => Gt
    case OpGreaterEqual => GtOrEq
    case OpLess => Lt
    case OpLessEqual => LtOrEq
    case OpLike => Like
    case OpNotLike => NotLike
    case OpIn => Eq
    case OpNotIn => NotEq
    case OpOther(_) => Eq
  }

  function BoundArg(f: Filter): Value
  {
    if f.op == OpIn || f.op == OpNotIn then List(f.values) else f.value
  }

  /** The WHERE predicate a filter contributes: the caller's spelling of
      the field, quoted. */
  function WhereOf(f: Filter): Fragment
  {
    Where(Escape(f.field), PredicateFor(f.op))
  }

  /** applyFilter: one WHERE predicate on the caller's spelling of the field,
      quoted, with one bound argument. */
  function ApplyFilter(st: Statement, f: Filter): (r: Statement)
    ensures |r.fragments| == |st.fragments| + 1 && r.fragments[..|st.fragments|] == st.fragments
    ensures |r.args| == |st.args| + 1 && r.args[..|st.args|] == st.args
    ensures r.fragments[|st.fragments|].Where?
    ensures r.fragments[|st.fragments|].column == Escape(f.field)
    ensures
      var p := r.fragments[|st.fragments|].pred;
      var a := r.args[|st.args|];
      match f.op
      case OpEqual => p == Eq && a == f.value
      case OpNotEqual => p == NotEq && a == f.value
      case OpGreater => p == Gt && a == f.value
      case OpGreaterEqual => p == GtOrEq && a == f.value
      case OpLess => p == Lt && a == f.value
      case OpLessEqual => p == LtOrEq && a == f.value
      case OpLike => p == Like && a == f.value
      case OpNotLike => p == NotLike && a == f.value
      case OpIn => p == Eq && a == List(f.values)
      case OpNotIn => p == NotEq && a == List(f.values)
      case OpOther(_) => p == Eq && a == f.value
  {
    Statement(st.fragments + [WhereOf(f)], st.args + [BoundArg(f)])
  }

  function WhereList(filters: seq<Filter>): seq<Fragment>
  {
    seq(|filters|, i requires 0 <= i < |filters| => WhereOf(filters[i]))
  }

  function ArgList(filters: seq<Filter>): seq<Value>
  {
    seq(|filters|, i requires 0 <= i < |filters| => BoundArg(filters[i]))
  }

  lemma FilterListsCons(filters: seq<Filter>)
    requires |filters| > 0
    ensures WhereList(filters) == [WhereOf(filters[0])] + WhereList(filters[1..])
    ensures ArgList(filters) == [BoundArg(filters[0])] + ArgList(filters[1..])
  {
  }

  /** The filters applied in order, without column checks (as BuildCount does):
      one WHERE per filter and one argument per filter, both in filter order. */
  function ApplyFilters(st: Statement, filters: seq<Filter>): (r: Statement)
    ensures r.fragments == st.fragments + WhereList(filters)
    ensures r.args == st.args + ArgList(filters)
    decreases |filters|
  {
    if |filters| == 0 then st
    else
      var f := filters[0];
      var next := Statement(st.fragments + [WhereOf(f)], st.args + [BoundArg(f)]);
      var r := ApplyFilters(next, filters[1..]);
      FilterListsCons(filters);
      assert next.fragments + WhereList(filters[1..]) == st.fragments + WhereList(filters);
      assert next.args + ArgList(filters[1..]) == st.args + ArgList(filters);
      r
  }

  /** The loop over the filters is applyFilter applied to each in turn. */
  lemma ApplyFiltersSnoc(st: Statement, filters: seq<Filter>, f: Filter)
    ensures ApplyFilters(st, filters + [f]) == ApplyFilter(ApplyFilters(st, filters), f)
  {
    assert WhereList(filters + [f]) == WhereList(filters) + [WhereOf(f)];
    assert ArgList(filters + [f]) == ArgList(filters) + [BoundArg(f)];
  }

  predicate FiltersKnown(t: Table, filters: seq<Filter>) {
    forall i | 0 <= i < |filters| :: Known(t, filters[i].field)
  }

  /** `e` is the error for the first filter whose field does not resolve. */
  predicate FirstUnknownFilter(t: Table, table: string, filters: seq<Filter>, e: BuildError) {
    exists i | 0 <= i < |filters| ::
      && !Known(t, filters[i].field)
      && (forall j | 0 <= j < i :: Known(t, filters[j].field))
      && e == UnknownColumn(filters[i].field, table)
  }

  lemma FiltersCons(t: Table, table: string, filters: seq<Filter>, e: BuildError)
    requires |filters| > 0 && Known(t, filters[0].field)
    ensures FiltersKnown(t, filters) <==> FiltersKnown(t, filters[1..])
    ensures FirstUnknownFilter(t, table, filters[1..], e) ==> FirstUnknownFilter(t, table, filters, e)
  {
    var rest := filters[1..];
    if FiltersKnown(t, rest) {
      forall i | 0 <= i < |filters| ensures Known(t, filters[i].field) {
        if i > 0 { assert filters[i] == rest[i - 1]; }
      }
    }
    if FirstUnknownFilter(t, table, rest, e) {
      var i :| 0 <= i < |rest| && !Known(t, rest[i].field)
        && (forall j | 0 <= j < i :: Known(t, rest[j].field)) && e == UnknownColumn(rest[i].field, table);
      assert filters[i + 1] == rest[i];
      forall j | 0 <= j < i + 1 ensures Known(t, filters[j].field) {
        if j > 0 { assert filters[j] == rest[j - 1]; }
      }
    }
  }

  /** BuildSelect's filter loop: fails on the first filter whose field is unknown. */
  function ApplyCheckedFilters(t: Table, table: string, st: Statement, filters: seq<Filter>)
    : (r: Result<Statement, BuildError>)
    ensures r.Ok? <==> FiltersKnown(t, filters)
    ensures r.Ok? ==> r.value == ApplyFilters(st, filters)
    ensures r.Err? ==> FirstUnknownFilter(t, table, filters, r.error)
    decreases |filters|
  {
    if |filters| == 0 then Ok(st)
    else if !Known(t, filters[0].field) then
      assert FirstUnknownFilter(t, table, filters, UnknownColumn(filters[0].field, table)) by {
        assert !Known(t, filters[0].field);
      }
      Err(UnknownColumn(filters[0].field, table))
    else
      var next := Statement(st.fragments + [WhereOf(filters[0])], st.args + [BoundArg(filters[0])]);
      var r := ApplyCheckedFilters(t, table, next, filters[1..]);
      if r.Err? then
        FiltersCons(t, table, filters, r.error);
        r
      else
        FiltersCons(t, table, filters, UnknownColumn("", table));
        r
  }

  /* ---------------- selected columns ---------------- */

  predicate AllKnown(t: Table, names: seq<string>) {
    forall i | 0 <= i < |names| :: Known(t, names[i])
  }

  function EscapedNames(names: seq<string>): seq<string>
  {
    seq(|names|, i requires 0 <= i < |names| => Escape(names[i]))
  }

  /** Every column of the table, by its original-case name, in the column
      map's iteration order. */
  function AllColumns(t: Table): seq<string>
  {
    seq(|t.columns|, i requires 0 <= i < |t.columns| => Escape(t.columns[i].1.name))
  }

  /** `e` is the error for the first name that does not resolve. */
  predicate FirstUnknownField(t: Table, table: string, names: seq<string>, e: BuildError) {
    exists i | 0 <= i < |names| ::
      && !Known(t, names[i])
      && (forall j | 0 <= j < i :: Known(t, names[j]))
      && e == UnknownColumn(names[i], table)
  }

  lemma FieldsCons(t: Table, table: string, names: seq<string>, e: BuildError)
    requires |names| > 0 && Known(t, names[0])
    ensures AllKnown(t, names) <==> AllKnown(t, names[1..])
    ensures FirstUnknownField(t, table, names[1..], e) ==> FirstUnknownField(t, table, names, e)
  {
    var rest := names[1..];
    if AllKnown(t, rest) {
      forall i | 0 <= i < |names| ensures Known(t, names[i]) {
        if i > 0 { assert names[i] == rest[i - 1]; }
      }
    }
    if FirstUnknownField(t, table, rest, e) {
      var i :| 0 <= i < |rest| && !Known(t, rest[i])
        && (forall j | 0 <= j < i :: Known(t, rest[j])) && e == UnknownColumn(rest[i], table);
      assert names[i + 1] == rest[i];
      forall j | 0 <= j < i + 1 ensures Known(t, names[j]) {
        if j > 0 { assert names[j] == rest[j - 1]; }
      }
    }
  }

  /** The requested-fields loop: each field must resolve; the caller's
      spelling is what gets quoted. */
  function ResolveFields(t: Table, table: string, fields: seq<string>)
    : (r: Result<seq<string>, BuildError>)
    ensures r.Ok? <==> AllKnown(t, fields)
    ensures r.Ok? ==> r.value == EscapedNames(fields)
    ensures r.Err? ==> FirstUnknownField(t, table, fields, r.error)
    decreases |fields|
  {
    if |fields| == 0 then Ok([])
    else if !Known(t, fields[0]) then
      assert FirstUnknownField(t, table, fields, UnknownColumn(fields[0], table)) by {
        assert !Known(t, fields[0]);
      }
      Err(UnknownColumn(fields[0], table))
    else
      match ResolveFields(t, table, fields[1..])
      case Err(e) =>
        FieldsCons(t, table, fields, e);
        Err(e)
      case Ok(names) =>
        FieldsCons(t, table, fields, UnknownColumn("", table));
        assert EscapedNames(fields) == [Escape(fields[0])] + EscapedNames(fields[1..]);
        Ok([Escape(fields[0])] + names)
  }

  function ColumnList(t: Table, table: string, fields: seq<string>): Result<seq<string>, BuildError>
  {
    if |fields| > 0 then ResolveFields(t, table, fields) else Ok(AllColumns(t))
  }

  function SelectedColumns(t: Table, fields: seq<string>): seq<string>
  {
    if |fields| > 0 then EscapedNames(fields) else AllColumns(t)
  }

  /* ---------------- sorting and pagination ---------------- */

  function SortFragments(sorting: Option<Sorting>): seq<Fragment>
  {
    match sorting
    case None => []
    case Some(s) => [OrderBy(Escape(s.field) + (if s.direction == "desc" then " DESC" else " ASC"))]
  }

  function LimitFragments(p: Option<Pagination>): seq<Fragment>
  {
    if p.Some? && p.value.limit > 0 then [Limit(p.value.limit)] else []
  }

  function OffsetFragments(p: Option<Pagination>): seq<Fragment>
  {
    if p.Some? && p.value.offset > 0 then [Offset(p.value.offset)] else []
  }

  /* ---------------- BuildSelect ---------------- */

  predicate SortKnown(t: Table, sorting: Option<Sorting>) {
    sorting.None? || Known(t, sorting.value.field)
  }

  predicate SelectResolves(t: Table, params: QueryParams) {
    AllKnown(t, params.fields) && FiltersKnown(t, params.filters) && SortKnown(t, params.sorting)
  }

  /** What a successful BuildSelect emits: the column list, the quoted table,
      one WHERE per filter in order (binding the filter's arguments in the same
      order), an ORDER BY that says DESC exactly when the direction is "desc",
      LIMIT only when positive and OFFSET only when positive, and no other
      fragment. */
  predicate SelectShape(st: Statement, table: string, t: Table, params: QueryParams) {
    && |st.fragments| >= 2
    && st.fragments[0] == SelectColumns(SelectedColumns(t, params.fields))
    && st.fragments[1] == From(Escape(table))
    && Keep(st.fragments, IsWhere) == WhereList(params.filters)
    && Slots(st.fragments) == WhereList(params.filters)
    && st.args == ArgList(params.filters)
    && Keep(st.fragments, IsOrderBy) ==
         (if params.sorting.None? then []
          else if params.sorting.value.direction == "desc"
          then [OrderBy(Escape(params.sorting.value.field) + " DESC")]
          else [OrderBy(Escape(params.sorting.value.field) + " ASC")])
    && Keep(st.fragments, IsLimit) ==
         (if params.pagination.Some? && params.pagination.value.limit > 0
          then [Limit(params.pagination.value.limit)] else [])
    && Keep(st.fragments, IsOffset) ==
         (if params.pagination.Some? && params.pagination.value.offset > 0
          then [Offset(params.pagination.value.offset)] else [])
    && |st.fragments| == 2 + |params.filters| + |SortFragments(params.sorting)|
         + |LimitFragments(params.pagination)| + |OffsetFragments(params.pagination)|
  }


  lemma KeepWhereList(filters: seq<Filter>)
    ensures Keep(WhereList(filters), IsWhere) == WhereList(filters)
    ensures Keep(WhereList(filters), BindsArg) == WhereList(filters)
    ensures Keep(WhereList(filters), IsOrderBy) == []
    ensures Keep(WhereList(filters), IsLimit) == []
    ensures Keep(WhereList(filters), IsOffset) == []
  {
    var w := WhereList(filters);
    KeepAll(w, IsWhere);
    KeepAll(w, BindsArg);
    KeepNone(w, IsOrderBy);
    KeepNone(w, IsLimit);
    KeepNone(w, IsOffset);
  }

  lemma Keep5(a: seq<Fragment>, b: seq<Fragment>, c: seq<Fragment>, d: seq<Fragment>, e: seq<Fragment>,
              p: Fragment -> bool)
    ensures Keep(a + b + c + d + e, p) == Keep(a, p) + Keep(b, p) + Keep(c, p) + Keep(d, p) + Keep(e, p)
  {
    KeepAppend(a + b + c + d, e, p);
    KeepAppend(a + b + c, d, p);
    KeepAppend(a + b, c, p);
    KeepAppend(a, b, p);
  }

  /** A clause list of at most one fragment keeps it exactly when `p` holds. */
  lemma KeepAtMostOne(fs: seq<Fragment>, p: Fragment -> bool)
    requires |fs| <= 1
    ensures Keep(fs, p) == (if |fs| == 1 && p(fs[0]) then fs else [])
  {
    if |fs| == 1 {
      assert fs[1..] == [];
    }
  }

  /** The select statement filtered by `p`, when `p` rejects both head
      fragments: what the WHERE, ORDER BY, LIMIT and OFFSET parts keep. */
  lemma SelectKeep(columns: seq<string>, table: string, params: QueryParams, p: Fragment -> bool)
    requires !p(SelectColumns(columns)) && !p(From(Escape(table)))
    ensures
      var head := [SelectColumns(columns), From(Escape(table))];
      var w := WhereList(params.filters);
      var s := SortFragments(params.sorting);
      var l := LimitFragments(params.pagination);
      var o := OffsetFragments(params.pagination);
      Keep(head + w + s + l + o, p) == Keep(w, p) + Keep(s, p) + Keep(l, p) + Keep(o, p)
  {
    var head := [SelectColumns(columns), From(Escape(table))];
    KeepNone(head, p);
    Keep5(head, WhereList(params.filters), SortFragments(params.sorting),
          LimitFragments(params.pagination), OffsetFragments(params.pagination), p);
  }

  /** The select statement's WHERE fragments and slots are the filters'. */
  lemma SelectWheres(columns: seq<string>, table: string, params: QueryParams)
    ensures
      var fs := [SelectColumns(columns), From(Escape(table))] + WhereList(params.filters)
                + SortFragments(params.sorting) + LimitFragments(params.pagination)
                + OffsetFragments(params.pagination);
      Keep(fs, IsWhere) == WhereList(params.filters) && Slots(fs) == WhereList(params.filters)
  {
    SelectKeepWheres(columns, table, params);
    SelectKeepSlots(columns, table, params);
  }

  /** ORDER BY, LIMIT and OFFSET bind no argument. */
  lemma TailSlots(sorting: Option<Sorting>, pagination: Option<Pagination>)
    ensures Slots(SortFragments(sorting)) == []
    ensures Slots(LimitFragments(pagination)) == []
    ensures Slots(OffsetFragments(pagination)) == []
  {
    KeepAtMostOne(SortFragments(sorting), BindsArg);
    KeepAtMostOne(LimitFragments(pagination), BindsArg);
    KeepAtMostOne(OffsetFragments(pagination), BindsArg);
  }

  lemma SelectKeepWheres(columns: seq<string>, table: string, params: QueryParams)
    ensures
      var fs := [SelectColumns(columns), From(Escape(table))] + WhereList(params.filters)
                + SortFragments(params.sorting) + LimitFragments(params.pagination)
                + OffsetFragments(params.pagination);
      Keep(fs, IsWhere) == WhereList(params.filters)
  {
    KeepWhereList(params.filters);
    SelectKeep(columns, table, params, IsWhere);
    KeepAtMostOne(SortFragments(params.sorting), IsWhere);
    KeepAtMostOne(LimitFragments(params.pagination), IsWhere);
    KeepAtMostOne(OffsetFragments(params.pagination), IsWhere);
  }

  lemma SelectKeepSlots(columns: seq<string>, table: string, params: QueryParams)
    ensures
      var fs := [SelectColumns(columns), From(Escape(table))] + WhereList(params.filters)
                + SortFragments(params.sorting) + LimitFragments(params.pagination)
                + OffsetFragments(params.pagination);
      Keep(fs, BindsArg) == WhereList(params.filters)
  {
    KeepWhereList(params.filters);
    SelectKeep(columns, table, params, BindsArg);
    TailSlots(params.sorting, params.pagination);
  }

  /** The select statement's ORDER BY, LIMIT and OFFSET clauses are exactly
      the ones sorting and pagination ask for. */
  lemma SelectTail(columns: seq<string>, table: string, params: QueryParams)
    ensures
      var fs := [SelectColumns(columns), From(Escape(table))] + WhereList(params.filters)
                + SortFragments(params.sorting) + LimitFragments(params.pagination)
                + OffsetFragments(params.pagination);
      && Keep(fs, IsOrderBy) == SortFragments(params.sorting)
      && Keep(fs, IsLimit) == LimitFragments(params.pagination)
      && Keep(fs, IsOffset) == OffsetFragments(params.pagination)
  {
    SelectOrderBy(columns, table, params);
    SelectLimit(columns, table, params);
    SelectOffset(columns, table, params);
  }

  lemma SelectOrderBy(columns: seq<string>, table: string, params: QueryParams)
    ensures
      var fs := [SelectColumns(columns), From(Escape(table))] + WhereList(params.filters)
                + SortFragments(params.sorting) + LimitFragments(params.pagination)
                + OffsetFragments(params.pagination);
      Keep(fs, IsOrderBy) == SortFragments(params.sorting)
  {
    KeepWhereList(params.filters);
    SelectKeep(columns, table, params, IsOrderBy);
    KeepAtMostOne(SortFragments(params.sorting), IsOrderBy);
    KeepAtMostOne(LimitFragments(params.pagination), IsOrderBy);
    KeepAtMostOne(OffsetFragments(params.pagination), IsOrderBy);
  }

  lemma SelectLimit(columns: seq<string>, table: string, params: QueryParams)
    ensures
      var fs := [SelectColumns(columns), From(Escape(table))] + WhereList(params.filters)
                + SortFragments(params.sorting) + LimitFragments(params.pagination)
                + OffsetFragments(params.pagination);
      Keep(fs, IsLimit) == LimitFragments(params.pagination)
  {
    KeepWhereList(params.filters);
    SelectKeep(columns, table, params, IsLimit);
    KeepAtMostOne(SortFragments(params.sorting), IsLimit);
    KeepAtMostOne(LimitFragments(params.pagination), IsLimit);
    KeepAtMostOne(OffsetFragments(params.pagination), IsLimit);
  }

  lemma SelectOffset(columns: seq<string>, table: string, params: QueryParams)
    ensures
      var fs := [SelectColumns(columns), From(Escape(table))] + WhereList(params.filters)
                + SortFragments(params.sorting) + LimitFragments(params.pagination)
                + OffsetFragments(params.pagination);
      Keep(fs, IsOffset) == OffsetFragments(params.pagination)
  {
    KeepWhereList(params.filters);
    SelectKeep(columns, table, params, IsOffset);
    KeepAtMostOne(SortFragments(params.sorting), IsOffset);
    KeepAtMostOne(LimitFragments(params.pagination), IsOffset);
    KeepAtMostOne(OffsetFragments(params.pagination), IsOffset);
  }

  lemma SelectAssembled(columns: seq<string>, table: string, t: Table, params: QueryParams)
    requires columns == SelectedColumns(t, params.fields)
    ensures
      var head := [SelectColumns(columns), From(Escape(table))];
      var fs := head + WhereList(params.filters) + SortFragments(params.sorting)
                + LimitFragments(params.pagination) + OffsetFragments(params.pagination);
      SelectShape(Statement(fs, ArgList(params.filters)), table, t, params)
  {
    SelectWheres(columns, table, params);
    SelectTail(columns, table, params);
  }

  /** BuildSelect. */
  function BuildSelect(schema: SchemaCache, table: string, params: QueryParams)
    : (r: Result<Statement, BuildError>)
    ensures r.Ok? <==> table in schema && SelectResolves(schema[table], params)
    ensures table !in schema ==> r == Err(TableNotFound(table))
    ensures (table in schema && !AllKnown(schema[table], params.fields)) ==>
      r.Err? && FirstUnknownField(schema[table], table, params.fields, r.error)
    ensures (table in schema && AllKnown(schema[table], params.fields)
             && !FiltersKnown(schema[table], params.filters)) ==>
      r.Err? && FirstUnknownFilter(schema[table], table, params.filters, r.error)
    ensures (table in schema && AllKnown(schema[table], params.fields)
             && FiltersKnown(schema[table], params.filters) && !SortKnown(schema[table], params.sorting)) ==>
      r == Err(UnknownSortColumn(params.sorting.value.field))
    ensures r.Ok? ==> Aligned(r.value) && SelectShape(r.value, table, schema[table], params)
  {
    if table !in schema then Err(TableNotFound(table))
    else
      var t := schema[table];
      var columns :- ColumnList(t, table, params.fields);
      var base := Statement([SelectColumns(columns), From(Escape(table))], []);
      var filtered :- ApplyCheckedFilters(t, table, base, params.filters);
      if !SortKnown(t, params.sorting) then Err(UnknownSortColumn(params.sorting.value.field))
      else
        SelectAssembled(columns, table, t, params);
        Ok(Statement(filtered.fragments + SortFragments(params.sorting) + LimitFragments(params.pagination)
                     + OffsetFragments(params.pagination), filtered.args))
  }

  /* ---------------- BuildSelectByID ---------------- */

  predicate HasPrimaryKeyColumn(t: Table) {
    HasKey(t.columns, t.primaryKey)
  }

  /** The primary-key column, looked up by `PrimaryKey` exactly as stored
      (without lower-casing). */
  function PrimaryKeyColumn(t: Table): Column
    requires HasPrimaryKeyColumn(t)
  {
    Get(t.columns, t.primaryKey).value
  }

  /** BuildSelectByID. */
  /** The by-id statement's fragments: the columns, the table, one WHERE and
      LIMIT 1, with the WHERE its only slot. */
  lemma ByIDAssembled(columns: seq<string>, table: string, w: Fragment)
    requires w.Where?
    ensures
      var fs := [SelectColumns(columns), From(Escape(table)), w, Limit(1)];
      && Keep(fs, IsWhere) == [w]
      && Slots(fs) == [w]
      && Keep(fs, IsLimit) == [Limit(1)]
      && Keep(fs, IsOrderBy) == []
      && Keep(fs, IsOffset) == []
  {
    var fs := [SelectColumns(columns), From(Escape(table)), w, Limit(1)];
    var head := [SelectColumns(columns), From(Escape(table))];
    assert fs == head + [w] + [Limit(1)];
    ByIDKeep(head, w, IsWhere);
    ByIDKeep(head, w, BindsArg);
    ByIDKeep(head, w, IsLimit);
    ByIDKeep(head, w, IsOrderBy);
    ByIDKeep(head, w, IsOffset);
  }

  lemma ByIDKeep(head: seq<Fragment>, w: Fragment, p: Fragment -> bool)
    requires forall i | 0 <= i < |head| :: !p(head[i])
    ensures Keep(head + [w] + [Limit(1)], p)
         == (if p(w) then [w] else []) + (if p(Limit(1)) then [Limit(1)] else [])
  {
    KeepNone(head, p);
    KeepAppend(head + [w], [Limit(1)], p);
    KeepAppend(head, [w], p);
    KeepAtMostOne([w], p);
    KeepAtMostOne([Limit(1)], p);
  }

  function BuildSelectByID(schema: SchemaCache, table: string, id: Value, fields: seq<string>)
    : (r: Result<Statement, BuildError>)
    ensures table !in schema ==> r == Err(TableNotFound(table))
    ensures (table in schema && schema[table].primaryKey == "") ==> r == Err(NoPrimaryKey(table))
    ensures r.Ok? <==>
      && table in schema && schema[table].primaryKey != ""
      && AllKnown(schema[table], fields) && HasPrimaryKeyColumn(schema[table])
    ensures (table in schema && schema[table].primaryKey != "" && !AllKnown(schema[table], fields)) ==>
      r.Err? && FirstUnknownField(schema[table], table, fields, r.error)
    ensures (table in schema && schema[table].primaryKey != "" && AllKnown(schema[table], fields)
             && !HasPrimaryKeyColumn(schema[table])) ==> r == Err(PrimaryKeyColumnMissing)
    ensures r.Ok? ==>
      && Aligned(r.value)
      && r.value.args == [id]
      && |r.value.fragments| >= 2
      && r.value.fragments[0] == SelectColumns(SelectedColumns(schema[table], fields))
      && r.value.fragments[1] == From(Escape(table))
      && Keep(r.value.fragments, IsWhere) == [Where(Escape(PrimaryKeyColumn(schema[table]).name), Eq)]
      && Keep(r.value.fragments, IsLimit) == [Limit(1)]
      && Keep(r.value.fragments, IsOrderBy) == []
      && Keep(r.value.fragments, IsOffset) == []
      && |r.value.fragments| == 4
  {
    if table !in schema then Err(TableNotFound(table))
    else
      var t := schema[table];
      if t.primaryKey == "" then Err(NoPrimaryKey(table))
      else
        var columns :- ColumnList(t, table, fields);
        if !HasPrimaryKeyColumn(t) then Err(PrimaryKeyColumnMissing)
        else
          var w := Where(Escape(PrimaryKeyColumn(t).name), Eq);
          ByIDAssembled(columns, table, w);
          Ok(Statement([SelectColumns(columns), From(Escape(table)), w, Limit(1)], [id]))
  }

  /* ---------------- BuildCount ---------------- */

  /** The count statement's fragments: SELECT COUNT(*), the quoted table,
      then the filters' WHERE predicates and nothing else. */
  lemma CountAssembled(table: string, filters: seq<Filter>)
    ensures
      var fs := [SelectCount, From(Escape(table))] + WhereList(filters);
      && Keep(fs, IsWhere) == WhereList(filters)
      && Slots(fs) == WhereList(filters)
      && Keep(fs, IsOrderBy) == []
      && Keep(fs, IsLimit) == []
      && Keep(fs, IsOffset) == []
  {
    KeepWhereList(filters);
    CountKeep(table, filters, IsWhere);
    CountKeep(table, filters, BindsArg);
    CountKeep(table, filters, IsOrderBy);
    CountKeep(table, filters, IsLimit);
    CountKeep(table, filters, IsOffset);
  }

  /** The head of the count statement contributes nothing to any filter
      that rejects both of its fragments. */
  lemma CountKeep(table: string, filters: seq<Filter>, p: Fragment -> bool)
    requires !p(SelectCount) && !p(From(Escape(table)))
    ensures Keep([SelectCount, From(Escape(table))] + WhereList(filters), p) == Keep(WhereList(filters), p)
  {
    var head := [SelectCount, From(Escape(table))];
    KeepNone(head, p);
    KeepAppend(head, WhereList(filters), p);
  }

  /** BuildCount: a COUNT(*) over the table with the filters applied in order;
      filter fields are not resolved, and fields, sorting and pagination are
      ignored. */
  function BuildCount(schema: SchemaCache, table: string, params: QueryParams)
    : (r: Result<Statement, BuildError>)
    ensures r.Ok? <==> table in schema
    ensures r.Err? ==> r.error == TableNotFound(table)
    ensures r.Ok? ==>
      && Aligned(r.value)
      && |r.value.fragments| >= 2
      && r.value.fragments[0] == SelectCount
      && r.value.fragments[1] == From(Escape(table))
      && Keep(r.value.fragments, IsWhere) == WhereList(params.filters)
      && r.value.args == ArgList(params.filters)
      && Keep(r.value.fragments, IsOrderBy) == []
      && Keep(r.value.fragments, IsLimit) == []
      && Keep(r.value.fragments, IsOffset) == []
      && |r.value.fragments| == 2 + |params.filters|
  {
    if table !in schema then Err(TableNotFound(table))
    else
      CountAssembled(table, params.filters);
      Ok(ApplyFilters(Statement([SelectCount, From(Escape(table))], []), params.filters))
  }

  /** BuildCount depends on the filters alone. */
  lemma CountIgnoresShape(schema: SchemaCache, table: string, params: QueryParams,
                          fields: seq<string>, sorting: Option<Sorting>, pagination: Option<Pagination>)
    ensures BuildCount(schema, table, params)
         == BuildCount(schema, table, QueryParams(fields, params.filters, sorting, pagination))
  {
  }

  /* ---------------- data loops shared by insert and update ---------------- */

  function Written(t: Table, e: (string, Value)): (string, Value)
    requires Known(t, e.0)
  {
    (Escape(Resolve(t, e.0).value.name), e.1)
  }

  predicate KeysKnown(t: Table, data: seq<(string, Value)>) {
    forall i | 0 <= i < |data| :: Known(t, data[i].0)
  }

  /** `e` is the error for the first key of `data` that does not resolve. */
  predicate FirstUnknownKey(t: Table, table: string, data: seq<(string, Value)>, e: BuildError) {
    exists i | 0 <= i < |data| ::
      && !Known(t, data[i].0)
      && (forall j | 0 <= j < i :: Known(t, data[j].0))
      && e == UnknownColumn(data[i].0, table)
  }

  lemma FirstUnknownKeyExtend(t: Table, table: string, data: seq<(string, Value)>, e: BuildError)
    requires |data| > 0
    requires FirstUnknownKey(t, table, data[..|data| - 1], e) ||
             (KeysKnown(t, data[..|data| - 1]) && !Known(t, data[|data| - 1].0)
              && e == UnknownColumn(data[|data| - 1].0, table))
    ensures FirstUnknownKey(t, table, data, e)
  {
    var pre := data[..|data| - 1];
    if FirstUnknownKey(t, table, pre, e) {
      var i :| 0 <= i < |pre| && !Known(t, pre[i].0)
        && (forall j | 0 <= j < i :: Known(t, pre[j].0)) && e == UnknownColumn(pre[i].0, table);
      assert data[i] == pre[i];
      forall j | 0 <= j < i ensures Known(t, data[j].0) {
        assert data[j] == pre[j];
      }
    } else {
      forall j | 0 <= j < |data| - 1 ensures Known(t, data[j].0) {
        assert data[j] == pre[j];
      }
    }
  }

  lemma KeysKnownExtend(t: Table, data: seq<(string, Value)>)
    requires |data| > 0
    ensures KeysKnown(t, data) <==> KeysKnown(t, data[..|data| - 1]) && Known(t, data[|data| - 1].0)
  {
    var pre := data[..|data| - 1];
    if KeysKnown(t, pre) && Known(t, data[|data| - 1].0) {
      forall j | 0 <= j < |data| ensures Known(t, data[j].0) {
        if j < |data| - 1 { assert data[j] == pre[j]; }
      }
    }
  }

  /* ---------------- BuildInsert ---------------- */

  /** A data entry BuildInsert writes: its key resolves to a column that is
      not auto-increment. */
  predicate InsertKeeps(t: Table, e: (string, Value)) {
    Known(t, e.0) && !Resolve(t, e.0).value.isAutoIncrement
  }

  /** Reference definition of the inserted (quoted column, value) rows: the
      entries that resolve to non-auto-increment columns, in data order. */
  function InsertRows(t: Table, data: seq<(string, Value)>): seq<(string, Value)>
    decreases |data|
  {
    if |data| == 0 then []
    else
      var last := data[|data| - 1];
      InsertRows(t, data[..|data| - 1]) + (if InsertKeeps(t, last) then [Written(t, last)] else [])
  }

  /** Every inserted row comes from a written data entry. */
  lemma {:induction false} InsertRowsSound(t: Table, data: seq<(string, Value)>, k: int)
    requires 0 <= k < |InsertRows(t, data)|
    ensures exists i | 0 <= i < |data| :: InsertKeeps(t, data[i]) && InsertRows(t, data)[k] == Written(t, data[i])
    decreases |data|
  {
    var pre := data[..|data| - 1];
    if k < |InsertRows(t, pre)| {
      InsertRowsSound(t, pre, k);
      var i :| 0 <= i < |pre| && InsertKeeps(t, pre[i]) && InsertRows(t, pre)[k] == Written(t, pre[i]);
      assert data[i] == pre[i];
    } else {
      assert InsertKeeps(t, data[|data| - 1]);
    }
  }

  /** Every data entry for a non-auto-increment column is inserted. */
  lemma {:induction false} InsertRowsComplete(t: Table, data: seq<(string, Value)>, i: int)
    requires 0 <= i < |data| && InsertKeeps(t, data[i])
    ensures Written(t, data[i]) in InsertRows(t, data)
    decreases |data|
  {
    var pre := data[..|data| - 1];
    if i < |data| - 1 {
      assert data[i] == pre[i];
      InsertRowsComplete(t, pre, i);
    }
  }

  /** The number of data entries BuildInsert keeps. */
  function KeptCount(t: Table, data: seq<(string, Value)>): nat
    decreases |data|
  {
    if |data| == 0 then 0
    else KeptCount(t, data[..|data| - 1]) + (if InsertKeeps(t, data[|data| - 1]) then 1 else 0)
  }

  /** One row per kept entry: duplicates are neither dropped nor added. */
  lemma {:induction false} InsertRowsCount(t: Table, data: seq<(string, Value)>)
    ensures |InsertRows(t, data)| == KeptCount(t, data)
    decreases |data|
  {
    if |data| > 0 {
      InsertRowsCount(t, data[..|data| - 1]);
    }
  }

  /** Rows follow data order: earlier rows come from earlier entries. */
  lemma {:induction false} InsertRowsOrdered(t: Table, data: seq<(string, Value)>, k1: int, k2: int)
    requires 0 <= k1 < k2 < |InsertRows(t, data)|
    ensures exists i1, i2 | 0 <= i1 < i2 < |data| ::
      && InsertKeeps(t, data[i1]) && InsertRows(t, data)[k1] == Written(t, data[i1])
      && InsertKeeps(t, data[i2]) && InsertRows(t, data)[k2] == Written(t, data[i2])
    decreases |data|
  {
    var pre := data[..|data| - 1];
    var r0 := InsertRows(t, pre);
    if k2 < |r0| {
      InsertRowsOrdered(t, pre, k1, k2);
      var i1, i2 :| 0 <= i1 < i2 < |pre|
        && InsertKeeps(t, pre[i1]) && r0[k1] == Written(t, pre[i1])
        && InsertKeeps(t, pre[i2]) && r0[k2] == Written(t, pre[i2]);
      assert data[i1] == pre[i1] && data[i2] == pre[i2];
    } else {
      InsertRowsSound(t, pre, k1);
      var i1 :| 0 <= i1 < |pre| && InsertKeeps(t, pre[i1]) && r0[k1] == Written(t, pre[i1]);
      assert data[i1] == pre[i1];
      assert InsertRows(t, data)[k2] == Written(t, data[|data| - 1]);
    }
  }

  /** BuildInsert's loop over the data: fails on the first unknown key,
      otherwise yields the rows. */
  function InsertPairs(t: Table, table: string, data: seq<(string, Value)>)
    : (r: Result<seq<(string, Value)>, BuildError>)
    ensures r.Ok? <==> KeysKnown(t, data)
    ensures r.Err? ==> FirstUnknownKey(t, table, data, r.error)
    ensures r.Ok? ==> r.value == InsertRows(t, data)
    decreases |data|
  {
    if |data| == 0 then Ok([])
    else
      var pre := data[..|data| - 1];
      var last := data[|data| - 1];
      KeysKnownExtend(t, data);
      match InsertPairs(t, table, pre)
      case Err(e) =>
        FirstUnknownKeyExtend(t, table, data, e);
        Err(e)
      case Ok(rows) =>
        if !Known(t, last.0) then
          FirstUnknownKeyExtend(t, table, data, UnknownColumn(last.0, table));
          Err(UnknownColumn(last.0, table))
        else if Resolve(t, last.0).value.isAutoIncrement then Ok(rows)
        else Ok(rows + [Written(t, last)])
  }

  function InsertStatement(table: string, rows: seq<(string, Value)>): Statement
  {
    Statement([InsertInto(Escape(table))] + seq(|rows|, i requires 0 <= i < |rows| => InsertColumn(rows[i].0)),
              seq(|rows|, i requires 0 <= i < |rows| => rows[i].1))
  }

  /** Slot `k` of an insert binds, as a quoted column with its value, a data
      entry that BuildInsert keeps. */
  predicate InsertSlotFromData(t: Table, data: seq<(string, Value)>, st: Statement, k: int) {
    && 0 <= k < |st.args| && k + 1 < |st.fragments|
    && exists i | 0 <= i < |data| ::
         && InsertKeeps(t, data[i])
         && st.fragments[k + 1] == InsertColumn(Written(t, data[i]).0)
         && st.args[k] == data[i].1
  }

  /** Data entry `i` is bound by some slot of an insert. */
  predicate InsertDataInSlot(t: Table, data: seq<(string, Value)>, st: Statement, i: int)
    requires 0 <= i < |data| && InsertKeeps(t, data[i])
  {
    exists k | 0 <= k < |st.args| && k + 1 < |st.fragments| ::
      st.fragments[k + 1] == InsertColumn(Written(t, data[i]).0) && st.args[k] == data[i].1
  }

  lemma InsertStatementShape(table: string, rows: seq<(string, Value)>)
    ensures
      var st := InsertStatement(table, rows);
      && Aligned(st)
      && |st.args| == |rows| && |st.fragments| == |rows| + 1
      && st.fragments[0] == InsertInto(Escape(table))
      && (forall k | 0 <= k < |rows| :: st.fragments[k + 1] == InsertColumn(rows[k].0) && st.args[k] == rows[k].1)
  {
    var cols := seq(|rows|, i requires 0 <= i < |rows| => InsertColumn(rows[i].0));
    KeepAll(cols, BindsArg);
    KeepCons(InsertInto(Escape(table)), cols, BindsArg);
  }

  lemma InsertAssembled(t: Table, table: string, data: seq<(string, Value)>)
    ensures
      var st := InsertStatement(table, InsertRows(t, data));
      && Aligned(st)
      && |st.fragments| == |st.args| + 1
      && st.fragments[0] == InsertInto(Escape(table))
      && (forall k | 0 <= k < |st.args| :: InsertSlotFromData(t, data, st, k))
      && (forall i | 0 <= i < |data| && InsertKeeps(t, data[i]) :: InsertDataInSlot(t, data, st, i))
  {
    var rows := InsertRows(t, data);
    var st := InsertStatement(table, rows);
    InsertStatementShape(table, rows);
    forall k | 0 <= k < |st.args| ensures InsertSlotFromData(t, data, st, k) {
      InsertRowsSound(t, data, k);
    }
    forall i | 0 <= i < |data| && InsertKeeps(t, data[i]) ensures InsertDataInSlot(t, data, st, i) {
      InsertRowsComplete(t, data, i);
      var k :| 0 <= k < |rows| && rows[k] == Written(t, data[i]);
      assert st.fragments[k + 1] == InsertColumn(Written(t, data[i]).0);
    }
  }

  /** BuildInsert. */
  function BuildInsert(schema: SchemaCache, table: string, data: AList<Value>)
    : (r: Result<Statement, BuildError>)
    ensures r.Ok? <==> table in schema && KeysKnown(schema[table], data)
    ensures table !in schema ==> r == Err(TableNotFound(table))
    ensures (table in schema && r.Err?) ==> FirstUnknownKey(schema[table], table, data, r.error)
    ensures r.Ok? ==>
      && Aligned(r.value)
      && |r.value.fragments| == |r.value.args| + 1
      && r.value.fragments[0] == InsertInto(Escape(table))
      && (forall k | 0 <= k < |r.value.args| :: InsertSlotFromData(schema[table], data, r.value, k))
      && (forall i | 0 <= i < |data| && InsertKeeps(schema[table], data[i]) ::
            InsertDataInSlot(schema[table], data, r.value, i))
    ensures r.Ok? ==>
      && |r.value.args| == KeptCount(schema[table], data)
      && r.value == InsertStatement(table, InsertRows(schema[table], data))
  {
    if table !in schema then Err(TableNotFound(table))
    else
      var t := schema[table];
      var rows :- InsertPairs(t, table, data);
      InsertAssembled(t, table, data);
      InsertRowsCount(t, data);
      Ok(InsertStatement(table, rows))
  }

  /** In a well-keyed table, the quoted column an entry is written to differs
      from the quoted name of every other column. */
  lemma WrittenIsOwnColumn(t: Table, e: (string, Value), j: int)
    requires WellKeyed(t) && Known(t, e.0) && 0 <= j < |t.columns|
    requires t.columns[j].1 != Resolve(t, e.0).value
    ensures Written(t, e).0 != Escape(t.columns[j].1.name)
  {
    if Written(t, e).0 == Escape(t.columns[j].1.name) {
      EscapeInjective(Resolve(t, e.0).value.name, t.columns[j].1.name);
      ResolvedNameIsUnique(t, e.0, j);
      assert false;
    }
  }

  /** BuildInsert never names an auto-increment column: in a well-keyed table
      each quoted column it emits differs from every auto-increment column's
      quoted name. */
  lemma InsertSkipsAutoIncrement(schema: SchemaCache, table: string, data: AList<Value>, k: int, j: int)
    requires BuildInsert(schema, table, data).Ok?
    requires WellKeyed(schema[table])
    requires 0 <= k < |BuildInsert(schema, table, data).value.args|
    requires 0 <= j < |schema[table].columns| && schema[table].columns[j].1.isAutoIncrement
    ensures BuildInsert(schema, table, data).value.fragments[k + 1]
         != InsertColumn(Escape(schema[table].columns[j].1.name))
  {
    var t := schema[table];
    var st := BuildInsert(schema, table, data).value;
    assert InsertSlotFromData(t, data, st, k);
    var i :| 0 <= i < |data| && InsertKeeps(t, data[i])
      && st.fragments[k + 1] == InsertColumn(Written(t, data[i]).0) && st.args[k] == data[i].1;
    WrittenIsOwnColumn(t, data[i], j);
  }

  /** Supplying only auto-increment columns is not an error: the insert has
      no columns and no arguments. */
  lemma InsertOfOnlyAutoIncrement(schema: SchemaCache, table: string, data: AList<Value>)
    requires table in schema
    requires forall i | 0 <= i < |data| ::
      Known(schema[table], data[i].0) && Resolve(schema[table], data[i].0).value.isAutoIncrement
    ensures BuildInsert(schema, table, data).Ok?
    ensures BuildInsert(schema, table, data).value.args == []
  {
    var st := BuildInsert(schema, table, data).value;
    assert !InsertSlotFromData(schema[table], data, st, 0);
  }

  /* ---------------- BuildUpdate ---------------- */

  /** A data entry BuildUpdate writes: its key resolves to a column that is
      neither a primary-key nor an auto-increment column. */
  predicate UpdateKeeps(t: Table, e: (string, Value)) {
    Known(t, e.0) && !Resolve(t, e.0).value.isPrimaryKey && !Resolve(t, e.0).value.isAutoIncrement
  }

  /** Reference definition of `updateData`: the written entries assigned into
      a map keyed by quoted column name, in data order. */
  function UpdateEntries(t: Table, data: seq<(string, Value)>): AList<Value>
    decreases |data|
  {
    if |data| == 0 then []
    else
      var m := UpdateEntries(t, data[..|data| - 1]);
      var last := data[|data| - 1];
      if UpdateKeeps(t, last) then Put(m, Written(t, last).0, Written(t, last).1) else m
  }

  /** Every SET entry comes from a written data entry. */
  lemma {:induction false} UpdateEntriesSound(t: Table, data: seq<(string, Value)>, k: int)
    requires 0 <= k < |UpdateEntries(t, data)|
    ensures exists i | 0 <= i < |data| :: UpdateKeeps(t, data[i]) && UpdateEntries(t, data)[k] == Written(t, data[i])
    decreases |data|
  {
    var pre := data[..|data| - 1];
    var m := UpdateEntries(t, pre);
    var last := data[|data| - 1];
    var r := UpdateEntries(t, data);
    if UpdateKeeps(t, last) {
      PutEntry(m, Written(t, last).0, Written(t, last).1, k);
      if r[k] != Written(t, last) {
        var y :| 0 <= y < |m| && m[y] == r[k];
        UpdateEntriesSound(t, pre, y);
        var i :| 0 <= i < |pre| && UpdateKeeps(t, pre[i]) && m[y] == Written(t, pre[i]);
        assert data[i] == pre[i];
      }
    } else {
      UpdateEntriesSound(t, pre, k);
      var i :| 0 <= i < |pre| && UpdateKeeps(t, pre[i]) && m[k] == Written(t, pre[i]);
      assert data[i] == pre[i];
    }
  }

  /** Every column written by some data entry gets a SET entry. */
  lemma {:induction false} UpdateEntriesComplete(t: Table, data: seq<(string, Value)>, i: int)
    requires 0 <= i < |data| && UpdateKeeps(t, data[i])
    ensures HasKey(UpdateEntries(t, data), Written(t, data[i]).0)
    decreases |data|
  {
    var pre := data[..|data| - 1];
    var m := UpdateEntries(t, pre);
    var last := data[|data| - 1];
    if i < |data| - 1 {
      assert data[i] == pre[i];
      UpdateEntriesComplete(t, pre, i);
      if UpdateKeeps(t, last) && Written(t, last).0 != Written(t, data[i]).0 {
        assert Get(m, Written(t, data[i]).0).Some?;
      }
    }
  }

  /** A column's SET value is that of the last data entry written to it. */
  lemma {:induction false} UpdateEntriesLastWins(t: Table, data: seq<(string, Value)>, i: int)
    requires 0 <= i < |data| && UpdateKeeps(t, data[i])
    requires forall j | i < j < |data| :: !(UpdateKeeps(t, data[j]) && Written(t, data[j]).0 == Written(t, data[i]).0)
    ensures Get(UpdateEntries(t, data), Written(t, data[i]).0) == Some(data[i].1)
    decreases |data|
  {
    var pre := data[..|data| - 1];
    if i < |data| - 1 {
      assert data[i] == pre[i];
      forall j | i < j < |pre| ensures !(UpdateKeeps(t, pre[j]) && Written(t, pre[j]).0 == Written(t, pre[i]).0) {
        assert pre[j] == data[j];
      }
      UpdateEntriesLastWins(t, pre, i);
    }
  }

  /** BuildUpdate's loop over the data: fails on the first unknown key,
      otherwise yields `updateData`. */
  function UpdateMap(t: Table, table: string, data: seq<(string, Value)>)
    : (r: Result<AList<Value>, BuildError>)
    ensures r.Ok? <==> KeysKnown(t, data)
    ensures r.Err? ==> FirstUnknownKey(t, table, data, r.error)
    ensures r.Ok? ==> r.value == UpdateEntries(t, data)
    decreases |data|
  {
    if |data| == 0 then Ok([])
    else
      var pre := data[..|data| - 1];
      var last := data[|data| - 1];
      KeysKnownExtend(t, data);
      match UpdateMap(t, table, pre)
      case Err(e) =>
        FirstUnknownKeyExtend(t, table, data, e);
        Err(e)
      case Ok(m) =>
        if !Known(t, last.0) then
          FirstUnknownKeyExtend(t, table, data, UnknownColumn(last.0, table));
          Err(UnknownColumn(last.0, table))
        else if Resolve(t, last.0).value.isPrimaryKey || Resolve(t, last.0).value.isAutoIncrement then Ok(m)
        else Ok(Put(m, Written(t, last).0, Written(t, last).1))
  }

  /** Some data entry is written exactly when `updateData` is non-empty. */
  lemma UpdateEntriesEmpty(t: Table, data: seq<(string, Value)>)
    ensures |UpdateEntries(t, data)| > 0 <==> exists i | 0 <= i < |data| :: UpdateKeeps(t, data[i])
  {
    if |UpdateEntries(t, data)| > 0 {
      UpdateEntriesSound(t, data, 0);
    }
    if exists i | 0 <= i < |data| :: UpdateKeeps(t, data[i]) {
      var i :| 0 <= i < |data| && UpdateKeeps(t, data[i]);
      UpdateEntriesComplete(t, data, i);
    }
  }

  /** No clause of the statement occurs twice; for an update, no column is
      SET twice. */
  predicate DistinctFragments(st: Statement) {
    forall k1, k2 | 0 <= k1 < k2 < |st.fragments| :: st.fragments[k1] != st.fragments[k2]
  }

  function UpdateStatement(table: string, m: seq<(string, Value)>, pk: Column, id: Value): Statement
  {
    Statement(
      [UpdateTable(Escape(table))]
        + seq(|m|, i requires 0 <= i < |m| => Set(m[i].0))
        + [Where(Escape(pk.name), Eq)],
      seq(|m|, i requires 0 <= i < |m| => m[i].1) + [id])
  }

  /** SET slot `k` of an update assigns, to a quoted column, the value of a
      data entry that BuildUpdate keeps. */
  predicate UpdateSlotFromData(t: Table, data: seq<(string, Value)>, st: Statement, k: int) {
    && 0 <= k < |st.args| && k + 1 < |st.fragments|
    && exists i | 0 <= i < |data| ::
         && UpdateKeeps(t, data[i])
         && st.fragments[k + 1] == Set(Written(t, data[i]).0)
         && st.args[k] == data[i].1
  }

  /** Data entry `i`'s column is assigned by some SET slot of an update. */
  predicate UpdateColumnInSlot(t: Table, data: seq<(string, Value)>, st: Statement, i: int)
    requires 0 <= i < |data| && UpdateKeeps(t, data[i])
  {
    exists k | 1 <= k < |st.args| && k < |st.fragments| :: st.fragments[k] == Set(Written(t, data[i]).0)
  }

  lemma UpdateStatementShape(table: string, m: seq<(string, Value)>, pk: Column, id: Value)
    ensures
      var st := UpdateStatement(table, m, pk, id);
      && Aligned(st)
      && |st.args| == |m| + 1 && |st.fragments| == |m| + 2
      && st.fragments[0] == UpdateTable(Escape(table))
      && st.fragments[|m| + 1] == Where(Escape(pk.name), Eq)
      && st.args[|m|] == id
      && (forall k | 0 <= k < |m| :: st.fragments[k + 1] == Set(m[k].0) && st.args[k] == m[k].1)
  {
    UpdateSlots(table, m, pk);
  }

  /** Every fragment after UPDATE carries a placeholder. */
  lemma UpdateSlots(table: string, m: seq<(string, Value)>, pk: Column)
    ensures
      var sets := seq(|m|, i requires 0 <= i < |m| => Set(m[i].0));
      |Slots([UpdateTable(Escape(table))] + sets + [Where(Escape(pk.name), Eq)])| == |m| + 1
  {
    var sets := seq(|m|, i requires 0 <= i < |m| => Set(m[i].0));
    var w := Where(Escape(pk.name), Eq);
    var tail := sets + [w];
    assert forall i | 0 <= i < |tail| :: BindsArg(tail[i]);
    KeepAll(tail, BindsArg);
    KeepCons(UpdateTable(Escape(table)), tail, BindsArg);
    assert [UpdateTable(Escape(table))] + sets + [w] == [UpdateTable(Escape(table))] + tail;
  }

  /** A map has distinct keys, so its update SETs no column twice. */
  lemma UpdateStatementDistinct(table: string, m: AList<Value>, pk: Column, id: Value)
    ensures DistinctFragments(UpdateStatement(table, m, pk, id))
  {
    var fs := UpdateStatement(table, m, pk, id).fragments;
    assert |fs| == |m| + 2;
    assert forall k | 1 <= k <= |m| :: fs[k] == Set(m[k - 1].0);
    assert fs[0].UpdateTable? && fs[|m| + 1].Where?;
  }

  lemma UpdateAssembled(t: Table, table: string, data: seq<(string, Value)>, pk: Column, id: Value)
    ensures
      var st := UpdateStatement(table, UpdateEntries(t, data), pk, id);
      && (forall k | 0 <= k < |st.args| - 1 :: UpdateSlotFromData(t, data, st, k))
      && (forall i | 0 <= i < |data| && UpdateKeeps(t, data[i]) :: UpdateColumnInSlot(t, data, st, i))
  {
    var m := UpdateEntries(t, data);
    var st := UpdateStatement(table, m, pk, id);
    UpdateStatementShape(table, m, pk, id);
    forall k | 0 <= k < |st.args| - 1 ensures UpdateSlotFromData(t, data, st, k) {
      UpdateEntriesSound(t, data, k);
    }
    forall i | 0 <= i < |data| && UpdateKeeps(t, data[i]) ensures UpdateColumnInSlot(t, data, st, i) {
      UpdateEntriesComplete(t, data, i);
      var k :| 0 <= k < |m| && m[k].0 == Written(t, data[i]).0;
      assert st.fragments[k + 1] == Set(m[k].0);
    }
  }

  /** BuildUpdate. */
  function BuildUpdate(schema: SchemaCache, table: string, id: Value, data: AList<Value>)
    : (r: Result<Statement, BuildError>)
    ensures table !in schema ==> r == Err(TableNotFound(table))
    ensures (table in schema && schema[table].primaryKey == "") ==> r == Err(NoPrimaryKey(table))
    ensures (table in schema && schema[table].primaryKey != "" && !KeysKnown(schema[table], data)) ==>
      r.Err? && FirstUnknownKey(schema[table], table, data, r.error)
    ensures (table in schema && schema[table].primaryKey != "" && KeysKnown(schema[table], data)
             && (forall i | 0 <= i < |data| :: !UpdateKeeps(schema[table], data[i]))) ==>
      r == Err(NoUpdatableColumns)
    ensures (table in schema && schema[table].primaryKey != "" && KeysKnown(schema[table], data)
             && (exists i | 0 <= i < |data| :: UpdateKeeps(schema[table], data[i]))
             && !HasPrimaryKeyColumn(schema[table])) ==>
      r == Err(PrimaryKeyColumnMissing)
    ensures r.Ok? <==>
      && table in schema && schema[table].primaryKey != ""
      && KeysKnown(schema[table], data)
      && (exists i | 0 <= i < |data| :: UpdateKeeps(schema[table], data[i]))
      && HasPrimaryKeyColumn(schema[table])
    ensures r.Ok? ==>
      && Aligned(r.value)
      && |r.value.args| >= 2
      && |r.value.fragments| == |r.value.args| + 1
      && r.value.fragments[0] == UpdateTable(Escape(table))
      && r.value.fragments[|r.value.fragments| - 1] == Where(Escape(PrimaryKeyColumn(schema[table]).name), Eq)
      && r.value.args[|r.value.args| - 1] == id
      && (forall k | 0 <= k < |r.value.args| - 1 :: UpdateSlotFromData(schema[table], data, r.value, k))
      && (forall i | 0 <= i < |data| && UpdateKeeps(schema[table], data[i]) ::
            UpdateColumnInSlot(schema[table], data, r.value, i))
      && DistinctFragments(r.value)
      && r.value == UpdateStatement(table, UpdateEntries(schema[table], data), PrimaryKeyColumn(schema[table]), id)
  {
    if table !in schema then Err(TableNotFound(table))
    else
      var t := schema[table];
      if t.primaryKey == "" then Err(NoPrimaryKey(table))
      else
        var m :- UpdateMap(t, table, data);
        UpdateEntriesEmpty(t, data);
        if |m| == 0 then Err(NoUpdatableColumns)
        else if !HasPrimaryKeyColumn(t) then Err(PrimaryKeyColumnMissing)
        else
          UpdateStatementShape(table, m, PrimaryKeyColumn(t), id);
          UpdateStatementDistinct(table, m, PrimaryKeyColumn(t), id);
          UpdateAssembled(t, table, data, PrimaryKeyColumn(t), id);
          Ok(UpdateStatement(table, m, PrimaryKeyColumn(t), id))
  }

  /** BuildUpdate never sets a primary-key or auto-increment column: in a
      well-keyed table each SET column differs from every such column's
      quoted name. */
  lemma UpdateSkipsKeyAndAutoIncrement(schema: SchemaCache, table: string, id: Value, data: AList<Value>,
                                       k: int, j: int)
    requires table in schema && WellKeyed(schema[table])
    requires 0 <= k && 0 <= j < |schema[table].columns|
    requires schema[table].columns[j].1.isPrimaryKey || schema[table].columns[j].1.isAutoIncrement
    ensures var r := BuildUpdate(schema, table, id, data);
      (r.Ok? && k < |r.value.args| - 1) ==> r.value.fragments[k + 1] != Set(Escape(schema[table].columns[j].1.name))
  {
    var r := BuildUpdate(schema, table, id, data);
    if r.Ok? && k < |r.value.args| - 1 {
      var t := schema[table];
      var st := r.value;
      assert UpdateSlotFromData(t, data, st, k);
      var i :| 0 <= i < |data| && UpdateKeeps(t, data[i])
        && st.fragments[k + 1] == Set(Written(t, data[i]).0) && st.args[k] == data[i].1;
      WrittenIsOwnColumn(t, data[i], j);
    }
  }

  /** When several keys name the same column, the SET value is the one from
      the last of them in data order. */
  lemma UpdateLastValueWins(schema: SchemaCache, table: string, id: Value, data: AList<Value>, i: int)
    requires table in schema
    requires 0 <= i < |data| && UpdateKeeps(schema[table], data[i])
    requires forall j | i < j < |data| ::
      !(UpdateKeeps(schema[table], data[j]) && Written(schema[table], data[j]).0 == Written(schema[table], data[i]).0)
    ensures var r := BuildUpdate(schema, table, id, data);
      r.Ok? ==>
        && (exists k | 0 <= k < |r.value.args| - 1 ::
              r.value.fragments[k + 1] == Set(Written(schema[table], data[i]).0) && r.value.args[k] == data[i].1)
        && (forall k | 0 <= k < |r.value.args| - 1 && r.value.fragments[k + 1] == Set(Written(schema[table], data[i]).0) ::
              r.value.args[k] == data[i].1)
  {
    var r := BuildUpdate(schema, table, id, data);
    if r.Ok? {
      var t := schema[table];
      var m := UpdateEntries(t, data);
      var st := UpdateStatement(table, m, PrimaryKeyColumn(t), id);
      assert r.value == st;
      UpdateStatementShape(table, m, PrimaryKeyColumn(t), id);
      UpdateEntriesLastWins(t, data, i);
      var k :| 0 <= k < |m| && m[k] == (Written(t, data[i]).0, data[i].1);
      assert st.fragments[k + 1] == Set(m[k].0) && st.args[k] == m[k].1;
      forall k' | 0 <= k' < |st.args| - 1 && st.fragments[k' + 1] == Set(Written(t, data[i]).0)
        ensures st.args[k'] == data[i].1
      {
        assert st.fragments[k' + 1] == Set(m[k'].0);
        GetEntry(m, k');
      }
    }
  }

  /* ---------------- BuildDelete ---------------- */

  /** BuildDelete. */
  function BuildDelete(schema: SchemaCache, table: string, id: Value)
    : (r: Result<Statement, BuildError>)
    ensures table !in schema ==> r == Err(TableNotFound(table))
    ensures (table in schema && schema[table].primaryKey == "") ==> r == Err(NoPrimaryKey(table))
    ensures r.Ok? <==> table in schema && schema[table].primaryKey != "" && HasPrimaryKeyColumn(schema[table])
    ensures (table in schema && schema[table].primaryKey != "" && !HasPrimaryKeyColumn(schema[table])) ==>
      r == Err(PrimaryKeyColumnMissing)
    ensures r.Ok? ==>
      && Aligned(r.value)
      && r.value.args == [id]
      && |r.value.fragments| >= 1
      && r.value.fragments[0] == DeleteFrom(Escape(table))
      && Keep(r.value.fragments, IsWhere) == [Where(Escape(PrimaryKeyColumn(schema[table]).name), Eq)]
      && Keep(r.value.fragments, IsOrderBy) == []
      && Keep(r.value.fragments, IsLimit) == []
      && Keep(r.value.fragments, IsOffset) == []
      && |r.value.fragments| == 2
  {
    if table !in schema then Err(TableNotFound(table))
    else
      var t := schema[table];
      if t.primaryKey == "" then Err(NoPrimaryKey(table))
      else if !HasPrimaryKeyColumn(t) then Err(PrimaryKeyColumnMissing)
      else
        var w := Where(Escape(PrimaryKeyColumn(t).name), Eq);
        var fs := [DeleteFrom(Escape(table)), w];
        KeepCons(DeleteFrom(Escape(table)), [w], IsWhere);
        KeepCons(DeleteFrom(Escape(table)), [w], BindsArg);
        KeepNone(fs, IsOrderBy);
        KeepNone(fs, IsLimit);
        KeepNone(fs, IsOffset);
        Ok(Statement(fs, [id]))
  }
}
