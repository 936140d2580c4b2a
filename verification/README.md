# InstantGate query builder and validation engine, in Dafny

This project models two pure cores of the InstantGate REST gateway and proves
properties about them.

- **The query builder** (`internal/query/builder.go`). It turns a table name
  plus query parameters (fields, filters, sorting, pagination), or a mutation
  payload, into a parameterised statement. Identifiers are quoted with
  backticks, and each backtick inside a name is doubled. Column names resolve
  case-insensitively against the schema's lower-cased column keys.
  - Auto-increment columns are never inserted.
  - Primary-key and auto-increment columns are never updated.
  - Every builder first looks the table up.
  - BuildSelectByID, BuildUpdate and BuildDelete need a primary key.
- **The validation engine** (`internal/validation`).
  - The *schema validator* reports:
    - an unknown table;
    - unknown columns, in strict mode;
    - failed column-value checks, with the per-operation skips;
    - missing required columns, on create.
  - The *rule validator* applies the configured required, regex, min, max,
    enum and length rules. It memoises compiled patterns.
  - The *manager* runs the schema validator and then the rule validator. It
    reports all errors or only the first one, and a switch disables it.
  - The *error list* renders its errors as one message.

Layout, one module per file:

| file | module | what it holds |
|---|---|---|
| `base.dfy` | `Base` | `Option`, `Result` |
| `text.dfy` | `Text` | ASCII `ToLower`, `EqualFold`, `TrimSpace`, `%d` and `Join` |
| `assoc.dfy` | `Assoc` | Go maps as association lists: lookup and assignment |
| `values.dfy` | `Values` | the tagged `interface{}` value, `toFloat64`, `int(x)` truncation |
| `schema.dfy` | `Schema` | column and table descriptors, case-insensitive column resolution |
| `statement.dfy` | `Statements` | the statement: clause fragments plus bound arguments |
| `identifiers.dfy` | `Identifiers` | backtick quoting and a reader that undoes it |
| `builder.dfy` | `Builder` | the six builders and `applyFilter` |
| `errors.dfy` | `Errors` | validation errors, the error list and its rendering, error collection |
| `rules.dfy` | `Rules` | the rule validator and its regex memo |
| `schema_validator.dfy` | `SchemaValidation` | the schema validator |
| `manager.dfy` | `Manager` | the validation manager |

Modelling choices:

- **Go maps.** Each Go map that the code iterates is a sequence of
  (key, value) pairs with distinct keys. The sequence order stands for one
  iteration order. Every property is stated for all sequences, so it holds
  whatever order Go picks.
  - The maps covered are request data, table columns and rule configuration.
  - A lookup `m[k]` is `Get`. An assignment `m[k] = v` is `Put`: it
    overwrites in place or appends.
- **Statements.** The squirrel builder is replaced by `Statement(fragments,
  args)`. Three kinds of fragment carry a placeholder: a WHERE predicate, an
  inserted column and a SET column. These fragments pair with the arguments
  by index, and `Aligned` states that pairing.
- **The regular-expression engine** is a parameter:
  - `compile` returns None for an invalid pattern;
  - `matches` stands for `MatchString`.

  The memo is a value threaded through the calls. It records the patterns it
  has compiled, so "compiled at most once" is provable. Every validation
  returns the memo it leaves behind. That memo holds exactly the old
  patterns plus those of the regex rules that met a string value
  (`Rules.ValidateMemo`).
- **The external column-value check** (`query.ValidateColumn`) is a
  parameter. It returns an error message or None.
- **The schema cache** is a map from table name to descriptor.

## Model

| member | source | states |
|---|---|---|
| `Identifiers.EscapeShape` | internal/query/builder.go:23-26 | a quoted name starts and ends with a backtick; it is two characters plus one per backtick longer than the name; its interior pairs every backtick |
| `Identifiers.ReadEscaped` | internal/query/builder.go:23-26 | a SQL reader of quoted identifiers recovers exactly the name and exactly the text after it, so a name cannot end the quoting early |
| `Identifiers.EscapeInjective` | internal/query/builder.go:23-26 | distinct names never quote to the same text |
| `Identifiers.EscapeInteriorRunsEven` | internal/query/builder.go:23-26 | inside a quoted name every run of backticks has even length |
| `Identifiers.EscapeAll` | internal/query/builder.go:28-35 | escapeIdentifierSlice quotes every name, in order, each result being that name's escape, and each result reads back as that name |
| `Builder.ApplyFilter` | internal/query/builder.go:255-283 | one WHERE on the caller's spelling of the field, quoted; the predicate/argument table for all ten operators, with every other operator treated as equality on `Value` |
| `Builder.ApplyFilters` | internal/query/builder.go:146-148 | applying a list of filters adds one WHERE and one argument per filter, both in filter order, with no column check |
| `Builder.ApplyFiltersSnoc` | internal/query/builder.go:146-148 | the filter loop is applyFilter applied to each filter in turn |
| `Builder.ApplyCheckedFilters` | internal/query/builder.go:62-68 | succeeds exactly when every filter field resolves, and then equals the unchecked loop; otherwise the error names the first unknown filter field |
| `Builder.ResolveFields` | internal/query/builder.go:44-50 | succeeds exactly when every requested field resolves and then yields the caller's spellings quoted; otherwise the error names the first unknown field |
| `Builder.BuildSelect` | internal/query/builder.go:37-93 | fails exactly when the table, a requested field, a filter field or the sort field is unknown, reporting the first in that order; on success: the column list (default: every column's schema name), the quoted table, the filters' WHEREs in order with their arguments, DESC exactly when the direction is "desc", LIMIT only when > 0, OFFSET only when > 0, and no other fragment (the fragment count is two plus those clauses) |
| `Builder.BuildSelectByID` | internal/query/builder.go:95-135 | unknown table, then an empty primary key, then an unknown field, then a primary key missing from the exact-case column keys are errors; on success the only WHERE is the primary key's schema name with the sole argument `id`, and LIMIT 1; the statement is exactly these four clauses, with no ORDER BY or OFFSET |
| `Builder.BuildCount` | internal/query/builder.go:137-151 | fails only for an unknown table; otherwise COUNT(*) from the quoted table with every filter's WHERE and argument, unresolved, and no other fragment: no ORDER BY, LIMIT or OFFSET, and two plus one per filter in all |
| `Builder.CountIgnoresShape` | internal/query/builder.go:137-151 | BuildCount's result does not depend on fields, sorting or pagination |
| `Builder.InsertRowsSound` | internal/query/builder.go:162-175 | every inserted (column, value) comes from a data entry whose column is not auto-increment, under the schema's column name |
| `Builder.InsertRowsComplete` | internal/query/builder.go:162-175 | every data entry for a non-auto-increment column is inserted |
| `Builder.InsertRowsCount` | internal/query/builder.go:162-175 | the insert has exactly one row per kept data entry, so no entry is dropped or repeated |
| `Builder.InsertRowsOrdered` | internal/query/builder.go:162-175 | rows keep data order: of two rows, the earlier comes from an earlier kept entry |
| `Builder.InsertPairs` | internal/query/builder.go:162-175 | the insert loop fails exactly when some key is unknown, naming the first one; otherwise it yields the reference rows |
| `Builder.BuildInsert` | internal/query/builder.go:153-183 | fails exactly for an unknown table or key (the first unknown key); on success one column per argument paired by index, each slot a kept data entry under its schema name, every kept entry in some slot, and exactly one argument per kept entry, the rows in data order |
| `Builder.InsertSkipsAutoIncrement` | internal/query/builder.go:168-170 | no inserted column is an auto-increment column |
| `Builder.InsertOfOnlyAutoIncrement` | internal/query/builder.go:159-182 | data naming only auto-increment columns is not an error: the insert has no columns and no arguments |
| `Builder.UpdateEntriesSound` | internal/query/builder.go:196-208 | every SET entry comes from a data entry whose column is neither primary key nor auto-increment |
| `Builder.UpdateEntriesComplete` | internal/query/builder.go:196-208 | every such data entry's column gets a SET entry |
| `Builder.UpdateEntriesLastWins` | internal/query/builder.go:207 | when several keys write one column, the map keeps the value of the last in data order |
| `Builder.UpdateMap` | internal/query/builder.go:195-208 | the update loop fails exactly when some key is unknown, naming the first one; otherwise it yields the reference map |
| `Builder.UpdateEntriesEmpty` | internal/query/builder.go:210-212 | the update map is empty exactly when no data entry survives the skips |
| `Builder.BuildUpdate` | internal/query/builder.go:185-228 | error order: unknown table, empty primary key, first unknown key, no updatable columns, primary key missing from the column keys; on success UPDATE of the quoted table, SET slots from kept entries covering every kept entry, then WHERE on the primary key's schema name bound to `id` last; no column is SET twice, and the SET slots are the reference map's entries |
| `Builder.UpdateSkipsKeyAndAutoIncrement` | internal/query/builder.go:202-204 | no SET column is a primary-key or auto-increment column |
| `Builder.UpdateLastValueWins` | internal/query/builder.go:207 | every SET slot for a column carries the value of the last data entry written to it, and such a slot exists |
| `Builder.BuildDelete` | internal/query/builder.go:230-253 | unknown table, then empty primary key, then primary key missing from the column keys are errors; on success DELETE from the quoted table with the only WHERE on the primary key's schema name and the sole argument `id`; no ORDER BY, LIMIT or OFFSET |
| `Schema.ResolveIgnoresCase` | internal/query/builder.go:46 | field names that differ only in ASCII case resolve to the same column |
| `Errors.NewValidationError` | internal/validation/errors.go:44-46 | the field and message are stored verbatim |
| `Errors.ErrorTextRoundTrip` | internal/validation/errors.go:12-14 | "field: message" splits back into the field and the message when the field has no colon |
| `Errors.HasErrors` | internal/validation/errors.go:40-42 | true exactly for a non-empty list; `Errors.RenderEmptyIff` ties it to the "no validation errors" rendering |
| `Errors.Add` | internal/validation/errors.go:36-38 | the old list with exactly one new error at the end |
| `Errors.Render` | internal/validation/errors.go:18-34 | the rendering loop, with a "; " before every error but the first, produces the reference rendering |
| `Errors.RenderEmptyIff` | internal/validation/errors.go:19-24 | the rendering is "no validation errors" exactly when the list is empty |
| `Errors.RenderMany` | internal/validation/errors.go:26-33 | with n >= 2 errors: the header with n, then the first error's text; the length is the header plus all texts plus n - 1 two-character separators |
| `Text.NatToStringRoundTrip` | internal/validation/errors.go:26 | the `%d` rendering of the count reads back as the count |
| `Text.JoinLength` | internal/validation/rule_validator.go:164 | joining n >= 1 parts adds exactly n - 1 separators |
| `Rules.NewRuleValidator` | internal/validation/rule_validator.go:18-28 | the rules are found under the lower-cased table name, with the last table of that name winning; the memo starts empty |
| `Rules.Normalize` | internal/validation/rule_validator.go:19-22 | every lower-cased key holds the fields of the last configured table with that lower-cased name |
| `Rules.TableFoundIgnoringCase` | internal/validation/rule_validator.go:21 | the lookup under the lower-cased name finds rules exactly when some configured table name equals it ignoring case |
| `Rules.GetCompiledRegex` | internal/validation/rule_validator.go:196-220 | a pattern with an entry keeps it and the memo is untouched; otherwise the compile result, nil included, is stored; the memo only grows and stays coherent, each pattern compiled once |
| `Rules.GetMessage` | internal/validation/rule_validator.go:189-194 | a non-empty custom message replaces the default |
| `Rules.ValidateRequired` | internal/validation/rule_validator.go:70-80 | an error exactly when the value is absent, nil, or a string that trims to nothing; present non-strings pass |
| `Rules.ValidateRegex` | internal/validation/rule_validator.go:82-102 | no error and no memo change for a non-string or absent value; for a string, the memo getCompiledRegex leaves, which holds the pattern; with a coherent memo, an error exactly when the pattern compiles and the string does not match |
| `Rules.ValidateMin` | internal/validation/rule_validator.go:104-124 | an error exactly when value and threshold are both numeric and value < threshold |
| `Rules.ValidateMax` | internal/validation/rule_validator.go:126-146 | an error exactly when value and threshold are both numeric and value > threshold |
| `Rules.MinMaxRange` | internal/validation/rule_validator.go:104-146 | a numeric value passes a min and a max rule exactly when it lies in the closed range |
| `Rules.Allowed` | internal/validation/rule_validator.go:158-162 | the enum loop finds the value exactly when some allowed value equals it ignoring case |
| `Rules.ValidateEnum` | internal/validation/rule_validator.go:148-165 | an error exactly when the value is a string equal, ignoring case, to no allowed value |
| `Rules.EnumIgnoresCase` | internal/validation/rule_validator.go:158-164 | case variants of a value get the same verdict, and an empty allowed list rejects every string |
| `Rules.ValidateLength` | internal/validation/rule_validator.go:167-187 | an error exactly when the value is a string, the threshold is numeric, and the length exceeds the truncated threshold |
| `Rules.LengthThreshold` | internal/validation/rule_validator.go:177-184 | with integer threshold n a string passes exactly when it has at most n characters |
| `Rules.ValidateRule` | internal/validation/rule_validator.go:51-68 | dispatch on the lower-cased type to the six checks; an unknown type yields nothing; only regex touches the memo; only required reports an absent value |
| `Rules.RuleTypeIgnoresCase` | internal/validation/rule_validator.go:52 | case variants of a rule type behave the same |
| `Rules.ValidateField` | internal/validation/rule_validator.go:41-45 | at most one error per rule, all on the field; the memo only grows and stays coherent |
| `Rules.ValidateFields` | internal/validation/rule_validator.go:38-46 | every error is on a configured field; the memo only grows and stays coherent |
| `Rules.Validate` | internal/validation/rule_validator.go:30-49 | an unconfigured table yields no errors and no change; the rules are unchanged; the memo only grows and stays coherent; errors are on the table's configured fields |
| `Rules.RuleMemo` | internal/validation/rule_validator.go:82-102 | a rule adds its pattern to the memo exactly when it is a regex rule meeting a string value |
| `Rules.FieldMemo` | internal/validation/rule_validator.go:41-45 | a field's rules add exactly the field's regex patterns to the memo, and only when its value is a string |
| `Rules.FieldsMemo` | internal/validation/rule_validator.go:38-46 | the configured fields add exactly the union of their fields' patterns |
| `Rules.ValidateMemo` | internal/validation/rule_validator.go:30-49 | after Validate the memo holds exactly the old patterns plus those of the table's regex rules that met a string value |
| `Rules.ValidateIgnoresTableCase` | internal/validation/rule_validator.go:33 | table names that differ only in case validate the same |
| `Rules.FieldMatchesReference` | internal/validation/rule_validator.go:41-45 | with a coherent memo one field's errors are each rule's error, in rule order |
| `Rules.FieldsMatchReference` | internal/validation/rule_validator.go:38-46 | with a coherent memo the table's errors are each field's errors in field order, the value looked up under the field's exact spelling |
| `Rules.ValidateMatchesReference` | internal/validation/rule_validator.go:30-49 | with a coherent memo Validate reports exactly the memo-free reference errors |
| `Rules.ValidateCacheIrrelevant` | internal/validation/rule_validator.go:196-220 | memoisation is invisible: any coherent memo gives the errors that an empty one gives |
| `Values.ToFloat64` | internal/validation/rule_validator.go:222-237 | float64, float32, int, int64 and int32 are numeric with their own value; nothing else is |
| `Values.Truncate` | internal/validation/rule_validator.go:182-183 | `int(x)` truncates toward zero |
| `Text.TrimSpaceEmpty` | internal/validation/rule_validator.go:75 | a string trims to nothing exactly when it is all white space |
| `SchemaValidation.UnknownErrors` | internal/validation/schema_validator.go:31-37 | exactly the unknown keys are reported, one error each (no field twice), and the list is non-empty exactly when some key is unknown |
| `SchemaValidation.ValueErrors` | internal/validation/schema_validator.go:43-60 | exactly the failed checks on checked entries are reported, under the caller's key, one per entry |
| `SchemaValidation.Found` | internal/validation/schema_validator.go:66-72 | the inner search succeeds exactly when some data key equals the column key ignoring case |
| `SchemaValidation.RequiredErrors` | internal/validation/schema_validator.go:62-80 | exactly the non-nullable, non-auto-increment columns missing from the data are reported, under the schema's column name, one error per missing column |
| `SchemaValidation.Validate` | internal/validation/schema_validator.go:23-83 | an unknown table gives one error; strict mode with unknown keys returns only those; otherwise the value errors, then on Create the required-column errors |
| `SchemaValidation.UnknownTableSingleError` | internal/validation/schema_validator.go:26-29 | an unknown table yields exactly one error, on "_table" |
| `SchemaValidation.UpdateErrorsComeFromChecks` | internal/validation/schema_validator.go:43-62 | on Update every error is a failed column check on a checked key, and every failed check is reported |
| `SchemaValidation.LenientIgnoresUnknownKeys` | internal/validation/schema_validator.go:31-47 | outside strict mode every error is a failed check on a known key or, on Create, a missing required column |
| `SchemaValidation.OperationSkips` | internal/validation/schema_validator.go:49-55 | auto-increment columns are not checked on Create and primary keys not on Update; an auto-increment non-key column is checked on Update |
| `Manager.NewValidationManager` | internal/validation/manager.go:15-22 | the strict flag reaches the schema validator, and the configured rules reach the rule validator with an empty memo |
| `Manager.ValidateMultiple` | internal/validation/manager.go:52-68 | disabled: nothing, unchanged; enabled: the schema errors followed by the rule errors, with only the rule memo changed, to the one `Rules.Validate` leaves |
| `Manager.Validate` | internal/validation/manager.go:25-49 | None exactly when ValidateMultiple would be empty, otherwise its first error, with the same state afterwards |
| `Manager.DisabledAcceptsAll` | internal/validation/manager.go:27-29 | a disabled manager accepts every input on both entry points and changes nothing |
| `Manager.SchemaErrorFirst` | internal/validation/manager.go:33-46 | when the schema validator reports anything, Validate returns its first error |
| `Manager.UnknownTableReported` | internal/validation/manager.go:33-41 | an unknown table gives "_table" first, and the rule errors still follow; with no rules for the name it is the only error |

Points of the code's behaviour that the model keeps as written:

- Identifiers are not always emitted under the schema's original-case
  name. BuildSelect, BuildSelectByID and applyFilter quote the caller's
  spelling of requested, filter and sort fields. Only the default column
  list, insert and update columns, and the primary key use the schema name.
- BuildUpdate checks for an empty primary key first, before it resolves any
  column. So "no primary key" is reported ahead of "no updateable columns
  provided".
- The primary-key column is looked up under the primary-key name exactly as
  stored, without lower-casing (`HasPrimaryKeyColumn`).
  - A table whose primary-key name is not already lower case fails with
    "primary key column not found".
  - BuildUpdate reaches this lookup only after its column loop.

## Left out

- Concurrency. The read-write lock and the double-checked locking in
  getCompiledRegex are not modelled; the memo is sequential state.
- Rendering statements to SQL text. This covers placeholder syntax, `IS NULL`
  for nil arguments, empty-list handling and SetMap's sorting of SET columns.
  The SET slots keep the update map's own order.
- The regular-expression engine's semantics. The model uses an abstract
  `compile` and `matches`.
- The column-value check `query.ValidateColumn`. It is a parameter; its
  per-type rules are not part of this model.
- The schema cache's introspection, refresh and locking. The cache's table
  lookup is an exact-case map lookup.
- Floating point. Numbers are exact (`int`, `real`), so int64-to-float64
  rounding and float32 widening are not modelled.
- Go `int(x)` on thresholds outside the int64 range. `Truncate` is
  unbounded.
- Default rule messages. These are exact where the source formats text,
  integers and integral floats below 1e6 in magnitude with `%v`. A
  non-integral float, and a float of magnitude 1e6 or more (which `%v`
  writes in the shortest exponent form, such as `1e+06`), is rendered as a
  placeholder.
- Unicode. `ToLower`, `EqualFold` and `TrimSpace` are ASCII only. String
  length counts characters, where Go's `len` counts UTF-8 bytes; the two
  agree on ASCII.
- Go map iteration order. Properties hold for every order rather than for a
  randomised one.
- HTTP error responses (internal/api/handlers/errors.go). These are response
  writing and JSON encoding, not validation logic.
- Filter operators. `OpOther` stands for an operator value equal to none
  of the ten named constants. The constants' spellings are defined in a file
  that is not part of this model, so no token is checked against them.
- Builder.BuildSelect: squirrel's `ToSql` failures are not modelled (for
  example an empty column list, or a nil or list value bound by `>`, `>=`,
  `<`, `<=`, LIKE or NOT LIKE). `Ok` means the builder's own checks passed.
- Builder.BuildSelectByID: squirrel's `ToSql` failures are not modelled, so
  `Ok` means the builder's own checks passed.
- Builder.BuildCount: squirrel's `ToSql` failures are not modelled (such as
  a nil or list value under a comparison or LIKE filter), so `Ok` means the
  table was found.
- Builder.BuildInsert: squirrel's `ToSql` failures are not modelled, so `Ok`
  means the builder's own checks passed.
- Builder.BuildUpdate: squirrel's `ToSql` failures are not modelled, so `Ok`
  means the builder's own checks passed.
- Builder.BuildDelete: squirrel's `ToSql` failures are not modelled, so `Ok`
  means the builder's own checks passed.
- Rules.ValidateField: states the error count, fields and memo growth.
  The exact errors are stated by `Rules.FieldMatchesReference`.
- Rules.ValidateFields: states only which fields errors come from. The
  exact list is stated by `Rules.FieldsMatchReference`.
