/** manager.go: the validation entry point. Schema validation runs first,
    rule validation second, and their errors are concatenated in that order.

    The rule validator's regex cache is shared mutable state in the program;
    here every call returns the manager with the cache it leaves behind. */
module Manager {
  import opened Base
  import opened Text
  import opened Assoc
  import opened Values
  import opened Schema
  import opened Errors
  import Rules
  import SchemaValidation

  /** The validation section of the configuration. */
  datatype ValidationConfig = ValidationConfig(enabled: bool, strictMode: bool, rules: Rules.RuleConfig)

  datatype ValidationManager = ValidationManager(
    config: ValidationConfig,
    schemaValidator: SchemaValidation.SchemaValidator,
    ruleValidator: Rules.RuleValidator)

  /** NewValidationManager: the schema validator takes the strict flag, the
      rule validator the configured rules, with an empty regex cache. */
  function NewValidationManager(cfg: ValidationConfig, schema: SchemaCache): (vm: ValidationManager)
    ensures vm.config == cfg
    ensures vm.schemaValidator.schema == schema && vm.schemaValidator.strictMode == cfg.strictMode
    ensures forall k :: Get(vm.ruleValidator.rules, k) == Rules.LastFor(cfg.rules, k)
    ensures vm.ruleValidator.cache == Rules.EmptyCache()
  {
    ValidationManager(cfg, SchemaValidation.SchemaValidator(schema, cfg.strictMode), Rules.NewRuleValidator(cfg.rules))
  }

  /** ValidationManager.ValidateMultiple: every error, schema errors first. */
  function ValidateMultiple(engine: Rules.RegexEngine, check: SchemaValidation.ColumnCheck, vm: ValidationManager,
                            tableName: string, data: AList<Value>, op: SchemaValidation.Operation)
    : (r: (ValidationErrors, ValidationManager))
    ensures !vm.config.enabled ==> r == ([], vm)
    ensures r.1.config == vm.config && r.1.schemaValidator == vm.schemaValidator
    ensures r.1.ruleValidator.rules == vm.ruleValidator.rules
    ensures Rules.Extends(vm.ruleValidator.cache, r.1.ruleValidator.cache)
    ensures Rules.Coherent(engine, vm.ruleValidator.cache) ==> Rules.Coherent(engine, r.1.ruleValidator.cache)
    ensures vm.config.enabled ==>
      var schemaErrs := SchemaValidation.Validate(vm.schemaValidator, check, tableName, data, op);
      && |schemaErrs| <= |r.0|
      && r.0[..|schemaErrs|] == schemaErrs
      && r.0[|schemaErrs|..] == Rules.Validate(engine, vm.ruleValidator, tableName, data).0
    ensures vm.config.enabled ==> r.1.ruleValidator == Rules.Validate(engine, vm.ruleValidator, tableName, data).1
  {
    if !vm.config.enabled then ([], vm)
    else
      var schemaErrs := SchemaValidation.Validate(vm.schemaValidator, check, tableName, data, op);
      var (ruleErrs, rv) := Rules.Validate(engine, vm.ruleValidator, tableName, data);
      var all := (if HasErrors(schemaErrs) then schemaErrs else []) + (if HasErrors(ruleErrs) then ruleErrs else []);
      (all, vm.(ruleValidator := rv))
  }

  /** ValidationManager.Validate: the first error only, or None. Its own loop
      is the same as ValidateMultiple's; the contract ties the two together. */
  function Validate(engine: Rules.RegexEngine, check: SchemaValidation.ColumnCheck, vm: ValidationManager,
                    tableName: string, data: AList<Value>, op: SchemaValidation.Operation)
    : (r: (Option<ValidationError>, ValidationManager))
    ensures var all := ValidateMultiple(engine, check, vm, tableName, data, op);
      && (r.0.None? <==> !HasErrors(all.0))
      && (r.0.Some? ==> r.0.value == all.0[0])
      && r.1 == all.1
  {
    if !vm.config.enabled then (None, vm)
    else
      var schemaErrs := SchemaValidation.Validate(vm.schemaValidator, check, tableName, data, op);
      var (ruleErrs, rv) := Rules.Validate(engine, vm.ruleValidator, tableName, data);
      var all := schemaErrs + ruleErrs;
      (if HasErrors(all) then Some(all[0]) else None, vm.(ruleValidator := rv))
  }

  /** A disabled manager accepts everything and changes nothing. */
  lemma DisabledAcceptsAll(engine: Rules.RegexEngine, check: SchemaValidation.ColumnCheck, vm: ValidationManager,
                           tableName: string, data: AList<Value>, op: SchemaValidation.Operation)
    requires !vm.config.enabled
    ensures Validate(engine, check, vm, tableName, data, op) == (None, vm)
    ensures ValidateMultiple(engine, check, vm, tableName, data, op) == ([], vm)
  {
  }

  /** Schema errors take precedence: when there is one, the reported error is
      the schema validator's first. */
  lemma SchemaErrorFirst(engine: Rules.RegexEngine, check: SchemaValidation.ColumnCheck, vm: ValidationManager,
                         tableName: string, data: AList<Value>, op: SchemaValidation.Operation)
    requires vm.config.enabled
    requires HasErrors(SchemaValidation.Validate(vm.schemaValidator, check, tableName, data, op))
    ensures Validate(engine, check, vm, tableName, data, op).0
         == Some(SchemaValidation.Validate(vm.schemaValidator, check, tableName, data, op)[0])
  {
    var all := ValidateMultiple(engine, check, vm, tableName, data, op).0;
    var schemaErrs := SchemaValidation.Validate(vm.schemaValidator, check, tableName, data, op);
    assert all[0] == all[..|schemaErrs|][0];
  }

  /** An unknown table is reported once, on "_table", ahead of whatever the
      rules for that name report; with no rules for it, that is the only
      error. */
  lemma UnknownTableReported(engine: Rules.RegexEngine, check: SchemaValidation.ColumnCheck, vm: ValidationManager,
                             tableName: string, data: AList<Value>, op: SchemaValidation.Operation)
    requires vm.config.enabled && tableName !in vm.schemaValidator.schema
    ensures var all := ValidateMultiple(engine, check, vm, tableName, data, op).0;
      && |all| >= 1
      && all[0] == SchemaValidation.TableNotFoundError(tableName)
      && (forall i | 1 <= i < |all| ::
            all[i].field != "_table" || HasKey(Get(vm.ruleValidator.rules, Lower(tableName)).value, "_table"))
      && (Get(vm.ruleValidator.rules, Lower(tableName)).None? ==> |all| == 1)
  {
    var all := ValidateMultiple(engine, check, vm, tableName, data, op).0;
    var ruleErrs := Rules.Validate(engine, vm.ruleValidator, tableName, data).0;
    assert all[..1] == [SchemaValidation.TableNotFoundError(tableName)];
    assert all[0] == all[..1][0];
    forall i | 1 <= i < |all|
      ensures all[i].field != "_table" || HasKey(Get(vm.ruleValidator.rules, Lower(tableName)).value, "_table")
    {
      assert all[i] == all[1..][i - 1] == ruleErrs[i - 1];
    }
  }
}
