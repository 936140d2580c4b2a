/** rule_validator.go: the configured per-table, per-field rules (required,
    regex, min, max, enum, length) checked against a request's data, with a
    memo of compiled regular expressions.

    The regular-expression engine is a parameter: `compile` stands for
    regexp.Compile (None for an invalid pattern) and `matches` for
    MatchString. The memo is threaded through the calls as a value. */
module Rules {
  import opened Base
  import opened Text
  import opened Assoc
  import opened Values
  import opened Errors

  /** One configured rule; `value` is the min/max/length threshold, `values`
      the allowed enum strings, `message` a custom message ("" for none). */
  datatype RuleItem = RuleItem(
    ruleType: string,
    pattern: string,
    value: Value,
    values: seq<string>,
    message: string)

  /** field -> rules, in the config map's iteration order */
  type FieldRules = AList<seq<RuleItem>>

  /** table -> field -> rules */
  type RuleConfig = AList<FieldRules>

  /** A compiled expression, known only through the engine. */
  datatype Regex = Regex(program: string)

  datatype RegexEngine = RegexEngine(
    compile: string -> Option<Regex>,
    matches: (Regex, string) -> bool)

  /** The memo map (None is the nil entry of an invalid pattern) and the
      patterns compiled so far, in order. */
  datatype RegexCache = RegexCache(entries: map<string, Option<Regex>>, compiled: seq<string>)

  datatype RuleValidator = RuleValidator(rules: RuleConfig, cache: RegexCache)

  /* ---------------- construction ---------------- */

  /** Reference lookup into the normalised rules: the fields of the last
      configured table, in iteration order, whose lower-cased name is `k`. */
  function LastFor(config: seq<(string, FieldRules)>, k: string): Option<FieldRules>
    decreases |config|
  {
    if |config| == 0 then None
    else if Lower(config[|config| - 1].0) == k then Some(config[|config| - 1].1)
    else LastFor(config[..|config| - 1], k)
  }

  /** The construction loop: each table's fields stored under its
      lower-cased name; a later table overwrites an earlier one of the same
      lower-cased name. */
  function Normalize(config: seq<(string, FieldRules)>): (r: RuleConfig)
    ensures forall k :: Get(r, k) == LastFor(config, k)
    decreases |config|
  {
    if |config| == 0 then []
    else
      var last := config[|config| - 1];
      Put(Normalize(config[..|config| - 1]), Lower(last.0), last.1)
  }

  /** An empty memo is coherent with every engine. */
  function EmptyCache(): RegexCache
  {
    RegexCache(map[], [])
  }

  /** NewRuleValidator. */
  function NewRuleValidator(config: RuleConfig): (rv: RuleValidator)
    ensures forall k :: Get(rv.rules, k) == LastFor(config, k)
    ensures rv.cache.entries == map[] && rv.cache.compiled == []
  {
    RuleValidator(Normalize(config), EmptyCache())
  }

  /** The lookup under the lower-cased table name finds rules exactly when
      some configured table name equals it ignoring ASCII case. */
  lemma TableFoundIgnoringCase(config: RuleConfig, name: string)
    ensures LastFor(config, Lower(name)).Some? <==>
      exists i | 0 <= i < |config| :: EqualFold(config[i].0, name)
  {
    LastForSome(config, Lower(name));
  }

  lemma {:induction false} LastForSome(config: seq<(string, FieldRules)>, k: string)
    ensures LastFor(config, k).Some? <==> exists i | 0 <= i < |config| :: Lower(config[i].0) == k
    decreases |config|
  {
    if |config| > 0 {
      var pre := config[..|config| - 1];
      LastForSome(pre, k);
      if exists i | 0 <= i < |pre| :: Lower(pre[i].0) == k {
        var i :| 0 <= i < |pre| && Lower(pre[i].0) == k;
        assert config[i] == pre[i];
      }
      if exists i | 0 <= i < |config| :: Lower(config[i].0) == k {
        var i :| 0 <= i < |config| && Lower(config[i].0) == k;
        if i < |pre| {
          assert config[i] == pre[i];
        }
      }
    }
  }

  /* ---------------- the regex memo ---------------- */

  predicate Distinct(s: seq<string>) {
    forall i, j | 0 <= i < j < |s| :: s[i] != s[j]
  }

  /** Every memo entry is what the engine compiles its pattern to, and each
      pattern was compiled exactly once. */
  predicate Coherent(engine: RegexEngine, cache: RegexCache) {
    && (forall p | p in cache.entries :: cache.entries[p] == engine.compile(p))
    && Distinct(cache.compiled)
    && cache.entries.Keys == (set i | 0 <= i < |cache.compiled| :: cache.compiled[i])
  }

  /** The memo only grows: no entry is dropped or replaced. */
  predicate Extends(c: RegexCache, c': RegexCache) {
    && (forall p | p in c.entries :: p in c'.entries && c'.entries[p] == c.entries[p])
    && |c.compiled| <= |c'.compiled|
    && c'.compiled[..|c.compiled|] == c.compiled
  }

  /** getCompiledRegex: a pattern with an entry returns it and leaves the
      memo as it is; otherwise the pattern is compiled once and its result
      (nil for an invalid pattern) is stored. */
  function GetCompiledRegex(engine: RegexEngine, cache: RegexCache, pattern: string)
    : (r: (Option<Regex>, RegexCache))
    ensures pattern in cache.entries ==> r.1 == cache
    ensures pattern in r.1.entries && r.1.entries[pattern] == r.0
    ensures r.1.entries.Keys == cache.entries.Keys + {pattern}
    ensures Extends(cache, r.1)
    ensures Coherent(engine, cache) ==> Coherent(engine, r.1) && r.0 == engine.compile(pattern)
  {
    if pattern in cache.entries then (cache.entries[pattern], cache)
    else
      var compiled := engine.compile(pattern);
      var c' := RegexCache(cache.entries[pattern := compiled], cache.compiled + [pattern]);
      assert c'.compiled[..|cache.compiled|] == cache.compiled;
      assert Coherent(engine, cache) ==> Coherent(engine, c') by {
        if Coherent(engine, cache) {
          var n := |cache.compiled|;
          forall i | 0 <= i < n ensures c'.compiled[i] != pattern {
            assert cache.compiled[i] in cache.entries.Keys;
          }
          var before := set i | 0 <= i < n :: cache.compiled[i];
          var after := set i | 0 <= i < |c'.compiled| :: c'.compiled[i];
          forall x | x in before ensures x in after {
            var i :| 0 <= i < n && cache.compiled[i] == x;
            assert c'.compiled[i] == x;
          }
          assert c'.compiled[n] == pattern;
          assert after == before + {pattern};
        }
      }
      (compiled, c')
  }

  /* ---------------- messages ---------------- */

  /** getMessage: a non-empty custom message replaces the default. */
  function GetMessage(rule: RuleItem, default: string): (m: string)
    ensures rule.message != "" ==> m == rule.message
    ensures rule.message == "" ==> m == default
  {
    if rule.message != "" then rule.message else default
  }

  function Quoted(field: string): string
  {
    "'" + field + "'"
  }

  /* ---------------- the six checks ---------------- */

  /** The looked-up value: None when the key is absent, Some(Null) when it
      is present with a nil value. */
  predicate Missing(v: Option<Value>) {
    v.None? || v.value.Null?
  }

  predicate IsStr(v: Option<Value>) {
    v.Some? && v.value.Str?
  }

  /** validateRequired. */
  function ValidateRequired(field: string, v: Option<Value>, rule: RuleItem): (r: Option<ValidationError>)
    ensures r.Some? <==> Missing(v) || (IsStr(v) && AllSpace(v.value.s))
    ensures r.Some? ==> r.value.field == field
    ensures (r.Some? && rule.message != "") ==> r.value.message == rule.message
  {
    if Missing(v) then Some(NewValidationError(field, GetMessage(rule, Quoted(field) + " is required")))
    else if !v.value.Str? then None
    else
      TrimSpaceEmpty(v.value.s);
      if TrimSpace(v.value.s) == "" then
        Some(NewValidationError(field, GetMessage(rule, Quoted(field) + " cannot be empty")))
      else None
  }

  /** validateRegex. An invalid pattern is memoised as nil and never yields
      an error. */
  function ValidateRegex(engine: RegexEngine, cache: RegexCache, field: string, v: Option<Value>,
                         rule: RuleItem)
    : (r: (Option<ValidationError>, RegexCache))
    ensures !IsStr(v) ==> r == (None, cache)
    ensures IsStr(v) ==> r.1 == GetCompiledRegex(engine, cache, rule.pattern).1
    ensures Extends(cache, r.1)
    ensures r.0.Some? ==> r.0.value.field == field
    ensures (r.0.Some? && rule.message != "") ==> r.0.value.message == rule.message
    ensures Coherent(engine, cache) ==>
      && Coherent(engine, r.1)
      && (r.0.Some? <==>
            IsStr(v) && engine.compile(rule.pattern).Some?
            && !engine.matches(engine.compile(rule.pattern).value, v.value.s))
  {
    if !IsStr(v) then (None, cache)
    else
      var (compiled, c') := GetCompiledRegex(engine, cache, rule.pattern);
      if compiled.None? then (None, c')
      else if !engine.matches(compiled.value, v.value.s) then
        (Some(NewValidationError(field, GetMessage(rule, Quoted(field) + " does not match the required pattern"))), c')
      else (None, c')
  }

  /** validateMin. */
  function ValidateMin(field: string, v: Option<Value>, rule: RuleItem): (r: Option<ValidationError>)
    ensures r.Some? <==>
      && v.Some? && ToFloat64(v.value).Some? && ToFloat64(rule.value).Some?
      && ToFloat64(v.value).value < ToFloat64(rule.value).value
    ensures r.Some? ==> r.value.field == field
    ensures (r.Some? && rule.message != "") ==> r.value.message == rule.message
  {
    if Missing(v) then None
    else
      match (ToFloat64(v.value), ToFloat64(rule.value))
      case (Some(x), Some(lo)) =>
        if x < lo then Some(NewValidationError(field, GetMessage(rule, Quoted(field) + " must be at least " + Show(rule.value))))
        else None
      case _ => None
  }

  /** validateMax. */
  function ValidateMax(field: string, v: Option<Value>, rule: RuleItem): (r: Option<ValidationError>)
    ensures r.Some? <==>
      && v.Some? && ToFloat64(v.value).Some? && ToFloat64(rule.value).Some?
      && ToFloat64(v.value).value > ToFloat64(rule.value).value
    ensures r.Some? ==> r.value.field == field
    ensures (r.Some? && rule.message != "") ==> r.value.message == rule.message
  {
    if Missing(v) then None
    else
      match (ToFloat64(v.value), ToFloat64(rule.value))
      case (Some(x), Some(hi)) =>
        if x > hi then Some(NewValidationError(field, GetMessage(rule, Quoted(field) + " must be at most " + Show(rule.value))))
        else None
      case _ => None
  }

  /** A numeric value passes a min rule and a max rule exactly when it lies
      in the closed range between the two thresholds. */
  lemma MinMaxRange(field: string, x: Value, lo: RuleItem, hi: RuleItem)
    requires ToFloat64(x).Some? && ToFloat64(lo.value).Some? && ToFloat64(hi.value).Some?
    ensures (ValidateMin(field, Some(x), lo).None? && ValidateMax(field, Some(x), hi).None?) <==>
      ToFloat64(lo.value).value <= ToFloat64(x).value <= ToFloat64(hi.value).value
  {
  }

  /** The enum loop: is `s` one of `allowed`, ignoring ASCII case? */
  function Allowed(s: string, allowed: seq<string>): (r: bool)
    ensures r <==> exists i | 0 <= i < |allowed| :: EqualFold(s, allowed[i])
    decreases |allowed|
  {
    if |allowed| == 0 then false
    else if EqualFold(s, allowed[0]) then true
    else
      var r := Allowed(s, allowed[1..]);
      assert r <==> exists i | 0 <= i < |allowed| :: EqualFold(s, allowed[i]) by {
        if exists i | 0 <= i < |allowed| :: EqualFold(s, allowed[i]) {
          var i :| 0 <= i < |allowed| && EqualFold(s, allowed[i]);
          assert allowed[1..][i - 1] == allowed[i];
        }
        if r {
          var i :| 0 <= i < |allowed[1..]| && EqualFold(s, allowed[1..][i]);
          assert allowed[i + 1] == allowed[1..][i];
        }
      }
      r
  }

  /** validateEnum. */
  function ValidateEnum(field: string, v: Option<Value>, rule: RuleItem): (r: Option<ValidationError>)
    ensures r.Some? <==> IsStr(v) && forall i | 0 <= i < |rule.values| :: !EqualFold(v.value.s, rule.values[i])
    ensures r.Some? ==> r.value.field == field
    ensures (r.Some? && rule.message != "") ==> r.value.message == rule.message
  {
    if !IsStr(v) then None
    else if Allowed(v.value.s, rule.values) then None
    else Some(NewValidationError(field, GetMessage(rule, Quoted(field) + " must be one of: " + Join(rule.values, ", "))))
  }

  /** The enum check ignores ASCII case in the submitted value, and an empty
      allowed list rejects every string. */
  lemma EnumIgnoresCase(field: string, a: string, b: string, rule: RuleItem)
    requires EqualFold(a, b)
    ensures ValidateEnum(field, Some(Str(a)), rule).Some? <==> ValidateEnum(field, Some(Str(b)), rule).Some?
    ensures rule.values == [] ==> ValidateEnum(field, Some(Str(a)), rule).Some?
  {
  }

  /** validateLength: the threshold truncated toward zero, compared with the
      string's length. */
  function ValidateLength(field: string, v: Option<Value>, rule: RuleItem): (r: Option<ValidationError>)
    ensures r.Some? <==> IsStr(v) && ToFloat64(rule.value).Some? && |v.value.s| > Truncate(ToFloat64(rule.value).value)
    ensures r.Some? ==> r.value.field == field
    ensures (r.Some? && rule.message != "") ==> r.value.message == rule.message
  {
    if !IsStr(v) then None
    else
      match ToFloat64(rule.value)
      case None => None
      case Some(maxLen) =>
        var n := Truncate(maxLen);
        if |v.value.s| > n then
          Some(NewValidationError(field, GetMessage(rule, Quoted(field) + " must be at most " + IntToString(n) + " characters")))
        else None
  }

  /** With an integer threshold n the length rule passes a string exactly
      when it has at most n characters, and a string shorter than one that
      passes also passes. */
  lemma LengthThreshold(field: string, s: string, t: string, n: int, rule: RuleItem)
    requires rule.value == Integer(GoInt, n)
    ensures ValidateLength(field, Some(Str(s)), rule).None? <==> |s| <= n
    ensures (ValidateLength(field, Some(Str(s)), rule).None? && |t| <= |s|) ==>
      ValidateLength(field, Some(Str(t)), rule).None?
  {
    assert Truncate(n as real) == n;
  }

  /* ---------------- dispatch ---------------- */

  predicate KnownRuleType(ruleType: string) {
    Lower(ruleType) in {"required", "regex", "min", "max", "enum", "length"}
  }

  /** The patterns a rule puts in the memo: a regex rule's pattern, when the
      value it meets is a string. */
  function RegexUse(v: Option<Value>, rule: RuleItem): set<string>
  {
    if IsStr(v) && Lower(rule.ruleType) == "regex" then {rule.pattern} else {}
  }

  /** validateRule: the type is matched ignoring ASCII case; an unknown type
      yields no error and leaves the memo alone. */
  function ValidateRule(engine: RegexEngine, cache: RegexCache, field: string, v: Option<Value>, rule: RuleItem)
    : (r: (Option<ValidationError>, RegexCache))
    ensures !KnownRuleType(rule.ruleType) ==> r == (None, cache)
    ensures Lower(rule.ruleType) != "regex" ==> r.1 == cache
    ensures Lower(rule.ruleType) == "regex" ==> r == ValidateRegex(engine, cache, field, v, rule)
    ensures Lower(rule.ruleType) == "required" ==> r.0 == ValidateRequired(field, v, rule)
    ensures Lower(rule.ruleType) == "min" ==> r.0 == ValidateMin(field, v, rule)
    ensures Lower(rule.ruleType) == "max" ==> r.0 == ValidateMax(field, v, rule)
    ensures Lower(rule.ruleType) == "enum" ==> r.0 == ValidateEnum(field, v, rule)
    ensures Lower(rule.ruleType) == "length" ==> r.0 == ValidateLength(field, v, rule)
    ensures (Lower(rule.ruleType) != "required" && Missing(v)) ==> r.0.None?
    ensures Extends(cache, r.1)
    ensures Coherent(engine, cache) ==> Coherent(engine, r.1)
    ensures r.0.Some? ==> r.0.value.field == field
  {
    var t := Lower(rule.ruleType);
    if t == "required" then (ValidateRequired(field, v, rule), cache)
    else if t == "regex" then ValidateRegex(engine, cache, field, v, rule)
    else if t == "min" then (ValidateMin(field, v, rule), cache)
    else if t == "max" then (ValidateMax(field, v, rule), cache)
    else if t == "enum" then (ValidateEnum(field, v, rule), cache)
    else if t == "length" then (ValidateLength(field, v, rule), cache)
    else (None, cache)
  }

  /** The rule type is case-insensitive. */
  lemma RuleTypeIgnoresCase(engine: RegexEngine, cache: RegexCache, field: string, v: Option<Value>,
                            rule: RuleItem, spelling: string)
    requires EqualFold(rule.ruleType, spelling)
    ensures ValidateRule(engine, cache, field, v, rule) == ValidateRule(engine, cache, field, v, rule.(ruleType := spelling))
  {
  }

  /* ---------------- Validate ---------------- */

  /** The patterns one field's rules put in the memo. */
  function FieldPatterns(v: Option<Value>, rules: seq<RuleItem>): set<string>
  {
    set i | 0 <= i < |rules| && IsStr(v) && Lower(rules[i].ruleType) == "regex" :: rules[i].pattern
  }

  /** The patterns a table's configured fields put in the memo, each field's
      value looked up by its exact spelling. */
  function TablePatterns(fields: seq<(string, seq<RuleItem>)>, data: AList<Value>): set<string>
    decreases |fields|
  {
    if |fields| == 0 then {}
    else
      var (field, rules) := fields[|fields| - 1];
      TablePatterns(fields[..|fields| - 1], data) + FieldPatterns(Get(data, field), rules)
  }

  /** The rules of one field, in order, against the field's value. */
  function ValidateField(engine: RegexEngine, cache: RegexCache, field: string, v: Option<Value>,
                         rules: seq<RuleItem>)
    : (r: (ValidationErrors, RegexCache))
    ensures |r.0| <= |rules|
    ensures forall i | 0 <= i < |r.0| :: r.0[i].field == field
    ensures Extends(cache, r.1)
    ensures Coherent(engine, cache) ==> Coherent(engine, r.1)
    decreases |rules|
  {
    if |rules| == 0 then ([], cache)
    else
      var pre := rules[..|rules| - 1];
      var (errs, c1) := ValidateField(engine, cache, field, v, pre);
      var (e, c2) := ValidateRule(engine, c1, field, v, rules[|rules| - 1]);
      ExtendsTrans(cache, c1, c2);
      (if e.Some? then errs + [e.value] else errs, c2)
  }

  lemma FieldPatternsSnoc(v: Option<Value>, rules: seq<RuleItem>)
    requires |rules| > 0
    ensures FieldPatterns(v, rules) == FieldPatterns(v, rules[..|rules| - 1]) + RegexUse(v, rules[|rules| - 1])
  {
    var pre := rules[..|rules| - 1];
    forall x | x in FieldPatterns(v, rules)
      ensures x in FieldPatterns(v, pre) + RegexUse(v, rules[|rules| - 1])
    {
      var i :| 0 <= i < |rules| && IsStr(v) && Lower(rules[i].ruleType) == "regex" && rules[i].pattern == x;
      if i < |pre| {
        assert pre[i] == rules[i];
      }
    }
    forall x | x in FieldPatterns(v, pre) ensures x in FieldPatterns(v, rules) {
      var i :| 0 <= i < |pre| && IsStr(v) && Lower(pre[i].ruleType) == "regex" && pre[i].pattern == x;
      assert rules[i] == pre[i];
    }
  }

  lemma ExtendsTrans(a: RegexCache, b: RegexCache, c: RegexCache)
    requires Extends(a, b) && Extends(b, c)
    ensures Extends(a, c)
  {
    assert c.compiled[..|a.compiled|] == c.compiled[..|b.compiled|][..|a.compiled|];
  }

  /** The outer loop over the table's configured fields; each field's value
      is looked up in the data by its exact spelling. */
  function ValidateFields(engine: RegexEngine, cache: RegexCache, fields: seq<(string, seq<RuleItem>)>,
                          data: AList<Value>)
    : (r: (ValidationErrors, RegexCache))
    ensures forall i | 0 <= i < |r.0| :: exists j | 0 <= j < |fields| :: r.0[i].field == fields[j].0
    ensures Extends(cache, r.1)
    ensures Coherent(engine, cache) ==> Coherent(engine, r.1)
    decreases |fields|
  {
    if |fields| == 0 then ([], cache)
    else
      var pre := fields[..|fields| - 1];
      var (field, rules) := fields[|fields| - 1];
      var (errs, c1) := ValidateFields(engine, cache, pre, data);
      var (more, c2) := ValidateField(engine, c1, field, Get(data, field), rules);
      ExtendsTrans(cache, c1, c2);
      var all := errs + more;
      assert forall i | 0 <= i < |all| :: exists j | 0 <= j < |fields| :: all[i].field == fields[j].0 by {
        forall i | 0 <= i < |all| ensures exists j | 0 <= j < |fields| :: all[i].field == fields[j].0 {
          if i < |errs| {
            var j :| 0 <= j < |pre| && errs[i].field == pre[j].0;
            assert fields[j] == pre[j];
          } else {
            assert all[i] == more[i - |errs|];
            assert fields[|fields| - 1].0 == field;
          }
        }
      }
      (all, c2)
  }

  /** RuleValidator.Validate: nothing for a table without rules; otherwise
      every configured field's rules, in order. */
  function Validate(engine: RegexEngine, rv: RuleValidator, tableName: string, data: AList<Value>)
    : (r: (ValidationErrors, RuleValidator))
    ensures Get(rv.rules, Lower(tableName)).None? ==> r == ([], rv)
    ensures r.1.rules == rv.rules
    ensures Extends(rv.cache, r.1.cache)
    ensures Coherent(engine, rv.cache) ==> Coherent(engine, r.1.cache)
    ensures forall i | 0 <= i < |r.0| ::
      && Get(rv.rules, Lower(tableName)).Some?
      && HasKey(Get(rv.rules, Lower(tableName)).value, r.0[i].field)
  {
    match Get(rv.rules, Lower(tableName))
    case None => ([], rv)
    case Some(fields) =>
      var (errs, c) := ValidateFields(engine, rv.cache, fields, data);
      (errs, RuleValidator(rv.rules, c))
  }

  /** Table names are matched ignoring ASCII case. */
  lemma ValidateIgnoresTableCase(engine: RegexEngine, rv: RuleValidator, a: string, b: string, data: AList<Value>)
    requires EqualFold(a, b)
    ensures Validate(engine, rv, a, data) == Validate(engine, rv, b, data)
  {
  }

  /* ---------------- what the memo holds afterwards ---------------- */

  /** One rule adds its pattern to the memo exactly when it is a regex rule
      meeting a string. */
  lemma RuleMemo(engine: RegexEngine, cache: RegexCache, field: string, v: Option<Value>, rule: RuleItem)
    ensures ValidateRule(engine, cache, field, v, rule).1.entries.Keys == cache.entries.Keys + RegexUse(v, rule)
  {
  }

  /** One field's rules add exactly the field's regex patterns, when its
      value is a string. */
  lemma {:induction false} FieldMemo(engine: RegexEngine, cache: RegexCache, field: string, v: Option<Value>,
                                     rules: seq<RuleItem>)
    ensures ValidateField(engine, cache, field, v, rules).1.entries.Keys == cache.entries.Keys + FieldPatterns(v, rules)
    decreases |rules|
  {
    if |rules| > 0 {
      var pre := rules[..|rules| - 1];
      FieldMemo(engine, cache, field, v, pre);
      var c1 := ValidateField(engine, cache, field, v, pre).1;
      RuleMemo(engine, c1, field, v, rules[|rules| - 1]);
      FieldPatternsSnoc(v, rules);
    }
  }

  /** The configured fields add exactly `TablePatterns`. */
  lemma {:induction false} FieldsMemo(engine: RegexEngine, cache: RegexCache, fields: seq<(string, seq<RuleItem>)>,
                                      data: AList<Value>)
    ensures ValidateFields(engine, cache, fields, data).1.entries.Keys == cache.entries.Keys + TablePatterns(fields, data)
    decreases |fields|
  {
    if |fields| > 0 {
      var pre := fields[..|fields| - 1];
      var (field, rules) := fields[|fields| - 1];
      FieldsMemo(engine, cache, pre, data);
      var c1 := ValidateFields(engine, cache, pre, data).1;
      FieldMemo(engine, c1, field, Get(data, field), rules);
    }
  }

  /** After RuleValidator.Validate the memo holds exactly the old patterns
      plus those of the table's regex rules that met a string value; with
      `Coherent`, each of them was compiled once. */
  lemma ValidateMemo(engine: RegexEngine, rv: RuleValidator, tableName: string, data: AList<Value>)
    ensures Validate(engine, rv, tableName, data).1.cache.entries.Keys == rv.cache.entries.Keys
      + (match Get(rv.rules, Lower(tableName))
         case None => {}
         case Some(fields) => TablePatterns(fields, data))
  {
    match Get(rv.rules, Lower(tableName))
    case None =>
    case Some(fields) =>
      FieldsMemo(engine, rv.cache, fields, data);
  }

  /* ---------------- the memo does not change the outcome ---------------- */

  lemma RuleCacheIrrelevant(engine: RegexEngine, c1: RegexCache, c2: RegexCache, field: string,
                            v: Option<Value>, rule: RuleItem)
    requires Coherent(engine, c1) && Coherent(engine, c2)
    ensures ValidateRule(engine, c1, field, v, rule).0 == ValidateRule(engine, c2, field, v, rule).0
  {
  }

  /** Reference meaning of one rule, with no memo: what it yields on a fresh
      validator. */
  function RuleError(engine: RegexEngine, field: string, v: Option<Value>, rule: RuleItem): Option<ValidationError>
  {
    ValidateRule(engine, EmptyCache(), field, v, rule).0
  }

  /** Reference errors of one field: each rule's error, in rule order. */
  function FieldErrors(engine: RegexEngine, field: string, v: Option<Value>, rules: seq<RuleItem>): ValidationErrors
  {
    Collect(rules, (rule: RuleItem) => RuleError(engine, field, v, rule))
  }

  /** Reference errors of a table: each configured field's errors, in field
      order, against the value found under the field's exact spelling. */
  function TableErrors(engine: RegexEngine, fields: seq<(string, seq<RuleItem>)>, data: AList<Value>): ValidationErrors
    decreases |fields|
  {
    if |fields| == 0 then []
    else
      var (field, rules) := fields[|fields| - 1];
      TableErrors(engine, fields[..|fields| - 1], data) + FieldErrors(engine, field, Get(data, field), rules)
  }

  lemma {:induction false} FieldMatchesReference(engine: RegexEngine, cache: RegexCache, field: string,
                                                 v: Option<Value>, rules: seq<RuleItem>)
    requires Coherent(engine, cache)
    ensures ValidateField(engine, cache, field, v, rules).0 == FieldErrors(engine, field, v, rules)
    decreases |rules|
  {
    if |rules| > 0 {
      var pre := rules[..|rules| - 1];
      FieldMatchesReference(engine, cache, field, v, pre);
      var c1 := ValidateField(engine, cache, field, v, pre).1;
      RuleCacheIrrelevant(engine, c1, EmptyCache(), field, v, rules[|rules| - 1]);
    }
  }

  lemma {:induction false} FieldsMatchReference(engine: RegexEngine, cache: RegexCache,
                                                fields: seq<(string, seq<RuleItem>)>, data: AList<Value>)
    requires Coherent(engine, cache)
    ensures ValidateFields(engine, cache, fields, data).0 == TableErrors(engine, fields, data)
    decreases |fields|
  {
    if |fields| > 0 {
      var pre := fields[..|fields| - 1];
      var (field, rules) := fields[|fields| - 1];
      FieldsMatchReference(engine, cache, pre, data);
      var c1 := ValidateFields(engine, cache, pre, data).1;
      FieldMatchesReference(engine, c1, field, Get(data, field), rules);
    }
  }

  /** With a coherent memo, RuleValidator.Validate reports exactly the
      reference errors: nothing for a table without rules, otherwise every
      configured field's rule errors in order, each field looked up in the
      data by its exact spelling. */
  lemma ValidateMatchesReference(engine: RegexEngine, rv: RuleValidator, tableName: string, data: AList<Value>)
    requires Coherent(engine, rv.cache)
    ensures Validate(engine, rv, tableName, data).0
         == match Get(rv.rules, Lower(tableName))
            case None => []
            case Some(fields) => TableErrors(engine, fields, data)
  {
    match Get(rv.rules, Lower(tableName))
    case None =>
    case Some(fields) =>
      FieldsMatchReference(engine, rv.cache, fields, data);
  }

  /** Memoisation is invisible: with any coherent memo (the empty one a new
      validator starts with, or one left by earlier calls) the errors are the
      same. */
  lemma ValidateCacheIrrelevant(engine: RegexEngine, rv: RuleValidator, tableName: string, data: AList<Value>)
    requires Coherent(engine, rv.cache)
    ensures Validate(engine, rv, tableName, data).0
         == Validate(engine, RuleValidator(rv.rules, EmptyCache()), tableName, data).0
  {
    ValidateMatchesReference(engine, rv, tableName, data);
    ValidateMatchesReference(engine, RuleValidator(rv.rules, EmptyCache()), tableName, data);
  }
}
