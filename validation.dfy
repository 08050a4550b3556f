/** The validation engine of validation/opa_validation.go, evaluated one
    policy after another: each matching policy is parsed, its parameters are
    resolved against the entity's configuration, and the evaluator's verdict
    becomes a violation, a compliance or an error. Any error fails the call. */
module Validation {
  import opened Domain
  import Text
  import Mutation

  /** The evaluator's verdict on one manifest. */
  datatype EvalResult = Compliant | Violating(details: Value) | EvalError(cause: string)

  /** Whether a policy's code parses, and why not when it does not. */
  datatype ParseResult = Parsed | Unparsable(cause: string)

  /** The policy evaluation engine: parsing a policy's code, and what
      evaluating that code against a manifest with parameters gives. */
  datatype Engine = Engine(
    parse: string -> ParseResult,
    eval: (string, Value, map<string, Value>) -> EvalResult)

  /** The policy source: every policy, and the configuration of an entity;
      each may fail with a cause. */
  datatype PoliciesSource = PoliciesSource(
    getAll: Result<seq<Policy>, string>,
    getPolicyConfig: Entity -> Result<PolicyConfig, string>)

  datatype OpaValidator = OpaValidator(
    source: PoliciesSource,
    validationType: string,
    accountID: string,
    clusterID: string)

  /** A per-policy failure, tagged with the policy's id and its cause. */
  datatype PolicyError = ParseFailed(policyID: string, cause: string) | EvaluationFailed(policyID: string, cause: string)

  datatype ValidateError =
    | PoliciesUnavailable(cause: string)
    | ConfigUnavailable(cause: string)
    | PolicyErrors(entityKind: string, entityName: string, errors: seq<PolicyError>)

  /** What one policy contributes: nothing, or exactly one result. */
  datatype PolicyOutcome =
    | Skipped
    | Violated(result: PolicyValidation)
    | Complied(result: PolicyValidation)
    | Errored(error: PolicyError)

  /** Everything a Validate call evaluates each policy with. */
  datatype Run = Run(
    validator: OpaValidator,
    engine: Engine,
    matches: (Entity, Policy) -> bool,
    entity: Entity,
    trigger: string,
    now: Time,
    config: PolicyConfig)

  // ---------------------------------------------------------------------
  // Occurrences.
  // ---------------------------------------------------------------------

  /** parseOccurrence: one detail record read as an occurrence. The message
      is the title unless the record carries a string `msg`; the violating
      key is taken only when it is a string; the recommended value is copied
      as it is. Anything but a map yields the title alone. */
  function ParseOccurrence(title: string, item: Value): (o: Occurrence)
    ensures !o.mutated
    ensures o.message == (if StringField(item, "msg").Some? then StringField(item, "msg").value else title)
    ensures o.violatingKey == StringField(item, "violating_key")
    ensures o.recommendedValue == Field(item, "recommended_value")
    ensures !item.Object? ==> o == Occurrence(title, None, Null, false)
  {
    if item.Object? then
      var msg := StringField(item, "msg");
      Occurrence(
        if msg.Some? then msg.value else title,
        StringField(item, "violating_key"),
        Field(item, "recommended_value"),
        false)
    else
      Occurrence(title, None, Null, false)
  }

  /** A parsed occurrence is something the mutation engine acts on exactly
      when its record names a string violating key and a non-null
      recommended value. */
  lemma ParseOccurrenceCandidate(title: string, item: Value)
    ensures Mutation.Complete(ParseOccurrence(title, item)) <==>
      && item.Object?
      && "violating_key" in item.fields && item.fields["violating_key"].Str?
      && "recommended_value" in item.fields && item.fields["recommended_value"] != Null
  {
  }

  /** The occurrences of a violation's details: one per element of a list,
      otherwise one for the whole payload. */
  function OccurrencesOf(title: string, details: Value): seq<Occurrence>
  {
    if details.List? then
      seq(|details.items|, i requires 0 <= i < |details.items| => ParseOccurrence(title, details.items[i]))
    else
      [ParseOccurrence(title, details)]
  }

  method ExtractOccurrences(title: string, details: Value) returns (occurrences: seq<Occurrence>)
    ensures details.List? ==>
      (|occurrences| == |details.items|
       && forall i :: 0 <= i < |occurrences| ==> occurrences[i] == ParseOccurrence(title, details.items[i]))
    ensures !details.List? ==> occurrences == [ParseOccurrence(title, details)]
    ensures occurrences == OccurrencesOf(title, details)
  {
    occurrences := [];
    if details.List? {
      var items := details.items;
      var i := 0;
      while i < |items|
        invariant 0 <= i <= |items|
        invariant |occurrences| == i
        invariant forall j :: 0 <= j < i ==> occurrences[j] == ParseOccurrence(title, items[j])
      {
        occurrences := occurrences + [ParseOccurrence(title, items[i])];
        i := i + 1;
      }
    } else {
      occurrences := occurrences + [ParseOccurrence(title, details)];
    }
  }

  /** A list holding a full record and a message-only record. */
  lemma OccurrencesExample(title: string)
    ensures var details := List([
        Object(map["msg" := Str("m1"), "violating_key" := Str("spec.replicas"), "recommended_value" := Number("3")]),
        Object(map["msg" := Str("m2")])]);
      OccurrencesOf(title, details) == [
        Occurrence("m1", Some("spec.replicas"), Number("3"), false),
        Occurrence("m2", None, Null, false)]
  {
  }

  // ---------------------------------------------------------------------
  // Messages.
  // ---------------------------------------------------------------------

  /** "<policy> in <kind, lower-cased> <entity>", the default occurrence
      message. */
  function Title(p: Policy, e: Entity): (t: string)
    ensures |t| == |p.name| + |e.kind| + |e.name| + 5
    ensures t[..|p.name|] == p.name && t[|t| - |e.name|..] == e.name
    ensures t[|p.name|..|p.name| + 4] == " in " && t[|p.name| + 4 + |e.kind|] == ' '
    ensures forall i :: 0 <= i < |e.kind| ==> t[|p.name| + 4 + i] == Text.LowerChar(e.kind[i])
  {
    p.name + " in " + Text.Lower(e.kind) + " " + e.name
  }

  const OccurrencesSuffix := " occurrences)"

  /** The title followed by the number of occurrences in parentheses. */
  function ViolationMessage(p: Policy, e: Entity, count: nat): (m: string)
    ensures |m| > |Title(p, e)| + 2 + |OccurrencesSuffix|
    ensures m[..|Title(p, e)| + 2] == Title(p, e) + " ("
    ensures m[|m| - |OccurrencesSuffix|..] == OccurrencesSuffix
  {
    Title(p, e) + " (" + Text.FormatNat(count, 10) + OccurrencesSuffix
  }

  /** A violation message starts with its title and the occurrence count
      it prints is decimal without leading zeros and reads back as the
      count. */
  lemma ViolationMessageCount(p: Policy, e: Entity, count: nat)
    ensures var m := ViolationMessage(p, e, count);
      var t := Title(p, e);
      && |m| >= |t| + 2 + |OccurrencesSuffix|
      && m[..|t|] == t
      && Text.AllDigits(m[|t| + 2..|m| - |OccurrencesSuffix|])
      && Text.ParseNat(m[|t| + 2..|m| - |OccurrencesSuffix|], 10) == count
      && (count > 0 ==> m[|t| + 2] != '0')
  {
    var m := ViolationMessage(p, e, count);
    var t := Title(p, e);
    var digits := Text.FormatNat(count, 10);
    assert m[|t| + 2..|m| - |OccurrencesSuffix|] == digits;
    Text.ParseFormat(count, 10);
    Text.DecimalDigits(count);
    Text.FormatDigits(count, 10);
    assert m[|t| + 2] == digits[0];
  }

  // ---------------------------------------------------------------------
  // Parameter resolution.
  // ---------------------------------------------------------------------

  /** The defaults with every configured key set to its override's value. */
  function Overridden(defaults: map<string, Value>, overrides: map<string, PolicyConfigParameter>): map<string, Value>
  {
    map k | k in defaults.Keys + overrides.Keys :: if k in overrides then overrides[k].value else defaults[k]
  }

  /** The declared parameters, each configured one carrying its override's
      value and provenance. */
  function WithOverrides(declared: seq<PolicyParameter>, overrides: map<string, PolicyConfigParameter>): seq<PolicyParameter>
  {
    seq(|declared|, i requires 0 <= i < |declared| =>
      if declared[i].name in overrides then
        declared[i].(value := overrides[declared[i].name].value, configRef := overrides[declared[i].name].configRef)
      else declared[i])
  }

  /** Overwrite the defaults entry by entry with the configured values. */
  method ResolveParameters(defaults: map<string, Value>, overrides: map<string, PolicyConfigParameter>)
    returns (parameters: map<string, Value>)
    ensures parameters.Keys == defaults.Keys + overrides.Keys
    ensures forall k :: k in overrides ==> parameters[k] == overrides[k].value
    ensures forall k :: k in defaults && k !in overrides ==> parameters[k] == defaults[k]
    ensures parameters == Overridden(defaults, overrides)
  {
    parameters := defaults;
    var pending := overrides.Keys;
    while pending != {}
      invariant pending <= overrides.Keys
      invariant parameters.Keys == defaults.Keys + (overrides.Keys - pending)
      invariant forall k :: k in overrides && k !in pending ==> parameters[k] == overrides[k].value
      invariant forall k :: k in defaults && (k !in overrides || k in pending) ==> parameters[k] == defaults[k]
      decreases pending
    {
      var k :| k in pending;
      parameters := parameters[k := overrides[k].value];
      pending := pending - {k};
    }
  }

  /** Record each override on the declared parameter it names. */
  method RecordOverrides(declared: seq<PolicyParameter>, overrides: map<string, PolicyConfigParameter>)
    returns (updated: seq<PolicyParameter>)
    ensures |updated| == |declared|
    ensures forall i :: 0 <= i < |declared| && declared[i].name in overrides ==>
      updated[i] == PolicyParameter(declared[i].name, overrides[declared[i].name].value, overrides[declared[i].name].configRef)
    ensures forall i :: 0 <= i < |declared| && declared[i].name !in overrides ==> updated[i] == declared[i]
    ensures updated == WithOverrides(declared, overrides)
  {
    updated := declared;
    var i := 0;
    while i < |updated|
      invariant 0 <= i <= |updated| && |updated| == |declared|
      invariant forall j :: 0 <= j < i ==> updated[j] == WithOverrides(declared, overrides)[j]
      invariant forall j :: i <= j < |updated| ==> updated[j] == declared[j]
    {
      var name := updated[i].name;
      if name in overrides {
        var configParameter := overrides[name];
        updated := updated[i := updated[i].(value := configParameter.value, configRef := configParameter.configRef)];
      }
      i := i + 1;
    }
  }

  /** The parameters a policy is evaluated with. */
  function EffectiveParameters(run: Run, p: Policy): map<string, Value>
  {
    if p.id in run.config.config then Overridden(ParametersMap(p.parameters), run.config.config[p.id].parameters)
    else ParametersMap(p.parameters)
  }

  /** The policy as recorded in its result, overrides written in. */
  function RecordedPolicy(run: Run, p: Policy): Policy
  {
    if p.id in run.config.config then p.(parameters := WithOverrides(p.parameters, run.config.config[p.id].parameters))
    else p
  }

  /** Without a configuration entry for the policy the defaults are used as
      they are; with one, every configured key (declared or not) takes its
      configured value and every other default stays. */
  lemma EffectiveParametersSpec(run: Run, p: Policy)
    ensures p.id !in run.config.config ==> EffectiveParameters(run, p) == ParametersMap(p.parameters)
    ensures p.id !in run.config.config ==> RecordedPolicy(run, p) == p
    ensures p.id in run.config.config ==>
      var overrides := run.config.config[p.id].parameters;
      var defaults := ParametersMap(p.parameters);
      var params := EffectiveParameters(run, p);
      && params.Keys == defaults.Keys + overrides.Keys
      && (forall k :: k in overrides ==> params[k] == overrides[k].value)
      && (forall k :: k in defaults && k !in overrides ==> params[k] == defaults[k])
  {
  }

  // ---------------------------------------------------------------------
  // One policy.
  // ---------------------------------------------------------------------

  function ResultFor(run: Run, p: Policy, status: string, message: string, occurrences: seq<Occurrence>): PolicyValidation
  {
    PolicyValidation(
      id := "",
      accountID := run.validator.accountID,
      clusterID := run.validator.clusterID,
      policy := RecordedPolicy(run, p),
      entity := run.entity,
      status := status,
      message := message,
      occurrences := occurrences,
      validationType := run.validator.validationType,
      trigger := run.trigger,
      createdAt := run.now)
  }

  /** What evaluating one policy contributes. A result is stamped with the
      validator's account, cluster and type, the trigger and the time, and
      records the entity and the policy with its overrides written in. A
      violation carries the parsed occurrences and the message counting
      them; a compliance has neither. An error names the policy and keeps
      the engine's cause; a parse failure is reported without evaluating. */
  function Evaluate(run: Run, p: Policy): (o: PolicyOutcome)
    ensures (o.Violated? || o.Complied?) ==>
      && o.result.accountID == run.validator.accountID && o.result.clusterID == run.validator.clusterID
      && o.result.validationType == run.validator.validationType && o.result.trigger == run.trigger
      && o.result.createdAt == run.now && o.result.entity == run.entity
      && o.result.policy == RecordedPolicy(run, p)
    ensures o.Violated? ==> run.engine.eval(p.code, run.entity.manifest, EffectiveParameters(run, p)).Violating?
    ensures o.Violated? ==>
      var details := run.engine.eval(p.code, run.entity.manifest, EffectiveParameters(run, p)).details;
      && o.result.status == StatusViolating
      && o.result.occurrences == OccurrencesOf(Title(p, run.entity), details)
      && o.result.message == ViolationMessage(p, run.entity, |o.result.occurrences|)
    ensures o.Complied? ==> o.result.status == StatusCompliant && o.result.message == "" && o.result.occurrences == []
    ensures o.Errored? ==> o.error.policyID == p.id
    ensures run.matches(run.entity, p) && run.engine.parse(p.code).Unparsable? ==>
      o == Errored(ParseFailed(p.id, run.engine.parse(p.code).cause))
    ensures o.Errored? && o.error.ParseFailed? ==> run.engine.parse(p.code) == Unparsable(o.error.cause)
    ensures o.Errored? && o.error.EvaluationFailed? ==>
      run.engine.eval(p.code, run.entity.manifest, EffectiveParameters(run, p)) == EvalError(o.error.cause)
  {
    if !run.matches(run.entity, p) then Skipped
    else if run.engine.parse(p.code).Unparsable? then Errored(ParseFailed(p.id, run.engine.parse(p.code).cause))
    else
      match run.engine.eval(p.code, run.entity.manifest, EffectiveParameters(run, p))
      case Violating(details) =>
        var occurrences := OccurrencesOf(Title(p, run.entity), details);
        Violated(ResultFor(run, p, StatusViolating, ViolationMessage(p, run.entity, |occurrences|), occurrences))
      case EvalError(cause) => Errored(EvaluationFailed(p.id, cause))
      case Compliant => Complied(ResultFor(run, p, StatusCompliant, "", []))
  }

  /** The body of the per-policy task. */
  method EvaluatePolicy(run: Run, p: Policy) returns (outcome: PolicyOutcome)
    ensures outcome == Evaluate(run, p)
  {
    if !run.matches(run.entity, p) {
      return Skipped;
    }
    var parsed := run.engine.parse(p.code);
    if parsed.Unparsable? {
      return Errored(ParseFailed(p.id, parsed.cause));
    }
    var parameters := ParametersMap(p.parameters);
    var policy := p;
    if p.id in run.config.config {
      var config := run.config.config[p.id];
      parameters := ResolveParameters(parameters, config.parameters);
      var updated := RecordOverrides(p.parameters, config.parameters);
      policy := p.(parameters := updated);
    }
    var verdict := run.engine.eval(p.code, run.entity.manifest, parameters);
    match verdict {
      case Violating(details) =>
        var occurrences := ExtractOccurrences(Title(p, run.entity), details);
        var message := ViolationMessage(p, run.entity, |occurrences|);
        outcome := Violated(PolicyValidation(
          "", run.validator.accountID, run.validator.clusterID, policy, run.entity,
          StatusViolating, message, occurrences, run.validator.validationType, run.trigger, run.now));
      case EvalError(cause) =>
        outcome := Errored(EvaluationFailed(p.id, cause));
      case Compliant =>
        outcome := Complied(PolicyValidation(
          "", run.validator.accountID, run.validator.clusterID, policy, run.entity,
          StatusCompliant, "", [], run.validator.validationType, run.trigger, run.now));
    }
  }

  /** A policy is skipped exactly when it does not match; a matching policy
      errs exactly when its code does not parse or its evaluation fails for
      a reason other than a violation, and is violated exactly when the
      evaluator reports a violation. */
  lemma EvaluateClassification(run: Run, p: Policy)
    ensures Evaluate(run, p).Skipped? <==> !run.matches(run.entity, p)
    ensures Evaluate(run, p).Errored? <==>
      (run.matches(run.entity, p) &&
       (run.engine.parse(p.code).Unparsable? || run.engine.eval(p.code, run.entity.manifest, EffectiveParameters(run, p)).EvalError?))
    ensures Evaluate(run, p).Violated? <==>
      (run.matches(run.entity, p) && run.engine.parse(p.code).Parsed? &&
       run.engine.eval(p.code, run.entity.manifest, EffectiveParameters(run, p)).Violating?)
    ensures Evaluate(run, p).Errored? ==> Evaluate(run, p).error.policyID == p.id
  {
  }

  /** A violation carries one occurrence per element of a list of details,
      otherwise exactly one; its message counts them. */
  lemma ViolationOccurrences(run: Run, p: Policy)
    requires Evaluate(run, p).Violated?
    ensures var details := run.engine.eval(p.code, run.entity.manifest, EffectiveParameters(run, p)).details;
      var r := Evaluate(run, p).result;
      && |r.occurrences| == (if details.List? then |details.items| else 1)
      && r.message == ViolationMessage(p, run.entity, |r.occurrences|)
      && r.status == StatusViolating
  {
  }

  // ---------------------------------------------------------------------
  // The collected results.
  // ---------------------------------------------------------------------

  function Violations(run: Run, ps: seq<Policy>): seq<PolicyValidation>
    decreases |ps|
  {
    if ps == [] then []
    else
      var o := Evaluate(run, ps[|ps| - 1]);
      Violations(run, ps[..|ps| - 1]) + (if o.Violated? then [o.result] else [])
  }

  function Compliances(run: Run, ps: seq<Policy>): seq<PolicyValidation>
    decreases |ps|
  {
    if ps == [] then []
    else
      var o := Evaluate(run, ps[|ps| - 1]);
      Compliances(run, ps[..|ps| - 1]) + (if o.Complied? then [o.result] else [])
  }

  function Errors(run: Run, ps: seq<Policy>): seq<PolicyError>
    decreases |ps|
  {
    if ps == [] then []
    else
      var o := Evaluate(run, ps[|ps| - 1]);
      Errors(run, ps[..|ps| - 1]) + (if o.Errored? then [o.error] else [])
  }

  /** How many of the policies match the entity. */
  function MatchedCount(run: Run, ps: seq<Policy>): nat
    decreases |ps|
  {
    if ps == [] then 0
    else MatchedCount(run, ps[..|ps| - 1]) + (if run.matches(run.entity, ps[|ps| - 1]) then 1 else 0)
  }

  /** Every matching policy adds exactly one result of one kind, and no
      other policy adds any. */
  lemma {:induction false} ResultsPerMatchedPolicy(run: Run, ps: seq<Policy>)
    ensures |Violations(run, ps)| + |Compliances(run, ps)| + |Errors(run, ps)| == MatchedCount(run, ps)
    decreases |ps|
  {
    if ps != [] {
      ResultsPerMatchedPolicy(run, ps[..|ps| - 1]);
    }
  }

  /** Some error is collected exactly when some policy errs. */
  lemma {:induction false} ErrorsIff(run: Run, ps: seq<Policy>)
    ensures Errors(run, ps) != [] <==> exists i :: 0 <= i < |ps| && Evaluate(run, ps[i]).Errored?
    decreases |ps|
  {
    if ps != [] {
      var init := ps[..|ps| - 1];
      ErrorsIff(run, init);
      if exists i :: 0 <= i < |init| && Evaluate(run, init[i]).Errored? {
        var i :| 0 <= i < |init| && Evaluate(run, init[i]).Errored?;
        assert ps[i] == init[i];
      }
      if exists i :: 0 <= i < |ps| && Evaluate(run, ps[i]).Errored? {
        var i :| 0 <= i < |ps| && Evaluate(run, ps[i]).Errored?;
        if i < |init| {
          assert ps[i] == init[i];
        }
      }
    }
  }

  /** Every violation is a violation of the entity, with the message that
      counts its occurrences; every compliance is a compliance of the
      entity, with no message and no occurrences. */
  lemma {:induction false} ResultShapes(run: Run, ps: seq<Policy>)
    ensures forall r :: r in Violations(run, ps) ==>
      && r.status == StatusViolating && r.entity == run.entity
      && r.message == ViolationMessage(r.policy, run.entity, |r.occurrences|)
    ensures forall r :: r in Compliances(run, ps) ==>
      r.status == StatusCompliant && r.entity == run.entity && r.occurrences == [] && r.message == ""
    decreases |ps|
  {
    if ps != [] {
      ResultShapes(run, ps[..|ps| - 1]);
    }
  }

  /** The policies that match the entity. */
  function MatchedPolicies(run: Run, ps: seq<Policy>): (m: seq<Policy>)
    ensures |m| == MatchedCount(run, ps)
    ensures forall p :: p in m ==> p in ps && run.matches(run.entity, p)
    decreases |ps|
  {
    if ps == [] then []
    else
      var last := ps[|ps| - 1];
      MatchedPolicies(run, ps[..|ps| - 1]) + (if run.matches(run.entity, last) then [last] else [])
  }

  /** Appending a matching policy appends it to the matched ones. */
  lemma MatchedSnoc(run: Run, ps: seq<Policy>)
    requires ps != []
    ensures var init := ps[..|ps| - 1];
      var last := ps[|ps| - 1];
      MatchedPolicies(run, ps) == MatchedPolicies(run, init) + (if run.matches(run.entity, last) then [last] else [])
  {
  }

  /** The last policy of a non-empty list, and the list without it. */
  lemma SnocParts(ps: seq<Policy>, p: Policy)
    ensures (ps + [p])[..|ps|] == ps && (ps + [p])[|ps|] == p
  {
  }

  /** Dropping the policies that do not match changes no violation. */
  lemma {:induction false} UnmatchedIgnoredViolations(run: Run, ps: seq<Policy>)
    ensures Violations(run, MatchedPolicies(run, ps)) == Violations(run, ps)
    decreases |ps|
  {
    if ps != [] {
      var init := ps[..|ps| - 1];
      var last := ps[|ps| - 1];
      UnmatchedIgnoredViolations(run, init);
      MatchedSnoc(run, ps);
      var m := MatchedPolicies(run, init);
      if run.matches(run.entity, last) {
        SnocParts(m, last);
      } else {
        assert m + [] == m;
        assert MatchedPolicies(run, ps) == m;
        assert Evaluate(run, last).Skipped?;
        assert Violations(run, init) + [] == Violations(run, init);
      }
    }
  }

  /** Dropping the policies that do not match changes no compliance. */
  lemma {:induction false} UnmatchedIgnoredCompliances(run: Run, ps: seq<Policy>)
    ensures Compliances(run, MatchedPolicies(run, ps)) == Compliances(run, ps)
    decreases |ps|
  {
    if ps != [] {
      var init := ps[..|ps| - 1];
      var last := ps[|ps| - 1];
      UnmatchedIgnoredCompliances(run, init);
      MatchedSnoc(run, ps);
      var m := MatchedPolicies(run, init);
      if run.matches(run.entity, last) {
        SnocParts(m, last);
      } else {
        assert m + [] == m;
        assert MatchedPolicies(run, ps) == m;
        assert Evaluate(run, last).Skipped?;
        assert Compliances(run, init) + [] == Compliances(run, init);
      }
    }
  }

  /** Dropping the policies that do not match changes no error. */
  lemma {:induction false} UnmatchedIgnoredErrors(run: Run, ps: seq<Policy>)
    ensures Errors(run, MatchedPolicies(run, ps)) == Errors(run, ps)
    decreases |ps|
  {
    if ps != [] {
      var init := ps[..|ps| - 1];
      var last := ps[|ps| - 1];
      UnmatchedIgnoredErrors(run, init);
      MatchedSnoc(run, ps);
      var m := MatchedPolicies(run, init);
      if run.matches(run.entity, last) {
        SnocParts(m, last);
      } else {
        assert m + [] == m;
        assert MatchedPolicies(run, ps) == m;
        assert Evaluate(run, last).Skipped?;
        assert Errors(run, init) + [] == Errors(run, init);
      }
    }
  }

  // ---------------------------------------------------------------------
  // Validate.
  // ---------------------------------------------------------------------

  /** Validate: fetch the policies and the entity's configuration (either
      failure ends the call), evaluate every policy, and fail the call if
      any policy erred; otherwise return the violations and compliances.
      Results are promised as multisets: the order is not guaranteed. */
  method Validate(v: OpaValidator, engine: Engine, matches: (Entity, Policy) -> bool,
                  entity: Entity, trigger: string, now: Time)
    returns (r: Result<PolicyValidationSummary, ValidateError>)
    ensures v.source.getAll.Failure? ==> r == Failure(PoliciesUnavailable(v.source.getAll.error))
    ensures v.source.getAll.Success? && v.source.getPolicyConfig(entity).Failure? ==>
      r == Failure(ConfigUnavailable(v.source.getPolicyConfig(entity).error))
    ensures v.source.getAll.Success? && v.source.getPolicyConfig(entity).Success? ==>
      var run := Run(v, engine, matches, entity, trigger, now, v.source.getPolicyConfig(entity).value);
      var ps := v.source.getAll.value;
      if Errors(run, ps) != [] then
        && r.Failure? && r.error.PolicyErrors?
        && r.error.entityKind == entity.kind && r.error.entityName == entity.name
        && multiset(r.error.errors) == multiset(Errors(run, ps))
      else
        && r.Success?
        && multiset(r.value.violations) == multiset(Violations(run, ps))
        && multiset(r.value.compliances) == multiset(Compliances(run, ps))
  {
    if v.source.getAll.Failure? {
      return Failure(PoliciesUnavailable(v.source.getAll.error));
    }
    var policies := v.source.getAll.value;
    var policyConfig := v.source.getPolicyConfig(entity);
    if policyConfig.Failure? {
      return Failure(ConfigUnavailable(policyConfig.error));
    }
    var run := Run(v, engine, matches, entity, trigger, now, policyConfig.value);

    var violations: seq<PolicyValidation> := [];
    var compliances: seq<PolicyValidation> := [];
    var errs: seq<PolicyError> := [];
    var i := 0;
    while i < |policies|
      invariant 0 <= i <= |policies|
      invariant violations == Violations(run, policies[..i])
      invariant compliances == Compliances(run, policies[..i])
      invariant errs == Errors(run, policies[..i])
    {
      assert policies[..i + 1][..i] == policies[..i];
      var outcome := EvaluatePolicy(run, policies[i]);
      match outcome {
        case Skipped =>
        case Violated(result) => violations := violations + [result];
        case Complied(result) => compliances := compliances + [result];
        case Errored(e) => errs := errs + [e];
      }
      i := i + 1;
    }
    assert policies[..i] == policies;

    if errs != [] {
      return Failure(PolicyErrors(entity.kind, entity.name, errs));
    }
    r := Success(PolicyValidationSummary(violations, compliances));
  }
}
