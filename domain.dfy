/** The records the validation and mutation engines exchange: the
    schema-less manifest tree, entities, policies and their parameters, the
    per-entity policy configuration, occurrences and validation results. */
module Domain {

  datatype Option<+T> = None | Some(value: T)

  datatype Result<+T, +E> = Success(value: T) | Failure(error: E)

  /** A point in time, in nanoseconds since the Unix epoch. */
  type Time = nat

  /** A JSON-compatible document: what an untyped `interface{}` holds after
      decoding. `JsonNumber` is a number still in its textual form (Go's
      json.Number); `Number` is a native number, kept as its literal. */
  datatype Value =
    | Null
    | Bool(b: bool)
    | Number(literal: string)
    | JsonNumber(text: string)
    | Str(s: string)
    | List(items: seq<Value>)
    | Object(fields: map<string, Value>)

  /** A value of a map-shaped document: absent keys read as null, as a Go
      map of interfaces does. */
  function Field(v: Value, key: string): Value
  {
    if v.Object? && key in v.fields then v.fields[key] else Null
  }

  /** A field that holds a string, if it does. */
  function StringField(v: Value, key: string): Option<string>
  {
    var f := Field(v, key);
    if f.Str? then Some(f.s) else None
  }

  /** A Kubernetes object reference, as events carry them. */
  datatype ObjectReference = ObjectReference(
    kind: string,
    namespace: string,
    name: string,
    uid: string,
    apiVersion: string,
    resourceVersion: string)

  datatype Entity = Entity(
    id: string,
    apiVersion: string,
    kind: string,
    name: string,
    namespace: string,
    resourceVersion: string,
    labels: map<string, string>,
    manifest: Value)

  /** The entity as the object an event is about. */
  function EntityObjectRef(e: Entity): (r: ObjectReference)
    ensures r.kind == e.kind && r.name == e.name && r.namespace == e.namespace
    ensures r.uid == e.id && r.apiVersion == e.apiVersion && r.resourceVersion == e.resourceVersion
  {
    ObjectReference(e.kind, e.namespace, e.name, e.id, e.apiVersion, e.resourceVersion)
  }

  // The shapes of domain/policy_config.go.

  datatype PolicyTargetApplication = PolicyTargetApplication(kind: string, name: string, namespace: string)

  datatype PolicyTargetResource = PolicyTargetResource(kind: string, name: string, namespace: string)

  datatype PolicyConfigTarget = PolicyConfigTarget(
    namespaces: seq<string>,
    applications: seq<PolicyTargetApplication>,
    resources: seq<PolicyTargetResource>)

  /** One parameter override: the value and where it came from. */
  datatype PolicyConfigParameter = PolicyConfigParameter(value: Value, configRef: string)

  datatype PolicyConfigConfig = PolicyConfigConfig(parameters: map<string, PolicyConfigParameter>)

  /** Per-entity configuration: overrides keyed by policy id. */
  datatype PolicyConfig = PolicyConfig(config: map<string, PolicyConfigConfig>, matchTarget: PolicyConfigTarget)

  /** A declared policy parameter; `configRef` records an override's origin. */
  datatype PolicyParameter = PolicyParameter(name: string, value: Value, configRef: string)

  datatype Policy = Policy(
    id: string,
    name: string,
    category: string,
    severity: string,
    code: string,
    targets: PolicyConfigTarget,
    parameters: seq<PolicyParameter>,
    reference: Option<ObjectReference>)

  /** The policy's own identity record, as the object an event relates to:
      the stored reference when there is one, and no object otherwise. */
  function PolicyObjectRef(p: Policy): (r: Option<ObjectReference>)
    ensures p.reference.Some? ==> r.Some? && r.value == p.reference.value
    ensures p.reference.None? ==> r.None?
  {
    p.reference
  }

  /** The declared parameters as a name-to-default map; a later declaration
      of the same name wins. */
  function ParametersMap(params: seq<PolicyParameter>): (m: map<string, Value>)
    ensures m.Keys == set i | 0 <= i < |params| :: params[i].name
    ensures forall k :: k in m ==> exists i :: 0 <= i < |params| && params[i] == PolicyParameter(k, m[k], params[i].configRef)
    decreases |params|
  {
    if params == [] then map[]
    else
      var last := params[|params| - 1];
      var init := params[..|params| - 1];
      var m := ParametersMap(init);
      assert forall i :: 0 <= i < |init| ==> init[i] == params[i];
      m[last.name := last.value]
  }

  /** One place a policy is violated; `recommendedValue` is `Null` when the
      evaluator recommended nothing. */
  datatype Occurrence = Occurrence(
    message: string,
    violatingKey: Option<string>,
    recommendedValue: Value,
    mutated: bool)

  const StatusViolating := "Violation"
  const StatusCompliant := "Compliance"

  /** One evaluation outcome of a policy against an entity. */
  datatype PolicyValidation = PolicyValidation(
    id: string,
    accountID: string,
    clusterID: string,
    policy: Policy,
    entity: Entity,
    status: string,
    message: string,
    occurrences: seq<Occurrence>,
    validationType: string,
    trigger: string,
    createdAt: Time)

  datatype PolicyValidationSummary = PolicyValidationSummary(
    violations: seq<PolicyValidation>,
    compliances: seq<PolicyValidation>)
}
