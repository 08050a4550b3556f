/** Conversion between policy validation results and Kubernetes events, and
    the violation messages of a summary (domain/policy_validation.go). */
module PolicyEvents {
  import opened Domain
  import Text

  const EventActionAllowed := "Allowed"
  const EventActionRejected := "Rejected"
  const EventReasonPolicyViolation := "PolicyViolation"
  const EventReasonPolicyCompliance := "PolicyCompliance"
  const PolicyValidationEventLabelKey := "policy-validation.weave.works"
  const EventTypeWarning := "Warning"
  const EventTypeNormal := "Normal"
  const NamespaceDefault := "default"

  /** The annotation keys a validation's identity travels in. */
  const AnnotationKeys: set<string> :=
    {"account_id", "cluster_id", "id", "policy", "severity", "category", "type", "trigger"}

  datatype ObjectMeta = ObjectMeta(
    name: string,
    namespace: string,
    annotations: map<string, string>,
    labels: map<string, string>)

  datatype Event = Event(
    meta: ObjectMeta,
    involvedObject: ObjectReference,
    related: Option<ObjectReference>,
    eventType: string,
    reason: string,
    action: string,
    message: string,
    firstTimestamp: Time,
    lastTimestamp: Time)

  /** The event's (type, reason, action) for a validation status. */
  datatype Classification = Classification(eventType: string, reason: string, action: string)

  function ClassifyStatus(status: string): (c: Classification)
    ensures status == StatusViolating ==>
              c == Classification(EventTypeWarning, EventReasonPolicyViolation, EventActionRejected)
    ensures status != StatusViolating ==>
              c == Classification(EventTypeNormal, EventReasonPolicyCompliance, EventActionAllowed)
  {
    if status == StatusViolating then
      Classification(EventTypeWarning, EventReasonPolicyViolation, EventActionRejected)
    else
      Classification(EventTypeNormal, EventReasonPolicyCompliance, EventActionAllowed)
  }

  /** The validation status an event's reason stands for. */
  function StatusOfReason(reason: string): (status: string)
    ensures status == StatusViolating <==> reason == EventReasonPolicyViolation
    ensures status == StatusViolating || status == StatusCompliant
  {
    if reason == EventReasonPolicyViolation then StatusViolating else StatusCompliant
  }

  /** Reading a status back from its event reason recovers it exactly for
      the two statuses the engine produces, and reads any other status as
      a compliance. */
  lemma StatusRoundTrip(status: string)
    ensures status == StatusViolating || status == StatusCompliant ==>
              StatusOfReason(ClassifyStatus(status).reason) == status
    ensures status != StatusViolating ==> StatusOfReason(ClassifyStatus(status).reason) == StatusCompliant
  {
  }

  /** The eight annotations a validation is written out with. */
  function Annotations(r: PolicyValidation): (a: map<string, string>)
    ensures a.Keys == AnnotationKeys
  {
    map[
      "account_id" := r.accountID,
      "cluster_id" := r.clusterID,
      "id" := r.id,
      "policy" := r.policy.id,
      "severity" := r.policy.severity,
      "category" := r.policy.category,
      "type" := r.validationType,
      "trigger" := r.trigger]
  }

  /** The event's namespace: the entity's, or "default" when it has none. */
  function EventNamespace(e: Entity): (ns: string)
    ensures ns != ""
    ensures e.namespace != "" ==> ns == e.namespace
    ensures e.namespace == "" ==> ns == NamespaceDefault
  {
    if e.namespace == "" then NamespaceDefault else e.namespace
  }

  /** The event name: the entity name, a dot, and the timestamp in
      lower-case hexadecimal. */
  function EventName(e: Entity, now: Time): string
  {
    e.name + "." + Text.FormatNat(now, 16)
  }

  /** The name carries the entity name, then a dot, then lower-case
      hexadecimal digits without a leading zero that read back as the
      timestamp. */
  lemma EventNameTimestamp(e: Entity, now: Time)
    ensures var n := EventName(e, now);
      && |n| > |e.name| + 1
      && n[..|e.name| + 1] == e.name + "."
      && (forall i :: |e.name| + 1 <= i < |n| ==> Text.IsDigitIn(n[i], 16))
      && (now > 0 ==> n[|e.name| + 1] != '0')
      && Text.ParseNat(n[|e.name| + 1..], 16) == now
  {
    var n := EventName(e, now);
    var hex := Text.FormatNat(now, 16);
    assert n[|e.name| + 1..] == hex;
    Text.ParseFormat(now, 16);
    Text.FormatDigits(now, 16);
    forall i | |e.name| + 1 <= i < |n| ensures Text.IsDigitIn(n[i], 16) {
      assert n[i] == hex[i - |e.name| - 1];
    }
    assert n[|e.name| + 1] == hex[0];
  }

  /** NewK8sEventFromPolicyVlidation, stamped with the time `now`. */
  function ToEvent(r: PolicyValidation, now: Time): (ev: Event)
    ensures ev.meta.name == EventName(r.entity, now)
    ensures ev.meta.namespace == EventNamespace(r.entity)
    ensures ev.meta.annotations == Annotations(r)
    ensures ev.meta.labels == map[PolicyValidationEventLabelKey := r.validationType]
    ensures ev.involvedObject == EntityObjectRef(r.entity)
    ensures ev.related == PolicyObjectRef(r.policy)
    ensures ClassifyStatus(r.status) == Classification(ev.eventType, ev.reason, ev.action)
    ensures ev.message == r.message
    ensures ev.firstTimestamp == now && ev.lastTimestamp == now
  {
    var c := ClassifyStatus(r.status);
    Event(
      ObjectMeta(EventName(r.entity, now), EventNamespace(r.entity), Annotations(r),
                 map[PolicyValidationEventLabelKey := r.validationType]),
      EntityObjectRef(r.entity),
      PolicyObjectRef(r.policy),
      c.eventType, c.reason, c.action,
      r.message,
      now, now)
  }

  /** A Go map read: a missing key gives the empty string. */
  function Lookup(m: map<string, string>, key: string): string
  {
    if key in m then m[key] else ""
  }

  /** NewPolicyValidationFRomK8sEvent. Only what the event carries comes
      back; the rest of the policy and entity is left empty. */
  function FromEvent(ev: Event): (r: PolicyValidation)
    ensures r.status == StatusOfReason(ev.reason)
    ensures r.message == ev.message && r.createdAt == ev.firstTimestamp
    ensures r.entity.kind == ev.involvedObject.kind && r.entity.name == ev.involvedObject.name
    ensures r.entity.namespace == ev.involvedObject.namespace && r.entity.id == ev.involvedObject.uid
    ensures r.entity.apiVersion == ev.involvedObject.apiVersion
    ensures r.entity.resourceVersion == ev.involvedObject.resourceVersion
    ensures r.policy.reference == ev.related
    ensures forall k :: k in AnnotationKeys ==> Annotations(r)[k] == Lookup(ev.meta.annotations, k)
  {
    var a := ev.meta.annotations;
    var io := ev.involvedObject;
    PolicyValidation(
      id := Lookup(a, "id"),
      accountID := Lookup(a, "account_id"),
      clusterID := Lookup(a, "cluster_id"),
      policy := Policy(
        id := Lookup(a, "policy"),
        name := "",
        category := Lookup(a, "category"),
        severity := Lookup(a, "severity"),
        code := "",
        targets := PolicyConfigTarget([], [], []),
        parameters := [],
        reference := ev.related),
      entity := Entity(
        id := io.uid,
        apiVersion := io.apiVersion,
        kind := io.kind,
        name := io.name,
        namespace := io.namespace,
        resourceVersion := io.resourceVersion,
        labels := map[],
        manifest := Null),
      status := StatusOfReason(ev.reason),
      message := ev.message,
      occurrences := [],
      validationType := Lookup(a, "type"),
      trigger := Lookup(a, "trigger"),
      createdAt := ev.firstTimestamp)
  }

  /** Writing a validation to an event and reading it back keeps its status
      (when it is one of the two the engine produces), its message, the
      eight annotated fields, the entity's identity and the policy's
      reference; the creation time becomes the event's timestamp. */
  lemma {:induction false} EventRoundTrip(r: PolicyValidation, now: Time)
    requires r.status == StatusViolating || r.status == StatusCompliant
    ensures var back := FromEvent(ToEvent(r, now));
      && back.status == r.status
      && back.message == r.message
      && Annotations(back) == Annotations(r)
      && back.accountID == r.accountID && back.clusterID == r.clusterID && back.id == r.id
      && back.policy.id == r.policy.id && back.policy.severity == r.policy.severity
      && back.policy.category == r.policy.category
      && back.validationType == r.validationType && back.trigger == r.trigger
      && EntityObjectRef(back.entity) == EntityObjectRef(r.entity)
      && back.policy.reference == r.policy.reference
      && back.createdAt == now
  {
    var ev := ToEvent(r, now);
    var back := FromEvent(ev);
    StatusRoundTrip(r.status);
    AnnotationsEqual(back, r);
  }

  /** Two validations with the same annotated fields have the same
      annotations, and conversely. */
  lemma AnnotationsEqual(a: PolicyValidation, b: PolicyValidation)
    ensures Annotations(a) == Annotations(b) <==>
      && a.accountID == b.accountID && a.clusterID == b.clusterID && a.id == b.id
      && a.policy.id == b.policy.id && a.policy.severity == b.policy.severity
      && a.policy.category == b.policy.category
      && a.validationType == b.validationType && a.trigger == b.trigger
  {
    if Annotations(a) == Annotations(b) {
      assert Annotations(a)["account_id"] == Annotations(b)["account_id"];
      assert Annotations(a)["cluster_id"] == Annotations(b)["cluster_id"];
      assert Annotations(a)["id"] == Annotations(b)["id"];
      assert Annotations(a)["policy"] == Annotations(b)["policy"];
      assert Annotations(a)["severity"] == Annotations(b)["severity"];
      assert Annotations(a)["category"] == Annotations(b)["category"];
      assert Annotations(a)["type"] == Annotations(b)["type"];
      assert Annotations(a)["trigger"] == Annotations(b)["trigger"];
    }
  }

  /** An event annotated with exactly the eight keys is read into a
      validation whose annotations are the event's own. */
  lemma AnnotationsFromEvent(ev: Event)
    requires ev.meta.annotations.Keys == AnnotationKeys
    ensures Annotations(FromEvent(ev)) == ev.meta.annotations
  {
    var a := Annotations(FromEvent(ev));
    forall k | k in AnnotationKeys ensures a[k] == ev.meta.annotations[k] { }
  }

  /** GetViolationMessages: one message per violation, in order. */
  function ViolationMessages(s: PolicyValidationSummary): (msgs: seq<string>)
    ensures |msgs| == |s.violations|
    ensures forall i :: 0 <= i < |msgs| ==> msgs[i] == s.violations[i].message
  {
    MessagesOf(s.violations)
  }

  function MessagesOf(results: seq<PolicyValidation>): (msgs: seq<string>)
    ensures |msgs| == |results|
    ensures forall i :: 0 <= i < |msgs| ==> msgs[i] == results[i].message
    decreases |results|
  {
    if results == [] then []
    else MessagesOf(results[..|results| - 1]) + [results[|results| - 1].message]
  }
}
