# policy-core in Dafny

A model of the core of MagalixTechnologies/policy-core, a Go library that
checks Kubernetes entities against policies and optionally mutates them:

- **Validation** (`validation/opa_validation.go`). `Validate` fetches every
  policy and the entity's policy configuration, evaluates each policy that
  matches the entity and returns the violations and compliances. Any policy
  that cannot be parsed or evaluated fails the whole call. Per-policy
  configuration overrides the policy's parameter defaults and is recorded on
  the policy's declared parameters. `parseOccurrence` reads the evaluator's
  violation details into occurrences.
- **Mutation** (`domain/mutation.go`). `MutationResult` keeps the manifest as
  loaded and an editable document. `Mutate` writes each occurrence's
  recommended value at its violating key, flags the occurrences it wrote and
  labels the document when anything was written. `parseKeyPath` turns a
  dotted key such as `spec.containers[0].image` into path components.
- **Events** (`domain/policy_validation.go`). A validation result is
  converted to a Kubernetes event and back. `GetViolationMessages` lists the
  messages of a summary's violations.

Layout:

- `text.dfy` (module `Text`): Go's `strings.Split`, ASCII lower-casing, and
  the `%d`/`%x` renderings of natural numbers with their parsers.
- `domain.dfy` (module `Domain`): the manifest tree `Value`, entities,
  policies, the shapes of `domain/policy_config.go`, occurrences and
  validation results.
- `validation.dfy`, `mutation.dfy`, `policy_events.dfy`: the three parts
  above.

`Validate` runs its policies in goroutines and appends results through
channels. Here it is a sequential loop, so its contract promises the
results as multisets. The parse check and the evaluator come from the OPA
library, and `matchEntity` is defined outside the modelled files. All three are
parameters: the `Engine` datatype, whose `parse` reports a parse error with
its cause, and the `matches` predicate. The manifest is the JSON-shaped
`Value` tree. kyaml's lookup-or-create is the function `Mutation.Write`; the
predicate `Mutation.Resolves` says independently which paths it can follow,
and `Mutation.WriteSucceedsIff` proves that a write succeeds exactly on
those.

`domain/policy_validation.go` declares `PolicyValidation` without an
`Occurrences` field, but `validation/opa_validation.go:143` sets one. The
model follows the code that sets it and includes the field.

## Model

| member | source | states |
|---|---|---|
| Validation.Validate | validation/opa_validation.go:52-218 | Failing to fetch the policies or the configuration fails the call with that cause. Otherwise, if any policy erred, the call fails with the entity's kind and name and exactly the collected errors. Otherwise it succeeds with exactly the collected violations and compliances, as multisets. |
| Validation.EvaluatePolicy | validation/opa_validation.go:79-168 | One policy's task computes exactly the outcome `Evaluate` specifies: skipped, parse error, violation, evaluation error or compliance. |
| Validation.EvaluateClassification | validation/opa_validation.go:80-153 | A policy is skipped iff it does not match. A matching policy errs iff its code does not parse or its evaluation fails for a reason other than a violation. It is violated iff the evaluator reports a violation. An error carries the policy's id. |
| Validation.ResultsPerMatchedPolicy | validation/opa_validation.go:70-170 | The numbers of violations, compliances and errors add up to the number of policies that match the entity. |
| Validation.UnmatchedIgnoredViolations | validation/opa_validation.go:80-82 | Removing the non-matching policies leaves the violations unchanged. |
| Validation.UnmatchedIgnoredCompliances | validation/opa_validation.go:80-82 | Removing the non-matching policies leaves the compliances unchanged. |
| Validation.UnmatchedIgnoredErrors | validation/opa_validation.go:80-82 | Removing the non-matching policies leaves the errors unchanged. |
| Validation.MatchedPolicies | validation/opa_validation.go:80-82 | The matched policies are as many as the matching count, each drawn from the list and matching the entity. |
| Validation.ErrorsIff | validation/opa_validation.go:84-210 | Some error is collected iff some policy errs. |
| Validation.ResultShapes | validation/opa_validation.go:124-166 | Every violation has status `Violation`, is about the entity and carries the message that counts its occurrences. Every compliance has status `Compliance`, is about the entity, and has no message and no occurrences. |
| Validation.ViolationOccurrences | validation/opa_validation.go:114-143 | A violation has one occurrence per element of list-shaped details and exactly one otherwise. Its message embeds that count and its status is `Violation`. |
| Validation.ResolveParameters | validation/opa_validation.go:91-96 | The effective parameters hold the defaults' keys plus every configured key, including undeclared ones. Configured keys take the override's value and the other defaults stay. |
| Validation.RecordOverrides | validation/opa_validation.go:98-103 | Each declared parameter named in the configuration gets the override's value and config reference. Every other parameter is unchanged, in the same order. |
| Validation.EffectiveParametersSpec | validation/opa_validation.go:91-104 | Without a configuration entry for the policy, the defaults and the policy are used unchanged. With one, every configured key takes its configured value and every other default stays. |
| Validation.ExtractOccurrences | validation/opa_validation.go:115-122 | List-shaped details give one parsed occurrence per element, in order. Any other details give exactly one occurrence. |
| Validation.ParseOccurrence | validation/opa_validation.go:221-233 | The message is the title unless a string `msg` overrides it. The violating key is set only when `violating_key` is a string. `recommended_value` is copied as is. A non-map input yields only the title. The occurrence is not yet mutated. |
| Validation.ParseOccurrenceCandidate | validation/opa_validation.go:221-233 | A parsed occurrence is one `Mutate` acts on iff its record is a map with a string `violating_key` and a non-null `recommended_value`. |
| Validation.OccurrencesExample | validation/opa_validation.go:116-122 | A list of a full record and a message-only record yields the two expected occurrences. |
| Validation.Title | validation/opa_validation.go:108-113 | The title is the policy name, " in ", the entity kind lower-cased letter by letter, a space and the entity name: every character of it is stated. |
| Validation.ViolationMessage | validation/opa_validation.go:124-130 | The message is the title, " (", a non-empty count, and " occurrences)". |
| Validation.ViolationMessageCount | validation/opa_validation.go:124-130 | The violation message starts with "<policy> in <kind> <entity>", and the count it prints is decimal digits only, with no leading zero for a positive count, and reads back as the count. |
| Validation.Evaluate | validation/opa_validation.go:79-168 | A matching policy whose code does not parse is reported as a parse failure with the parser's cause, whatever evaluation would give. An evaluation failure keeps the evaluator's cause. Both carry the policy id. A violation or compliance carries the validator's account, cluster and type, the trigger, the run's time, the entity and the recorded policy. A violation arises only when the evaluator reports one, and has status `Violation`, the occurrences of the evaluator's details under the title, and the message counting them. A compliance has status `Compliance`, no message and no occurrences. |
| Mutation.AlnumRun | domain/mutation.go:14 | The longest prefix of letters and digits. |
| Mutation.DigitRun | domain/mutation.go:14 | The longest prefix of decimal digits. |
| Mutation.MatchIndexedIff | domain/mutation.go:14 | The anchored pattern matches a part with groups (name, idx) iff the part begins with a non-empty alphanumeric name, `[`, non-empty digits and `]`. |
| Mutation.KeysOfBounds | domain/mutation.go:96-105 | Each part contributes one or two components, and no component contains `.`. |
| Mutation.ParseKeyPath | domain/mutation.go:94-106 | A key path yields between one and two components per dot-separated part, none containing `.`. |
| Mutation.ParseKeyPathPlain | domain/mutation.go:96-101 | A path without `[` parses into exactly its dot-separated parts, and joining them with `.` gives back the path. |
| Mutation.ParseKeyPathDropsSuffix | domain/mutation.go:94-106 | Text after the first `]` of a part is dropped: `a[0]b` gives `["a", "0"]`. |
| Mutation.Write | domain/mutation.go:51-73 | A successful write leaves the value at the path. At the top level only the addressed field or element changes, and a missing map field is added. When it succeeds is stated by `WriteSucceedsIff`. |
| Mutation.WriteSucceedsIff | domain/mutation.go:52-62 | A write succeeds iff its path resolves: every index step meets a list holding that element, every field step meets a map, and past a missing field (which is created empty) only field steps follow. A step into a scalar or past the end of a list fails. |
| Mutation.GetResolves | domain/mutation.go:52-62 | A path that already leads to a node resolves, so writing there always succeeds. |
| Mutation.FreshResolves | domain/mutation.go:52-62 | The empty map created for a missing field can be followed by exactly the paths made of field steps. |
| Mutation.WriteExisting | domain/mutation.go:52-73 | Writing the value a path already holds changes nothing. |
| Mutation.WriteIdempotent | domain/mutation.go:52-73 | Repeating a successful write changes nothing more. |
| Mutation.WriteFrame | domain/mutation.go:52-73 | A write leaves every node on a diverging path as it was. |
| Mutation.Coerce | domain/mutation.go:64-67 | A `json.Number` recommended value is written as a number, and other values are written unchanged. |
| Mutation.WithLabel | domain/mutation.go:78-82 | On a map-shaped manifest the labels become the old labels with the key set. Fields outside `metadata` are kept, and so is every `metadata` field other than `labels`, with `labels` the only key added. Any other document is left unchanged. |
| Mutation.Apply | domain/mutation.go:47-76 | An occurrence is written iff it has a key and a recommended value and its parsed path resolves. Then the path holds the coerced value. Otherwise the document is unchanged. |
| Mutation.ApplyAll | domain/mutation.go:46-77 | The batch fold yields one write flag per occurrence. |
| Mutation.ApplyAllFlags | domain/mutation.go:46-77 | Each occurrence's flag is whether applying it to the document left by the occurrences before it wrote something. |
| Mutation.ApplyAllStep | domain/mutation.go:46-77 | The fold over one more occurrence applies that occurrence to the fold so far and appends its flag. |
| Mutation.ApplyAllWrites | domain/mutation.go:46-77 | A flag is raised only for an occurrence with both a key and a recommended value, and a batch with no write leaves the document unchanged. |
| Mutation.MutationResult.MutateAt | domain/mutation.go:47-76 | One iteration: the document and write flag are those of applying the occurrence, the occurrence is flagged iff written, and every other occurrence is untouched. |
| Mutation.MarkOnlyRaisesFlags | domain/mutation.go:44-83 | The occurrences keep their positions and contents except the `mutated` flag. A flag is never lowered, and it is raised only on complete occurrences that were written. Incomplete occurrences are untouched. |
| Mutation.ApplyIdempotent | domain/mutation.go:47-76 | Applying an occurrence again to its own result changes nothing and reports the same write. |
| Mutation.WithLabelIdempotent | domain/mutation.go:78-82 | Setting the same label again changes nothing. |
| Mutation.MutationResult.constructor | domain/mutation.go:26-88 | The loaded manifest (`Old`) and the editable document both start as the entity's manifest. `Old` is a constant field that no later call changes. |
| Mutation.MutationResult.Old | domain/mutation.go:86-88 | Returns the manifest captured at load time, a constant field. |
| Mutation.MutationResult.Mutated | domain/mutation.go:90-92 | Returns the current document, the one `Mutate` wrote and labelled. |
| Mutation.MutationResult.Mutate | domain/mutation.go:44-84 | Returns the same array and no error. The occurrences become those of the batch fold, flagged where written. The document becomes the folded document, labelled iff anything was written. Nothing written means an unchanged document. |
| PolicyEvents.ClassifyStatus | domain/policy_validation.go:55-63 | `Violation` maps to (`Warning`, `PolicyViolation`, `Rejected`), and every other status to (`Normal`, `PolicyCompliance`, `Allowed`). |
| PolicyEvents.StatusOfReason | domain/policy_validation.go:110-114 | The result is `Violation` iff the reason is `PolicyViolation`, and `Compliance` otherwise. |
| PolicyEvents.StatusRoundTrip | domain/policy_validation.go:55-114 | `Violation` and `Compliance` survive the round trip through the event reason. Every other status comes back as `Compliance`. |
| PolicyEvents.Annotations | domain/policy_validation.go:65-74 | The event carries exactly the eight annotation keys. |
| PolicyEvents.EventNamespace | domain/policy_validation.go:76-79 | The entity's namespace, or `default` when it is empty. |
| PolicyEvents.EventNameTimestamp | domain/policy_validation.go:88 | The event name is the entity name, a dot, and lower-case hex digits, with no leading zero for a positive time, that parse back to the timestamp. |
| PolicyEvents.ToEvent | domain/policy_validation.go:51-104 | The event's name, namespace, annotations, label, involved and related objects, classification, message and timestamps are as listed. |
| PolicyEvents.FromEvent | domain/policy_validation.go:106-139 | The result's status follows the reason. The message, creation time, entity identity, policy reference and the eight annotated fields are read from the event. |
| PolicyEvents.EventRoundTrip | domain/policy_validation.go:51-139 | An event and back preserves the status (`Violation` or `Compliance`), the message, the eight annotated fields, the entity's identity and the policy reference. |
| PolicyEvents.AnnotationsEqual | domain/policy_validation.go:65-74 | Two results have equal annotations iff their eight annotated fields agree. |
| PolicyEvents.AnnotationsFromEvent | domain/policy_validation.go:115-129 | An event annotated with exactly the eight keys is read into a result whose annotations are the event's own. |
| PolicyEvents.ViolationMessages | domain/policy_validation.go:42-49 | One message per violation, in order. |
| Domain.ParametersMap | validation/opa_validation.go:91 | The defaults map holds exactly the declared names, each with the value of a declaration of that name. |
| Domain.EntityObjectRef | domain/policy_validation.go:81 | The involved object carries the entity's kind, name, namespace, uid, API version and resource version. |
| Domain.PolicyObjectRef | domain/policy_validation.go:82 | The related object is the policy's stored reference when it has one, and there is none otherwise. |
| Text.Split | domain/mutation.go:96 | Go's `strings.Split`: at least one part, no part contains the separator, and joining the parts gives back the input. |
| Text.SplitJoin | domain/mutation.go:96 | Split undoes Join when no part contains the separator. |
| Text.Lower | validation/opa_validation.go:111 | ASCII lower-casing: same length, each upper-case letter becomes the lower-case letter at the same alphabet position, and other characters are kept. |
| Text.ParseFormat | validation/opa_validation.go:125 | A number printed in base 2 to 16 parses back to itself. |
| Text.DecimalDigits | validation/opa_validation.go:125 | `%d` prints decimal digits only. |
| Text.FormatDigits | domain/policy_validation.go:88 | A number printed in a base uses only that base's digits, has no leading zero unless it is 0, and 0 prints as "0". |

## Left out

- Concurrency in `Validate`: the goroutines, the 25-slot semaphore, the channels and the wait groups. The model is a sequential loop. The result order is not promised, so `Validate` states its results as multisets.
- The OPA library (`opa.Parse`, `EvalGateKeeperCompliant`, `OPAError.GetDetails`) is external. It is the `Engine` parameter. The query string `violation` the source passes to the evaluator is not modelled: the abstract engine evaluates a policy's code directly.
- `matchEntity`, `GetParametersMap` and `ObjectRef` are defined outside the modelled files, so each is modelled from how the core uses it. Matching is a parameter. The defaults map is a fold in which a later declaration of a name wins. `ObjectRef` copies the entity's identity and the policy's reference.
- Validation.Validate: errors are a list of policy ids and causes, not the wrapped multierror text, and the failure's kind/name are the entity's. The text of the source-fetch errors is kept as their cause only.
- `uuid.NewV4()` and `time.Now()`: a result's id is the empty string, and the time is a `now` parameter in nanoseconds.
- `writeToSinks`, the `writeCompliance` flag, the sinks and every `logger` call are I/O and are not modelled.
- The alias between the copied policy's parameter slice and the fetched policy list, through which the source's override writes also reach the shared backing array, is not modelled. The recorded policy is a fresh value.
- The `Details` field of `PolicyValidation` is never set by the core and is not modelled.
- JSON and YAML serialisation (`json.Marshal`, `yaml.Unmarshal`, `MarshalJSON`): the manifest is the `Value` tree. `Old()` returns that tree as loaded and `Mutated()` returns the current tree, not bytes. The marshalling errors that `NewMutationResult` can return are therefore not modelled.
- Mutation.Write: kyaml's `LookupCreate` may leave intermediate maps it created when a later step fails. The model leaves the document unchanged on every failed lookup. kyaml's special components (`-`, `*`, `[k=v]`, signed indexes) are not modelled: a component of decimal digits is an index and every other component is a field name.
- Mutation.ApplyIdempotent: idempotence is proved per occurrence, and for the label by `WithLabelIdempotent`. A second `Mutate` of a whole list of occurrences on the patched document is not proved to change nothing. A later occurrence's write can make an earlier occurrence's path resolve, or stop it resolving, and the model has no theory of overlapping writes to cover that.
- `Policy.Reference` is an untyped field in the source: the tests store an `ObjectReference` value there, while `FromEvent` stores the event's `*ObjectReference` pointer. The model keeps an optional `ObjectReference` in both cases, so that change from value to pointer is not represented.
- Mutation.Coerce: the float64 conversion of a `json.Number` is floating point. The model only records that the value becomes a number with the same literal.
- Mutation.WithLabel: labels that are not strings are dropped when the labels are written back, and a document whose `metadata` is not a map is left unlabelled.
- Text.Lower: only ASCII letters are lower-cased. Go's `strings.ToLower` also folds other Unicode letters.
- The order of map keys, both in the parameter maps and in the event annotations, is not observable in the model.

