/** The mutation engine of domain/mutation.go: it parses each occurrence's
    violating key into a path, writes the recommended value there in the
    manifest tree, and labels the manifest once something was written. */
module Mutation {
  import opened Domain
  import Text

  const MutatedLabel := "pac.weave.works/mutated"

  // ---------------------------------------------------------------------
  // Key paths: `a.b[0].c` becomes ["a", "b", "0", "c"].
  // ---------------------------------------------------------------------

  /** Length of the longest prefix of letters and digits. */
  function AlnumRun(s: string): (n: nat)
    ensures n <= |s|
    ensures forall i :: 0 <= i < n ==> Text.IsAlnum(s[i])
    ensures n < |s| ==> !Text.IsAlnum(s[n])
    decreases |s|
  {
    if s == [] || !Text.IsAlnum(s[0]) then 0 else 1 + AlnumRun(s[1..])
  }

  /** Length of the longest prefix of decimal digits. */
  function DigitRun(s: string): (n: nat)
    ensures n <= |s|
    ensures forall i :: 0 <= i < n ==> Text.IsDigit(s[i])
    ensures n < |s| ==> !Text.IsDigit(s[n])
    decreases |s|
  {
    if s == [] || !Text.IsDigit(s[0]) then 0 else 1 + DigitRun(s[1..])
  }

  /** `part` begins with `name[idx]`, a non-empty run of letters and digits
      followed by a bracketed non-empty run of digits. */
  predicate IndexedForm(part: string, name: string, idx: string)
  {
    && |name| >= 1 && Text.AllAlnum(name)
    && |idx| >= 1 && Text.AllDigits(idx)
    && |name| + |idx| + 2 <= |part|
    && part[..|name| + |idx| + 2] == name + "[" + idx + "]"
  }

  /** The pattern ^([a-zA-Z0-9]+)\[([0-9]+)\] applied to one part: its two
      groups when it matches. Only the start is anchored. */
  function MatchIndexed(part: string): Option<(string, string)>
  {
    var n := AlnumRun(part);
    if n == 0 || n >= |part| || part[n] != '[' then None
    else
      var rest := part[n + 1..];
      var m := DigitRun(rest);
      if m == 0 || m >= |rest| || rest[m] != ']' then None
      else Some((part[..n], rest[..m]))
  }

  /** The pattern matches exactly the parts that begin with `name[idx]`, and
      then yields that name and index. */
  lemma MatchIndexedIff(part: string, name: string, idx: string)
    ensures MatchIndexed(part) == Some((name, idx)) <==> IndexedForm(part, name, idx)
  {
    if MatchIndexed(part) == Some((name, idx)) {
      MatchIndexedSound(part, name, idx);
    }
    if IndexedForm(part, name, idx) {
      MatchIndexedComplete(part, name, idx);
    }
  }

  lemma MatchIndexedSound(part: string, name: string, idx: string)
    requires MatchIndexed(part) == Some((name, idx))
    ensures IndexedForm(part, name, idx)
  {
    var n := AlnumRun(part);
    {
      var rest := part[n + 1..];
      var m := DigitRun(rest);
      assert name == part[..n] && idx == rest[..m];
      var w := name + "[" + idx + "]";
      assert |w| == n + m + 2;
      forall k | 0 <= k < n + m + 2 ensures part[k] == w[k] {
        if k < n {
        } else if k == n {
        } else if k < n + 1 + m {
          assert part[k] == rest[k - n - 1];
        } else {
          assert part[k] == rest[m];
        }
      }
      assert part[..n + m + 2] == w;
    }
  }

  lemma MatchIndexedComplete(part: string, name: string, idx: string)
    requires IndexedForm(part, name, idx)
    ensures MatchIndexed(part) == Some((name, idx))
  {
    var n := |name|;
    var m := |idx|;
    PartShape(part, name, idx);
    AlnumRunExact(part, n);
    var rest := part[n + 1..];
    forall k | 0 <= k < m ensures rest[k] == idx[k] { assert rest[k] == part[n + 1 + k]; }
    assert rest[m] == ']';
    DigitRunExact(rest, m);
    assert part[..n] == name;
    assert rest[..m] == idx;
  }

  lemma {:induction false} AlnumRunExact(s: string, n: nat)
    requires n < |s| && !Text.IsAlnum(s[n])
    requires forall k :: 0 <= k < n ==> Text.IsAlnum(s[k])
    ensures AlnumRun(s) == n
    decreases n
  {
    if n > 0 {
      assert Text.IsAlnum(s[0]);
      AlnumRunExact(s[1..], n - 1);
    }
  }

  lemma {:induction false} DigitRunExact(s: string, n: nat)
    requires n < |s| && !Text.IsDigit(s[n])
    requires forall k :: 0 <= k < n ==> Text.IsDigit(s[k])
    ensures DigitRun(s) == n
    decreases n
  {
    if n > 0 {
      assert Text.IsDigit(s[0]);
      DigitRunExact(s[1..], n - 1);
    }
  }

  /** A part that begins with `name[idx]`, character by character. */
  lemma PartShape(part: string, name: string, idx: string)
    requires IndexedForm(part, name, idx)
    ensures forall k :: 0 <= k < |name| ==> part[k] == name[k]
    ensures part[|name|] == '['
    ensures forall k :: 0 <= k < |idx| ==> part[|name| + 1 + k] == idx[k]
    ensures part[|name| + 1 + |idx|] == ']'
  {
    var w := name + "[" + idx + "]";
    assert part[..|w|] == w;
    forall k | 0 <= k < |name| ensures part[k] == name[k] {
      assert part[k] == part[..|w|][k] == w[k];
    }
    assert part[|name|] == part[..|w|][|name|] == w[|name|];
    forall k | 0 <= k < |idx| ensures part[|name| + 1 + k] == idx[k] {
      assert part[|name| + 1 + k] == part[..|w|][|name| + 1 + k] == w[|name| + 1 + k];
    }
    assert part[|name| + 1 + |idx|] == part[..|w|][|name| + 1 + |idx|] == w[|name| + 1 + |idx|];
  }

  /** The components one dot-separated part contributes. */
  function PartKeys(part: string): seq<string>
  {
    match MatchIndexed(part)
    case Some((name, idx)) => [name, idx]
    case None => [part]
  }

  function KeysOf(parts: seq<string>): seq<string>
    decreases |parts|
  {
    if parts == [] then [] else PartKeys(parts[0]) + KeysOf(parts[1..])
  }

  /** parseKeyPath: split on dots, and expand each `name[idx]` part. A path
      yields at least one component per dot-separated part and at most two,
      and no component contains a dot. */
  function ParseKeyPath(path: string): (keys: seq<string>)
    ensures |Text.Split(path, '.')| <= |keys| <= 2 * |Text.Split(path, '.')|
    ensures forall i :: 0 <= i < |keys| ==> '.' !in keys[i]
  {
    KeysOfBounds(Text.Split(path, '.'));
    KeysOf(Text.Split(path, '.'))
  }

  /** Each part contributes one or two components, none containing the
      separator if the part does not. */
  lemma {:induction false} KeysOfBounds(parts: seq<string>)
    requires forall i :: 0 <= i < |parts| ==> '.' !in parts[i]
    ensures |parts| <= |KeysOf(parts)| <= 2 * |parts|
    ensures forall i :: 0 <= i < |KeysOf(parts)| ==> '.' !in KeysOf(parts)[i]
    decreases |parts|
  {
    if parts != [] {
      KeysOfBounds(parts[1..]);
      var p := parts[0];
      match MatchIndexed(p)
      case Some((name, idx)) =>
        MatchIndexedIff(p, name, idx);
        assert '.' !in name by {
          forall k | 0 <= k < |name| ensures name[k] != '.' { assert Text.IsAlnum(name[k]); }
        }
        assert '.' !in idx by {
          forall k | 0 <= k < |idx| ensures idx[k] != '.' { assert Text.IsDigit(idx[k]); }
        }
      case None =>
    }
  }

  /** Parts without a bracket are kept verbatim. */
  lemma {:induction false} KeysOfPlain(parts: seq<string>)
    requires forall i :: 0 <= i < |parts| ==> '[' !in parts[i]
    ensures KeysOf(parts) == parts
    decreases |parts|
  {
    if parts != [] {
      KeysOfPlain(parts[1..]);
      if MatchIndexed(parts[0]).Some? {
        assert false;
      }
    }
  }

  /** A path without brackets parses into its dot-separated parts, which
      join back into the path. */
  lemma ParseKeyPathPlain(path: string)
    requires '[' !in path
    ensures ParseKeyPath(path) == Text.Split(path, '.')
    ensures |ParseKeyPath(path)| >= 1 && Text.Join(ParseKeyPath(path), '.') == path
  {
    var parts := Text.Split(path, '.');
    forall i | 0 <= i < |parts| ensures '[' !in parts[i] {
      if '[' in parts[i] {
        Text.JoinContains(parts, '.', i, '[');
      }
    }
    KeysOfPlain(parts);
  }

  /** Text after the first closing bracket of a part is dropped. */
  lemma ParseKeyPathDropsSuffix()
    ensures ParseKeyPath("a[0]b") == ["a", "0"]
  {
    var p := "a[0]b";
    assert '.' !in p;
    Text.SplitNoSep(p, '.');
    assert p[..4] == "a" + "[" + "0" + "]";
    assert IndexedForm(p, "a", "0");
    MatchIndexedIff(p, "a", "0");
    assert PartKeys(p) == ["a", "0"];
    assert KeysOf([p]) == PartKeys(p) + KeysOf([]);
  }

  // ---------------------------------------------------------------------
  // The document tree: lookup, and lookup-or-create followed by a write.
  // ---------------------------------------------------------------------

  /** A component that addresses a list element: non-empty decimal digits. */
  predicate IsIndex(key: string) { |key| >= 1 && Text.AllDigits(key) }

  function IndexOf(key: string): nat { Text.ParseNat(key, 10) }

  /** The node a path addresses, if every step exists. */
  function Get(doc: Value, path: seq<string>): Option<Value>
    decreases |path|
  {
    if path == [] then Some(doc)
    else if IsIndex(path[0]) then
      if doc.List? && IndexOf(path[0]) < |doc.items| then Get(doc.items[IndexOf(path[0])], path[1..]) else None
    else if doc.Object? && path[0] in doc.fields then Get(doc.fields[path[0]], path[1..])
    else None
  }

  /** What resolving a path for writing gives. */
  datatype Located = Written(doc: Value) | NotFound | LookupFailed

  /** The empty node created for a missing field: a list when the next
      component is an index, a map otherwise. */
  function EmptyFor(rest: seq<string>): Value
  {
    if rest != [] && IsIndex(rest[0]) then List([]) else Object(map[])
  }

  /** Resolve `path` in `doc`, creating missing map fields on the way, and
      put `v` at the node reached. A field step on a non-map or an index step
      on a non-list fails; an index past the end of a list is not found. */
  function Write(doc: Value, path: seq<string>, v: Value): (r: Located)
    ensures r.Written? ==> Get(r.doc, path) == Some(v)
    ensures r.Written? && path != [] && doc.Object? ==>
              r.doc.Object? && r.doc.fields.Keys == doc.fields.Keys + {path[0]}
              && forall k :: k in doc.fields && k != path[0] ==> r.doc.fields[k] == doc.fields[k]
    ensures r.Written? && path != [] && doc.List? ==>
              r.doc.List? && |r.doc.items| == |doc.items|
              && forall j :: 0 <= j < |doc.items| && j != IndexOf(path[0]) ==> r.doc.items[j] == doc.items[j]
    decreases |path|
  {
    if path == [] then Written(v)
    else
      var key := path[0];
      if IsIndex(key) then
        if !doc.List? then LookupFailed
        else if IndexOf(key) >= |doc.items| then NotFound
        else
          match Write(doc.items[IndexOf(key)], path[1..], v)
          case Written(c) => Written(List(doc.items[IndexOf(key) := c]))
          case NotFound => NotFound
          case LookupFailed => LookupFailed
      else if !doc.Object? then LookupFailed
      else
        var child := if key in doc.fields then doc.fields[key] else EmptyFor(path[1..]);
        match Write(child, path[1..], v)
        case Written(c) => Written(Object(doc.fields[key := c]))
        case NotFound => NotFound
        case LookupFailed => LookupFailed
  }

  /** No component of the path addresses a list element. */
  predicate NoIndex(path: seq<string>)
  {
    forall i :: 0 <= i < |path| ==> !IsIndex(path[i])
  }

  /** The path can be followed for writing: an index step needs a list
      holding that element, a field step needs a map, and past a missing
      field only field steps can follow, since what is created there is
      empty. */
  predicate Resolves(doc: Value, path: seq<string>)
    decreases |path|
  {
    if path == [] then true
    else if IsIndex(path[0]) then
      doc.List? && IndexOf(path[0]) < |doc.items| && Resolves(doc.items[IndexOf(path[0])], path[1..])
    else
      doc.Object? && (if path[0] in doc.fields then Resolves(doc.fields[path[0]], path[1..]) else NoIndex(path[1..]))
  }

  /** The node created for a missing field can be followed exactly by paths
      of field steps. */
  lemma FreshResolves(rest: seq<string>)
    ensures Resolves(EmptyFor(rest), rest) <==> NoIndex(rest)
  {
    if rest != [] && !IsIndex(rest[0]) {
      assert NoIndex(rest) <==> NoIndex(rest[1..]) by {
        if NoIndex(rest[1..]) {
          forall i | 0 <= i < |rest| ensures !IsIndex(rest[i]) {
            if i > 0 { assert rest[i] == rest[1..][i - 1]; }
          }
        }
      }
    }
  }

  /** A write succeeds exactly when its path resolves. */
  lemma {:induction false} WriteSucceedsIff(doc: Value, path: seq<string>, v: Value)
    ensures Write(doc, path, v).Written? <==> Resolves(doc, path)
    decreases |path|
  {
    if path != [] {
      var key := path[0];
      if IsIndex(key) {
        if doc.List? && IndexOf(key) < |doc.items| {
          WriteSucceedsIff(doc.items[IndexOf(key)], path[1..], v);
        }
      } else if doc.Object? {
        if key in doc.fields {
          WriteSucceedsIff(doc.fields[key], path[1..], v);
        } else {
          WriteSucceedsIff(EmptyFor(path[1..]), path[1..], v);
          FreshResolves(path[1..]);
        }
      }
    }
  }

  /** Every path that already leads to a node resolves. */
  lemma {:induction false} GetResolves(doc: Value, path: seq<string>)
    requires Get(doc, path).Some?
    ensures Resolves(doc, path)
    decreases |path|
  {
    if path != [] {
      if IsIndex(path[0]) {
        GetResolves(doc.items[IndexOf(path[0])], path[1..]);
      } else {
        GetResolves(doc.fields[path[0]], path[1..]);
      }
    }
  }

  /** Writing the value a path already holds changes nothing. */
  lemma {:induction false} WriteExisting(doc: Value, path: seq<string>, v: Value)
    requires Get(doc, path) == Some(v)
    ensures Write(doc, path, v) == Written(doc)
    decreases |path|
  {
    if path != [] {
      var key := path[0];
      if IsIndex(key) {
        var i := IndexOf(key);
        WriteExisting(doc.items[i], path[1..], v);
        assert doc.items[i := doc.items[i]] == doc.items;
      } else {
        WriteExisting(doc.fields[key], path[1..], v);
        assert doc.fields[key := doc.fields[key]] == doc.fields;
      }
    }
  }

  /** A second identical write is a no-op. */
  lemma WriteIdempotent(doc: Value, path: seq<string>, v: Value)
    requires Write(doc, path, v).Written?
    ensures Write(Write(doc, path, v).doc, path, v) == Write(doc, path, v)
  {
    WriteExisting(Write(doc, path, v).doc, path, v);
  }

  /** Two components address the same step. */
  predicate SameStep(a: string, b: string)
  {
    if IsIndex(a) then IsIndex(b) && IndexOf(a) == IndexOf(b) else !IsIndex(b) && a == b
  }

  /** Neither path is a prefix of the other: they part at some step. */
  predicate Diverge(p: seq<string>, q: seq<string>)
    decreases |p|
  {
    |p| > 0 && |q| > 0 && (!SameStep(p[0], q[0]) || Diverge(p[1..], q[1..]))
  }

  /** A write leaves every node off its own path as it was. */
  lemma {:induction false} WriteFrame(doc: Value, path: seq<string>, v: Value, q: seq<string>)
    requires Write(doc, path, v).Written?
    requires Diverge(path, q)
    ensures Get(Write(doc, path, v).doc, q) == Get(doc, q)
    decreases |path|
  {
    var d := Write(doc, path, v).doc;
    var key := path[0];
    if IsIndex(key) {
      var i := IndexOf(key);
      if SameStep(key, q[0]) {
        WriteFrame(doc.items[i], path[1..], v, q[1..]);
      }
    } else {
      var child := if key in doc.fields then doc.fields[key] else EmptyFor(path[1..]);
      if SameStep(key, q[0]) {
        WriteFrame(child, path[1..], v, q[1..]);
        if key !in doc.fields {
          assert Get(child, q[1..]) == None;
        }
      }
    }
  }

  /** Go's json.Number recommended values are written as numbers. */
  function Coerce(v: Value): (r: Value)
    ensures !r.JsonNumber?
    ensures v.JsonNumber? ==> r == Number(v.text)
    ensures !v.JsonNumber? ==> r == v
  {
    if v.JsonNumber? then Number(v.text) else v
  }

  // ---------------------------------------------------------------------
  // Labels.
  // ---------------------------------------------------------------------

  /** The string-valued entries of metadata.labels. */
  function Labels(doc: Value): map<string, string>
  {
    var labels := Field(Field(doc, "metadata"), "labels");
    if labels.Object? then map k | k in labels.fields && labels.fields[k].Str? :: labels.fields[k].s
    else map[]
  }

  /** The document is a map whose metadata, if present, is a map too. */
  predicate Labelable(doc: Value)
  {
    doc.Object? && ("metadata" in doc.fields ==> doc.fields["metadata"].Object?)
  }

  /** The entries of metadata, none when it is missing or not a map. */
  function MetaFields(doc: Value): map<string, Value>
  {
    var meta := Field(doc, "metadata");
    if meta.Object? then meta.fields else map[]
  }

  /** Read the labels, set `key`, and write all of them back to
      metadata.labels; every other top-level field and every other metadata
      field is kept, and a document without room for labels is unchanged. */
  function WithLabel(doc: Value, key: string, value: string): (r: Value)
    ensures Labelable(doc) ==> Labelable(r) && Labels(r) == Labels(doc)[key := value]
    ensures Labelable(doc) ==>
              (r.fields.Keys == doc.fields.Keys + {"metadata"}
               && forall k :: k in doc.fields && k != "metadata" ==> r.fields[k] == doc.fields[k])
    ensures Labelable(doc) ==>
              (MetaFields(r).Keys == MetaFields(doc).Keys + {"labels"}
               && forall k :: k in MetaFields(doc) && k != "labels" ==> MetaFields(r)[k] == MetaFields(doc)[k])
    ensures !Labelable(doc) ==> r == doc
  {
    if !Labelable(doc) then doc
    else
      var metaFields := MetaFields(doc);
      var labels := Labels(doc)[key := value];
      var labelsNode := Object(map k | k in labels :: Str(labels[k]));
      var r := Object(doc.fields["metadata" := Object(metaFields["labels" := labelsNode])]);
      assert Field(Field(r, "metadata"), "labels") == labelsNode;
      r
  }

  /** Labelling twice with the same key and value is labelling once, so a
      second Mutate that writes leaves the label as the first one set it. */
  lemma WithLabelIdempotent(doc: Value, key: string, value: string)
    ensures WithLabel(WithLabel(doc, key, value), key, value) == WithLabel(doc, key, value)
  {
    if Labelable(doc) {
      var r := WithLabel(doc, key, value);
      var labels := Labels(r)[key := value];
      assert labels == Labels(r);
      var labelsNode := Object(map k | k in labels :: Str(labels[k]));
      assert MetaFields(r)["labels" := labelsNode] == MetaFields(r);
    }
  }

  // ---------------------------------------------------------------------
  // The mutation of a batch of occurrences.
  // ---------------------------------------------------------------------

  /** An occurrence with both a violating key and a recommended value. */
  predicate Complete(o: Occurrence)
  {
    o.violatingKey.Some? && o.recommendedValue != Null
  }

  /** One occurrence applied to the document: the new document and whether
      a write happened. */
  function Apply(doc: Value, o: Occurrence): (r: (Value, bool))
    ensures r.1 <==> Complete(o) && Resolves(doc, ParseKeyPath(o.violatingKey.value))
    ensures r.1 ==> Get(r.0, ParseKeyPath(o.violatingKey.value)) == Some(Coerce(o.recommendedValue))
    ensures !r.1 ==> r.0 == doc
  {
    if !Complete(o) then (doc, false)
    else
      WriteSucceedsIff(doc, ParseKeyPath(o.violatingKey.value), Coerce(o.recommendedValue));
      match Write(doc, ParseKeyPath(o.violatingKey.value), Coerce(o.recommendedValue))
      case Written(d) => (d, true)
      case _ => (doc, false)
  }

  /** The occurrences applied in order: the final document and, per
      occurrence, whether its write happened. */
  function ApplyAll(doc: Value, occs: seq<Occurrence>): (r: (Value, seq<bool>))
    ensures |r.1| == |occs|
    decreases |occs|
  {
    if occs == [] then (doc, [])
    else
      var prev := ApplyAll(doc, occs[..|occs| - 1]);
      var step := Apply(prev.0, occs[|occs| - 1]);
      (step.0, prev.1 + [step.1])
  }

  /** Only complete occurrences are written, and a batch that writes
      nothing leaves the document as it was. */
  lemma ApplyAllWrites(doc: Value, occs: seq<Occurrence>)
    ensures forall i :: 0 <= i < |occs| && ApplyAll(doc, occs).1[i] ==> Complete(occs[i])
    ensures true !in ApplyAll(doc, occs).1 ==> ApplyAll(doc, occs).0 == doc
  {
    forall i | 0 <= i < |occs| && ApplyAll(doc, occs).1[i]
      ensures Complete(occs[i])
    {
      WrittenComplete(doc, occs, i);
    }
    NothingWritten(doc, occs);
  }

  lemma {:induction false} WrittenComplete(doc: Value, occs: seq<Occurrence>, i: nat)
    requires i < |occs| && ApplyAll(doc, occs).1[i]
    ensures Complete(occs[i])
    decreases |occs|
  {
    var init := occs[..|occs| - 1];
    var prev := ApplyAll(doc, init);
    if i < |init| {
      assert prev.1[i] == ApplyAll(doc, occs).1[i];
      WrittenComplete(doc, init, i);
    } else {
      assert Apply(prev.0, occs[i]).1;
    }
  }

  lemma {:induction false} NothingWritten(doc: Value, occs: seq<Occurrence>)
    ensures true !in ApplyAll(doc, occs).1 ==> ApplyAll(doc, occs).0 == doc
    decreases |occs|
  {
    if occs != [] && true !in ApplyAll(doc, occs).1 {
      var init := occs[..|occs| - 1];
      var prev := ApplyAll(doc, init);
      var step := Apply(prev.0, occs[|occs| - 1]);
      assert ApplyAll(doc, occs).1 == prev.1 + [step.1];
      assert true !in prev.1 && !step.1;
      NothingWritten(doc, init);
    }
  }

  /** The occurrences with the `mutated` flag raised where a write happened. */
  function Mark(occs: seq<Occurrence>, written: seq<bool>): (r: seq<Occurrence>)
    requires |written| == |occs|
  {
    seq(|occs|, i requires 0 <= i < |occs| => if written[i] then occs[i].(mutated := true) else occs[i])
  }

  /** Marking keeps every occurrence in place, changes nothing but the flag,
      never lowers it, and raises it only on complete occurrences that were
      written. */
  lemma MarkOnlyRaisesFlags(doc: Value, occs: seq<Occurrence>)
    ensures var written := ApplyAll(doc, occs).1;
      var marked := Mark(occs, written);
      && |marked| == |occs|
      && (forall i :: 0 <= i < |occs| ==> marked[i] == occs[i].(mutated := marked[i].mutated))
      && (forall i :: 0 <= i < |occs| && occs[i].mutated ==> marked[i].mutated)
      && (forall i :: 0 <= i < |occs| && !occs[i].mutated && marked[i].mutated ==> Complete(occs[i]) && written[i])
      && (forall i :: 0 <= i < |occs| && !Complete(occs[i]) ==> marked[i] == occs[i])
  {
    ApplyAllWrites(doc, occs);
  }

  /** Applying the same occurrence to a document it was just applied to
      changes nothing and succeeds again. */
  lemma ApplyIdempotent(doc: Value, o: Occurrence)
    ensures var (d1, w1) := Apply(doc, o);
      Apply(d1, o) == (d1, w1)
  {
    if Complete(o) {
      var path := ParseKeyPath(o.violatingKey.value);
      var v := Coerce(o.recommendedValue);
      if Write(doc, path, v).Written? {
        WriteIdempotent(doc, path, v);
      }
    }
  }

  /** The fold over one more occurrence applies it to the fold so far. */
  lemma ApplyAllStep(doc: Value, occs: seq<Occurrence>, i: nat)
    requires i < |occs|
    ensures var (d, written) := ApplyAll(doc, occs[..i]);
      var (d2, w) := Apply(d, occs[i]);
      ApplyAll(doc, occs[..i + 1]) == (d2, written + [w])
  {
    assert occs[..i + 1][..i] == occs[..i];
  }

  /** Each occurrence's flag is whether applying it to the document left by
      the occurrences before it wrote something. */
  lemma {:induction false} ApplyAllFlags(doc: Value, occs: seq<Occurrence>)
    ensures forall i :: 0 <= i < |occs| ==>
      ApplyAll(doc, occs).1[i] == Apply(ApplyAll(doc, occs[..i]).0, occs[i]).1
    decreases |occs|
  {
    if occs != [] {
      var init := occs[..|occs| - 1];
      var prev := ApplyAll(doc, init);
      var flags := ApplyAll(doc, occs).1;
      assert flags == prev.1 + [Apply(prev.0, occs[|occs| - 1]).1];
      ApplyAllFlags(doc, init);
      forall i | 0 <= i < |occs|
        ensures flags[i] == Apply(ApplyAll(doc, occs[..i]).0, occs[i]).1
      {
        if i < |init| {
          assert occs[..i] == init[..i];
          assert flags[i] == prev.1[i];
        } else {
          assert occs[..i] == init;
        }
      }
    }
  }

  /** The state of a loaded manifest: what it was at load time and what it
      is now. */
  class MutationResult {
    /** The manifest as captured at load time (standing for its bytes). */
    const raw: Value
    /** The editable document. */
    var node: Value

    /** NewMutationResult: both views start as the entity's manifest. */
    constructor (entity: Entity)
      ensures Old() == entity.manifest && node == entity.manifest
    {
      raw := entity.manifest;
      node := entity.manifest;
    }

    /** The manifest as loaded, whatever mutations followed. */
    function Old(): (m: Value)
      ensures m == raw
    {
      raw
    }

    /** The current document. */
    function Mutated(): (m: Value)
      reads this
      ensures m == node
    {
      node
    }

    /** One iteration of Mutate: write occurrence `i` if it is complete and
        its path resolves, and flag it when written. */
    method MutateAt(occurrences: array<Occurrence>, i: nat) returns (w: bool)
      requires i < occurrences.Length
      modifies this, occurrences
      ensures (node, w) == Apply(old(node), old(occurrences[i]))
      ensures occurrences[i] == (if w then old(occurrences[i]).(mutated := true) else old(occurrences[i]))
      ensures forall j :: 0 <= j < occurrences.Length && j != i ==> occurrences[j] == old(occurrences[j])
    {
      var o := occurrences[i];
      w := false;
      if o.violatingKey.Some? && o.recommendedValue != Null {
        var path := ParseKeyPath(o.violatingKey.value);
        var found := Write(node, path, Coerce(o.recommendedValue));
        if found.Written? {
          node := found.doc;
          occurrences[i] := o.(mutated := true);
          w := true;
        }
      }
    }

    /** Mutate: apply every complete occurrence in order, skip the others
        and the ones whose path does not resolve, flag the ones written, and
        label the document if any was. The occurrences come back in the
        same array with no error. */
    method Mutate(occurrences: array<Occurrence>) returns (result: array<Occurrence>, err: Option<string>)
      modifies this, occurrences
      ensures result == occurrences && err == None
      ensures var (doc, written) := ApplyAll(old(node), old(occurrences[..]));
        && occurrences[..] == Mark(old(occurrences[..]), written)
        && node == (if true in written then WithLabel(doc, MutatedLabel, "") else doc)
      ensures var (doc, written) := ApplyAll(old(node), old(occurrences[..]));
        && (true in written && Labelable(doc) ==> MutatedLabel in Labels(node) && Labels(node)[MutatedLabel] == "")
        && (true !in written ==> node == old(node))
    {
      ghost var occs0 := occurrences[..];
      ghost var doc0 := node;
      ghost var written: seq<bool> := [];
      var mutated := false;
      var i := 0;
      while i < occurrences.Length
        invariant 0 <= i <= occurrences.Length
        invariant (node, written) == ApplyAll(doc0, occs0[..i])
        invariant mutated == (true in written)
        invariant forall j :: 0 <= j < i ==>
          occurrences[j] == (if written[j] then occs0[j].(mutated := true) else occs0[j])
        invariant forall j :: i <= j < occurrences.Length ==> occurrences[j] == occs0[j]
      {
        var w := MutateAt(occurrences, i);
        if w {
          mutated := true;
        }
        ApplyAllStep(doc0, occs0, i);
        written := written + [w];
        i := i + 1;
      }
      assert occs0[..i] == occs0;
      assert occurrences[..] == Mark(occs0, written);
      ApplyAllWrites(doc0, occs0);
      if mutated {
        node := WithLabel(node, MutatedLabel, "");
      }
      result := occurrences;
      err := None;
    }
  }
}
