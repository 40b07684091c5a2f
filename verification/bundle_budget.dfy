/** Which bundle values are accepted, stated without counters, and what that has to do with the
    running budgets. */
module BundleBudget {
  import opened Wrappers
  import opened PythonText
  import opened BundleValues

  // ---- Target metric values

  /** The bounds on one value that do not depend on where it stands. */
  predicate LeafFine(v: Value) {
    match v
    case Integer(n) => -INTEGER_MAX <= n <= INTEGER_MAX
    case Float(finite, _) => finite
    case Text(s) => Utf8Length(s).Some? && Utf8Length(s).value <= STRING_MAX_BYTES
    case _ => v.Null? || v.Boolean? || v.List? || v.Dict?
  }

  predicate LeavesFine(v: Value)
    decreases v
  {
    && LeafFine(v)
    && match v
       case List(items) => forall i | 0 <= i < |items| :: LeavesFine(items[i])
       case Dict(entries) =>
         forall i | 0 <= i < |entries| ::
           entries[i].key.Text? && LeafFine(entries[i].key) && LeavesFine(entries[i].item)
       case _ => true
  }

  function Deeper(a: nat, b: nat): nat {
    if a >= b then a else b
  }

  /** How deep the tree goes below its root; keys stand one level below their dictionary. */
  function Depth(v: Value): nat
    decreases v
  {
    match v
    case List(items) => if items == [] then 0 else 1 + ItemDepth(items)
    case Dict(entries) => if entries == [] then 0 else 1 + EntryDepth(entries)
    case _ => 0
  }

  function ItemDepth(items: seq<Value>): nat
    decreases items
  {
    if items == [] then 0 else Deeper(ItemDepth(items[..|items| - 1]), Depth(items[|items| - 1]))
  }

  function PairDepth(e: Entry): nat
    decreases e
  {
    Deeper(Depth(e.key), Depth(e.item))
  }

  function EntryDepth(entries: seq<Entry>): nat
    decreases entries
  {
    if entries == [] then 0 else Deeper(EntryDepth(entries[..|entries| - 1]), PairDepth(entries[|entries| - 1]))
  }

  /** A target metric value: bounded as a whole, with bounded leaves. */
  predicate ValidMetric(v: Value) {
    Nodes(v) <= ROOT_MAX_NODES && Depth(v) <= METRIC_MAX_DEPTH && LeavesFine(v)
  }

  // ---- Projections

  datatype Annotation =
    | AnyValue
    | OneOf(options: seq<Annotation>)
    | ManyOf(item: Annotation)
    | Exactly(parts: seq<Annotation>)
    | FloatType | TextType | IntegerType | BooleanType | NoneType
    | RecordType(kind: string)
    | Unsupported

  const CLOSURE := "AcceptedMeasurementClosure"

  function KindOf(v: Value): Option<string> {
    match v
    case Record(kind, _) => Some(kind)
    case Closure(_, _, _) => Some(CLOSURE)
    case _ => None
  }

  /** `_matches_annotation` */
  predicate Matches(v: Value, a: Annotation)
    decreases v, a
  {
    match a
    case AnyValue => true
    case OneOf(options) => exists i | 0 <= i < |options| :: Matches(v, options[i])
    case ManyOf(item) => v.Tuple? && forall i | 0 <= i < |v.items| :: Matches(v.items[i], item)
    case Exactly(parts) =>
      v.Tuple? && |v.items| == |parts| && forall i | 0 <= i < |parts| :: Matches(v.items[i], parts[i])
    case FloatType => v.Float?
    case TextType => v.Text?
    case IntegerType => v.Integer?
    case BooleanType => v.Boolean?
    case NoneType => v.Null?
    case RecordType(kind) => KindOf(v) == Some(kind)
    case Unsupported => false
  }

  /** The record types, those whose exact duplicates are refused, and their field annotations. */
  datatype Schema = Schema(canonical: set<string>, proofs: set<string>, hints: (string, string) -> Annotation)

  predicate InheritsPlanText(kind: string, name: string) {
    (kind == "ExperimentBrief" && name == "semantic_delta") || (kind == "CodeReviewScope" && name == "semantic_deltas")
  }

  predicate IsProof(schema: Schema, v: Value) {
    KindOf(v).Some? && KindOf(v).value in schema.proofs
  }

  predicate NoDuplicateProofs(schema: Schema, items: seq<Value>) {
    forall i, j | 0 <= i < j < |items| :: IsProof(schema, items[j]) ==> items[i] != items[j]
  }

  predicate TextFits(s: Str, planText: bool) {
    && Utf8Length(s).Some?
    && (if planText then |s| <= PLAN_TEXT_MAX_CHARS else Utf8Length(s).value <= STRING_MAX_BYTES)
  }

  /** Everything that a visit checks apart from the two budgets. */
  predicate Shape(schema: Schema, v: Value, metric: bool, planText: bool)
    decreases v
  {
    match v
    case Null => true
    case Boolean(_) => true
    case Integer(n) => -INTEGER_MAX <= n <= INTEGER_MAX
    case Float(finite, _) => finite
    case Text(s) => TextFits(s, planText)
    case List(items) => metric && forall i | 0 <= i < |items| :: Shape(schema, items[i], true, false)
    case Dict(entries) =>
      metric && forall i | 0 <= i < |entries| ::
          Shape(schema, entries[i].key, true, false) && Shape(schema, entries[i].item, true, false)
    case Tuple(items) =>
      && |items| <= TUPLE_MAX_ITEMS && NoDuplicateProofs(schema, items)
      && forall i | 0 <= i < |items| :: Shape(schema, items[i], metric, planText)
    case Record(kind, fields) =>
      kind in schema.canonical && forall i | 0 <= i < |fields| :: FieldShape(schema, kind, fields[i])
    case Closure(fields, metrics, receipt) =>
      && CLOSURE in schema.canonical
      && metrics.Tuple? && (forall i | 0 <= i < |metrics.items| :: ValidMetric(metrics.items[i]))
      && Shape(schema, metrics, true, false)
      && Matches(receipt, schema.hints(CLOSURE, "root_completion_receipt")) && Shape(schema, receipt, false, false)
      && forall i | 0 <= i < |fields| :: FieldShape(schema, CLOSURE, fields[i])
    case Foreign => false
  }

  predicate FieldShape(schema: Schema, kind: string, f: Field)
    decreases f
  {
    Matches(f.value, schema.hints(kind, f.name)) && Shape(schema, f.value, false, InheritsPlanText(kind, f.name))
  }

  /** A projection within its budget, with no mention of running scalar bytes. */
  predicate Accepted(schema: Schema, v: Value, maxBytes: int) {
    && 1 <= maxBytes <= ROOT_MAX_BYTES
    && Shape(schema, v, false, false) && Nodes(v) <= ROOT_MAX_NODES && Length(Plain(v)) <= maxBytes
  }

  // ---- Scalar bytes never exceed the canonical length

  lemma {:induction false} MetricScalarsFit(v: Value)
    requires LeavesFine(v)
    ensures Scalars(v) <= Length(v)
    decreases v
  {
    match v
    case List(items) =>
      MetricItemsFit(items);
    case Dict(entries) =>
      MetricEntriesFit(entries);
    case _ =>
  }

  lemma {:induction false} MetricItemsFit(items: seq<Value>)
    requires forall i | 0 <= i < |items| :: LeavesFine(items[i])
    ensures AllScalars(items) <= ItemsLength(items)
    decreases items
  {
    if items != [] {
      MetricItemsFit(items[..|items| - 1]);
      MetricScalarsFit(items[|items| - 1]);
    }
  }

  lemma {:induction false} MetricEntriesFit(entries: seq<Entry>)
    requires forall i | 0 <= i < |entries| :: entries[i].key.Text? && LeavesFine(entries[i].item)
    ensures EntryScalars(entries) <= EntriesLength(entries)
    decreases entries
  {
    if entries != [] {
      MetricEntriesFit(entries[..|entries| - 1]);
      MetricPairFits(entries[|entries| - 1]);
    }
  }

  lemma {:induction false} MetricPairFits(e: Entry)
    requires e.key.Text? && LeavesFine(e.item)
    ensures PairScalars(e) <= PairLength(e)
    decreases e
  {
    MetricScalarsFit(e.item);
  }

  lemma {:induction false} EntriesLengthOfBoth(a: seq<Entry>, b: seq<Entry>)
    ensures EntriesLength(a) + EntriesLength(b) <= EntriesLength(a + b)
    decreases |b|
  {
    if b == [] {
      assert a + b == a;
    } else {
      var last := |b| - 1;
      EntriesLengthOfBoth(a, b[..last]);
      assert (a + b)[..|a + b| - 1] == a + b[..last];
    }
  }

  lemma OneEntryLength(e: Entry)
    ensures EntriesLength([e]) == PairLength(e)
  {
    assert [e][..0] == [];
  }

  lemma SpecialNameIsLong()
    ensures TextLength(Points("metric_values")) >= 4
  {
    var s := Points("metric_values");
    assert TextLength(s) == TextLength(s[..12]) + EscapedBytes(s[12]);
    assert TextLength(s[..12]) == TextLength(s[..12][..11]) + EscapedBytes(s[..12][11]);
  }

  /** The bytes that a visit counts are at most the canonical length of what it visits, although it
      also counts a root completion receipt that the projection drops. */
  lemma {:induction false} ScalarsFitTheProjection(schema: Schema, v: Value, planText: bool)
    requires Shape(schema, v, false, planText)
    ensures Scalars(v) <= Length(Plain(v))
    decreases v
  {
    hide TextLength, IntegerLength, TextFits, Matches, Nodes, Depth, EntriesLength, ItemsLength, NoDuplicateProofs;
    match v
    case Tuple(items) =>
      ItemsFitTheProjection(schema, items, planText);
    case Record(kind, fields) =>
      FieldsFitTheProjection(schema, kind, fields);
    case Closure(fields, metrics, receipt) =>
      FieldsFitTheProjection(schema, CLOSURE, fields);
      MetricItemsFit(metrics.items);
      ScalarsFitTheProjection(schema, receipt, false);
      ClosureFits(v);
    case _ =>
  }

  lemma ClosureFits(v: Value)
    requires v.Closure? && v.metrics.Tuple?
    requires FieldScalars(v.fields) <= EntriesLength(PlainFields(v.fields))
    requires AllScalars(v.metrics.items) <= ItemsLength(v.metrics.items)
    requires Scalars(v.receipt) <= Length(Plain(v.receipt))
    ensures Scalars(v) <= Length(Plain(v))
  {
    hide TextLength;
    SpecialNameIsLong();
    var metrics := [Entry(Text(Points("metric_values")), List(v.metrics.items))];
    var receipt := if v.receipt.Null? then []
                   else [Entry(Text(Points("root_completion_receipt")), Plain(v.receipt))];
    OneEntryLength(metrics[0]);
    if !v.receipt.Null? {
      OneEntryLength(receipt[0]);
    }
    EntriesLengthOfBoth(metrics, receipt);
    EntriesLengthOfBoth(PlainFields(v.fields), metrics + receipt);
  }

  lemma {:induction false} ItemsFitTheProjection(schema: Schema, items: seq<Value>, planText: bool)
    requires forall i | 0 <= i < |items| :: Shape(schema, items[i], false, planText)
    ensures AllScalars(items) <= ItemsLength(PlainItems(items)) && |PlainItems(items)| == |items|
    decreases items
  {
    if items != [] {
      ItemsFitTheProjection(schema, items[..|items| - 1], planText);
      ScalarsFitTheProjection(schema, items[|items| - 1], planText);
      assert PlainItems(items)[..|items| - 1] == PlainItems(items[..|items| - 1]);
    }
  }

  lemma {:induction false} FieldsFitTheProjection(schema: Schema, kind: string, fields: seq<Field>)
    requires forall i | 0 <= i < |fields| :: FieldShape(schema, kind, fields[i])
    ensures FieldScalars(fields) <= EntriesLength(PlainFields(fields)) && |PlainFields(fields)| == |fields|
    decreases fields
  {
    if fields != [] {
      FieldsFitTheProjection(schema, kind, fields[..|fields| - 1]);
      FieldFitsTheProjection(schema, kind, fields[|fields| - 1]);
      assert PlainFields(fields)[..|fields| - 1] == PlainFields(fields[..|fields| - 1]);
    }
  }

  lemma {:induction false} FieldFitsTheProjection(schema: Schema, kind: string, f: Field)
    requires FieldShape(schema, kind, f)
    ensures Scalars(f.value) <= Length(Plain(f.value))
    decreases f
  {
    ScalarsFitTheProjection(schema, f.value, InheritsPlanText(kind, f.name));
  }

  /** The running byte budget never decides: a value of accepted shape whose canonical text fits the
      budget stays within it at every moment of the visit. */
  lemma RunningBytesNeverDecide(schema: Schema, v: Value, maxBytes: int)
    requires 1 <= maxBytes <= ROOT_MAX_BYTES
    ensures Accepted(schema, v, maxBytes)
       <==> Shape(schema, v, false, false) && Nodes(v) <= ROOT_MAX_NODES
            && Scalars(v) <= maxBytes && Length(Plain(v)) <= maxBytes
  {
    if Shape(schema, v, false, false) {
      ScalarsFitTheProjection(schema, v, false);
    }
  }
}
