/** The Bundle-facing records that the gates and the exhaustion evidence share, as values, and the
    schema of the records that are projected here. */
module BundleRecords {
  import opened PythonText
  import opened BundleValues
  import opened BundleBudget

  datatype Binding = Binding(slot: Str, revision: Str)
  datatype Route = Route(ref: Str, operations: seq<Str>)
  datatype Proof = Proof(ref: Str, subject: Str, verified: bool, currentnessKnown: bool, current: bool)
  datatype Content = Content(subject: Str, hash: Str)
  datatype Reconciliation = Reconciliation(operation: Str, receipt: Proof, outcome: Str)

  function Slots(bindings: seq<Binding>): seq<Str> {
    seq(|bindings|, i requires 0 <= i < |bindings| => bindings[i].slot)
  }

  // ---- Records as values; the fields in the order of their names

  const BINDING_NAMES := ["implementation_revision_ref", "semantic_slot"]
  const ROUTE_NAMES := ["known_external_operation_refs", "route_ref"]
  const PROOF_NAMES := ["current", "currentness_known", "receipt_ref", "subject_ref", "verified"]
  const CONTENT_NAMES := ["content_hash_ref", "subject_ref"]
  const RECONCILIATION_NAMES := ["operation_ref", "outcome", "receipt"]

  function RecordOf(kind: string, names: seq<string>, items: seq<Value>): Value
    requires |names| == |items|
  {
    Record(kind, seq(|names|, i requires 0 <= i < |names| => Field(names[i], items[i])))
  }

  function Texts(refs: seq<Str>): seq<Value> {
    seq(|refs|, i requires 0 <= i < |refs| => Text(refs[i]))
  }

  function BindingValue(b: Binding): Value {
    RecordOf("HeldFixedBinding", BINDING_NAMES, [Text(b.revision), Text(b.slot)])
  }

  function BindingValues(bindings: seq<Binding>): Value {
    Tuple(seq(|bindings|, i requires 0 <= i < |bindings| => BindingValue(bindings[i])))
  }

  function RouteValue(r: Route): Value {
    RecordOf("RouteSpec", ROUTE_NAMES, [Tuple(Texts(r.operations)), Text(r.ref)])
  }

  function RouteValues(routes: seq<Route>): Value {
    Tuple(seq(|routes|, i requires 0 <= i < |routes| => RouteValue(routes[i])))
  }

  function ProofValue(p: Proof): Value {
    RecordOf("ReceiptProof", PROOF_NAMES,
             [Boolean(p.current), Boolean(p.currentnessKnown), Text(p.ref), Text(p.subject), Boolean(p.verified)])
  }

  function ContentValue(c: Content): Value {
    RecordOf("ContentBindingProof", CONTENT_NAMES, [Text(c.hash), Text(c.subject)])
  }

  function ReconciliationValue(r: Reconciliation): Value {
    RecordOf("ExternalOperationReconciliation", RECONCILIATION_NAMES,
             [Text(r.operation), Text(r.outcome), ProofValue(r.receipt)])
  }

  function ReconciliationValues(items: seq<Reconciliation>): Value {
    Tuple(seq(|items|, i requires 0 <= i < |items| => ReconciliationValue(items[i])))
  }

  // ---- The schema

  /** The record types that are projected in this model. */
  const KINDS := {
    "HeldFixedBinding", "RouteSpec", "ReceiptProof", "ContentBindingProof", "ExternalOperationReconciliation",
    "RouteDisposition", "ExperimentBrief", "FormalPlan", "TargetCandidate"}

  /** The declared types of their fields; a field name has one type in all of them. */
  function Declared(kind: string, name: string): Annotation {
    if name in {"known_external_operation_refs", "experiment_keys", "required_changes", "evidence_refs",
                "held_fixed_slots", "required_measurement_unit_keys", "measurement_unit_keys",
                "depends_on_labels", "direct_accepted_input_asset_refs"} then ManyOf(TextType)
    else if name == "external_reconciliations" then ManyOf(RecordType("ExternalOperationReconciliation"))
    else if name == "held_fixed_bindings" then ManyOf(RecordType("HeldFixedBinding"))
    else if name == "routes" then ManyOf(RecordType("RouteSpec"))
    else if name == "briefs" then ManyOf(RecordType("ExperimentBrief"))
    else if name in {"verified", "currentness_known", "current", "code_changed"} then BooleanType
    else if name in {"receipt", "acceptance_receipt"} then RecordType("ReceiptProof")
    else if name == "content_binding" then RecordType("ContentBindingProof")
    else TextType
  }

  /** `_DUPLICATE_SENSITIVE_TYPES` among them. */
  const PROOF_KINDS := {"ReceiptProof", "ContentBindingProof"}

  /** The schema has these record types, with these duplicate-sensitive ones. */
  ghost predicate Knows(schema: Schema) {
    && KINDS <= schema.canonical && schema.proofs * KINDS == PROOF_KINDS
    && forall kind, name | kind in KINDS :: schema.hints(kind, name) == Declared(kind, name)
  }

  /** The schema restricted to the record types of this model. */
  function RecordSchema(): Schema {
    Schema(KINDS, PROOF_KINDS, Declared)
  }

  lemma RefsAreTexts(kind: string)
    ensures Declared(kind, "operation_ref") == TextType && Declared(kind, "receipt_ref") == TextType
    ensures Declared(kind, "subject_ref") == TextType
  {
  }

  lemma OtherTexts(kind: string)
    ensures Declared(kind, "outcome") == TextType && Declared(kind, "semantic_slot") == TextType
    ensures Declared(kind, "implementation_revision_ref") == TextType
  {
  }

  lemma FlagsAreBooleans(kind: string)
    ensures Declared(kind, "verified") == BooleanType && Declared(kind, "currentness_known") == BooleanType
    ensures Declared(kind, "current") == BooleanType
  {
  }

  lemma ReceiptIsAProof(kind: string)
    ensures Declared(kind, "receipt") == RecordType("ReceiptProof")
  {
  }

  /** `validate_closed_bundle_projection` accepts the record. */
  predicate Projects(v: Value) {
    Accepted(RecordSchema(), v, ROOT_MAX_BYTES)
  }

  // ---- Checks on references and receipts

  /** `_require_ref` */
  predicate IsRef(s: Str) {
    !Blank(s) && Utf8Length(s).Some?
  }

  /** `validate_receipt_proof` */
  predicate Proves(p: Proof, subject: Str) {
    && Projects(ProofValue(p)) && !Blank(p.ref) && p.subject == subject
    && p.verified && p.currentnessKnown && p.current
  }
}
