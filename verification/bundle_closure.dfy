/** Accepted measurement closures: what the result sets ask of one before they count it.  The SHA-256
    of an aggregation is a parameter. */
module BundleClosures {
  import opened Wrappers
  import opened PythonText
  import opened BundleValues
  import opened BundleBudget
  import opened BundleRecords
  import opened BundleCoverage

  datatype InputBinding = InputBinding(ref: Str, subject: Str, inputs: seq<Str>, receipt: Proof)

  datatype CodeReview = CodeReview(
    codeChanged: bool, disposition: Str, candidate: Str, reviewed: Option<Str>, fixedBase: Option<Str>,
    diff: Option<Str>, review: Option<Str>, parentSession: Option<Str>, reviewerSession: Option<Str>,
    spawnEvidence: Option<Str>, unresolvedStandards: int, unresolvedSpec: int)

  datatype ResultReview = ResultReview(
    attempt: Str, metric: Str, manifest: Str, review: Str, parentSession: Str, reviewerSession: Str,
    spawnEvidence: Str, unresolved: int)

  datatype Part = Part(key: Str, protocol: Str)

  datatype Aggregation = Aggregation(protocol: Str, parts: seq<Str>, rule: Str, evidence: Content, receipt: Proof)

  /** `AcceptedMeasurementClosure` */
  datatype Measurement = Measurement(
    targetRef: Str, targetRun: Str, commitRef: Str, experimentKeys: seq<Str>, unit: Str, variantRun: Str,
    evaluation: Str, protocol: Str, attemptRef: Option<Str>, metricRef: Option<Str>, metrics: seq<Value>,
    manifest: Str, executionAttempt: Str, executionFence: Str, checkpoints: seq<Str>, revision: Str,
    bindings: seq<Binding>, provenance: seq<Str>, variantInput: InputBinding, attemptInput: Option<InputBinding>,
    assetReceipt: Proof, executionReceipt: Proof, measurementReceipt: Option<Proof>, commitReceipt: Proof,
    codeReview: Option<CodeReview>, resultReview: Option<ResultReview>, formallyAccepted: bool,
    currentnessKnown: bool, current: bool, rootReceipt: Option<Proof>, parts: seq<Part>,
    aggregation: Option<Aggregation>)
  {
    function Covered(): Coverage {
      Coverage(experimentKeys, unit, bindings)
    }
  }

  type AggregationHash = (Str, seq<Str>, Str) -> Str

  // ---- Closures as values

  const INPUT_NAMES := ["acceptance_receipt", "binding_ref", "input_refs", "subject_ref"]
  const CODE_REVIEW_NAMES := [
    "candidate_revision_ref", "code_changed", "diff_ref", "disposition", "fixed_base_ref", "review_parent_session_ref",
    "review_ref", "reviewed_revision_ref", "reviewer_session_ref", "reviewer_spawn_evidence_ref",
    "unresolved_spec_findings", "unresolved_standards_findings"]
  const RESULT_REVIEW_NAMES := [
    "review_parent_session_ref", "review_ref", "reviewed_asset_manifest_ref", "reviewed_evaluation_attempt_ref",
    "reviewed_metric_result_ref", "reviewer_session_ref", "reviewer_spawn_evidence_ref", "unresolved_findings"]
  const PART_NAMES := ["part_key", "protocol_version_ref"]
  const AGGREGATION_NAMES := [
    "aggregation_evidence_binding", "aggregation_evidence_receipt", "aggregation_rule_ref", "part_keys",
    "protocol_version_ref"]
  const CLOSURE_NAMES := [
    "ar_execution_receipt", "asset_manifest_ref", "checkpoint_artifact_refs", "code_review", "current",
    "currentness_known", "evaluation_attempt_input_binding", "evaluation_attempt_ref", "evaluation_ref",
    "execution_attempt_ref", "execution_fence_ref", "experiment_keys", "formal_measurement_accepted",
    "held_fixed_bindings", "implementation_provenance_refs", "implementation_revision_ref", "measurement_unit_key",
    "metric_result_ref", "protocol_aggregation_proof", "protocol_internal_parts", "protocol_version_ref",
    "result_review", "rg_formal_measurement_receipt", "rg_target_commit_receipt", "rm_asset_receipt",
    "target_commit_ref", "target_ref", "target_run_ref", "variant_run_input_binding", "variant_run_ref"]

  function TextOrNull(s: Option<Str>): Value {
    if s.Some? then Text(s.value) else Null
  }

  function ProofOrNull(p: Option<Proof>): Value {
    if p.Some? then ProofValue(p.value) else Null
  }

  function InputValue(b: InputBinding): Value {
    RecordOf("ExecutionInputBindingProof", INPUT_NAMES,
             [ProofValue(b.receipt), Text(b.ref), Tuple(Texts(b.inputs)), Text(b.subject)])
  }

  function CodeReviewValue(r: CodeReview): Value {
    RecordOf("CodeReviewRecord", CODE_REVIEW_NAMES,
             [Text(r.candidate), Boolean(r.codeChanged), TextOrNull(r.diff), Text(r.disposition),
              TextOrNull(r.fixedBase),
              TextOrNull(r.parentSession), TextOrNull(r.review), TextOrNull(r.reviewed), TextOrNull(r.reviewerSession),
              TextOrNull(r.spawnEvidence), Integer(r.unresolvedSpec), Integer(r.unresolvedStandards)])
  }

  function ResultReviewValue(r: ResultReview): Value {
    RecordOf("ResultReviewRecord", RESULT_REVIEW_NAMES,
             [Text(r.parentSession), Text(r.review), Text(r.manifest), Text(r.attempt), Text(r.metric),
              Text(r.reviewerSession), Text(r.spawnEvidence), Integer(r.unresolved)])
  }

  function PartValues(parts: seq<Part>): Value {
    Tuple(seq(|parts|, i requires 0 <= i < |parts| =>
      RecordOf("ProtocolPart", PART_NAMES, [Text(parts[i].key), Text(parts[i].protocol)])))
  }

  function AggregationValue(a: Aggregation): Value {
    RecordOf("ProtocolAggregationProof", AGGREGATION_NAMES,
             [ContentValue(a.evidence), ProofValue(a.receipt), Text(a.rule), Tuple(Texts(a.parts)), Text(a.protocol)])
  }

  function MeasurementValue(m: Measurement): Value {
    var items := [
      ProofValue(m.executionReceipt), Text(m.manifest), Tuple(Texts(m.checkpoints)),
      (if m.codeReview.Some? then CodeReviewValue(m.codeReview.value) else Null), Boolean(m.current),
      Boolean(m.currentnessKnown), (if m.attemptInput.Some? then InputValue(m.attemptInput.value) else Null),
      TextOrNull(m.attemptRef), Text(m.evaluation), Text(m.executionAttempt), Text(m.executionFence),
      Tuple(Texts(m.experimentKeys)), Boolean(m.formallyAccepted), BindingValues(m.bindings),
      Tuple(Texts(m.provenance)), Text(m.revision), Text(m.unit), TextOrNull(m.metricRef),
      (if m.aggregation.Some? then AggregationValue(m.aggregation.value) else Null), PartValues(m.parts),
      Text(m.protocol), (if m.resultReview.Some? then ResultReviewValue(m.resultReview.value) else Null),
      ProofOrNull(m.measurementReceipt), ProofValue(m.commitReceipt), ProofValue(m.assetReceipt), Text(m.commitRef),
      Text(m.targetRef), Text(m.targetRun), InputValue(m.variantInput), Text(m.variantRun)];
    assert |items| == |CLOSURE_NAMES|;
    Closure(seq(|items|, i requires 0 <= i < |items| => Field(CLOSURE_NAMES[i], items[i])),
            Tuple(m.metrics), ProofOrNull(m.rootReceipt))
  }

  // ---- The schema of closures

  const CLOSURE_KINDS := {
    CLOSURE, "ExecutionInputBindingProof", "CodeReviewRecord", "ResultReviewRecord", "ProtocolPart",
    "ProtocolAggregationProof"}

  function OrNone(a: Annotation): Annotation {
    OneOf([a, NoneType])
  }

  function ClosureDeclared(kind: string, name: string): Annotation {
    if kind !in CLOSURE_KINDS then Declared(kind, name)
    else if name in {"experiment_keys", "checkpoint_artifact_refs", "implementation_provenance_refs", "input_refs",
                     "part_keys"} then ManyOf(TextType)
    else if name == "held_fixed_bindings" then ManyOf(RecordType("HeldFixedBinding"))
    else if name == "protocol_internal_parts" then ManyOf(RecordType("ProtocolPart"))
    else if name == "protocol_aggregation_proof" then OrNone(RecordType("ProtocolAggregationProof"))
    else if name == "aggregation_evidence_binding" then RecordType("ContentBindingProof")
    else if name in {"acceptance_receipt", "aggregation_evidence_receipt", "rm_asset_receipt", "ar_execution_receipt",
                     "rg_target_commit_receipt"} then RecordType("ReceiptProof")
    else if name in {"rg_formal_measurement_receipt", "root_completion_receipt"} then OrNone(RecordType("ReceiptProof"))
    else if name == "variant_run_input_binding" then RecordType("ExecutionInputBindingProof")
    else if name == "evaluation_attempt_input_binding" then OrNone(RecordType("ExecutionInputBindingProof"))
    else if name == "code_review" then OrNone(RecordType("CodeReviewRecord"))
    else if name == "result_review" then OrNone(RecordType("ResultReviewRecord"))
    else if name in {"code_changed", "formal_measurement_accepted", "currentness_known", "current"} then BooleanType
    else if name in {"unresolved_standards_findings", "unresolved_spec_findings", "unresolved_findings"} then
      IntegerType
    else if name in {"evaluation_attempt_ref", "metric_result_ref"} && kind == CLOSURE then OrNone(TextType)
    else if kind == "CodeReviewRecord" && name !in {"disposition", "candidate_revision_ref"} then OrNone(TextType)
    else TextType
  }

  function ClosureSchema(): Schema {
    Schema(KINDS + CLOSURE_KINDS,
           PROOF_KINDS + {"ExecutionInputBindingProof", "ProtocolAggregationProof"}, ClosureDeclared)
  }

  /** `validate_closed_bundle_projection` accepts the closure or the review. */
  predicate ClosureProjects(v: Value) {
    Accepted(ClosureSchema(), v, ROOT_MAX_BYTES)
  }

  // ---- Reviews

  predicate Present(ref: Option<Str>) {
    ref.Some? && IsRef(ref.value)
  }

  /** `_verify_code_review` */
  predicate CodeReviewFits(r: CodeReview, revision: Str) {
    && ClosureProjects(CodeReviewValue(r)) && r.candidate == revision
    && r.unresolvedStandards == 0 && r.unresolvedSpec == 0
    && if r.codeChanged then
         && r.disposition == Points("reviewed")
         && Present(r.fixedBase) && Present(r.diff) && Present(r.review) && Present(r.parentSession)
         && Present(r.reviewerSession) && Present(r.spawnEvidence)
         && r.reviewerSession != r.parentSession && r.reviewed == Some(revision)
       else
         && r.disposition == Points("not_applicable(empty_diff)")
         && r.reviewed.None? && r.fixedBase.None? && r.diff.None? && r.review.None? && r.parentSession.None?
         && r.reviewerSession.None? && r.spawnEvidence.None?
  }

  predicate ResultReviewFits(r: ResultReview, m: Measurement) {
    && Some(r.attempt) == m.attemptRef && Some(r.metric) == m.metricRef && r.manifest == m.manifest
    && r.unresolved == 0
    && IsRef(r.review) && IsRef(r.parentSession) && IsRef(r.reviewerSession) && IsRef(r.spawnEvidence)
    && r.reviewerSession != r.parentSession
  }

  /** Either both independent reviews, or the one receipt of a root completion and no review. */
  predicate Reviewed(m: Measurement) {
    match m.rootReceipt
    case None =>
      && m.codeReview.Some? && CodeReviewFits(m.codeReview.value, m.revision)
      && m.resultReview.Some? && ResultReviewFits(m.resultReview.value, m)
    case Some(receipt) => m.codeReview.None? && m.resultReview.None? && Proves(receipt, m.executionAttempt)
  }

  // ---- Receipts and input bindings

  predicate BindsInput(b: InputBinding, subject: Str) {
    IsRef(b.ref) && b.subject == subject && Proves(b.receipt, b.ref)
  }

  predicate InputsBound(m: Measurement) {
    && BindsInput(m.variantInput, m.variantRun)
    && match m.attemptInput
       case None => m.attemptRef.None?
       case Some(b) =>
         && m.attemptRef.Some? && BindsInput(b, m.attemptRef.value)
         && m.variantInput.ref != b.ref && m.variantInput.receipt.ref != b.receipt.ref
  }

  predicate Receipted(m: Measurement) {
    && Proves(m.assetReceipt, m.manifest) && Proves(m.executionReceipt, m.executionAttempt)
    && Proves(m.commitReceipt, m.commitRef)
    && (m.formallyAccepted ==>
          m.measurementReceipt.Some? && m.attemptRef.Some? && Proves(m.measurementReceipt.value, m.attemptRef.value))
  }

  /** A formal measurement names its attempt, its metric and its receipt; other work claims none. */
  predicate MeasuredFormally(m: Measurement) {
    && (m.formallyAccepted || (m.rootReceipt.Some? && m.metrics == []))
    && m.currentnessKnown && m.current
    && (m.attemptRef.Some? ==> IsRef(m.attemptRef.value))
    && if m.formallyAccepted then
         && Present(m.attemptRef) && Present(m.metricRef) && (m.metrics != [] || m.rootReceipt.Some?)
         && m.measurementReceipt.Some?
       else m.metricRef.None? && m.metrics == [] && m.measurementReceipt.None?
  }

  // ---- Protocol aggregation

  function PartKeys(parts: seq<Part>): seq<Str> {
    seq(|parts|, i requires 0 <= i < |parts| => parts[i].key)
  }

  /** `_verify_protocol_aggregation` */
  predicate Aggregated(m: Measurement, hash: AggregationHash) {
    var keys := PartKeys(m.parts);
    && DistinctTexts(keys)
    && (forall p | p in m.parts :: p.protocol == m.protocol)
    && match m.aggregation
       case None => keys == []
       case Some(a) =>
         && keys != [] && a.protocol == m.protocol && a.parts == keys && IsRef(a.rule)
         && IsRef(a.evidence.subject) && IsRef(a.evidence.hash)
         && a.evidence.hash == hash(a.protocol, a.parts, a.rule) && Proves(a.receipt, a.evidence.hash)
  }

  predicate RefsPresent(m: Measurement) {
    && IsRef(m.targetRef) && IsRef(m.targetRun) && IsRef(m.commitRef) && IsRef(m.variantRun) && IsRef(m.evaluation)
    && IsRef(m.protocol) && IsRef(m.manifest) && IsRef(m.executionAttempt) && IsRef(m.executionFence)
    && IsRef(m.revision) && IsRef(m.unit)
    && DistinctRefs(m.checkpoints) && m.provenance != [] && DistinctRefs(m.provenance)
  }

  /** What `_verify_accepted_closure` accepts. */
  predicate ValidMeasurement(m: Measurement, briefs: Briefs, hash: AggregationHash) {
    && ClosureProjects(MeasurementValue(m)) && RefsPresent(m) && MeasuredFormally(m)
    && ValidCoverage(m.Covered(), briefs)
    && Reviewed(m) && InputsBound(m) && Receipted(m) && Aggregated(m, hash)
  }

  // ---- What an accepted closure guarantees

  /** Without the receipt of a root completion, an accepted closure is a formal measurement with metric
      values, whose result review is of exactly its attempt, metric and manifest, and whose reviewers
      were not the sessions that asked for the reviews.  With it, no review is claimed. */
  lemma AcceptedWorkWasReviewed(m: Measurement, briefs: Briefs, hash: AggregationHash)
    requires ValidMeasurement(m, briefs, hash)
    ensures m.rootReceipt.None? ==>
      && m.formallyAccepted && m.metrics != [] && m.measurementReceipt.Some?
      && m.resultReview.Some? && m.resultReview.value.reviewerSession != m.resultReview.value.parentSession
      && m.attemptRef == Some(m.resultReview.value.attempt) && m.metricRef == Some(m.resultReview.value.metric)
      && m.codeReview.Some? && m.codeReview.value.candidate == m.revision
      && (m.codeReview.value.codeChanged ==> m.codeReview.value.reviewerSession != m.codeReview.value.parentSession)
    ensures m.rootReceipt.Some? ==>
      m.codeReview.None? && m.resultReview.None? && (m.metricRef.Some? <==> m.formallyAccepted)
  {
    hide ClosureProjects, IsRef, ValidCoverage, DistinctRefs, Proves, Aggregated;
  }

  /** The execution inputs of a variant run and of its evaluation attempt are bound apart. */
  lemma InputsAreBoundApart(m: Measurement, briefs: Briefs, hash: AggregationHash)
    requires ValidMeasurement(m, briefs, hash)
    ensures m.attemptInput.Some? <==> m.attemptRef.Some?
    ensures m.attemptInput.Some? ==>
      && m.attemptInput.value.ref != m.variantInput.ref
      && m.attemptInput.value.receipt.ref != m.variantInput.receipt.ref
  {
    hide ClosureProjects, IsRef, ValidCoverage, DistinctRefs, Proves, Aggregated;
  }
}
