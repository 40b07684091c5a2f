/** The evidence constructor as a whole: its identity, its review, its records, its rejected submissions
    and its root budget.  The digests of a review task and of a review response, and the public form of
    a completion contract, are parameters. */
module ExhaustionEvidence {
  import opened Wrappers
  import opened PythonText
  import opened Refs
  import opened BundleValues
  import opened BundleBudget
  import opened BundleRecords
  import opened ExhaustionClaims
  import opened ExhaustionBudget
  import opened ExhaustionAssessment
  import opened ExhaustionChecks

  const EVIDENCE_SCHEMA := "meta-research/bundle-exhaustion-evidence/v1"
  const TRACE_SCHEMA := "meta-research/bundle-exhaustion-review-trace/v1"
  const IDENTITY_MAX := 128
  const FINDING_MAX := 4096

  /** `BundleExhaustionRejectedSubmission` */
  datatype Rejected = Rejected(attempt: Str, submission: Str, content: Str, execution: Receipt, rejection: Receipt)

  /** `BundleExhaustionReviewTrace` */
  datatype Trace = Trace(
    schema: Str, run: Str, attempt: Str, fence: Str, primarySession: Str, reviewer: Str, assessmentHash: Str,
    taskHash: Str, responseHash: Str, spawnHash: Str, completionHash: Str, seal: Str)

  /** `NormalizedCompletionContract`: the plan it is of, its briefs, and its public form. */
  datatype Completion = Completion(planHash: Str, contract: Contract, document: Value)

  /** Who the evidence is about. */
  datatype Identity = Identity(
    identity: Str, request: Str, requestReceipt: Str, requestReceiptHash: Str, cycle: Str, epoch: int, run: Str,
    attempt: Str, rootSession: Str, fence: Str, contextPack: Str, contextPackHash: Str, plan: Str, planHash: Str,
    nativeSession: Str)

  /** The turns it rests on, with the optional review. */
  datatype Turns = Turns(
    invocation: Str, responseHash: Str, assessmentHash: Str, reviewInvocation: Str, reviewer: Option<Str>,
    findings: seq<Str>, trace: Option<Trace>)

  datatype Evidence = Evidence(
    schema: Str, subject: Identity, turns: Turns, completion: Completion, records: seq<ExplorationRecord>,
    rejected: seq<Rejected>)

  datatype ReviewHashes = ReviewHashes(task: (Str, Str) -> Str, response: (Str, Str) -> Str)

  // ---- The public form

  const RECEIPT_NAMES := ["issuer", "kind", "payload_hash", "receipt_ref", "status", "subject_ref"]
  const RECORD_NAMES := ["assessment_content_hash", "assessment_receipt"]
  const REJECTED_NAMES := [
    "attempt_ref", "execution_receipt", "rejection_receipt", "submission_content_hash", "submission_ref"]
  const TRACE_NAMES := [
    "attempt_ref", "completion_event_hash", "fence_ref", "primary_session_ref", "review_response_hash",
    "review_task_hash", "reviewed_assessment_hash", "reviewer_agent_ref", "run_ref", "schema_ref", "spawn_event_hash",
    "transport_seal"]
  const EVIDENCE_NAMES := [
    "attempt_ref", "completion_contract", "context_pack_hash", "context_pack_ref", "cycle_ref", "epoch",
    "evidence_identity", "execution_fence_ref", "exploration_records", "formal_plan_content_hash", "formal_plan_ref",
    "native_session_ref", "primary_assessment_hash", "primary_invocation_ref", "primary_response_hash",
    "rejected_submissions", "review_findings", "review_invocation_ref", "review_trace", "reviewer_agent_ref",
    "root_session_ref", "run_ref", "schema_ref", "stage_run_request_receipt_hash", "stage_run_request_receipt_ref",
    "stage_run_request_ref"]

  function ReceiptDict(r: Receipt): Value {
    Object(RECEIPT_NAMES,
           [Text(r.issuer), Text(r.kind), Text(r.payload), Text(r.ref), Text(Points("accepted")), Text(r.subject)])
  }

  /** The claim with the two entries that the record adds. */
  function RecordDict(r: ExplorationRecord): Value {
    var claim := ClaimDict(r.claim);
    var added := Object(RECORD_NAMES, [Text(r.assessmentHash), ReceiptDict(r.receipt)]);
    Dict(claim.entries + added.entries)
  }

  function RejectedDict(r: Rejected): Value {
    Object(REJECTED_NAMES,
           [Text(r.attempt), ReceiptDict(r.execution), ReceiptDict(r.rejection), Text(r.content), Text(r.submission)])
  }

  function TraceDict(t: Trace): Value {
    Object(TRACE_NAMES,
           [Text(t.attempt), Text(t.completionHash), Text(t.fence), Text(t.primarySession), Text(t.responseHash),
            Text(t.taskHash), Text(t.assessmentHash), Text(t.reviewer), Text(t.run), Text(t.schema), Text(t.spawnHash),
            Text(t.seal)])
  }

  function EvidenceDict(e: Evidence): Value {
    var s, t := e.subject, e.turns;
    Object(EVIDENCE_NAMES,
           [Text(s.attempt), e.completion.document, Text(s.contextPackHash), Text(s.contextPack), Text(s.cycle),
            Integer(s.epoch), Text(s.identity), Text(s.fence),
            List(seq(|e.records|, i requires 0 <= i < |e.records| => RecordDict(e.records[i]))),
            Text(s.planHash), Text(s.plan), Text(s.nativeSession), Text(t.assessmentHash), Text(t.invocation),
            Text(t.responseHash),
            List(seq(|e.rejected|, i requires 0 <= i < |e.rejected| => RejectedDict(e.rejected[i]))),
            List(seq(|t.findings|, i requires 0 <= i < |t.findings| => Text(t.findings[i]))),
            Text(t.reviewInvocation), (if t.trace.Some? then TraceDict(t.trace.value) else Null),
            (if t.reviewer.Some? then Text(t.reviewer.value) else Null), Text(s.rootSession), Text(s.run),
            Text(e.schema), Text(s.requestReceiptHash), Text(s.requestReceipt), Text(s.request)])
  }

  // ---- The parts

  /** `BundleExhaustionRejectedSubmission.__post_init__` */
  predicate RejectedValid(r: Rejected) {
    && TextFine(r.attempt, REF_MAX) && TextFine(r.submission, REF_MAX) && HashFine(r.content)
    && ReceiptFine(r.execution) && ReceiptFine(r.rejection)
    && r.execution.issuer == Points("agent_runtime")
    && (r.rejection.issuer == Points("research_graph") || r.rejection.issuer == Points("advancement_engine"))
  }

  /** `BundleExhaustionReviewTrace.__post_init__` */
  predicate TraceValid(t: Trace) {
    && t.schema == Points(TRACE_SCHEMA)
    && TextFine(t.run, REF_MAX) && TextFine(t.attempt, REF_MAX) && TextFine(t.fence, REF_MAX)
    && TextFine(t.primarySession, REF_MAX) && TextFine(t.reviewer, REF_MAX)
    && HashFine(t.assessmentHash) && HashFine(t.taskHash) && HashFine(t.responseHash) && HashFine(t.spawnHash)
    && HashFine(t.completionHash) && HashFine(t.seal)
    && t.primarySession != t.reviewer
  }

  predicate IdentityFine(s: Identity) {
    && TextFine(s.identity, IDENTITY_MAX) && TextFine(s.request, REF_MAX) && TextFine(s.requestReceipt, REF_MAX)
    && TextFine(s.cycle, REF_MAX) && TextFine(s.run, REF_MAX) && TextFine(s.attempt, REF_MAX)
    && TextFine(s.rootSession, REF_MAX) && TextFine(s.fence, REF_MAX) && TextFine(s.contextPack, REF_MAX)
    && TextFine(s.plan, REF_MAX) && TextFine(s.nativeSession, REF_MAX)
    && HashFine(s.requestReceiptHash) && HashFine(s.contextPackHash) && HashFine(s.planHash)
    && s.epoch >= 1
  }

  predicate FindingFine(s: Str) {
    !Blank(s) && Utf8Length(s).Some? && Utf8Length(s).value <= FINDING_MAX
  }

  /** The trace is of this run, this session, this reviewer and this assessment. */
  predicate TraceFits(t: Trace, reviewer: Str, s: Identity, assessmentHash: Str, hashes: ReviewHashes) {
    && TraceValid(t) && reviewer != s.rootSession && reviewer != s.nativeSession
    && t.run == s.run && t.attempt == s.attempt && t.fence == s.fence && t.primarySession == s.nativeSession
    && t.reviewer == reviewer && t.assessmentHash == assessmentHash
    && t.taskHash == hashes.task(assessmentHash, s.planHash)
    && t.responseHash == hashes.response(reviewer, assessmentHash)
  }

  predicate TurnsFine(t: Turns, s: Identity, hashes: ReviewHashes) {
    && TextFine(t.invocation, REF_MAX) && TextFine(t.reviewInvocation, REF_MAX)
    && HashFine(t.responseHash) && HashFine(t.assessmentHash)
    && (t.reviewer.Some? ==> TextFine(t.reviewer.value, REF_MAX))
    && |t.findings| <= TUPLE_MAX_ITEMS && (forall f | f in t.findings :: FindingFine(f))
    && match t.trace
       case None => true
       case Some(trace) => t.reviewer.Some? && TraceFits(trace, t.reviewer.value, s, t.assessmentHash, hashes)
  }

  /** Everything before the records. */
  predicate HeadFine(e: Evidence, hashes: ReviewHashes) {
    && e.schema == Points(EVIDENCE_SCHEMA) && IdentityFine(e.subject) && TurnsFine(e.turns, e.subject, hashes)
    && e.completion.planHash == e.subject.planHash
  }

  function Submissions(rejected: seq<Rejected>): seq<Str> {
    seq(|rejected|, i requires 0 <= i < |rejected| => rejected[i].submission)
  }

  /** The fingerprints are over the plan of the evidence. */
  function SettingOf(at: Setting, e: Evidence): Setting {
    at.(planHash := e.subject.planHash)
  }

  /** The records and the rejected submissions exist, and `BundleExhaustionEvidence.__post_init__` accepts
      what is made of them. */
  predicate EvidenceValid(at: Setting, e: Evidence, hashes: ReviewHashes) {
    && (forall r | r in e.records :: RecordValid(at.schema, r)) && (forall r | r in e.rejected :: RejectedValid(r))
    && HeadFine(e, hashes)
    && EvidenceRecordsFit(SettingOf(at, e), e.completion.contract, e.records, e.turns.assessmentHash,
                          e.turns.invocation)
    && RejectionsFit(ClaimsOf(e.records), Submissions(e.rejected))
    && JsonBudget(EvidenceDict(e))
  }

  /** The constructor of the evidence, after those of its parts. */
  method AcceptEvidence(at: Setting, e: Evidence, hashes: ReviewHashes) returns (ok: bool)
    ensures ok <==> EvidenceValid(at, e, hashes)
  {
    hide HeadFine, RecordValid, RejectedValid, EvidenceRecordsFit, RejectionsFit, JsonBudget, EvidenceDict;
    if !(forall r | r in e.records :: RecordValid(at.schema, r)) || !(forall r | r in e.rejected :: RejectedValid(r)) {
      return false;
    }
    if !HeadFine(e, hashes) {
      return false;
    }
    ok := CheckEvidenceRecords(SettingOf(at, e), e.completion.contract, e.records, Submissions(e.rejected),
                               e.turns.assessmentHash, e.turns.invocation);
    if ok {
      ok := JsonBudget(EvidenceDict(e));
    }
  }

  // ---- What is left to decide

  /** The evidence is made of an accepted assessment of its plan: the records are those of its claims,
      with one receipt of its invocation. */
  predicate MadeOf(at: Setting, e: Evidence, value: Value, receipt: Receipt) {
    && AssessmentAccepted(at, value) && at.planHash == e.subject.planHash
    && e.completion.contract == OpenedFrom(at, value).value.contract
    && e.records
       == Records(ClaimsFrom(OpenedFrom(at, value).value.records.items).value, e.turns.assessmentHash, receipt)
    && receipt.subject == e.turns.invocation
  }

  predicate ReceiptOfAssessment(receipt: Receipt) {
    && ReceiptFine(receipt) && receipt.issuer == Points("agent_runtime")
    && receipt.kind == Points(ASSESSMENT_RECEIPT_KIND)
  }

  /** Once the validator has accepted an assessment, nothing about its claims can fail any more: the
      constructor accepts the evidence made of it exactly when the rest of the evidence is right. */
  lemma OnlyTheRestIsDecided(at: Setting, e: Evidence, hashes: ReviewHashes, value: Value, receipt: Receipt)
    requires Knows(at.schema) && MadeOf(at, e, value, receipt) && ReceiptOfAssessment(receipt)
    ensures EvidenceValid(at, e, hashes) <==>
      && HeadFine(e, hashes) && (forall r | r in e.rejected :: RejectedValid(r))
      && RejectionsFit(ClaimsOf(e.records), Submissions(e.rejected)) && JsonBudget(EvidenceDict(e))
  {
    hide RecordValid, RejectedValid, EvidenceRecordsFit, RejectionsFit, JsonBudget, EvidenceDict, AssessmentAccepted,
      ReceiptFine, Knows, ClaimsFrom, OpenedFrom, IdentityFine, HashFine, Records;
    if HeadFine(e, hashes) {
      AcceptedAssessmentBecomesEvidence(at, value, e.turns.assessmentHash, receipt);
      RebuiltAreValid(at, e, value, receipt);
      assert SettingOf(at, e) == at;
    }
  }

  lemma RebuiltAreValid(at: Setting, e: Evidence, value: Value, receipt: Receipt)
    requires Knows(at.schema) && MadeOf(at, e, value, receipt) && ReceiptOfAssessment(receipt)
    requires HashFine(e.turns.assessmentHash)
    ensures forall r | r in e.records :: RecordValid(at.schema, r)
  {
    hide RecordValid, ReceiptFine, Knows, ClaimsFrom, OpenedFrom, HashFine, Records, ClaimFrom, RecordFromClaim,
      ClaimDict, EvidenceRecordsFit, JsonBudget, ClaimsAccepted;
    var items := OpenedFrom(at, value).value.records.items;
    AcceptedAssessmentBecomesEvidence(at, value, e.turns.assessmentHash, receipt);
    forall i | 0 <= i < |e.records| ensures RecordValid(at.schema, e.records[i]) {
      RebuiltIsValid(at.schema, items[i], e.turns.assessmentHash, receipt, e.records[i]);
    }
  }

  lemma RebuiltIsValid(schema: Schema, json: Value, assessmentHash: Str, receipt: Receipt, r: ExplorationRecord)
    requires RecordFromClaim(schema, json, assessmentHash, receipt) == Some(r)
    ensures RecordValid(schema, r)
  {
    hide RecordValid, ClaimFrom;
  }

  /** A review trace in accepted evidence is of an agent that is neither the root nor the native session,
      for this assessment and the plan that every fingerprint is over. */
  lemma TracedReviewIsIndependent(at: Setting, e: Evidence, hashes: ReviewHashes)
    requires EvidenceValid(at, e, hashes) && e.turns.trace.Some?
    ensures var t, s := e.turns.trace.value, e.subject;
      && e.turns.reviewer == Some(t.reviewer)
      && t.reviewer != s.rootSession && t.reviewer != s.nativeSession && t.primarySession == s.nativeSession
      && t.taskHash == hashes.task(e.turns.assessmentHash, e.completion.planHash)
      && forall i | 0 <= i < |e.records| ::
           && e.records[i].assessmentHash == t.assessmentHash
           && RouteFingerprint(at.(planHash := e.completion.planHash), ClaimsOf(e.records)[i])
              == Some(e.records[i].claim.fingerprint)
  {
    hide RecordValid, RejectedValid, RejectionsFit, JsonBudget, EvidenceDict, IdentityFine, HashFine, RouteFingerprint,
      SlotsFit, Ascending, Distinct, HeldAgree, ReconciliationsAgree, CellsCovered;
  }
}
