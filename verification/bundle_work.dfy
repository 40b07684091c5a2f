/** Accepted measurement closures in plain terms: their references, receipts, input bindings, reviews and
    protocol parts. */
module BundleWork {
  import opened Wrappers
  import opened PythonText
  import opened BundleRecords
  import opened BundleCoverage
  import opened BundleClosures
  import opened BundleExact
  import opened BundleEntries

  predicate AreRefs(refs: seq<Str>) {
    forall r | r in refs :: IsRef(r)
  }

  /** The reference, where there is one. */
  predicate AreGiven(refs: seq<Option<Str>>) {
    forall r | r in refs :: r.Some? && IsRef(r.value)
  }

  predicate AreAbsent(refs: seq<Option<Str>>) {
    forall r | r in refs :: r.None?
  }

  /** A named receipt that proves its subject: verified, known to be current, and current. */
  predicate IsProved(p: Proof, subject: Str) {
    && Projects(ProofValue(p)) && !Blank(p.ref) && p.subject == subject
    && p.verified && p.currentnessKnown && p.current
  }

  predicate InputStands(b: InputBinding, subject: Str) {
    b.subject == subject && IsRef(b.ref) && IsProved(b.receipt, b.ref)
  }

  /** Code that changed was reviewed for this revision, by another session than the one that asked;
      code that did not has nothing to review.  Nothing is left unresolved. */
  predicate CodeReviewStands(r: CodeReview, revision: Str) {
    && ClosureProjects(CodeReviewValue(r)) && r.candidate == revision
    && r.unresolvedStandards == 0 && r.unresolvedSpec == 0
    && (r.codeChanged ==>
          && r.disposition == Points("reviewed") && r.reviewed == Some(revision)
          && AreGiven([r.fixedBase, r.diff, r.review, r.parentSession, r.reviewerSession, r.spawnEvidence])
          && r.reviewerSession != r.parentSession)
    && (!r.codeChanged ==>
          && r.disposition == Points("not_applicable(empty_diff)")
          && AreAbsent([r.reviewed, r.fixedBase, r.diff, r.review, r.parentSession, r.reviewerSession,
                        r.spawnEvidence]))
  }

  /** The review is of exactly this attempt, metric result and manifest, by another session. */
  predicate ResultReviewStands(r: ResultReview, m: Measurement) {
    && [Some(r.attempt), Some(r.metric), Some(r.manifest)] == [m.attemptRef, m.metricRef, Some(m.manifest)]
    && AreRefs([r.review, r.parentSession, r.reviewerSession, r.spawnEvidence])
    && r.reviewerSession != r.parentSession && r.unresolved == 0
  }

  /** The parts of the protocol are named, each once; where there are any, their aggregation is proved for
      exactly these parts, and otherwise there is none. */
  predicate PartsStand(m: Measurement, hash: AggregationHash) {
    && (forall p | p in m.parts :: p.protocol == m.protocol && !Blank(p.key))
    && (forall i, j | 0 <= i < |m.parts| && 0 <= j < |m.parts| && m.parts[i].key == m.parts[j].key :: i == j)
    && (m.aggregation.Some? <==> m.parts != [])
    && (m.aggregation.Some? ==> AggregationStands(m.aggregation.value, m, hash))
  }

  predicate AggregationStands(a: Aggregation, m: Measurement, hash: AggregationHash) {
    && a.protocol == m.protocol && IsRef(a.rule)
    && |a.parts| == |m.parts| && (forall i | 0 <= i < |m.parts| :: a.parts[i] == m.parts[i].key)
    && AreRefs([a.evidence.subject, a.evidence.hash])
    && a.evidence.hash == hash(a.protocol, a.parts, a.rule) && IsProved(a.receipt, a.evidence.hash)
  }

  /** What any accepted closure is made of. */
  ghost predicate ClosureStands(m: Measurement, briefs: Briefs, hash: AggregationHash) {
    && ClosureProjects(MeasurementValue(m))
    && AreRefs([m.targetRef, m.targetRun, m.commitRef, m.variantRun, m.evaluation, m.protocol, m.manifest,
                m.executionAttempt, m.executionFence, m.revision, m.unit])
    && NoneTwice(m.checkpoints) && AreRefs(m.checkpoints)
    && m.provenance != [] && NoneTwice(m.provenance) && AreRefs(m.provenance)
    && CoverageStands(m.Covered(), briefs) && PartsStand(m, hash)
    && m.currentnessKnown && m.current
    && IsProved(m.assetReceipt, m.manifest) && IsProved(m.executionReceipt, m.executionAttempt)
    && IsProved(m.commitReceipt, m.commitRef)
    && InputStands(m.variantInput, m.variantRun)
  }

  /** The attempt has an input binding of its own. */
  predicate AttemptStands(m: Measurement) {
    && m.attemptRef.Some? && IsRef(m.attemptRef.value)
    && m.attemptInput.Some? && InputStands(m.attemptInput.value, m.attemptRef.value)
    && m.attemptInput.value.ref != m.variantInput.ref
    && m.attemptInput.value.receipt.ref != m.variantInput.receipt.ref
  }

  predicate MeasurementStands(m: Measurement) {
    && m.formallyAccepted && AttemptStands(m) && AreGiven([m.metricRef])
    && m.measurementReceipt.Some? && IsProved(m.measurementReceipt.value, m.attemptRef.value)
  }

  predicate NothingMeasured(m: Measurement) {
    && !m.formallyAccepted && m.metricRef.None? && m.metrics == [] && m.measurementReceipt.None?
    && (AttemptStands(m) || (m.attemptRef.None? && m.attemptInput.None?))
  }

  // ----- The checks mean that -----------------------------------------------------------

  lemma ProvedMeans(p: Proof, subject: Str)
    ensures Proves(p, subject) <==> IsProved(p, subject)
  {
  }

  lemma InputMeans(b: InputBinding, subject: Str)
    ensures BindsInput(b, subject) <==> InputStands(b, subject)
  {
    hide Projects, IsRef;
  }

  lemma CodeReviewMeans(r: CodeReview, revision: Str)
    ensures CodeReviewFits(r, revision) <==> CodeReviewStands(r, revision)
  {
    hide ClosureProjects, IsRef, Points;
    assert AreGiven([r.fixedBase, r.diff, r.review, r.parentSession, r.reviewerSession, r.spawnEvidence]) <==>
      && Present(r.fixedBase) && Present(r.diff) && Present(r.review) && Present(r.parentSession)
      && Present(r.reviewerSession) && Present(r.spawnEvidence);
    assert AreAbsent([r.reviewed, r.fixedBase, r.diff, r.review, r.parentSession, r.reviewerSession, r.spawnEvidence])
      <==> && r.reviewed.None? && r.fixedBase.None? && r.diff.None? && r.review.None? && r.parentSession.None?
           && r.reviewerSession.None? && r.spawnEvidence.None?;
  }

  lemma ResultReviewMeans(r: ResultReview, m: Measurement)
    ensures ResultReviewFits(r, m) <==> ResultReviewStands(r, m)
  {
    hide IsRef;
    var names := [Some(r.attempt), Some(r.metric), Some(r.manifest)];
    var own := [m.attemptRef, m.metricRef, Some(m.manifest)];
    assert names == own <==> names[0] == own[0] && names[1] == own[1] && names[2] == own[2];
    assert AreRefs([r.review, r.parentSession, r.reviewerSession, r.spawnEvidence]) <==>
      IsRef(r.review) && IsRef(r.parentSession) && IsRef(r.reviewerSession) && IsRef(r.spawnEvidence);
  }

  lemma PartsMean(m: Measurement, hash: AggregationHash)
    ensures Aggregated(m, hash) <==> PartsStand(m, hash)
  {
    hide IsRef, Projects, AggregationStands;
    var keys := PartKeys(m.parts);
    assert forall i | 0 <= i < |keys| :: keys[i] == m.parts[i].key && m.parts[i] in m.parts && keys[i] in keys;
    assert DistinctTexts(keys) <==>
      && (forall p | p in m.parts :: !Blank(p.key))
      && (forall i, j | 0 <= i < |m.parts| && 0 <= j < |m.parts| && m.parts[i].key == m.parts[j].key :: i == j);
    if m.aggregation.Some? {
      AggregationMeans(m.aggregation.value, m, hash);
    }
  }

  lemma AggregationMeans(a: Aggregation, m: Measurement, hash: AggregationHash)
    ensures AggregationStands(a, m, hash) <==>
      && a.protocol == m.protocol && a.parts == PartKeys(m.parts) && IsRef(a.rule)
      && IsRef(a.evidence.subject) && IsRef(a.evidence.hash)
      && a.evidence.hash == hash(a.protocol, a.parts, a.rule) && Proves(a.receipt, a.evidence.hash)
  {
    hide IsRef, Projects;
    assert AreRefs([a.evidence.subject, a.evidence.hash]) <==> IsRef(a.evidence.subject) && IsRef(a.evidence.hash);
  }

  lemma RefsMean(m: Measurement)
    ensures RefsPresent(m) <==>
      && AreRefs([m.targetRef, m.targetRun, m.commitRef, m.variantRun, m.evaluation, m.protocol, m.manifest,
                  m.executionAttempt, m.executionFence, m.revision, m.unit])
      && NoneTwice(m.checkpoints) && AreRefs(m.checkpoints)
      && m.provenance != [] && NoneTwice(m.provenance) && AreRefs(m.provenance)
  {
    hide IsRef;
    RefsOnce(m.checkpoints);
    RefsOnce(m.provenance);
    hide DistinctRefs, NoneTwice;
    assert AreRefs([m.targetRef, m.targetRun, m.commitRef, m.variantRun, m.evaluation, m.protocol, m.manifest,
                    m.executionAttempt, m.executionFence, m.revision, m.unit]) <==>
      && IsRef(m.targetRef) && IsRef(m.targetRun) && IsRef(m.commitRef) && IsRef(m.variantRun) && IsRef(m.evaluation)
      && IsRef(m.protocol) && IsRef(m.manifest) && IsRef(m.executionAttempt) && IsRef(m.executionFence)
      && IsRef(m.revision) && IsRef(m.unit);
  }

  lemma ClosureMeans(m: Measurement, briefs: Briefs, hash: AggregationHash)
    ensures CommonlyFine(m, briefs, hash) <==> ClosureStands(m, briefs, hash)
  {
    hide ClosureProjects, IsRef, Projects, ValidCoverage, CoverageStands, Aggregated, PartsStand, RefsPresent, AreRefs,
      NoneTwice, BindsInput, InputStands, Proves, IsProved;
    RefsMean(m);
    CoverageMeans(m.Covered(), briefs);
    PartsMean(m, hash);
    ProvedMeans(m.assetReceipt, m.manifest);
    ProvedMeans(m.executionReceipt, m.executionAttempt);
    ProvedMeans(m.commitReceipt, m.commitRef);
    InputMeans(m.variantInput, m.variantRun);
  }

  lemma MeasurementMeans(m: Measurement)
    ensures Formal(m) <==> MeasurementStands(m)
    ensures Informal(m) <==> NothingMeasured(m)
  {
    hide IsRef, BindsInput, InputStands, Proves, IsProved;
    if m.attemptRef.Some? && m.attemptInput.Some? {
      InputMeans(m.attemptInput.value, m.attemptRef.value);
    }
    if m.attemptRef.Some? && m.measurementReceipt.Some? {
      ProvedMeans(m.measurementReceipt.value, m.attemptRef.value);
    }
    assert AreGiven([m.metricRef]) <==> m.metricRef.Some? && IsRef(m.metricRef.value);
  }

  /** A closure is accepted exactly if what any closure is made of stands, and it is either a formal
      measurement with values and both reviews, or work of a completed root session, whose receipt
      proves its execution attempt, measured or not and without review. */
  lemma WorkStandsExactly(m: Measurement, briefs: Briefs, hash: AggregationHash)
    ensures ValidMeasurement(m, briefs, hash) <==>
      && ClosureStands(m, briefs, hash)
      && match m.rootReceipt
         case None =>
           && MeasurementStands(m) && m.metrics != []
           && m.codeReview.Some? && CodeReviewStands(m.codeReview.value, m.revision)
           && m.resultReview.Some? && ResultReviewStands(m.resultReview.value, m)
         case Some(receipt) =>
           && IsProved(receipt, m.executionAttempt) && m.codeReview.None? && m.resultReview.None?
           && (MeasurementStands(m) || NothingMeasured(m))
  {
    hide ValidMeasurement, CommonlyFine, ClosureStands, Formal, Informal, MeasurementStands, NothingMeasured,
      CodeReviewFits, CodeReviewStands, ResultReviewFits, ResultReviewStands, Proves, IsProved;
    AcceptedWorkIsExactly(m, briefs, hash);
    ClosureMeans(m, briefs, hash);
    MeasurementMeans(m);
    if m.rootReceipt.Some? {
      ProvedMeans(m.rootReceipt.value, m.executionAttempt);
    }
    if m.codeReview.Some? {
      CodeReviewMeans(m.codeReview.value, m.revision);
    }
    if m.resultReview.Some? {
      ResultReviewMeans(m.resultReview.value, m);
    }
  }
}
