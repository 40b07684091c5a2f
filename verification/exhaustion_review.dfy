/** What evidence made of an accepted assessment still has to show, in plain terms: whom it is about, who
    reviewed it, and which submissions it rejects. */
module ExhaustionReview {
  import opened Wrappers
  import opened PythonText
  import opened Refs
  import opened BundleValues
  import opened BundleRecords
  import opened ExhaustionClaims
  import opened ExhaustionBudget
  import opened ExhaustionAssessment
  import opened ExhaustionEvidence
  import opened ExhaustionExact

  predicate AreTexts(refs: set<Str>, maximum: nat) {
    forall r | r in refs :: TextFine(r, maximum)
  }

  predicate AreHashes(hashes: set<Str>) {
    forall h | h in hashes :: HashFine(h)
  }

  /** The identity is complete, and of the plan whose completion contract is met. */
  predicate SubjectStands(e: Evidence) {
    var s := e.subject;
    && e.schema == Points("meta-research/bundle-exhaustion-evidence/v1")
    && e.completion.planHash == s.planHash && s.epoch > 0
    && AreTexts({s.identity}, 128)
    && AreTexts({s.request, s.requestReceipt, s.cycle, s.run, s.attempt, s.rootSession, s.fence, s.contextPack, s.plan,
                 s.nativeSession}, 256)
    && AreHashes({s.requestReceiptHash, s.contextPackHash, s.planHash})
  }

  /** The turns are named, and of at most 1024 findings each has a text of at most 4096 bytes. */
  predicate TurnsStand(t: Turns) {
    && AreTexts({t.invocation, t.reviewInvocation}, 256) && AreHashes({t.responseHash, t.assessmentHash})
    && (t.reviewer.Some? ==> AreTexts({t.reviewer.value}, 256))
    && |t.findings| <= 1024
    && forall f | f in t.findings :: !Blank(f) && Utf8Length(f).Some? && Utf8Length(f).value <= 4096
  }

  /** The trace is of the named reviewer, who is neither the root nor the native session, and repeats the
      run, the session and the assessment of the evidence. */
  predicate TraceStands(t: Trace, e: Evidence, hashes: ReviewHashes) {
    var s := e.subject;
    && t.schema == Points("meta-research/bundle-exhaustion-review-trace/v1")
    && e.turns.reviewer == Some(t.reviewer) && t.reviewer !in {s.rootSession, s.nativeSession}
    && [t.run, t.attempt, t.fence, t.primarySession] == [s.run, s.attempt, s.fence, s.nativeSession]
    && t.assessmentHash == e.turns.assessmentHash
    && t.taskHash == hashes.task(t.assessmentHash, s.planHash)
    && t.responseHash == hashes.response(t.reviewer, t.assessmentHash)
    && AreHashes({t.taskHash, t.responseHash, t.spawnHash, t.completionHash, t.seal})
  }

  /** The submission ran under the agent runtime and was rejected by one of the two owners. */
  predicate SubmissionStands(r: Rejected) {
    && AreTexts({r.attempt, r.submission}, 256) && AreHashes({r.content})
    && ReceiptFine(r.execution) && r.execution.issuer == Points("agent_runtime")
    && ReceiptFine(r.rejection)
    && r.rejection.issuer in {Points("research_graph"), Points("advancement_engine")}
  }

  /** The rejected submissions are in order, and each is cited by one rejecting record and by no other. */
  predicate CitationsStand(claims: seq<Claim>, rejected: seq<Rejected>) {
    && (forall i, j | 0 <= i < j < |rejected| :: Before(rejected[i].submission, rejected[j].submission))
    && (forall c | c in claims && IsRejecting(c) :: Distinct(c.disposition.evidence))
    && (forall i, j | 0 <= i < j < |claims| && IsRejecting(claims[i]) && IsRejecting(claims[j]) ::
          NothingShared(claims[i], claims[j]))
    && (forall c, ref | c in claims && ref in c.disposition.evidence :: IsRejecting(c) <==> IsSubmission(rejected, ref))
    && (forall r | r in rejected :: exists c | c in claims :: r.submission in c.disposition.evidence)
  }

  /** The claim is of a route that was attempted and rejected. */
  predicate IsRejecting(c: Claim) {
    c.disposition.outcome == Points("attempted_rejected")
  }

  predicate NothingShared(a: Claim, b: Claim) {
    forall ref | ref in a.disposition.evidence :: ref !in b.disposition.evidence
  }

  predicate IsSubmission(rejected: seq<Rejected>, ref: Str) {
    exists r | r in rejected :: r.submission == ref
  }

  // ----- The checks mean that -----------------------------------------------------------

  lemma SubjectMeans(e: Evidence)
    ensures SubjectStands(e)
       <==> && e.schema == Points(EVIDENCE_SCHEMA) && IdentityFine(e.subject)
            && e.completion.planHash == e.subject.planHash
  {
    hide TextFine, HashFine, Points;
    var s := e.subject;
    var texts := {s.request, s.requestReceipt, s.cycle, s.run, s.attempt, s.rootSession, s.fence, s.contextPack, s.plan,
                  s.nativeSession};
    var hashes := {s.requestReceiptHash, s.contextPackHash, s.planHash};
    assert AreTexts(texts, 256) <==>
      && TextFine(s.request, 256) && TextFine(s.requestReceipt, 256) && TextFine(s.cycle, 256)
      && TextFine(s.run, 256) && TextFine(s.attempt, 256) && TextFine(s.rootSession, 256) && TextFine(s.fence, 256)
      && TextFine(s.contextPack, 256) && TextFine(s.plan, 256) && TextFine(s.nativeSession, 256);
    assert AreHashes(hashes) <==> HashFine(s.requestReceiptHash) && HashFine(s.contextPackHash) && HashFine(s.planHash);
  }

  /** The checks of the trace on its own texts decide nothing that the evidence has not decided. */
  lemma TraceMeans(t: Trace, e: Evidence, hashes: ReviewHashes)
    requires SubjectStands(e) && TurnsStand(e.turns)
    ensures TraceStands(t, e, hashes)
       <==> e.turns.reviewer.Some? && TraceFits(t, e.turns.reviewer.value, e.subject, e.turns.assessmentHash, hashes)
  {
    hide TextFine, HashFine, Points;
    var s := e.subject;
    assert AreHashes({t.taskHash, t.responseHash, t.spawnHash, t.completionHash, t.seal}) <==>
      && HashFine(t.taskHash) && HashFine(t.responseHash) && HashFine(t.spawnHash) && HashFine(t.completionHash)
      && HashFine(t.seal);
    assert [t.run, t.attempt, t.fence, t.primarySession] == [s.run, s.attempt, s.fence, s.nativeSession]
      <==> t.run == s.run && t.attempt == s.attempt && t.fence == s.fence && t.primarySession == s.nativeSession;
  }

  lemma TurnsMean(t: Turns)
    ensures TurnsStand(t)
       <==> && TextFine(t.invocation, REF_MAX) && TextFine(t.reviewInvocation, REF_MAX)
            && HashFine(t.responseHash) && HashFine(t.assessmentHash)
            && (t.reviewer.Some? ==> TextFine(t.reviewer.value, REF_MAX))
            && |t.findings| <= TUPLE_MAX_ITEMS && forall f | f in t.findings :: FindingFine(f)
  {
    hide TextFine, HashFine, Utf8Length;
  }

  lemma HeadMeans(e: Evidence, hashes: ReviewHashes)
    ensures HeadFine(e, hashes)
       <==> && SubjectStands(e) && TurnsStand(e.turns)
            && (e.turns.trace.Some? ==> TraceStands(e.turns.trace.value, e, hashes))
  {
    hide TextFine, HashFine, IdentityFine, FindingFine, SubjectStands, TurnsStand, TraceStands, TraceFits, Points;
    SubjectMeans(e);
    TurnsMean(e.turns);
    if SubjectStands(e) && TurnsStand(e.turns) && e.turns.trace.Some? {
      TraceMeans(e.turns.trace.value, e, hashes);
    }
  }

  lemma SubmissionMeans(r: Rejected)
    ensures RejectedValid(r) <==> SubmissionStands(r)
  {
    hide TextFine, HashFine, ReceiptFine, Points;
  }

  lemma SubmissionsMean(rejected: seq<Rejected>)
    ensures forall ref :: ref in Submissions(rejected) <==> IsSubmission(rejected, ref)
    ensures Ascending(Submissions(rejected))
       <==> forall i, j | 0 <= i < j < |rejected| :: Before(rejected[i].submission, rejected[j].submission)
  {
    hide Before;
    var refs := Submissions(rejected);
    assert forall i | 0 <= i < |refs| :: refs[i] == rejected[i].submission;
    forall ref ensures ref in refs <==> IsSubmission(rejected, ref) {
      if r :| r in rejected && r.submission == ref {
        var i :| 0 <= i < |rejected| && rejected[i] == r;
        assert refs[i] == ref;
      }
    }
  }

  lemma RejectingMeans(claims: seq<Claim>)
    ensures (forall i: nat | Rejects(claims, i) :: Distinct(claims[i].disposition.evidence))
       <==> forall c | c in claims && IsRejecting(c) :: Distinct(c.disposition.evidence)
  {
    hide Distinct, Points;
    forall i: nat ensures Rejects(claims, i) <==> i < |claims| && IsRejecting(claims[i]) {
    }
    if forall i: nat | Rejects(claims, i) :: Distinct(claims[i].disposition.evidence) {
      forall c | c in claims && IsRejecting(c) ensures Distinct(c.disposition.evidence) {
        var i :| 0 <= i < |claims| && claims[i] == c;
        assert Rejects(claims, i);
      }
    }
  }

  lemma ApartMeans(claims: seq<Claim>)
    ensures (forall i: nat, j: nat, ref | i != j && Rejects(claims, i) && Rejects(claims, j) && Cites(claims, i, ref) ::
               !Cites(claims, j, ref))
       <==> forall i, j | 0 <= i < j < |claims| && IsRejecting(claims[i]) && IsRejecting(claims[j]) ::
              NothingShared(claims[i], claims[j])
  {
    hide Points;
    if forall i, j | 0 <= i < j < |claims| && IsRejecting(claims[i]) && IsRejecting(claims[j]) ::
      NothingShared(claims[i], claims[j])
    {
      forall i: nat, j: nat, ref | i != j && Rejects(claims, i) && Rejects(claims, j) && Cites(claims, i, ref)
        ensures !Cites(claims, j, ref)
      {
        assert i < j ==> NothingShared(claims[i], claims[j]);
        assert j < i ==> NothingShared(claims[j], claims[i]);
      }
    } else {
      var i, j :| 0 <= i < j < |claims| && IsRejecting(claims[i]) && IsRejecting(claims[j])
                  && !NothingShared(claims[i], claims[j]);
      var ref :| ref in claims[i].disposition.evidence && ref in claims[j].disposition.evidence;
      assert Rejects(claims, i) && Rejects(claims, j) && Cites(claims, i, ref) && Cites(claims, j, ref);
    }
  }

  /** Rejecting records cite the rejected submissions, and only they do. */
  lemma CitingMeans(claims: seq<Claim>, rejected: seq<Rejected>)
    ensures var refs := Submissions(rejected);
      && (forall ref :: ref in refs <==> exists i: nat :: Rejects(claims, i) && Cites(claims, i, ref))
      && (forall i: nat, ref | i < |claims| && Cites(claims, i, ref) && ref in refs :: Rejects(claims, i))
      <==> && (forall c, ref | c in claims && ref in c.disposition.evidence ::
                 IsRejecting(c) <==> IsSubmission(rejected, ref))
           && (forall r | r in rejected :: exists c | c in claims :: r.submission in c.disposition.evidence)
  {
    hide Points, Ascending, Submissions;
    var refs := Submissions(rejected);
    SubmissionsMean(rejected);
    if && (forall ref :: ref in refs <==> exists i: nat :: Rejects(claims, i) && Cites(claims, i, ref))
       && (forall i: nat, ref | i < |claims| && Cites(claims, i, ref) && ref in refs :: Rejects(claims, i)) {
      forall c, ref | c in claims && ref in c.disposition.evidence
        ensures IsRejecting(c) <==> IsSubmission(rejected, ref)
      {
        var i :| 0 <= i < |claims| && claims[i] == c;
        assert Cites(claims, i, ref);
      }
      forall r | r in rejected ensures exists c | c in claims :: r.submission in c.disposition.evidence {
        assert r.submission in refs;
        var i: nat :| Rejects(claims, i) && Cites(claims, i, r.submission);
        assert claims[i] in claims;
      }
    }
    if && (forall c, ref | c in claims && ref in c.disposition.evidence ::
             IsRejecting(c) <==> IsSubmission(rejected, ref))
       && (forall r | r in rejected :: exists c | c in claims :: r.submission in c.disposition.evidence) {
      CitingSuffices(claims, rejected);
    }
  }

  lemma CitingSuffices(claims: seq<Claim>, rejected: seq<Rejected>)
    requires forall c, ref | c in claims && ref in c.disposition.evidence ::
      IsRejecting(c) <==> IsSubmission(rejected, ref)
    requires forall r | r in rejected :: exists c | c in claims :: r.submission in c.disposition.evidence
    ensures forall ref ::
      ref in Submissions(rejected) <==> exists i: nat :: Rejects(claims, i) && Cites(claims, i, ref)
    ensures forall i: nat, ref | i < |claims| && Cites(claims, i, ref) && ref in Submissions(rejected) ::
      Rejects(claims, i)
  {
    hide Points, Ascending, Submissions;
    SubmissionsMean(rejected);
    forall i: nat, ref | Cites(claims, i, ref) ensures Rejects(claims, i) <==> ref in Submissions(rejected) {
      assert claims[i] in claims;
    }
    forall ref | ref in Submissions(rejected) ensures exists i: nat :: Rejects(claims, i) && Cites(claims, i, ref) {
      var r :| r in rejected && r.submission == ref;
      var c :| c in claims && ref in c.disposition.evidence;
      var i :| 0 <= i < |claims| && claims[i] == c;
      assert Cites(claims, i, ref);
    }
  }

  lemma CitationsMean(claims: seq<Claim>, rejected: seq<Rejected>)
    ensures RejectionsFit(claims, Submissions(rejected)) <==> CitationsStand(claims, rejected)
  {
    hide Distinct, Before, Points, IsRejecting, IsSubmission, NothingShared, Rejects, Cites, Submissions, RejectionsFit,
      Ascending;
    RejectionsFitExactly(claims, Submissions(rejected));
    SubmissionsMean(rejected);
    RejectingMeans(claims);
    ApartMeans(claims);
    CitingMeans(claims, rejected);
  }

  /** Evidence made of an accepted assessment is accepted exactly if its subject, its turns and the trace
      of a review stand, the rejected submissions and their citations do, and it is within its budget. */
  lemma EvidenceAcceptedExactly(at: Setting, e: Evidence, hashes: ReviewHashes, value: Value, receipt: Receipt)
    requires Knows(at.schema) && MadeOf(at, e, value, receipt) && ReceiptOfAssessment(receipt)
    ensures EvidenceValid(at, e, hashes) <==>
      && SubjectStands(e) && TurnsStand(e.turns)
      && (e.turns.trace.Some? ==> TraceStands(e.turns.trace.value, e, hashes))
      && (forall r | r in e.rejected :: SubmissionStands(r))
      && CitationsStand(ClaimsOf(e.records), e.rejected) && JsonBudget(EvidenceDict(e))
  {
    hide EvidenceValid, MadeOf, HeadFine, RejectedValid, RejectionsFit, SubjectStands, TurnsStand, TraceStands,
      SubmissionStands, CitationsStand, JsonBudget, EvidenceDict, Knows, ReceiptOfAssessment;
    OnlyTheRestIsDecided(at, e, hashes, value, receipt);
    HeadMeans(e, hashes);
    forall r ensures RejectedValid(r) <==> SubmissionStands(r) {
      SubmissionMeans(r);
    }
    CitationsMean(ClaimsOf(e.records), e.rejected);
  }
}
