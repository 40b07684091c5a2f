/** The assessment validator and the evidence constructor, written independently in the source: what
    each accepts, and how they agree.  The completion contract parser, the record schema and the
    digest of a route fingerprint are parameters. */
module ExhaustionAssessment {
  import opened Wrappers
  import opened PythonText
  import opened Refs
  import opened BundleValues
  import opened BundleBudget
  import opened BundleRecords
  import opened ExhaustionClaims
  import opened ExhaustionBudget

  const ASSESSMENT_SCHEMA := "meta-research/bundle-exhaustion-assessment/v1"
  const ASSESSMENT_RECEIPT_KIND := "bundle_exhaustion_primary_assessment_recorded"
  const ROOT_NAMES := ["exhaustion_assessment"]
  const ASSESSMENT_NAMES := ["completion_contract", "exploration_records", "schema_ref"]

  datatype Brief = Brief(experiment: Str, heldSlots: seq<Str>, units: seq<Str>)

  type Contract = seq<Brief>

  /** What the source takes from elsewhere. */
  datatype Setting = Setting(
    schema: Schema,
    planHash: Str,
    complete: Value -> Option<Contract>,
    digest: (Str, Str, Str, seq<Binding>, Route) -> Str)

  function Outcomes(): set<Str> {
    {Points("duplicate_frozen_semantics"), Points("semantically_ineligible"), Points("attempted_rejected")}
  }

  function TerminalOutcomes(): set<Str> {
    {Points("succeeded"), Points("rejected"), Points("cancelled"), Points("no_effect"), Points("already_applied")}
  }

  function OperationsOf(items: seq<Reconciliation>): seq<Str> {
    seq(|items|, i requires 0 <= i < |items| => items[i].operation)
  }

  /** `slots == tuple(sorted(declared))` */
  predicate IsSorted(slots: seq<Str>, declared: seq<Str>) {
    && multiset(slots) == multiset(declared)
    && forall i, j | 0 <= i < j < |slots| :: slots[i] == slots[j] || Before(slots[i], slots[j])
  }

  /** The brief of an experiment; the last one if there are several. */
  function BriefOf(contract: Contract, experiment: Str): Option<Brief> {
    if contract == [] then None
    else if contract[|contract| - 1].experiment == experiment then Some(contract[|contract| - 1])
    else BriefOf(contract[..|contract| - 1], experiment)
  }

  datatype Cell = Cell(experiment: Str, unit: Str)

  function RequiredCells(contract: Contract): set<Cell> {
    set b, u | b in contract && u in b.units :: Cell(b.experiment, u)
  }

  function CellsOf(claims: seq<Claim>): set<Cell> {
    set c | c in claims :: Cell(c.experiment, c.unit)
  }

  /** `bundle_exhaustion_route_fingerprint`; None is the conflict it raises. */
  function RouteFingerprint(at: Setting, c: Claim): Option<Str> {
    if HashFine(at.planHash) && TextFine(c.experiment, REF_MAX) && TextFine(c.unit, REF_MAX)
       && Accepted(at.schema, BindingValues(c.held), ROOT_MAX_BYTES)
       && Accepted(at.schema, RouteValue(c.route), ROOT_MAX_BYTES)
       && Ascending(Slots(c.held)) && Ascending(c.route.operations)
    then Some(at.digest(at.planHash, c.experiment, c.unit, c.held, c.route)) else None
  }

  // ---- Checks on one claim

  predicate Settles(r: Reconciliation) {
    && r.outcome in TerminalOutcomes() && r.receipt.subject == r.operation
    && r.receipt.verified && r.receipt.currentnessKnown && r.receipt.current
  }

  /** One settled reconciliation for every known external operation of the route. */
  predicate OperationsSettled(c: Claim) {
    var items := c.disposition.reconciliations;
    && Distinct(OperationsOf(items)) && Elements(OperationsOf(items)) == Elements(c.route.operations)
    && forall i | 0 <= i < |items| :: Settles(items[i])
  }

  predicate DispositionFits(c: Claim) {
    && c.disposition.routeRef == c.route.ref && c.disposition.experiments == [c.experiment]
    && c.disposition.outcome in Outcomes() && c.disposition.requiredChanges == [] && c.disposition.evidence != []
  }

  /** The held-fixed slots are those of the brief. */
  predicate SlotsFit(contract: Contract, c: Claim) {
    var brief := BriefOf(contract, c.experiment);
    brief.Some? && IsSorted(Slots(c.held), brief.value.heldSlots)
  }

  predicate ClaimChecked(at: Setting, contract: Contract, c: Claim) {
    && SlotsFit(contract, c) && DispositionFits(c) && OperationsSettled(c)
    && RouteFingerprint(at, c) == Some(c.fingerprint)
  }

  // ---- Checks across claims

  predicate HeldAgree(claims: seq<Claim>) {
    forall i, j | 0 <= i < |claims| && 0 <= j < |claims| && claims[i].experiment == claims[j].experiment ::
      claims[i].held == claims[j].held
  }

  function AllReconciliations(claims: seq<Claim>): seq<Reconciliation> {
    if claims == [] then []
    else AllReconciliations(claims[..|claims| - 1]) + claims[|claims| - 1].disposition.reconciliations
  }

  /** One reconciliation for an operation, one operation for a receipt. */
  predicate ReconciliationsAgree(items: seq<Reconciliation>) {
    forall i, j | 0 <= i < |items| && 0 <= j < |items| ::
      && (items[i].operation == items[j].operation ==> items[i] == items[j])
      && (items[i].receipt.ref == items[j].receipt.ref ==> items[i].operation == items[j].operation)
  }

  function ClaimRefs(claims: seq<Claim>): seq<Str> {
    seq(|claims|, i requires 0 <= i < |claims| => claims[i].ref)
  }

  function RouteIdentities(claims: seq<Claim>): seq<(Str, Str)> {
    seq(|claims|, i requires 0 <= i < |claims| => (claims[i].route.ref, claims[i].fingerprint))
  }

  predicate CellsCovered(contract: Contract, claims: seq<Claim>) {
    RequiredCells(contract) != {} && CellsOf(claims) == RequiredCells(contract)
  }

  // ---- The validator

  function ClaimsFrom(items: seq<Value>): (claims: Option<seq<Claim>>)
    ensures claims.Some? ==> |claims.value| == |items|
  {
    hide ClaimFrom;
    if items == [] then Some([])
    else
      var before, last := ClaimsFrom(items[..|items| - 1]), ClaimFrom(items[|items| - 1]);
      if before.Some? && last.Some? then Some(before.value + [last.value]) else None
  }

  lemma {:induction false} ClaimsAreParsed(items: seq<Value>)
    requires ClaimsFrom(items).Some?
    ensures forall i | 0 <= i < |items| :: ClaimFrom(items[i]) == Some(ClaimsFrom(items).value[i])
  {
    hide ClaimFrom;
    if items != [] {
      ClaimsAreParsed(items[..|items| - 1]);
    }
  }

  predicate ClaimsAccepted(at: Setting, contract: Contract, claims: seq<Claim>) {
    && claims != [] && (forall i | 0 <= i < |claims| :: ClaimChecked(at, contract, claims[i]))
    && HeldAgree(claims) && ReconciliationsAgree(AllReconciliations(claims))
    && Ascending(ClaimRefs(claims)) && Distinct(RouteIdentities(claims)) && CellsCovered(contract, claims)
  }

  /** The parts of an assessment of the right outer form. */
  datatype Opened = Opened(contract: Contract, records: Value)

  function OpenedFrom(at: Setting, value: Value): Option<Opened> {
    var root := ItemsOf(value, ROOT_NAMES);
    if root.None? then None
    else
      var parts := ItemsOf(root.value[0], ASSESSMENT_NAMES);
      if parts.None? || parts.value[2] != Text(Points(ASSESSMENT_SCHEMA)) then None
      else
        var contract := at.complete(parts.value[0]);
        if contract.None? then None else Some(Opened(contract.value, parts.value[1]))
  }

  /** `validate_bundle_exhaustion_assessment` accepts the value. */
  predicate AssessmentAccepted(at: Setting, value: Value) {
    && JsonBudget(value) && OpenedFrom(at, value).Some?
    && (var content := OpenedFrom(at, value).value;
        && content.records.List? && ClaimsFrom(content.records.items).Some?
        && ClaimsAccepted(at, content.contract, ClaimsFrom(content.records.items).value))
  }

  // ---- The record and evidence constructors

  datatype Receipt = Receipt(issuer: Str, kind: Str, ref: Str, subject: Str, payload: Str)

  datatype ExplorationRecord = ExplorationRecord(claim: Claim, assessmentHash: Str, receipt: Receipt)

  predicate ReceiptFine(r: Receipt) {
    && TextFine(r.issuer, 96) && TextFine(r.kind, 96) && TextFine(r.ref, REF_MAX) && TextFine(r.subject, REF_MAX)
    && HashFine(r.payload)
  }

  /** The receipts of a record name one operation each. */
  predicate ReceiptsApart(items: seq<Reconciliation>) {
    forall i, j | 0 <= i < |items| && 0 <= j < |items| && items[i].receipt.ref == items[j].receipt.ref ::
      items[i].operation == items[j].operation
  }

  /** `BundleExhaustionExplorationRecord.__post_init__` */
  predicate RecordValid(schema: Schema, r: ExplorationRecord) {
    var c := r.claim;
    && TextFine(c.ref, REF_MAX) && TextFine(c.experiment, REF_MAX) && TextFine(c.unit, REF_MAX)
    && Accepted(schema, BindingValues(c.held), ROOT_MAX_BYTES) && Accepted(schema, RouteValue(c.route), ROOT_MAX_BYTES)
    && Accepted(schema, DispositionValue(c.disposition), ROOT_MAX_BYTES)
    && Ascending(Slots(c.held)) && (forall i | 0 <= i < |c.held| :: HeldFine(c.held[i])) && RouteFine(c.route)
    && TextFine(c.disposition.ref, REF_MAX) && DispositionFits(c) && RefsFine(c.disposition.evidence)
    && OperationsSettled(c)
    && (forall i | 0 <= i < |c.disposition.reconciliations| ::
          var item := c.disposition.reconciliations[i];
          TextFine(item.operation, REF_MAX) && TextFine(item.receipt.ref, REF_MAX))
    && ReceiptsApart(c.disposition.reconciliations)
    && HashFine(c.fingerprint) && HashFine(r.assessmentHash) && ReceiptFine(r.receipt)
    && r.receipt.issuer == Points("agent_runtime") && r.receipt.kind == Points(ASSESSMENT_RECEIPT_KIND)
  }

  /** `bundle_exhaustion_exploration_record_from_claim` */
  function RecordFromClaim(schema: Schema, json: Value, assessmentHash: Str,
                           receipt: Receipt): Option<ExplorationRecord>
  {
    var claim := ClaimFrom(json);
    if claim.Some? && RecordValid(schema, ExplorationRecord(claim.value, assessmentHash, receipt))
    then Some(ExplorationRecord(claim.value, assessmentHash, receipt)) else None
  }

  function ClaimsOf(records: seq<ExplorationRecord>): seq<Claim> {
    seq(|records|, i requires 0 <= i < |records| => records[i].claim)
  }

  /** The checks of `BundleExhaustionEvidence.__post_init__` on its exploration records. */
  predicate EvidenceRecordsFit(at: Setting, contract: Contract, records: seq<ExplorationRecord>, assessmentHash: Str,
                               invocation: Str)
  {
    var claims := ClaimsOf(records);
    && records != []
    && (forall i | 0 <= i < |records| ::
        records[i].assessmentHash == assessmentHash && records[i].receipt.subject == invocation)
    && Ascending(ClaimRefs(claims)) && Distinct(RouteIdentities(claims))
    && (forall i | 0 <= i < |claims| ::
        SlotsFit(contract, claims[i]) && RouteFingerprint(at, claims[i]) == Some(claims[i].fingerprint))
    && HeldAgree(claims) && ReconciliationsAgree(AllReconciliations(claims)) && CellsCovered(contract, claims)
  }

  /** The references that `attempted_rejected` records cite, in order. */
  function CitedRejections(claims: seq<Claim>): seq<Str> {
    if claims == [] then []
    else
      var last := claims[|claims| - 1];
      CitedRejections(claims[..|claims| - 1])
      + (if last.disposition.outcome == Points("attempted_rejected") then last.disposition.evidence else [])
  }

  /** Its checks on the rejected submissions. */
  predicate RejectionsFit(claims: seq<Claim>, rejected: seq<Str>) {
    && Ascending(rejected)
    && Distinct(CitedRejections(claims)) && Elements(CitedRejections(claims)) == Elements(rejected)
    && forall i | 0 <= i < |claims| && claims[i].disposition.outcome != Points("attempted_rejected") ::
         Elements(claims[i].disposition.evidence) * Elements(rejected) == {}
  }

  // ---- Agreement

  lemma {:induction false} OwnReconciliationsAgree(claims: seq<Claim>, k: nat)
    requires k < |claims| && ReconciliationsAgree(AllReconciliations(claims))
    ensures ReconciliationsAgree(claims[k].disposition.reconciliations)
  {
    var last := |claims| - 1;
    var before, own := AllReconciliations(claims[..last]), claims[last].disposition.reconciliations;
    if k < last {
      PartAgrees(before, own, 0, |before|);
      assert (before + own)[0..|before|] == before;
      OwnReconciliationsAgree(claims[..last], k);
    } else {
      PartAgrees(before, own, |before|, |before + own|);
      assert (before + own)[|before|..|before + own|] == own;
    }
  }

  lemma PartAgrees(a: seq<Reconciliation>, b: seq<Reconciliation>, from: nat, to: nat)
    requires ReconciliationsAgree(a + b) && from <= to <= |a + b|
    ensures ReconciliationsAgree((a + b)[from..to])
  {
  }

  /** A claim of an accepted assessment passes every check of the record constructor, the projection
      budgets included. */
  lemma AcceptedClaimIsValid(at: Setting, value: Value, k: nat, assessmentHash: Str, receipt: Receipt)
    requires Knows(at.schema) && AssessmentAccepted(at, value)
    requires k < |OpenedFrom(at, value).value.records.items|
    requires HashFine(assessmentHash) && ReceiptFine(receipt)
    requires receipt.issuer == Points("agent_runtime") && receipt.kind == Points(ASSESSMENT_RECEIPT_KIND)
    ensures RecordFromClaim(at.schema, OpenedFrom(at, value).value.records.items[k], assessmentHash, receipt).Some?
  {
    hide ClaimFrom, Accepted, JsonBudget, TextFine, HashFine, RefsFine, ReceiptFine, OperationsSettled,
      DispositionFits, Ascending, HeldFine, RouteFine, DispositionFine, Knows, ReconciliationsAgree, IsSorted, Distinct,
      HeldAgree;
    var content := OpenedFrom(at, value).value;
    var claims := ClaimsFrom(content.records.items).value;
    ClaimsAreParsed(content.records.items);
    var c := claims[k];
    assert ClaimChecked(at, content.contract, c);
    ClaimIsWithinBudget(at, value, k);
    ClaimProjectionsAreAccepted(at.schema, content.records.items[k]);
    ParsedClaimIsFine(content.records.items[k]);
    OwnReconciliationsAgree(claims, k);
    FineClaimFacts(c);
    ReceiptsAreApart(c.disposition.reconciliations);
  }

  lemma ReceiptsAreApart(items: seq<Reconciliation>)
    requires ReconciliationsAgree(items)
    ensures ReceiptsApart(items)
  {
  }

  lemma FineClaimFacts(c: Claim)
    requires ClaimFine(c)
    ensures RefsFine(c.disposition.evidence) && TextFine(c.disposition.ref, REF_MAX)
    ensures forall i | 0 <= i < |c.disposition.reconciliations| ::
      var item := c.disposition.reconciliations[i];
      TextFine(item.operation, REF_MAX) && TextFine(item.receipt.ref, REF_MAX)
  {
    hide TextFine, RefsFine;
    assert forall i | 0 <= i < |c.disposition.reconciliations| :: ReconciliationFine(c.disposition.reconciliations[i]);
  }

  lemma ClaimIsWithinBudget(at: Setting, value: Value, k: nat)
    requires AssessmentAccepted(at, value) && k < |OpenedFrom(at, value).value.records.items|
    ensures JsonBudget(OpenedFrom(at, value).value.records.items[k])
  {
    hide ClaimsFrom, JsonBudget, ClaimsAccepted;
    ObjectItemsAreWithinBudget(value, ROOT_NAMES);
    var root := ItemsOf(value, ROOT_NAMES).value[0];
    ObjectItemsAreWithinBudget(root, ASSESSMENT_NAMES);
    ItemIsWithinBudget(ItemsOf(root, ASSESSMENT_NAMES).value[1], k);
  }

  /** The root budget of an assessment covers the three projections of a claim, so that no projection
      check of the fingerprint or of the record constructor ever decides. */
  lemma ClaimProjectionsAreAccepted(schema: Schema, json: Value)
    requires Knows(schema) && JsonBudget(json) && ClaimFrom(json).Some?
    ensures var c := ClaimFrom(json).value;
      && Accepted(schema, BindingValues(c.held), ROOT_MAX_BYTES)
      && Accepted(schema, RouteValue(c.route), ROOT_MAX_BYTES)
      && Accepted(schema, DispositionValue(c.disposition), ROOT_MAX_BYTES)
  {
    hide JsonBudget, Accepted, TextFine, HashFine, HeldFrom, RouteFrom, DispositionFrom, DispositionValue, RouteValue,
      BindingValues, Knows;
    ObjectItemsAreWithinBudget(json, CLAIM_NAMES);
    HeldIsAccepted(schema, ItemsOf(json, CLAIM_NAMES).value[2]);
    RouteIsAccepted(schema, ItemsOf(json, CLAIM_NAMES).value[5]);
    DispositionIsAccepted(schema, ItemsOf(json, CLAIM_NAMES).value[6]);
  }

  /** The records that claims become with the receipt of their assessment. */
  function Records(claims: seq<Claim>, assessmentHash: Str, receipt: Receipt): seq<ExplorationRecord> {
    seq(|claims|, i requires 0 <= i < |claims| => ExplorationRecord(claims[i], assessmentHash, receipt))
  }

  lemma ClaimRebuilds(at: Setting, value: Value, k: nat, assessmentHash: Str, receipt: Receipt)
    requires Knows(at.schema) && AssessmentAccepted(at, value)
    requires k < |OpenedFrom(at, value).value.records.items|
    requires HashFine(assessmentHash) && ReceiptFine(receipt)
    requires receipt.issuer == Points("agent_runtime") && receipt.kind == Points(ASSESSMENT_RECEIPT_KIND)
    ensures var items := OpenedFrom(at, value).value.records.items;
      var record := ExplorationRecord(ClaimsFrom(items).value[k], assessmentHash, receipt);
      && RecordFromClaim(at.schema, items[k], assessmentHash, receipt) == Some(record)
      && ClaimDict(record.claim) == items[k]
  {
    hide ClaimFrom, RecordValid, ClaimsAccepted, OpenedFrom, JsonBudget, HashFine, ReceiptFine, Knows;
    ClaimsAreParsed(OpenedFrom(at, value).value.records.items);
    AcceptedClaimIsValid(at, value, k, assessmentHash, receipt);
    ClaimPrintsBack(OpenedFrom(at, value).value.records.items[k]);
  }

  /** Whenever the validator accepts an assessment, every record rebuilds through the claim parser,
      prints back to the same claim, passes the record constructor, and the records together pass the
      checks of the evidence constructor. */
  lemma AcceptedAssessmentBecomesEvidence(at: Setting, value: Value, assessmentHash: Str, receipt: Receipt)
    requires Knows(at.schema) && AssessmentAccepted(at, value)
    requires HashFine(assessmentHash) && ReceiptFine(receipt)
    requires receipt.issuer == Points("agent_runtime") && receipt.kind == Points(ASSESSMENT_RECEIPT_KIND)
    ensures var content := OpenedFrom(at, value).value;
      var records := Records(ClaimsFrom(content.records.items).value, assessmentHash, receipt);
      && |records| == |content.records.items|
      && (forall i | 0 <= i < |records| ::
            && RecordFromClaim(at.schema, content.records.items[i], assessmentHash, receipt) == Some(records[i])
            && ClaimDict(records[i].claim) == content.records.items[i])
      && EvidenceRecordsFit(at, content.contract, records, assessmentHash, receipt.subject)
  {
    hide RecordFromClaim, ClaimFrom, ClaimDict, ClaimsAccepted, OpenedFrom, EvidenceRecordsFit, JsonBudget, HashFine,
      ReceiptFine, Knows;
    var content := OpenedFrom(at, value).value;
    var claims := ClaimsFrom(content.records.items).value;
    forall i | 0 <= i < |claims|
      ensures RecordFromClaim(at.schema, content.records.items[i], assessmentHash, receipt)
           == Some(ExplorationRecord(claims[i], assessmentHash, receipt))
      ensures ClaimDict(claims[i]) == content.records.items[i]
    {
      ClaimRebuilds(at, value, i, assessmentHash, receipt);
    }
    RecordsFitEvidence(at, content.contract, claims, assessmentHash, receipt);
  }

  lemma RecordsFitEvidence(at: Setting, contract: Contract, claims: seq<Claim>, assessmentHash: Str, receipt: Receipt)
    requires ClaimsAccepted(at, contract, claims)
    ensures EvidenceRecordsFit(at, contract, Records(claims, assessmentHash, receipt), assessmentHash, receipt.subject)
  {
    hide ClaimChecked, SlotsFit, RouteFingerprint, HeldAgree, ReconciliationsAgree, Ascending, Distinct, CellsCovered;
    ClaimsFitEvidence(at, contract, claims);
    assert ClaimsOf(Records(claims, assessmentHash, receipt)) == claims;
  }

  lemma ClaimsFitEvidence(at: Setting, contract: Contract, claims: seq<Claim>)
    requires ClaimsAccepted(at, contract, claims)
    ensures forall i | 0 <= i < |claims| ::
      SlotsFit(contract, claims[i]) && RouteFingerprint(at, claims[i]) == Some(claims[i].fingerprint)
    ensures Ascending(ClaimRefs(claims)) && Distinct(RouteIdentities(claims)) && HeldAgree(claims)
    ensures ReconciliationsAgree(AllReconciliations(claims)) && CellsCovered(contract, claims)
  {
    hide SlotsFit, RouteFingerprint, HeldAgree, ReconciliationsAgree, Ascending, Distinct, CellsCovered,
      DispositionFits, OperationsSettled;
    forall i | 0 <= i < |claims|
      ensures SlotsFit(contract, claims[i]) && RouteFingerprint(at, claims[i]) == Some(claims[i].fingerprint)
    {
      assert ClaimChecked(at, contract, claims[i]);
    }
  }

  // ---- What accepted evidence covers

  predicate Cites(claims: seq<Claim>, i: nat, ref: Str) {
    i < |claims| && ref in claims[i].disposition.evidence
  }

  predicate Rejects(claims: seq<Claim>, i: nat) {
    i < |claims| && claims[i].disposition.outcome == Points("attempted_rejected")
  }

  lemma {:induction false} CitedBySome(claims: seq<Claim>, ref: Str) returns (i: nat)
    requires ref in CitedRejections(claims)
    ensures Cites(claims, i, ref) && Rejects(claims, i)
  {
    var last := |claims| - 1;
    if ref in CitedRejections(claims[..last]) {
      i := CitedBySome(claims[..last], ref);
    } else {
      i := last;
    }
  }

  lemma {:induction false} CitingIsCited(claims: seq<Claim>, i: nat, ref: Str)
    requires Cites(claims, i, ref) && Rejects(claims, i)
    ensures ref in CitedRejections(claims)
  {
    var last := |claims| - 1;
    if i < last {
      CitingIsCited(claims[..last], i, ref);
    }
  }

  lemma {:induction false} CitedByOne(claims: seq<Claim>, i: nat, j: nat, ref: Str)
    requires Distinct(CitedRejections(claims))
    requires Cites(claims, i, ref) && Rejects(claims, i) && Cites(claims, j, ref) && Rejects(claims, j) && i <= j
    ensures i == j
  {
    var last := |claims| - 1;
    var before := CitedRejections(claims[..last]);
    var own := if Rejects(claims, last) then claims[last].disposition.evidence else [];
    DistinctPrefix(before, own);
    if j < last {
      CitedByOne(claims[..last], i, j, ref);
    } else if i < last {
      CitingIsCited(claims[..last], i, ref);
      NotOnBothSides(before, own, ref);
    }
  }

  lemma DistinctPrefix(a: seq<Str>, b: seq<Str>)
    requires Distinct(a + b)
    ensures Distinct(a)
  {
    forall i, j | 0 <= i < j < |a| ensures a[i] != a[j] {
      assert (a + b)[i] == a[i] && (a + b)[j] == a[j];
    }
  }

  lemma NotOnBothSides(a: seq<Str>, b: seq<Str>, x: Str)
    requires Distinct(a + b) && x in a
    ensures x !in b
  {
    var p :| 0 <= p < |a| && a[p] == x;
    forall q | 0 <= q < |b| ensures b[q] != x {
      assert (a + b)[p] == x && (a + b)[|a| + q] == b[q];
    }
  }

  lemma OthersCiteNoRejection(claims: seq<Claim>, rejected: seq<Str>, i: nat, ref: Str)
    requires RejectionsFit(claims, rejected) && ref in rejected && i < |claims|
    ensures Cites(claims, i, ref) ==> Rejects(claims, i)
  {
    hide Ascending, Distinct;
    if !Rejects(claims, i) {
      InNoBoth(claims[i].disposition.evidence, rejected, ref);
    }
  }

  lemma InNoBoth(a: seq<Str>, b: seq<Str>, x: Str)
    requires Elements(a) * Elements(b) == {} && x in b
    ensures x !in a
  {
    assert x in a ==> x in Elements(a) * Elements(b);
  }

  /** Accepted evidence covers exactly the required cells, and every rejected submission is cited by
      exactly one record, an `attempted_rejected` one; such records cite nothing else. */
  lemma EvidenceCoversExactly(at: Setting, contract: Contract, records: seq<ExplorationRecord>, rejected: seq<Str>,
                              assessmentHash: Str, invocation: Str)
    requires EvidenceRecordsFit(at, contract, records, assessmentHash, invocation)
    requires RejectionsFit(ClaimsOf(records), rejected)
    ensures var claims := ClaimsOf(records);
      && CellsOf(claims) == RequiredCells(contract)
      && (forall ref | ref in rejected :: exists i: nat :: Cites(claims, i, ref) && Rejects(claims, i))
      && (forall ref, i: nat, j: nat | ref in rejected && Cites(claims, i, ref) && Cites(claims, j, ref) :: i == j)
      && (forall ref, i: nat | Rejects(claims, i) && Cites(claims, i, ref) :: ref in rejected)
  {
    hide Ascending, RouteFingerprint, SlotsFit, HeldAgree, ReconciliationsAgree, Distinct;
    var claims := ClaimsOf(records);
    forall ref | ref in rejected ensures exists i: nat :: Cites(claims, i, ref) && Rejects(claims, i) {
      assert ref in Elements(rejected);
      var i := CitedBySome(claims, ref);
      assert Cites(claims, i, ref) && Rejects(claims, i);
    }
    forall ref, i: nat | ref in rejected && Cites(claims, i, ref) ensures Rejects(claims, i) {
      OthersCiteNoRejection(claims, rejected, i, ref);
    }
    forall ref, i: nat, j: nat | ref in rejected && Cites(claims, i, ref) && Cites(claims, j, ref) ensures i == j {
      if i <= j {
        CitedByOne(claims, i, j, ref);
      } else {
        CitedByOne(claims, j, i, ref);
      }
    }
    forall ref, i: nat | Rejects(claims, i) && Cites(claims, i, ref) ensures ref in rejected {
      CitingIsCited(claims, i, ref);
      assert ref in Elements(CitedRejections(claims));
    }
  }
}
