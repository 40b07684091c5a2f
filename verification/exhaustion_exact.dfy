/** The accepted assessments as what is printed: which claims may stand in one, stated without the
    parsers, the tables and the loops. */
module ExhaustionExact {
  import opened Wrappers
  import opened PythonText
  import opened Refs
  import opened BundleValues
  import opened BundleBudget
  import opened BundleRecords
  import opened ExhaustionClaims
  import opened ExhaustionBudget
  import opened ExhaustionAssessment

  function Printed(claims: seq<Claim>): (items: seq<Value>)
    ensures |items| == |claims|
  {
    seq(|claims|, i requires 0 <= i < |claims| => ClaimDict(claims[i]))
  }

  /** The value is the printed assessment of these claims for this completion contract. */
  predicate Says(value: Value, document: Value, claims: seq<Claim>) {
    value == Object(["exhaustion_assessment"],
                    [Object(["completion_contract", "exploration_records", "schema_ref"],
                            [document, List(Printed(claims)),
                             Text(Points("meta-research/bundle-exhaustion-assessment/v1"))])])
  }

  // ----- One claim ----------------------------------------------------------------------

  /** The last brief of the experiment. */
  ghost predicate BriefFor(contract: Contract, experiment: Str, b: Brief) {
    exists i | 0 <= i < |contract| ::
      && contract[i] == b && b.experiment == experiment
      && forall j | i < j < |contract| :: contract[j].experiment != experiment
  }

  /** The operation is settled by a current receipt of its own. */
  predicate IsSettled(r: Reconciliation) {
    && r.outcome in {Points("succeeded"), Points("rejected"), Points("cancelled"), Points("no_effect"),
                     Points("already_applied")}
    && r.receipt.subject == r.operation
    && r.receipt.verified && r.receipt.currentnessKnown && r.receipt.current
  }

  /** The route was disposed for this experiment alone, with evidence and without changes, and each of its
      known operations was settled once. */
  predicate RouteIsDisposed(c: Claim) {
    var d := c.disposition;
    && d.routeRef == c.route.ref && d.experiments == [c.experiment]
    && d.outcome in {Points("duplicate_frozen_semantics"), Points("semantically_ineligible"),
                     Points("attempted_rejected")}
    && d.requiredChanges == [] && d.evidence != []
    && (forall i, j | 0 <= i < j < |d.reconciliations| ::
          d.reconciliations[i].operation != d.reconciliations[j].operation)
    && (forall r | r in d.reconciliations :: IsSettled(r) && r.operation in c.route.operations)
    && (forall o | o in c.route.operations :: exists r | r in d.reconciliations :: r.operation == o)
  }

  /** The claim stands on its own: it binds exactly the slots that its brief holds fixed, in order, its
      route is disposed, and its fingerprint is that of its plan, cell, bindings and route. */
  ghost predicate ClaimStands(at: Setting, contract: Contract, c: Claim) {
    && ClaimFine(c)
    && (exists b :: BriefFor(contract, c.experiment, b) && multiset(Slots(c.held)) == multiset(b.heldSlots))
    && Ascending(Slots(c.held))
    && RouteIsDisposed(c)
    && HashFine(at.planHash) && c.fingerprint == at.digest(at.planHash, c.experiment, c.unit, c.held, c.route)
  }

  // ----- All claims ---------------------------------------------------------------------

  /** One reconciliation for an operation, and one operation for a receipt. */
  predicate Compatible(r: Reconciliation, s: Reconciliation) {
    && (r.operation == s.operation ==> r == s)
    && (r.receipt.ref == s.receipt.ref ==> r.operation == s.operation)
  }

  /** Two claims, or one, agree on every external operation. */
  predicate OperationsAgree(a: Claim, b: Claim) {
    forall r, s | r in a.disposition.reconciliations && s in b.disposition.reconciliations :: Compatible(r, s)
  }

  /** The cell is required by some brief. */
  predicate IsRequired(contract: Contract, experiment: Str, unit: Str) {
    exists b | b in contract :: b.experiment == experiment && unit in b.units
  }

  predicate IsClaimed(claims: seq<Claim>, experiment: Str, unit: Str) {
    exists c | c in claims :: c.experiment == experiment && c.unit == unit
  }

  ghost predicate AssessmentStands(at: Setting, contract: Contract, claims: seq<Claim>) {
    && claims != []
    && (forall i | 0 <= i < |claims| :: ClaimStands(at, contract, claims[i]))
    && (forall i, j | 0 <= i < |claims| && 0 <= j < |claims| :: OperationsAgree(claims[i], claims[j]))
    && (forall i, j | 0 <= i < |claims| && 0 <= j < |claims| && claims[i].experiment == claims[j].experiment ::
          claims[i].held == claims[j].held)
    && (forall i, j | 0 <= i < j < |claims| :: Before(claims[i].ref, claims[j].ref))
    && (forall i, j | 0 <= i < j < |claims| ::
          claims[i].route.ref != claims[j].route.ref || claims[i].fingerprint != claims[j].fingerprint)
    && (forall experiment, unit :: IsClaimed(claims, experiment, unit) <==> IsRequired(contract, experiment, unit))
  }

  // ----- The checks mean that -----------------------------------------------------------

  lemma {:induction false} BriefIsTheLast(contract: Contract, experiment: Str)
    ensures forall b :: BriefOf(contract, experiment) == Some(b) <==> BriefFor(contract, experiment, b)
  {
    hide BriefFor;
    if contract == [] {
      assert forall b :: !BriefFor(contract, experiment, b) by { NoBriefWithout(experiment); }
    } else {
      BriefIsTheLast(contract[..|contract| - 1], experiment);
      forall b ensures BriefOf(contract, experiment) == Some(b) <==> BriefFor(contract, experiment, b) {
        BriefAtTheEnd(contract, experiment, b);
      }
    }
  }

  lemma NoBriefWithout(experiment: Str)
    ensures forall b :: !BriefFor([], experiment, b)
  {
  }

  lemma BriefAtTheEnd(contract: Contract, experiment: Str, b: Brief)
    requires contract != []
    ensures var last := |contract| - 1;
      BriefFor(contract, experiment, b)
      <==> if contract[last].experiment == experiment then b == contract[last]
           else BriefFor(contract[..last], experiment, b)
  {
    var last := |contract| - 1;
    var before := contract[..last];
    if contract[last].experiment != experiment {
      if i: nat :| i < |contract| && contract[i] == b && b.experiment == experiment
                   && forall j | i < j < |contract| :: contract[j].experiment != experiment {
        assert before[i] == b;
      }
      if i: nat :| i < last && before[i] == b && b.experiment == experiment
                   && forall j | i < j < last :: before[j].experiment != experiment {
        assert contract[i] == b;
        forall j | i < j < |contract| ensures contract[j].experiment != experiment {
          assert j < last ==> before[j] == contract[j];
        }
      }
    }
  }

  lemma SettlesMeans(r: Reconciliation)
    ensures Settles(r) <==> IsSettled(r)
  {
  }

  lemma OperationsApart(items: seq<Reconciliation>)
    ensures Distinct(OperationsOf(items))
       <==> forall i, j | 0 <= i < j < |items| :: items[i].operation != items[j].operation
  {
    var operations := OperationsOf(items);
    forall i | 0 <= i < |items| ensures operations[i] == items[i].operation {
    }
    if Distinct(operations) {
      forall i, j | 0 <= i < j < |items| ensures items[i].operation != items[j].operation {
        assert operations[i] != operations[j];
      }
    }
  }

  lemma DisposedMeans(c: Claim)
    ensures DispositionFits(c) && OperationsSettled(c) <==> RouteIsDisposed(c)
  {
    hide Settles, IsSettled, Points;
    var items := c.disposition.reconciliations;
    forall r ensures Settles(r) <==> IsSettled(r) {
      SettlesMeans(r);
    }
    OperationsApart(items);
    forall o ensures o in Elements(OperationsOf(items)) <==> exists r | r in items :: r.operation == o {
      if r :| r in items && r.operation == o {
        var i :| 0 <= i < |items| && items[i] == r;
        assert OperationsOf(items)[i] == o;
      }
    }
    assert forall o :: o in Elements(c.route.operations) <==> o in c.route.operations;
    assert (forall i | 0 <= i < |items| :: Settles(items[i])) <==> forall r | r in items :: IsSettled(r);
  }

  lemma SlotsMean(contract: Contract, c: Claim)
    requires Ascending(Slots(c.held))
    ensures SlotsFit(contract, c)
       <==> exists b :: BriefFor(contract, c.experiment, b) && multiset(Slots(c.held)) == multiset(b.heldSlots)
  {
    hide BriefFor, BriefOf, Before;
    BriefIsTheLast(contract, c.experiment);
    if SlotsFit(contract, c) {
      var b := BriefOf(contract, c.experiment).value;
      assert BriefFor(contract, c.experiment, b);
    }
  }

  /** With its projections accepted, a claim is checked exactly if it stands on its own. */
  lemma CheckedMeansStands(at: Setting, contract: Contract, c: Claim)
    requires ClaimFine(c)
    requires Accepted(at.schema, BindingValues(c.held), ROOT_MAX_BYTES)
    requires Accepted(at.schema, RouteValue(c.route), ROOT_MAX_BYTES)
    ensures ClaimChecked(at, contract, c) <==> ClaimStands(at, contract, c)
  {
    hide Accepted, TextFine, HashFine, SlotsFit, DispositionFits, OperationsSettled, RouteIsDisposed, DispositionFine,
      HeldFine, BriefFor;
    DisposedMeans(c);
    if Ascending(Slots(c.held)) {
      SlotsMean(contract, c);
    }
  }

  lemma {:induction false} ReconciliationHeld(claims: seq<Claim>, r: Reconciliation)
    ensures r in AllReconciliations(claims)
       <==> exists i | 0 <= i < |claims| :: r in claims[i].disposition.reconciliations
  {
    if claims != [] {
      var last := |claims| - 1;
      ReconciliationHeld(claims[..last], r);
      assert r in AllReconciliations(claims)
        <==> r in AllReconciliations(claims[..last]) || r in claims[last].disposition.reconciliations;
    }
  }

  lemma AgreementMeans(claims: seq<Claim>)
    ensures ReconciliationsAgree(AllReconciliations(claims))
       <==> forall i, j | 0 <= i < |claims| && 0 <= j < |claims| :: OperationsAgree(claims[i], claims[j])
  {
    hide Compatible, AllReconciliations, ReconciliationsAgree;
    var all := AllReconciliations(claims);
    forall r ensures r in all <==> exists i | 0 <= i < |claims| :: r in claims[i].disposition.reconciliations {
      ReconciliationHeld(claims, r);
    }
    AgreementByMembers(all);
    if forall i, j | 0 <= i < |claims| && 0 <= j < |claims| :: OperationsAgree(claims[i], claims[j]) {
      forall r, s | r in all && s in all ensures Compatible(r, s) {
        var i :| 0 <= i < |claims| && r in claims[i].disposition.reconciliations;
        var j :| 0 <= j < |claims| && s in claims[j].disposition.reconciliations;
        assert OperationsAgree(claims[i], claims[j]);
      }
    }
  }

  lemma AgreementByMembers(items: seq<Reconciliation>)
    ensures ReconciliationsAgree(items) <==> forall r, s | r in items && s in items :: Compatible(r, s)
  {
    if ReconciliationsAgree(items) {
      forall r, s | r in items && s in items ensures Compatible(r, s) {
        var i :| 0 <= i < |items| && items[i] == r;
        var j :| 0 <= j < |items| && items[j] == s;
        assert items[i].operation == items[j].operation ==> items[i] == items[j];
      }
    }
    if forall r, s | r in items && s in items :: Compatible(r, s) {
      forall i, j | 0 <= i < |items| && 0 <= j < |items|
        ensures items[i].operation == items[j].operation ==> items[i] == items[j]
        ensures items[i].receipt.ref == items[j].receipt.ref ==> items[i].operation == items[j].operation
      {
        assert Compatible(items[i], items[j]);
      }
    }
  }

  lemma CellsMean(contract: Contract, claims: seq<Claim>)
    requires claims != []
    ensures CellsCovered(contract, claims)
       <==> forall experiment, unit ::
              IsClaimed(claims, experiment, unit) <==> IsRequired(contract, experiment, unit)
  {
    hide IsClaimed, IsRequired, CellsOf, RequiredCells;
    ClaimedCells(claims);
    RequiredCellsAre(contract);
    var cells, required := CellsOf(claims), RequiredCells(contract);
    FirstCell(claims);
    if forall experiment, unit :: IsClaimed(claims, experiment, unit) <==> IsRequired(contract, experiment, unit) {
      forall cell ensures cell in cells <==> cell in required {
        assert cell == Cell(cell.experiment, cell.unit);
        assert IsClaimed(claims, cell.experiment, cell.unit) <==> IsRequired(contract, cell.experiment, cell.unit);
      }
      assert cells == required;
    }
  }

  lemma ClaimedCells(claims: seq<Claim>)
    ensures forall e, u :: Cell(e, u) in CellsOf(claims) <==> IsClaimed(claims, e, u)
  {
  }

  lemma RequiredCellsAre(contract: Contract)
    ensures forall e, u :: Cell(e, u) in RequiredCells(contract) <==> IsRequired(contract, e, u)
  {
  }

  lemma FirstCell(claims: seq<Claim>)
    requires claims != []
    ensures Cell(claims[0].experiment, claims[0].unit) in CellsOf(claims)
  {
  }

  lemma OrderMeans(claims: seq<Claim>)
    ensures Ascending(ClaimRefs(claims)) <==> forall i, j | 0 <= i < j < |claims| ::
      Before(claims[i].ref, claims[j].ref)
    ensures Distinct(RouteIdentities(claims)) <==> forall i, j | 0 <= i < j < |claims| ::
      claims[i].route.ref != claims[j].route.ref || claims[i].fingerprint != claims[j].fingerprint
  {
    var refs, routes := ClaimRefs(claims), RouteIdentities(claims);
    assert forall i | 0 <= i < |claims| :: refs[i] == claims[i].ref;
    assert forall i | 0 <= i < |claims| :: routes[i] == (claims[i].route.ref, claims[i].fingerprint);
  }

  lemma AcceptedMeansStands(at: Setting, contract: Contract, claims: seq<Claim>)
    requires forall i | 0 <= i < |claims| ::
      && ClaimFine(claims[i])
      && Accepted(at.schema, BindingValues(claims[i].held), ROOT_MAX_BYTES)
      && Accepted(at.schema, RouteValue(claims[i].route), ROOT_MAX_BYTES)
    ensures ClaimsAccepted(at, contract, claims) <==> AssessmentStands(at, contract, claims)
  {
    hide ClaimFine, Accepted, ClaimChecked, ClaimStands, ReconciliationsAgree, OperationsAgree, Ascending, Distinct,
      CellsCovered, Before, IsClaimed, IsRequired;
    forall i | 0 <= i < |claims|
      ensures ClaimChecked(at, contract, claims[i]) <==> ClaimStands(at, contract, claims[i])
    {
      CheckedMeansStands(at, contract, claims[i]);
    }
    AgreementMeans(claims);
    OrderMeans(claims);
    if claims != [] {
      CellsMean(contract, claims);
    }
  }

  // ----- The whole assessment -----------------------------------------------------------

  lemma {:induction false} PrintedReadsBack(claims: seq<Claim>)
    requires forall i | 0 <= i < |claims| :: ClaimFine(claims[i])
    ensures ClaimsFrom(Printed(claims)) == Some(claims)
  {
    hide ClaimFrom, ClaimDict, ClaimFine;
    if claims != [] {
      var last := |claims| - 1;
      PrintedReadsBack(claims[..last]);
      assert Printed(claims)[..last] == Printed(claims[..last]);
      ClaimReadsBack(claims[last]);
      assert claims == claims[..last] + [claims[last]];
    }
  }

  lemma ReadPrintsBack(items: seq<Value>)
    requires ClaimsFrom(items).Some?
    ensures Printed(ClaimsFrom(items).value) == items
    ensures forall i | 0 <= i < |items| :: ClaimFine(ClaimsFrom(items).value[i])
  {
    hide ClaimFrom, ClaimDict, ClaimFine, ClaimsFrom;
    var claims := ClaimsFrom(items).value;
    ClaimsAreParsed(items);
    forall i | 0 <= i < |items| ensures ClaimDict(claims[i]) == items[i] && ClaimFine(claims[i]) {
      ClaimPrintsBack(items[i]);
      ParsedClaimIsFine(items[i]);
    }
  }

  /** The outer form of an assessment with these parts. */
  function Wrapped(document: Value, records: Value): Value {
    Object(ROOT_NAMES, [Object(ASSESSMENT_NAMES, [document, records, Text(Points(ASSESSMENT_SCHEMA))])])
  }

  lemma WrappedOpens(at: Setting, document: Value, records: Value)
    requires at.complete(document).Some?
    ensures OpenedFrom(at, Wrapped(document, records)) == Some(Opened(at.complete(document).value, records))
  {
    hide ItemsOf, Object, Points;
    var parts := [document, records, Text(Points(ASSESSMENT_SCHEMA))];
    ObjectHasItsItems(ASSESSMENT_NAMES, parts);
    ObjectHasItsItems(ROOT_NAMES, [Object(ASSESSMENT_NAMES, parts)]);
  }

  lemma OpenedIsWrapped(at: Setting, value: Value) returns (document: Value)
    requires OpenedFrom(at, value).Some?
    ensures var content := OpenedFrom(at, value).value;
      value == Wrapped(document, content.records) && at.complete(document) == Some(content.contract)
  {
    hide ItemsOf, Object, Points;
    var root := ItemsOf(value, ROOT_NAMES).value;
    var parts := ItemsOf(root[0], ASSESSMENT_NAMES).value;
    document := parts[0];
    ItemsRebuildTheObject(value, ROOT_NAMES);
    ItemsRebuildTheObject(root[0], ASSESSMENT_NAMES);
    assert root == [root[0]] && parts == [parts[0], parts[1], parts[2]];
  }

  lemma SaysIsWrapped(value: Value, document: Value, claims: seq<Claim>)
    ensures Says(value, document, claims) <==> value == Wrapped(document, List(Printed(claims)))
  {
  }

  /** In an assessment within its budget every printed claim projects. */
  lemma PrintedProjects(at: Setting, value: Value, document: Value, claims: seq<Claim>, k: nat)
    requires Knows(at.schema) && JsonBudget(value) && value == Wrapped(document, List(Printed(claims)))
    requires k < |claims| && ClaimFine(claims[k])
    ensures Accepted(at.schema, BindingValues(claims[k].held), ROOT_MAX_BYTES)
    ensures Accepted(at.schema, RouteValue(claims[k].route), ROOT_MAX_BYTES)
  {
    hide JsonBudget, Object, ItemsOf, ClaimFrom, ClaimDict, ClaimFine, Accepted, Knows;
    var parts := [document, List(Printed(claims)), Text(Points(ASSESSMENT_SCHEMA))];
    var inner := Object(ASSESSMENT_NAMES, parts);
    ObjectHasItsItems(ROOT_NAMES, [inner]);
    ObjectItemsAreWithinBudget(value, ROOT_NAMES);
    assert JsonBudget([inner][0]);
    ObjectHasItsItems(ASSESSMENT_NAMES, parts);
    ObjectItemsAreWithinBudget(inner, ASSESSMENT_NAMES);
    assert JsonBudget(parts[1]);
    ItemIsWithinBudget(parts[1], k);
    ClaimReadsBack(claims[k]);
    ClaimProjectionsAreAccepted(at.schema, ClaimDict(claims[k]));
  }

  /** The validator accepts a value exactly if it is within its budget and is the printed assessment of
      claims that stand, for a completion contract of the plan. */
  lemma AcceptedExactly(at: Setting, value: Value)
    requires Knows(at.schema)
    ensures AssessmentAccepted(at, value) <==>
      && JsonBudget(value)
      && exists document, claims ::
           && Says(value, document, claims) && at.complete(document).Some?
           && AssessmentStands(at, at.complete(document).value, claims)
  {
    hide JsonBudget, OpenedFrom, ClaimsFrom, ClaimsAccepted, AssessmentStands, Says, Wrapped, Knows, ClaimFine,
      Accepted;
    if AssessmentAccepted(at, value) {
      var content := OpenedFrom(at, value).value;
      var document := OpenedIsWrapped(at, value);
      var claims := ClaimsFrom(content.records.items).value;
      ReadPrintsBack(content.records.items);
      SaysIsWrapped(value, document, claims);
      forall i | 0 <= i < |claims|
        ensures Accepted(at.schema, BindingValues(claims[i].held), ROOT_MAX_BYTES)
        ensures Accepted(at.schema, RouteValue(claims[i].route), ROOT_MAX_BYTES)
      {
        PrintedProjects(at, value, document, claims, i);
      }
      AcceptedMeansStands(at, content.contract, claims);
    }
    if JsonBudget(value) {
      forall document, claims | Says(value, document, claims) && at.complete(document).Some?
                                && AssessmentStands(at, at.complete(document).value, claims)
        ensures AssessmentAccepted(at, value)
      {
        StandingIsAccepted(at, value, document, claims);
      }
    }
  }

  lemma StandingIsAccepted(at: Setting, value: Value, document: Value, claims: seq<Claim>)
    requires Knows(at.schema) && JsonBudget(value) && Says(value, document, claims)
    requires at.complete(document).Some? && AssessmentStands(at, at.complete(document).value, claims)
    ensures AssessmentAccepted(at, value)
  {
    hide JsonBudget, OpenedFrom, ClaimsFrom, ClaimsAccepted, AssessmentStands, Says, Wrapped, Knows, ClaimFine,
      Accepted;
    var contract := at.complete(document).value;
    SaysIsWrapped(value, document, claims);
    StandingIsFine(at, contract, claims);
    WrappedOpens(at, document, List(Printed(claims)));
    PrintedReadsBack(claims);
    forall i | 0 <= i < |claims|
      ensures Accepted(at.schema, BindingValues(claims[i].held), ROOT_MAX_BYTES)
      ensures Accepted(at.schema, RouteValue(claims[i].route), ROOT_MAX_BYTES)
    {
      PrintedProjects(at, value, document, claims, i);
    }
    AcceptedMeansStands(at, contract, claims);
  }

  lemma StandingIsFine(at: Setting, contract: Contract, claims: seq<Claim>)
    requires AssessmentStands(at, contract, claims)
    ensures forall i | 0 <= i < |claims| :: ClaimFine(claims[i])
  {
    hide ClaimFine, RouteIsDisposed, OperationsAgree, IsClaimed, IsRequired, BriefFor, Ascending;
    assert forall i | 0 <= i < |claims| :: ClaimStands(at, contract, claims[i]);
  }

  // ----- Rejected submissions -----------------------------------------------------------

  /** The citations of rejected submissions are right exactly if those are in order, each is cited by one
      `attempted_rejected` record and by no other record, and such records cite nothing else and
      nothing twice. */
  lemma RejectionsFitExactly(claims: seq<Claim>, rejected: seq<Str>)
    ensures RejectionsFit(claims, rejected) <==>
      && Ascending(rejected)
      && (forall i: nat | Rejects(claims, i) :: Distinct(claims[i].disposition.evidence))
      && (forall i: nat, j: nat, ref | i != j && Rejects(claims, i) && Rejects(claims, j) && Cites(claims, i, ref) ::
            !Cites(claims, j, ref))
      && (forall ref :: ref in rejected <==> exists i: nat :: Rejects(claims, i) && Cites(claims, i, ref))
      && (forall i: nat, ref | i < |claims| && Cites(claims, i, ref) && ref in rejected :: Rejects(claims, i))
  {
    hide Ascending, Distinct;
    CitedApart(claims);
    forall ref
      ensures ref in CitedRejections(claims) <==> exists i: nat :: Rejects(claims, i) && Cites(claims, i, ref)
    {
      if ref in CitedRejections(claims) {
        var i := CitedBySome(claims, ref);
      }
      forall i: nat | Rejects(claims, i) && Cites(claims, i, ref) ensures ref in CitedRejections(claims) {
        CitingIsCited(claims, i, ref);
      }
    }
    SameElements(CitedRejections(claims), rejected);
    OthersCiteNone(claims, rejected);
  }

  lemma SameElements(a: seq<Str>, b: seq<Str>)
    ensures Elements(a) == Elements(b) <==> forall x :: x in a <==> x in b
  {
    assert forall x :: x in a <==> x in Elements(a);
    assert forall x :: x in b <==> x in Elements(b);
  }

  lemma OthersCiteNone(claims: seq<Claim>, rejected: seq<Str>)
    ensures (forall i | 0 <= i < |claims| && claims[i].disposition.outcome != Points("attempted_rejected") ::
               Elements(claims[i].disposition.evidence) * Elements(rejected) == {})
       <==> forall i: nat, ref | i < |claims| && Cites(claims, i, ref) && ref in rejected :: Rejects(claims, i)
  {
    hide Points;
    if forall i: nat, ref | i < |claims| && Cites(claims, i, ref) && ref in rejected :: Rejects(claims, i) {
      forall i | 0 <= i < |claims| && claims[i].disposition.outcome != Points("attempted_rejected")
        ensures Elements(claims[i].disposition.evidence) * Elements(rejected) == {}
      {
        forall ref | ref in claims[i].disposition.evidence ensures ref !in rejected {
          assert Cites(claims, i, ref);
        }
      }
    }
    forall i: nat, ref | i < |claims| && Cites(claims, i, ref) && ref in rejected
                         && Elements(claims[i].disposition.evidence) * Elements(rejected) == {}
      ensures false
    {
      InNoBoth(claims[i].disposition.evidence, rejected, ref);
    }
  }

  /** Nothing is cited twice among the rejecting records. */
  lemma {:induction false} CitedApart(claims: seq<Claim>)
    ensures Distinct(CitedRejections(claims)) <==>
      && (forall i: nat | Rejects(claims, i) :: Distinct(claims[i].disposition.evidence))
      && (forall i: nat, j: nat, ref | i != j && Rejects(claims, i) && Rejects(claims, j) && Cites(claims, i, ref) ::
            !Cites(claims, j, ref))
  {
    hide Distinct;
    if claims == [] {
      NothingTwice();
    } else {
      var last := |claims| - 1;
      var before := claims[..last];
      var cited := CitedRejections(before);
      var own := if Rejects(claims, last) then claims[last].disposition.evidence else [];
      CitedApart(before);
      DistinctBoth(cited, own);
      assert CitedRejections(claims) == cited + own;
      forall i: nat | i < last
        ensures Rejects(claims, i) <==> Rejects(before, i)
        ensures forall ref :: Cites(claims, i, ref) <==> Cites(before, i, ref)
      {
        assert before[i] == claims[i];
      }
      forall ref ensures ref in cited <==> exists i: nat :: i < last && Rejects(claims, i) && Cites(claims, i, ref) {
        if ref in cited {
          var i := CitedBySome(before, ref);
        }
        forall i: nat | i < last && Rejects(claims, i) && Cites(claims, i, ref) ensures ref in cited {
          CitingIsCited(before, i, ref);
        }
      }
      NothingTwice();
    }
  }

  lemma NothingTwice()
    ensures Distinct<Str>([]) && CitedRejections([]) == []
  {
  }

  lemma DistinctBoth(a: seq<Str>, b: seq<Str>)
    ensures Distinct(a + b) <==> Distinct(a) && Distinct(b) && forall x | x in a :: x !in b
  {
    var both := a + b;
    if Distinct(both) {
      DistinctPrefix(a, b);
      forall i, j | 0 <= i < j < |b| ensures b[i] != b[j] {
        assert both[|a| + i] == b[i] && both[|a| + j] == b[j];
      }
      forall x | x in a ensures x !in b {
        NotOnBothSides(a, b, x);
      }
    }
    if Distinct(a) && Distinct(b) && forall x | x in a :: x !in b {
      forall i, j | 0 <= i < j < |both| ensures both[i] != both[j] {
        if i < |a| <= j {
          assert a[i] in a && b[j - |a|] in b;
        }
      }
    }
  }
}
