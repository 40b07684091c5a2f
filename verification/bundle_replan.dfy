/** The closed semantic-replan payload: it exists only when exact barriers dispose every route of
    every unresolved target. */
module BundleReplan {
  import opened PythonText
  import opened Refs
  import opened BundleRecords
  import opened BundleCoverage
  import opened BundleStrategy
  import opened BundleClosures
  import opened BundleResults

  datatype RouteDisposition = RouteDisposition(ref: Str, routeRef: Str, requiredChanges: seq<Str>,
                                               evidence: seq<Str>, reconciliations: seq<Reconciliation>)

  datatype Barrier = Barrier(targetRef: Str, experimentKeys: seq<Str>, dispositions: seq<RouteDisposition>)

  /** None, an exception, or the four sorted tuples. */
  datatype Replan = NotYet | Rejected
                  | Payload(changes: seq<Str>, evidence: seq<Str>, dispositions: seq<Str>, receipts: seq<Str>)

  // ----- Flattened routes, dispositions and reconciliations -----------------------------

  function Flat<T>(parts: seq<seq<T>>): seq<T> {
    if parts == [] then [] else Flat(parts[..|parts| - 1]) + parts[|parts| - 1]
  }

  lemma {:induction false} FlatPrefix<T>(parts: seq<seq<T>>, i: nat)
    requires i <= |parts|
    ensures Flat(parts[..i]) <= Flat(parts)
    decreases |parts|
  {
    if i == |parts| {
      assert parts[..i] == parts;
    } else {
      var shorter := parts[..|parts| - 1];
      FlatPrefix(shorter, i);
      assert shorter[..i] == parts[..i];
    }
  }

  function RouteRefsOf(ds: seq<RouteDisposition>): seq<Str> {
    seq(|ds|, i requires 0 <= i < |ds| => ds[i].routeRef)
  }

  function DispositionRefs(ds: seq<RouteDisposition>): seq<Str> {
    seq(|ds|, i requires 0 <= i < |ds| => ds[i].ref)
  }

  function Reconciled(ds: seq<RouteDisposition>): seq<Reconciliation> {
    Flat(seq(|ds|, i requires 0 <= i < |ds| => ds[i].reconciliations))
  }

  /** One outcome and receipt for each operation, and one operation for each receipt. */
  predicate Consistent(recs: seq<Reconciliation>) {
    forall a, b | a in recs && b in recs ::
      && (a.operation == b.operation ==> a.outcome == b.outcome && a.receipt == b.receipt)
      && (a.receipt.ref == b.receipt.ref ==> a.operation == b.operation)
  }

  /** Nothing occurs twice, and reconciliations agree. */
  predicate Exact(routes: seq<Str>, ds: seq<RouteDisposition>, recs: seq<Reconciliation>) {
    Distinct(routes) && Distinct(RouteRefsOf(ds)) && Distinct(DispositionRefs(ds)) && Consistent(recs)
  }

  lemma PartOfExact(routes: seq<Str>, ds: seq<RouteDisposition>, recs: seq<Reconciliation>,
                    routes': seq<Str>, ds': seq<RouteDisposition>, recs': seq<Reconciliation>)
    requires routes <= routes' && ds <= ds' && recs <= recs' && Exact(routes', ds', recs')
    ensures Exact(routes, ds, recs)
  {
    assert RouteRefsOf(ds) <= RouteRefsOf(ds') && DispositionRefs(ds) <= DispositionRefs(ds');
    assert forall r | r in recs :: r in recs';
  }

  // ----- The sets and dictionaries of the loop ------------------------------------------

  datatype Tally = Tally(expectedRoutes: set<Str>, actualRoutes: set<Str>, changes: set<Str>,
                         evidence: set<Str>, dispositions: set<Str>, receipts: set<Str>,
                         byOperation: map<Str, (Str, Proof)>, receiptSubjects: map<Str, Str>)

  function ChangesOf(ds: seq<RouteDisposition>): set<Str> {
    set d, c | d in ds && c in d.requiredChanges :: c
  }

  function EvidenceOf(ds: seq<RouteDisposition>): set<Str> {
    set d, e | d in ds && e in d.evidence :: e
  }

  function ReceiptsOf(recs: seq<Reconciliation>): set<Str> {
    set r | r in recs :: r.receipt.ref
  }

  ghost predicate ByOperation(m: map<Str, (Str, Proof)>, recs: seq<Reconciliation>) {
    && (forall r | r in recs :: r.operation in m && m[r.operation] == (r.outcome, r.receipt))
    && (forall o | o in m :: exists r :: r in recs && r.operation == o)
  }

  ghost predicate BySubject(m: map<Str, Str>, recs: seq<Reconciliation>) {
    && (forall r | r in recs :: r.receipt.ref in m && m[r.receipt.ref] == r.operation)
    && (forall x | x in m :: exists r :: r in recs && r.receipt.ref == x)
  }

  ghost predicate RecsTallied(t: Tally, recs: seq<Reconciliation>) {
    t.receipts == ReceiptsOf(recs) && ByOperation(t.byOperation, recs) && BySubject(t.receiptSubjects, recs)
  }

  ghost predicate Tallied(t: Tally, routes: seq<Str>, ds: seq<RouteDisposition>) {
    && t.expectedRoutes == Elements(routes)
    && t.actualRoutes == Elements(RouteRefsOf(ds))
    && t.dispositions == Elements(DispositionRefs(ds))
    && t.changes == ChangesOf(ds)
    && t.evidence == EvidenceOf(ds)
  }

  const EMPTY_TALLY := Tally({}, {}, {}, {}, {}, {}, map[], map[])

  lemma DistinctWithNext(refs: seq<Str>, ref: Str)
    requires Distinct(refs)
    ensures Distinct(refs + [ref]) <==> ref !in Elements(refs)
    ensures Elements(refs + [ref]) == Elements(refs) + {ref}
  {
    var next := refs + [ref];
    ElementsOfBoth(refs, [ref]);
    if ref in Elements(refs) {
      var i :| 0 <= i < |refs| && refs[i] == ref;
      assert next[i] == next[|refs|];
    }
  }

  /** The route loop of one candidate. */
  method AddRoutes(t: Tally, routes: seq<Route>, ghost done: seq<Str>) returns (ok: bool, t': Tally)
    requires Distinct(done) && t.expectedRoutes == Elements(done)
    ensures ok <==> Distinct(done + RouteRefs(routes))
    ensures ok ==> t' == t.(expectedRoutes := Elements(done + RouteRefs(routes)))
  {
    t', ok := t, true;
    var refs := RouteRefs(routes);
    assert done + refs[..0] == done;
    for i := 0 to |routes|
      invariant Distinct(done + refs[..i]) && t' == t.(expectedRoutes := Elements(done + refs[..i]))
    {
      DistinctWithNext(done + refs[..i], refs[i]);
      assert done + refs[..i + 1] == (done + refs[..i]) + [refs[i]];
      if routes[i].ref in t'.expectedRoutes {
        assert done + refs[..i + 1] <= done + refs;
        return false, t';
      }
      t' := t'.(expectedRoutes := t'.expectedRoutes + {routes[i].ref});
    }
    assert refs[..|routes|] == refs;
  }

  lemma ConsistentWithNext(t: Tally, recs: seq<Reconciliation>, r: Reconciliation)
    requires Consistent(recs) && RecsTallied(t, recs)
    ensures Consistent(recs + [r])
       <==> && (r.operation in t.byOperation ==> t.byOperation[r.operation] == (r.outcome, r.receipt))
            && (r.receipt.ref in t.receiptSubjects ==> t.receiptSubjects[r.receipt.ref] == r.operation)
  {
    assert forall x :: x in recs + [r] <==> x in recs || x == r;
    if r.operation in t.byOperation {
      var a :| a in recs && a.operation == r.operation;
    }
    if r.receipt.ref in t.receiptSubjects {
      var a :| a in recs && a.receipt.ref == r.receipt.ref;
    }
  }

  function WithReconciliation(t: Tally, r: Reconciliation): Tally {
    t.(byOperation := t.byOperation[r.operation := (r.outcome, r.receipt)],
       receiptSubjects := t.receiptSubjects[r.receipt.ref := r.operation],
       receipts := t.receipts + {r.receipt.ref})
  }

  lemma TallyNextReconciliation(t: Tally, recs: seq<Reconciliation>, r: Reconciliation)
    requires RecsTallied(t, recs) && Consistent(recs + [r])
    ensures RecsTallied(WithReconciliation(t, r), recs + [r])
  {
    hide ByOperation, BySubject, Consistent;
    var next := recs + [r];
    assert r in next && forall x :: x in next <==> x in recs || x == r;
    assert ReceiptsOf(next) == ReceiptsOf(recs) + {r.receipt.ref};
    OperationNext(t.byOperation, recs, r);
    SubjectNext(t.receiptSubjects, recs, r);
  }

  lemma OperationNext(m: map<Str, (Str, Proof)>, recs: seq<Reconciliation>, r: Reconciliation)
    requires ByOperation(m, recs) && Consistent(recs + [r])
    ensures ByOperation(m[r.operation := (r.outcome, r.receipt)], recs + [r])
  {
    var next := recs + [r];
    assert r in next && forall x :: x in next <==> x in recs || x == r;
  }

  lemma SubjectNext(m: map<Str, Str>, recs: seq<Reconciliation>, r: Reconciliation)
    requires BySubject(m, recs) && Consistent(recs + [r])
    ensures BySubject(m[r.receipt.ref := r.operation], recs + [r])
  {
    var next := recs + [r];
    assert r in next && forall x :: x in next <==> x in recs || x == r;
  }

  /** The reconciliation loop of one disposition. */
  method AddReconciliations(t: Tally, more: seq<Reconciliation>, ghost recs: seq<Reconciliation>)
    returns (ok: bool, t': Tally)
    requires Consistent(recs) && RecsTallied(t, recs)
    ensures ok <==> Consistent(recs + more)
    ensures ok ==> RecsTallied(t', recs + more)
    ensures t'.expectedRoutes == t.expectedRoutes && t'.actualRoutes == t.actualRoutes && t'.changes == t.changes
    ensures t'.evidence == t.evidence && t'.dispositions == t.dispositions
  {
    hide Consistent, RecsTallied;
    t', ok := t, true;
    assert recs + more[..0] == recs;
    for i := 0 to |more|
      invariant Consistent(recs + more[..i]) && RecsTallied(t', recs + more[..i])
      invariant t'.expectedRoutes == t.expectedRoutes && t'.actualRoutes == t.actualRoutes && t'.changes == t.changes
      invariant t'.evidence == t.evidence && t'.dispositions == t.dispositions
    {
      var r := more[i];
      ConsistentWithNext(t', recs + more[..i], r);
      assert recs + more[..i + 1] == (recs + more[..i]) + [r];
      var state := if r.operation in t'.byOperation then t'.byOperation[r.operation] else (r.outcome, r.receipt);
      var subject := if r.receipt.ref in t'.receiptSubjects then t'.receiptSubjects[r.receipt.ref] else r.operation;
      if state != (r.outcome, r.receipt) || subject != r.operation {
        PartOfConsistent(recs + more[..i + 1], recs + more);
        return false, t';
      }
      TallyNextReconciliation(t', recs + more[..i], r);
      t' := WithReconciliation(t', r);
    }
    assert more[..|more|] == more;
  }

  lemma PartOfConsistent(recs: seq<Reconciliation>, all: seq<Reconciliation>)
    requires recs <= all
    ensures Consistent(all) ==> Consistent(recs)
  {
    assert forall r | r in recs :: r in all;
  }

  lemma ReconciledNext(ds: seq<RouteDisposition>, d: RouteDisposition)
    ensures Reconciled(ds + [d]) == Reconciled(ds) + d.reconciliations
  {
    var parts := seq(|ds| + 1, i requires 0 <= i < |ds| + 1 => (ds + [d])[i].reconciliations);
    assert parts[..|ds|] == seq(|ds|, i requires 0 <= i < |ds| => ds[i].reconciliations);
  }

  lemma DispositionNext(ds: seq<RouteDisposition>, d: RouteDisposition)
    ensures RouteRefsOf(ds + [d]) == RouteRefsOf(ds) + [d.routeRef]
    ensures DispositionRefs(ds + [d]) == DispositionRefs(ds) + [d.ref]
    ensures ChangesOf(ds + [d]) == ChangesOf(ds) + Elements(d.requiredChanges)
    ensures EvidenceOf(ds + [d]) == EvidenceOf(ds) + Elements(d.evidence)
  {
    assert d in ds + [d] && forall x :: x in ds + [d] <==> x in ds || x == d;
  }

  ghost predicate AllTallied(t: Tally, routes: seq<Str>, ds: seq<RouteDisposition>) {
    Exact(routes, ds, Reconciled(ds)) && Tallied(t, routes, ds) && RecsTallied(t, Reconciled(ds))
  }

  /** One disposition of a barrier. */
  method AddDisposition(t: Tally, d: RouteDisposition, ghost routes: seq<Str>, ghost ds: seq<RouteDisposition>)
    returns (ok: bool, t': Tally)
    requires AllTallied(t, routes, ds)
    ensures ok <==> Exact(routes, ds + [d], Reconciled(ds + [d]))
    ensures ok ==> AllTallied(t', routes, ds + [d])
  {
    hide Consistent, RecsTallied, Distinct, RouteRefsOf, DispositionRefs, ChangesOf, EvidenceOf, Reconciled;
    DispositionNext(ds, d);
    ReconciledNext(ds, d);
    DistinctWithNext(RouteRefsOf(ds), d.routeRef);
    DistinctWithNext(DispositionRefs(ds), d.ref);
    if d.routeRef in t.actualRoutes || d.ref in t.dispositions {
      return false, t;
    }
    t' := t.(actualRoutes := t.actualRoutes + {d.routeRef}, dispositions := t.dispositions + {d.ref},
             changes := t.changes + Elements(d.requiredChanges), evidence := t.evidence + Elements(d.evidence));
    SameReconciliations(t, t', Reconciled(ds));
    ok, t' := AddReconciliations(t', d.reconciliations, Reconciled(ds));
  }

  lemma SameReconciliations(t: Tally, t': Tally, recs: seq<Reconciliation>)
    requires t'.receipts == t.receipts && t'.byOperation == t.byOperation && t'.receiptSubjects == t.receiptSubjects
    ensures RecsTallied(t, recs) ==> RecsTallied(t', recs)
  {
  }

  /** The disposition loop of one barrier. */
  method AddDispositions(t: Tally, more: seq<RouteDisposition>, ghost routes: seq<Str>, ghost ds: seq<RouteDisposition>)
    returns (ok: bool, t': Tally)
    requires AllTallied(t, routes, ds)
    ensures ok <==> Exact(routes, ds + more, Reconciled(ds + more))
    ensures ok ==> AllTallied(t', routes, ds + more)
  {
    hide AllTallied, Exact, Reconciled;
    t', ok := t, true;
    assert ds + more[..0] == ds;
    TalliedIsExact(t, routes, ds);
    for i := 0 to |more|
      invariant AllTallied(t', routes, ds + more[..i])
    {
      assert ds + more[..i + 1] == (ds + more[..i]) + [more[i]];
      ok, t' := AddDisposition(t', more[i], routes, ds + more[..i]);
      if !ok {
        PartOfDispositions(routes, ds + more[..i + 1], ds + more);
        return;
      }
    }
    assert more[..|more|] == more;
    TalliedIsExact(t', routes, ds + more);
  }

  lemma TalliedIsExact(t: Tally, routes: seq<Str>, ds: seq<RouteDisposition>)
    requires AllTallied(t, routes, ds)
    ensures Exact(routes, ds, Reconciled(ds))
  {
  }

  lemma {:induction false} ReconciledPrefix(ds: seq<RouteDisposition>, all: seq<RouteDisposition>)
    requires ds <= all
    ensures Reconciled(ds) <= Reconciled(all)
  {
    var parts := seq(|all|, i requires 0 <= i < |all| => all[i].reconciliations);
    assert parts[..|ds|] == seq(|ds|, i requires 0 <= i < |ds| => ds[i].reconciliations);
    FlatPrefix(parts, |ds|);
  }

  lemma PartOfDispositions(routes: seq<Str>, ds: seq<RouteDisposition>, all: seq<RouteDisposition>)
    requires ds <= all
    ensures Exact(routes, all, Reconciled(all)) ==> Exact(routes, ds, Reconciled(ds))
  {
    hide Exact, Reconciled;
    ReconciledPrefix(ds, all);
    if Exact(routes, all, Reconciled(all)) {
      PartOfExact(routes, ds, Reconciled(ds), routes, all, Reconciled(all));
    }
  }

  // ----- The whole payload --------------------------------------------------------------

  /** What the caller hands over beside the plan: the strategy, its targets, the accepted part
      of it, the barriers, and the work that is not at rest. */
  datatype Request = Request(entries: seq<Entry>, targets: Targets, accepted: seq<Accepted>, acceptedLabels: set<Str>,
                             barriers: map<Str, Barrier>, strategyComplete: bool,
                             requested: set<Str>, blocked: set<Str>, pendingNotices: seq<Str>)
  {
    function Labels(): set<Str> {
      set e | e in entries :: e.name
    }

    function Unresolved(): set<Str> {
      Labels() - acceptedLabels
    }
  }

  predicate HasEntry(entries: seq<Entry>, name: Str) {
    exists e | e in entries :: e.name == name
  }

  function CandidateOf(entries: seq<Entry>, name: Str): (c: Candidate)
    requires HasEntry(entries, name)
    ensures exists e :: e in entries && e.name == name && e.candidate == c
  {
    if entries[0].name == name then entries[0].candidate
    else
      assert entries == [entries[0]] + entries[1..];
      CandidateOf(entries[1..], name)
  }

  predicate AtRest(r: Request) {
    r.barriers != map[] && r.strategyComplete && r.requested == {} && r.blocked == {} && r.pendingNotices == []
  }

  predicate IdentitiesFit(r: Request) {
    && r.acceptedLabels <= r.Labels()
    && r.targets.Keys == r.Labels()
    && forall a, b | a in r.targets && b in r.targets && a != b :: r.targets[a] != r.targets[b]
  }

  predicate BarriersFit(r: Request)
    requires IdentitiesFit(r)
  {
    r.barriers.Keys == set l | l in r.Unresolved() :: r.targets[l]
  }

  function BarrierKeys(r: Request): set<Str> {
    set t, k | t in r.barriers && k in r.barriers[t].experimentKeys :: k
  }

  ghost predicate KeysFit(plan: Plan, r: Request, hash: AggregationHash) {
    && Aggregable(plan, r.accepted, hash)
    && Remaining(plan, Measured(r.accepted)) != {}
    && BarrierKeys(r) == Remaining(plan, Measured(r.accepted))
  }

  /** The label has a candidate, a target and a barrier. */
  predicate ReadyLabel(r: Request, l: Str) {
    HasEntry(r.entries, l) && l in r.targets && r.targets[l] in r.barriers
  }

  predicate Ready(r: Request, labels: seq<Str>) {
    forall l | l in labels :: ReadyLabel(r, l)
  }

  predicate BarrierMatches(r: Request, l: Str)
    requires ReadyLabel(r, l)
  {
    var barrier := r.barriers[r.targets[l]];
    barrier.targetRef == r.targets[l] && barrier.experimentKeys == CandidateOf(r.entries, l).experimentKeys
  }

  function RoutesOf(r: Request, l: Str): seq<Str>
    requires ReadyLabel(r, l)
  {
    RouteRefs(CandidateOf(r.entries, l).routes)
  }

  function DispositionsOf(r: Request, l: Str): seq<RouteDisposition>
    requires ReadyLabel(r, l)
  {
    r.barriers[r.targets[l]].dispositions
  }

  function RoutesAt(r: Request, labels: seq<Str>): seq<seq<Str>>
    requires Ready(r, labels)
  {
    seq(|labels|, i requires 0 <= i < |labels| => RoutesOf(r, labels[i]))
  }

  function DispositionsAt(r: Request, labels: seq<Str>): seq<seq<RouteDisposition>>
    requires Ready(r, labels)
  {
    seq(|labels|, i requires 0 <= i < |labels| => DispositionsOf(r, labels[i]))
  }

  /** All routes of the unresolved candidates, and all dispositions of their barriers. */
  function AllRoutes(r: Request, labels: seq<Str>): seq<Str>
    requires Ready(r, labels)
  {
    Flat(RoutesAt(r, labels))
  }

  function AllDispositions(r: Request, labels: seq<Str>): seq<RouteDisposition>
    requires Ready(r, labels)
  {
    Flat(DispositionsAt(r, labels))
  }

  predicate LabelsMatch(r: Request, labels: seq<Str>)
    requires Ready(r, labels)
  {
    forall l | l in labels :: BarrierMatches(r, l)
  }

  predicate ExactAt(r: Request, labels: seq<Str>)
    requires Ready(r, labels)
  {
    var ds := AllDispositions(r, labels);
    LabelsMatch(r, labels) && Exact(AllRoutes(r, labels), ds, Reconciled(ds))
  }

  lemma PartOfExactAt(r: Request, labels: seq<Str>, i: nat)
    requires i <= |labels| && Ready(r, labels) && ExactAt(r, labels)
    ensures Ready(r, labels[..i]) && ExactAt(r, labels[..i])
  {
    hide Exact, Reconciled, BarrierMatches;
    assert RoutesAt(r, labels[..i]) == RoutesAt(r, labels)[..i];
    assert DispositionsAt(r, labels[..i]) == DispositionsAt(r, labels)[..i];
    FlatPrefix(RoutesAt(r, labels), i);
    FlatPrefix(DispositionsAt(r, labels), i);
    var ds, all := AllDispositions(r, labels[..i]), AllDispositions(r, labels);
    ReconciledPrefix(ds, all);
    PartOfExact(AllRoutes(r, labels[..i]), ds, Reconciled(ds), AllRoutes(r, labels), all, Reconciled(all));
  }

  lemma LabelNext(r: Request, labels: seq<Str>, l: Str)
    requires Ready(r, labels) && ReadyLabel(r, l)
    ensures Ready(r, labels + [l])
    ensures AllRoutes(r, labels + [l]) == AllRoutes(r, labels) + RoutesOf(r, l)
    ensures AllDispositions(r, labels + [l]) == AllDispositions(r, labels) + DispositionsOf(r, l)
    ensures LabelsMatch(r, labels + [l]) <==> LabelsMatch(r, labels) && BarrierMatches(r, l)
  {
    hide BarrierMatches, RoutesOf, DispositionsOf, ReadyLabel;
    var next := labels + [l];
    assert forall x :: x in next <==> x in labels || x == l;
    assert RoutesAt(r, next)[..|labels|] == RoutesAt(r, labels);
    assert DispositionsAt(r, next)[..|labels|] == DispositionsAt(r, labels);
  }

  /** One unresolved label: its routes, and the dispositions of its barrier. */
  method AddLabel(r: Request, l: Str, t: Tally, ghost labels: seq<Str>) returns (ok: bool, t': Tally)
    requires ReadyLabel(r, l) && Ready(r, labels) && LabelsMatch(r, labels)
    requires AllTallied(t, AllRoutes(r, labels), AllDispositions(r, labels))
    ensures Ready(r, labels + [l]) && (ok <==> ExactAt(r, labels + [l]))
    ensures ok ==> AllTallied(t', AllRoutes(r, labels + [l]), AllDispositions(r, labels + [l]))
  {
    hide Reconciled, RecsTallied, Consistent, BarrierMatches, LabelsMatch, AllRoutes, AllDispositions, Distinct,
      RouteRefsOf, DispositionRefs, ChangesOf, EvidenceOf;
    LabelNext(r, labels, l);
    var candidate := CandidateOf(r.entries, l);
    var barrier := r.barriers[r.targets[l]];
    ghost var routes, ds := AllRoutes(r, labels), AllDispositions(r, labels);
    ghost var routes', ds' := routes + RouteRefs(candidate.routes), ds + barrier.dispositions;
    t' := t;
    if !BarrierMatches(r, l) {
      return false, t;
    }
    ok, t' := AddRoutes(t, candidate.routes, routes);
    if !ok {
      return;
    }
    SameReconciliations(t, t', Reconciled(ds));
    ok, t' := AddDispositions(t', barrier.dispositions, routes', ds);
  }

  /** The payload exists: everything is at rest and identified, the barriers are those of the
      unresolved targets, they name exactly the remaining experiments, and every route of every
      unresolved candidate is disposed once. */
  ghost predicate Replans(plan: Plan, r: Request, labels: seq<Str>, hash: AggregationHash) {
    && AtRest(r) && IdentitiesFit(r) && BarriersFit(r) && KeysFit(plan, r, hash)
    && SortedFrom(labels, r.Unresolved()) && Ready(r, labels)
    && ExactAt(r, labels)
    && Elements(AllRoutes(r, labels)) == Elements(RouteRefsOf(AllDispositions(r, labels)))
  }

  ghost predicate PayloadOf(replan: Replan, ds: seq<RouteDisposition>)
    requires replan.Payload?
  {
    && SortedFrom(replan.changes, ChangesOf(ds))
    && SortedFrom(replan.evidence, EvidenceOf(ds))
    && SortedFrom(replan.dispositions, Elements(DispositionRefs(ds)))
    && SortedFrom(replan.receipts, ReceiptsOf(Reconciled(ds)))
  }

  lemma UnresolvedIsReady(r: Request, labels: seq<Str>)
    requires IdentitiesFit(r) && BarriersFit(r) && Elements(labels) <= r.Unresolved()
    ensures Ready(r, labels)
  {
    forall l | l in labels ensures ReadyLabel(r, l) {
      assert l in Elements(labels);
    }
  }

  /** `_closed_semantic_replan_payload` */
  method ClosedSemanticReplanPayload(plan: Plan, r: Request, hash: AggregationHash)
    returns (replan: Replan, ghost order: seq<Str>)
    ensures SortedFrom(order, r.Unresolved())
    ensures replan.NotYet? <==> !AtRest(r) || (IdentitiesFit(r) && !BarriersFit(r))
    ensures replan.Payload? <==> Replans(plan, r, order, hash)
    ensures replan.Payload? ==> PayloadOf(replan, AllDispositions(r, order))
  {
    hide Aggregable, ExactAt, AllTallied, AllRoutes, AllDispositions, SortedFrom, AtRest, BarriersFit, IdentitiesFit,
      BarrierKeys,
      RouteRefsOf, Reconciled, PayloadOf;
    var labels := Sort(r.Unresolved());
    order := labels;
    if !AtRest(r) {
      return NotYet, order;
    }
    if !IdentitiesFit(r) {
      return Rejected, order;
    }
    if !BarriersFit(r) {
      return NotYet, order;
    }
    var results := ResultSets(plan, r.accepted, hash);
    if results.None? {
      return Rejected, order;
    }
    SortedElements(results.value.1, Remaining(plan, Measured(r.accepted)));
    SortedElements(labels, r.Unresolved());
    if results.value.1 == [] || BarrierKeys(r) != Elements(results.value.1) {
      return Rejected, order;
    }
    UnresolvedIsReady(r, labels);
    var t := EMPTY_TALLY;
    NothingTallied(r);
    for i := 0 to |labels|
      invariant Ready(r, labels[..i]) && ExactAt(r, labels[..i])
      invariant AllTallied(t, AllRoutes(r, labels[..i]), AllDispositions(r, labels[..i]))
    {
      assert labels[..i + 1] == labels[..i] + [labels[i]];
      assert labels[i] in labels;
      ExactIsMatched(r, labels[..i]);
      var ok;
      ok, t := AddLabel(r, labels[i], t, labels[..i]);
      if !ok {
        if ExactAt(r, labels) {
          PartOfExactAt(r, labels, i + 1);
        }
        return Rejected, order;
      }
    }
    assert labels[..|labels|] == labels;
    TalliedMeans(t, AllRoutes(r, labels), AllDispositions(r, labels));
    if t.actualRoutes != t.expectedRoutes {
      return Rejected, order;
    }
    var changes := Sort(t.changes);
    var evidence := Sort(t.evidence);
    var dispositions := Sort(t.dispositions);
    var receipts := Sort(t.receipts);
    replan := Payload(changes, evidence, dispositions, receipts);
    assert PayloadOf(replan, AllDispositions(r, labels)) by {
      PayloadFits(replan, AllDispositions(r, labels));
    }
  }

  lemma PayloadFits(replan: Replan, ds: seq<RouteDisposition>)
    requires replan.Payload?
    requires SortedFrom(replan.changes, ChangesOf(ds)) && SortedFrom(replan.evidence, EvidenceOf(ds))
    requires SortedFrom(replan.dispositions, Elements(DispositionRefs(ds)))
    requires SortedFrom(replan.receipts, ReceiptsOf(Reconciled(ds)))
    ensures PayloadOf(replan, ds)
  {
  }

  lemma SortedElements(sorted: seq<Str>, refs: set<Str>)
    requires SortedFrom(sorted, refs)
    ensures Elements(sorted) == refs && (sorted == [] <==> refs == {})
  {
    if sorted != [] {
      ElementsNonempty(sorted);
    }
  }

  lemma NothingTallied(r: Request)
    ensures Ready(r, []) && ExactAt(r, [])
    ensures AllTallied(EMPTY_TALLY, AllRoutes(r, []), AllDispositions(r, []))
  {
    assert RoutesAt(r, []) == [] && DispositionsAt(r, []) == [];
    assert AllDispositions(r, []) == [];
    assert Reconciled([]) == [];
  }

  lemma ExactIsMatched(r: Request, labels: seq<Str>)
    requires Ready(r, labels) && ExactAt(r, labels)
    ensures LabelsMatch(r, labels)
  {
  }

  lemma TalliedMeans(t: Tally, routes: seq<Str>, ds: seq<RouteDisposition>)
    requires AllTallied(t, routes, ds)
    ensures t.expectedRoutes == Elements(routes) && t.actualRoutes == Elements(RouteRefsOf(ds))
    ensures t.changes == ChangesOf(ds) && t.evidence == EvidenceOf(ds)
    ensures t.dispositions == Elements(DispositionRefs(ds)) && t.receipts == ReceiptsOf(Reconciled(ds))
  {
  }

  // ----- What a payload promises --------------------------------------------------------

  lemma {:induction false} DistinctCount<T>(items: seq<T>)
    requires Distinct(items)
    ensures |Elements(items)| == |items|
  {
    if items != [] {
      var before, last := items[..|items| - 1], items[|items| - 1];
      assert items == before + [last];
      ElementsOfBoth(before, [last]);
      DistinctCount(before);
      assert last !in Elements(before) && Elements([last]) == {last};
    }
  }

  /** Exactly one disposition disposes the route. */
  ghost predicate DisposedOnce(ref: Str, ds: seq<RouteDisposition>) {
    exists j :: 0 <= j < |ds| && ds[j].routeRef == ref && forall k | 0 <= k < |ds| && ds[k].routeRef == ref :: k == j
  }

  /** A returned payload: route dispositions and routes correspond one to one, there are as many
      disposition refs as routes, every external operation has one outcome and one receipt and
      every receipt one operation, and the barriers name exactly the experiments that remain. */
  lemma PayloadIsExact(plan: Plan, r: Request, hash: AggregationHash, labels: seq<Str>, replan: Replan)
    requires Replans(plan, r, labels, hash) && replan.Payload? && PayloadOf(replan, AllDispositions(r, labels))
    ensures var routes, ds := AllRoutes(r, labels), AllDispositions(r, labels);
      var recs := Reconciled(ds);
      && |routes| == |ds| == |replan.dispositions|
      && Distinct(routes)
      && (forall ref | ref in routes :: DisposedOnce(ref, ds))
      && (forall d | d in ds :: d.routeRef in routes)
      && (forall a, b | a in recs && b in recs :: a.operation == b.operation <==> a.receipt.ref == b.receipt.ref)
      && (forall a, b | a in recs && b in recs && a.operation == b.operation :: a.outcome == b.outcome)
    ensures BarrierKeys(r) == Remaining(plan, Measured(r.accepted)) != {}
  {
    hide KeysFit, Reconciled, AllRoutes, AllDispositions, LabelsMatch, ChangesOf, EvidenceOf, ReceiptsOf, Consistent,
      BarriersFit, IdentitiesFit;
    var routes, ds := AllRoutes(r, labels), AllDispositions(r, labels);
    PayloadKeys(plan, r, hash);
    CorrespondingRoutes(routes, ds);
    DistinctCount(DispositionRefs(ds));
    AscendingIsDistinct(replan.dispositions);
    DistinctCount(replan.dispositions);
    ConsistentIsABijection(Reconciled(ds));
  }

  lemma PayloadKeys(plan: Plan, r: Request, hash: AggregationHash)
    requires KeysFit(plan, r, hash)
    ensures BarrierKeys(r) == Remaining(plan, Measured(r.accepted)) != {}
  {
  }

  lemma CorrespondingRoutes(routes: seq<Str>, ds: seq<RouteDisposition>)
    requires Distinct(routes) && Distinct(RouteRefsOf(ds)) && Elements(routes) == Elements(RouteRefsOf(ds))
    ensures |routes| == |ds|
    ensures forall ref | ref in routes :: DisposedOnce(ref, ds)
    ensures forall d | d in ds :: d.routeRef in routes
  {
    DistinctCount(routes);
    DistinctCount(RouteRefsOf(ds));
    var refs := RouteRefsOf(ds);
    forall ref | ref in routes ensures DisposedOnce(ref, ds) {
      assert ref in Elements(refs);
      var j :| 0 <= j < |refs| && refs[j] == ref;
      forall k | 0 <= k < |ds| && ds[k].routeRef == ref ensures k == j {
        assert refs[k] == refs[j];
      }
      assert ds[j].routeRef == ref;
    }
    forall d | d in ds ensures d.routeRef in routes {
      var j :| 0 <= j < |ds| && ds[j] == d;
      assert refs[j] in Elements(routes);
    }
  }

  lemma ConsistentIsABijection(recs: seq<Reconciliation>)
    requires Consistent(recs)
    ensures forall a, b | a in recs && b in recs :: a.operation == b.operation <==> a.receipt.ref == b.receipt.ref
    ensures forall a, b | a in recs && b in recs && a.operation == b.operation :: a.outcome == b.outcome
  {
  }
}
