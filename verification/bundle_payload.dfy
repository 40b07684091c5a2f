/** When there is a replan payload and what it holds, stated on the candidates and barriers of the
    request. */
module BundlePayload {
  import opened PythonText
  import opened Refs
  import opened BundleRecords
  import opened BundleCoverage
  import opened BundleStrategy
  import opened BundleClosures
  import opened BundleResults
  import opened BundleReplan

  predicate IsUnresolved(r: Request, e: Entry) {
    e in r.entries && e.name !in r.acceptedLabels
  }

  /** The disposition stands in a barrier of the request. */
  predicate Disposes(r: Request, d: RouteDisposition) {
    exists t | t in r.barriers :: d in r.barriers[t].dispositions
  }

  predicate Reconciles(r: Request, c: Reconciliation) {
    exists t, d | t in r.barriers && d in r.barriers[t].dispositions :: c in d.reconciliations
  }

  /** The barriers are those of the unresolved targets, one each, with their experiments. */
  ghost predicate BarriersAnswer(r: Request) {
    && (forall e | IsUnresolved(r, e) ::
          && e.name in r.targets && r.targets[e.name] in r.barriers
          && r.barriers[r.targets[e.name]].targetRef == r.targets[e.name]
          && r.barriers[r.targets[e.name]].experimentKeys == e.candidate.experimentKeys)
    && (forall t | t in r.barriers :: exists e :: IsUnresolved(r, e) && e.name in r.targets && r.targets[e.name] == t)
  }

  /** The reference is that of a route of an unresolved target. */
  predicate IsRoute(r: Request, ref: Str) {
    exists e, route | e in r.entries && route in e.candidate.routes :: IsUnresolved(r, e) && route.ref == ref
  }

  /** Every route of an unresolved target has one disposition, and every disposition is of such a route. */
  ghost predicate RoutesAnswered(r: Request) {
    && (forall ref | IsRoute(r, ref) :: exists d :: Disposes(r, d) && d.routeRef == ref)
    && (forall d, d' | Disposes(r, d) && Disposes(r, d') && d.routeRef == d'.routeRef :: d == d')
    && (forall d | Disposes(r, d) :: IsRoute(r, d.routeRef))
  }

  /** The four tuples are ascending and hold what the dispositions of the barriers ask for and rest on. */
  ghost predicate PayloadHolds(r: Request, replan: Replan)
    requires replan.Payload?
  {
    && Ascending(replan.changes) && Ascending(replan.evidence)
    && Ascending(replan.dispositions) && Ascending(replan.receipts)
    && (forall x :: x in replan.changes <==> exists d :: Disposes(r, d) && x in d.requiredChanges)
    && (forall x :: x in replan.evidence <==> exists d :: Disposes(r, d) && x in d.evidence)
    && (forall x :: x in replan.dispositions <==> exists d :: Disposes(r, d) && x == d.ref)
    && (forall x :: x in replan.receipts <==> exists c :: Reconciles(r, c) && x == c.receipt.ref)
  }

  // ----- Flattened lists ----------------------------------------------------------------

  lemma {:induction false} FlatHolds<T>(parts: seq<seq<T>>, x: T)
    ensures x in Flat(parts) <==> exists i | 0 <= i < |parts| :: x in parts[i]
  {
    if parts != [] {
      var last := |parts| - 1;
      FlatHolds(parts[..last], x);
      assert x in Flat(parts) <==> x in Flat(parts[..last]) || x in parts[last];
    }
  }

  lemma ReconciledHolds(ds: seq<RouteDisposition>, c: Reconciliation)
    ensures c in Reconciled(ds) <==> exists d | d in ds :: c in d.reconciliations
  {
    var parts := seq(|ds|, i requires 0 <= i < |ds| => ds[i].reconciliations);
    FlatHolds(parts, c);
    if d :| d in ds && c in d.reconciliations {
      var i :| 0 <= i < |ds| && ds[i] == d;
      assert c in parts[i];
    }
  }

  lemma LabelsAreUnresolved(r: Request, labels: seq<Str>)
    requires Elements(labels) == r.Unresolved()
    ensures forall l :: l in labels <==> exists e :: IsUnresolved(r, e) && e.name == l
  {
    assert forall l :: l in labels <==> l in Elements(labels);
    assert forall l :: l in r.Labels() <==> exists e :: e in r.entries && e.name == l;
  }

  lemma CandidateOfEntry(r: Request, e: Entry)
    requires DictionaryOf(r.entries) && e in r.entries
    ensures HasEntry(r.entries, e.name) && CandidateOf(r.entries, e.name) == e.candidate
  {
    var f :| f in r.entries && f.name == e.name && f.candidate == CandidateOf(r.entries, e.name);
    var i :| 0 <= i < |r.entries| && r.entries[i] == e;
    var j :| 0 <= j < |r.entries| && r.entries[j] == f;
    assert i == j || i < j || j < i;
  }

  lemma DispositionsAreThose(r: Request, labels: seq<Str>)
    requires DictionaryOf(r.entries) && Ready(r, labels) && Elements(labels) == r.Unresolved()
    requires IdentitiesFit(r) && BarriersFit(r)
    ensures forall d :: d in AllDispositions(r, labels) <==> Disposes(r, d)
  {
    hide Flat, CandidateOf;
    LabelsAreUnresolved(r, labels);
    assert forall l :: l in labels <==> l in r.Unresolved();
    forall d ensures d in AllDispositions(r, labels) <==> Disposes(r, d) {
      FlatHolds(DispositionsAt(r, labels), d);
      if Disposes(r, d) {
        var t :| t in r.barriers && d in r.barriers[t].dispositions;
        var l :| l in r.Unresolved() && r.targets[l] == t;
        var i :| 0 <= i < |labels| && labels[i] == l;
        assert d in DispositionsAt(r, labels)[i];
      }
      if d in AllDispositions(r, labels) {
        var i :| 0 <= i < |labels| && d in DispositionsAt(r, labels)[i];
        assert labels[i] in labels;
      }
    }
  }

  lemma RoutesAreThose(r: Request, labels: seq<Str>)
    requires DictionaryOf(r.entries) && Ready(r, labels) && Elements(labels) == r.Unresolved()
    ensures forall x :: x in AllRoutes(r, labels) <==> IsRoute(r, x)
  {
    hide Flat, CandidateOf;
    LabelsAreUnresolved(r, labels);
    forall x ensures x in AllRoutes(r, labels) <==> IsRoute(r, x) {
      FlatHolds(RoutesAt(r, labels), x);
      if IsRoute(r, x) {
        var e, route :| e in r.entries && route in e.candidate.routes && IsUnresolved(r, e) && route.ref == x;
        CandidateOfEntry(r, e);
        assert e.name in labels;
        var i :| 0 <= i < |labels| && labels[i] == e.name;
        var k :| 0 <= k < |e.candidate.routes| && e.candidate.routes[k] == route;
        assert RouteRefs(e.candidate.routes)[k] == x;
        assert x in RoutesAt(r, labels)[i];
      }
      if x in AllRoutes(r, labels) {
        var i :| 0 <= i < |labels| && x in RoutesAt(r, labels)[i];
        var e :| IsUnresolved(r, e) && e.name == labels[i];
        CandidateOfEntry(r, e);
        var k :| 0 <= k < |e.candidate.routes| && RouteRefs(e.candidate.routes)[k] == x;
        assert e.candidate.routes[k] in e.candidate.routes;
      }
    }
  }

  // ----- The payload --------------------------------------------------------------------

  lemma BarriersOfUnresolved(r: Request, labels: seq<Str>)
    requires DictionaryOf(r.entries) && Ready(r, labels) && Elements(labels) == r.Unresolved()
    requires IdentitiesFit(r) && BarriersFit(r) && LabelsMatch(r, labels)
    ensures BarriersAnswer(r)
  {
    hide CandidateOf;
    LabelsAreUnresolved(r, labels);
    forall e | IsUnresolved(r, e)
      ensures e.name in r.targets && r.targets[e.name] in r.barriers
      ensures r.barriers[r.targets[e.name]].targetRef == r.targets[e.name]
      ensures r.barriers[r.targets[e.name]].experimentKeys == e.candidate.experimentKeys
    {
      assert e.name in labels;
      CandidateOfEntry(r, e);
      assert BarrierMatches(r, e.name);
    }
    forall t | t in r.barriers
      ensures exists e :: IsUnresolved(r, e) && e.name in r.targets && r.targets[e.name] == t
    {
      var l :| l in r.Unresolved() && r.targets[l] == t;
      assert l in Elements(labels) && l in labels;
      var e :| IsUnresolved(r, e) && e.name == l;
    }
  }

  lemma SameRouteSameDisposition(ds: seq<RouteDisposition>, a: RouteDisposition, b: RouteDisposition)
    requires Distinct(RouteRefsOf(ds)) && a in ds && b in ds && a.routeRef == b.routeRef
    ensures a == b
  {
    var i :| 0 <= i < |ds| && ds[i] == a;
    var j :| 0 <= j < |ds| && ds[j] == b;
    assert RouteRefsOf(ds)[i] == RouteRefsOf(ds)[j];
  }

  lemma RouteRefsHold(ds: seq<RouteDisposition>, ref: Str)
    ensures ref in Elements(RouteRefsOf(ds)) <==> exists d | d in ds :: d.routeRef == ref
  {
    if d :| d in ds && d.routeRef == ref {
      var i :| 0 <= i < |ds| && ds[i] == d;
      assert RouteRefsOf(ds)[i] == ref;
    }
  }

  lemma RoutesOfUnresolved(r: Request, labels: seq<Str>)
    requires DictionaryOf(r.entries) && Ready(r, labels) && Elements(labels) == r.Unresolved()
    requires IdentitiesFit(r) && BarriersFit(r)
    requires Distinct(RouteRefsOf(AllDispositions(r, labels)))
    requires Elements(AllRoutes(r, labels)) == Elements(RouteRefsOf(AllDispositions(r, labels)))
    ensures RoutesAnswered(r)
  {
    hide IsRoute, Disposes, AllRoutes, AllDispositions, IdentitiesFit, BarriersFit, Ready, RouteRefsOf;
    var routes, ds := AllRoutes(r, labels), AllDispositions(r, labels);
    DispositionsAreThose(r, labels);
    RoutesAreThose(r, labels);
    forall ref ensures IsRoute(r, ref) <==> exists d | d in ds :: d.routeRef == ref {
      RouteRefsHold(ds, ref);
      assert ref in routes <==> ref in Elements(routes);
    }
    forall d, d' | Disposes(r, d) && Disposes(r, d') && d.routeRef == d'.routeRef ensures d == d' {
      SameRouteSameDisposition(ds, d, d');
    }
    forall ref | IsRoute(r, ref) ensures exists d :: Disposes(r, d) && d.routeRef == ref {
      var d :| d in ds && d.routeRef == ref;
      assert Disposes(r, d);
    }
    forall d | Disposes(r, d) ensures IsRoute(r, d.routeRef) {
      assert d in ds;
    }
  }

  lemma ListsHold(r: Request, labels: seq<Str>, replan: Replan)
    requires DictionaryOf(r.entries) && Ready(r, labels) && Elements(labels) == r.Unresolved()
    requires IdentitiesFit(r) && BarriersFit(r)
    requires replan.Payload? && PayloadOf(replan, AllDispositions(r, labels))
    ensures PayloadHolds(r, replan)
  {
    hide Disposes, AllDispositions, IdentitiesFit, BarriersFit, Ready, Ascending, Reconciled;
    var ds := AllDispositions(r, labels);
    DispositionsAreThose(r, labels);
    assert forall x :: x in replan.changes <==> x in Elements(replan.changes);
    assert forall x :: x in replan.evidence <==> x in Elements(replan.evidence);
    forall x ensures x in replan.dispositions <==> exists d :: Disposes(r, d) && x == d.ref {
      assert x in replan.dispositions <==> x in Elements(replan.dispositions);
      DispositionRefsHold(ds, x);
    }
    forall x ensures x in replan.receipts <==> exists c :: Reconciles(r, c) && x == c.receipt.ref {
      assert x in replan.receipts <==> x in Elements(replan.receipts);
      ReceiptsHold(r, ds, x);
    }
  }

  lemma DispositionRefsHold(ds: seq<RouteDisposition>, ref: Str)
    ensures ref in Elements(DispositionRefs(ds)) <==> exists d | d in ds :: d.ref == ref
  {
    if d :| d in ds && d.ref == ref {
      var i :| 0 <= i < |ds| && ds[i] == d;
      assert DispositionRefs(ds)[i] == ref;
    }
  }

  lemma ReceiptsHold(r: Request, ds: seq<RouteDisposition>, ref: Str)
    requires forall d :: d in ds <==> Disposes(r, d)
    ensures ref in ReceiptsOf(Reconciled(ds)) <==> exists c :: Reconciles(r, c) && ref == c.receipt.ref
  {
    forall c ensures c in Reconciled(ds) <==> Reconciles(r, c) {
      ReconciledHolds(ds, c);
      if Reconciles(r, c) {
        var t, d :| t in r.barriers && d in r.barriers[t].dispositions && c in d.reconciliations;
        assert Disposes(r, d);
      }
    }
  }

  /** A payload that is returned: the barriers answer exactly the unresolved targets, every route of
      those has one disposition, and the four tuples hold what the dispositions say. */
  lemma PayloadAnswersTheRequest(plan: Plan, r: Request, hash: AggregationHash, labels: seq<Str>, replan: Replan)
    requires DictionaryOf(r.entries) && Replans(plan, r, labels, hash)
    requires replan.Payload? && PayloadOf(replan, AllDispositions(r, labels))
    ensures BarriersAnswer(r) && RoutesAnswered(r) && PayloadHolds(r, replan)
  {
    hide KeysFit, PayloadOf, AllDispositions, AllRoutes, LabelsMatch, BarriersFit, IdentitiesFit, Ready, Consistent,
      Reconciled, PayloadHolds, RoutesAnswered, BarriersAnswer, AtRest;
    SortedElements(labels, r.Unresolved());
    BarriersOfUnresolved(r, labels);
    RoutesOfUnresolved(r, labels);
    ListsHold(r, labels, replan);
  }

  // ----- When there is a payload --------------------------------------------------------

  lemma DistinctInBoth<T>(a: seq<T>, b: seq<T>)
    ensures Distinct(a + b)
       <==> Distinct(a) && Distinct(b) && forall i, j | 0 <= i < |a| && 0 <= j < |b| :: a[i] != b[j]
  {
    var both := a + b;
    if Distinct(both) {
      forall i, j | 0 <= i < |a| && 0 <= j < |b| ensures a[i] != b[j] {
        assert both[i] == a[i] && both[|a| + j] == b[j];
      }
      forall i, j | 0 <= i < j < |a| ensures a[i] != a[j] {
        assert both[i] == a[i] && both[j] == a[j];
      }
      forall i, j | 0 <= i < j < |b| ensures b[i] != b[j] {
        assert both[|a| + i] == b[i] && both[|a| + j] == b[j];
      }
    }
  }

  /** No item occurs twice, in one part or in two. */
  ghost predicate OnceAmong<T>(parts: seq<seq<T>>) {
    forall i, j, k, l |
      && 0 <= i < |parts| && 0 <= j < |parts| && 0 <= k < |parts[i]| && 0 <= l < |parts[j]|
      && parts[i][k] == parts[j][l] :: i == j && k == l
  }

  lemma {:induction false} FlatDistinct<T>(parts: seq<seq<T>>)
    ensures Distinct(Flat(parts)) <==> OnceAmong(parts)
  {
    if parts != [] {
      var last := |parts| - 1;
      FlatDistinct(parts[..last]);
      DistinctInBoth(Flat(parts[..last]), parts[last]);
      LastPartApart(parts);
      OnceAmongFirst(parts);
    }
  }

  lemma LastPartApart<T>(parts: seq<seq<T>>)
    requires parts != []
    ensures var last := |parts| - 1;
      var before := Flat(parts[..last]);
      (forall i, j | 0 <= i < |before| && 0 <= j < |parts[last]| :: before[i] != parts[last][j])
      <==> forall i, k, l | 0 <= i < last && 0 <= k < |parts[i]| && 0 <= l < |parts[last]| ::
             parts[i][k] != parts[last][l]
  {
    hide Flat;
    var last := |parts| - 1;
    var before := Flat(parts[..last]);
    if i, k, l :| 0 <= i < last && 0 <= k < |parts[i]| && 0 <= l < |parts[last]| && parts[i][k] == parts[last][l] {
      FlatHolds(parts[..last], parts[i][k]);
      assert parts[i][k] in parts[..last][i];
    }
    if i, j :| 0 <= i < |before| && 0 <= j < |parts[last]| && before[i] == parts[last][j] {
      FlatHolds(parts[..last], before[i]);
      var m :| 0 <= m < last && before[i] in parts[..last][m];
      var k :| 0 <= k < |parts[m]| && parts[m][k] == before[i];
    }
  }

  lemma OnceAmongFirst<T>(parts: seq<seq<T>>)
    requires parts != []
    ensures var last := |parts| - 1;
      OnceAmong(parts)
      <==> && OnceAmong(parts[..last]) && Distinct(parts[last])
           && forall i, k, l | 0 <= i < last && 0 <= k < |parts[i]| && 0 <= l < |parts[last]| ::
                parts[i][k] != parts[last][l]
  {
  }

  /** No two routes of unresolved targets have one reference. */
  ghost predicate RoutesOnce(r: Request) {
    forall e, f, k, l |
      && IsUnresolved(r, e) && IsUnresolved(r, f) && 0 <= k < |e.candidate.routes| && 0 <= l < |f.candidate.routes|
      && e.candidate.routes[k].ref == f.candidate.routes[l].ref :: e == f && k == l
  }

  /** No two dispositions in the barriers are of one route or have one reference. */
  ghost predicate DispositionsOnce(r: Request) {
    forall t, u, k, l |
      && t in r.barriers && u in r.barriers
      && 0 <= k < |r.barriers[t].dispositions| && 0 <= l < |r.barriers[u].dispositions|
      && (r.barriers[t].dispositions[k].routeRef == r.barriers[u].dispositions[l].routeRef
          || r.barriers[t].dispositions[k].ref == r.barriers[u].dispositions[l].ref) :: t == u && k == l
  }

  /** An operation has one outcome and one receipt, and a receipt one operation, in all the barriers. */
  ghost predicate ReconciliationsAgree(r: Request) {
    forall a, b | Reconciles(r, a) && Reconciles(r, b) ::
      && (a.operation == b.operation ==> a.outcome == b.outcome && a.receipt == b.receipt)
      && (a.receipt.ref == b.receipt.ref ==> a.operation == b.operation)
  }

  lemma RoutesAreOnce(r: Request, labels: seq<Str>)
    requires DictionaryOf(r.entries) && Ready(r, labels) && Elements(labels) == r.Unresolved() && Distinct(labels)
    ensures Distinct(AllRoutes(r, labels)) <==> RoutesOnce(r)
  {
    hide CandidateOf, Flat;
    LabelsAreUnresolved(r, labels);
    var parts := RoutesAt(r, labels);
    FlatDistinct(parts);
    forall e | IsUnresolved(r, e) ensures e.name in labels && CandidateOf(r.entries, e.name) == e.candidate {
      CandidateOfEntry(r, e);
    }
    if OnceAmong(parts) {
      forall e, f, k, l |
        && IsUnresolved(r, e) && IsUnresolved(r, f) && 0 <= k < |e.candidate.routes| && 0 <= l < |f.candidate.routes|
        && e.candidate.routes[k].ref == f.candidate.routes[l].ref
        ensures e == f && k == l
      {
        var i :| 0 <= i < |labels| && labels[i] == e.name;
        var j :| 0 <= j < |labels| && labels[j] == f.name;
        assert parts[i][k] == parts[j][l];
        SameNameSameTarget(r.entries, e, f);
      }
    }
    if RoutesOnce(r) {
      forall i, j, k, l |
        0 <= i < |parts| && 0 <= j < |parts| && 0 <= k < |parts[i]| && 0 <= l < |parts[j]| && parts[i][k] == parts[j][l]
        ensures i == j && k == l
      {
        assert labels[i] in labels && labels[j] in labels;
        var e :| IsUnresolved(r, e) && e.name == labels[i];
        var f :| IsUnresolved(r, f) && f.name == labels[j];
        assert e.candidate.routes[k].ref == f.candidate.routes[l].ref;
      }
    }
  }

  lemma SameNameSameTarget(entries: seq<Entry>, e: Entry, f: Entry)
    requires DictionaryOf(entries) && e in entries && f in entries
    ensures e.name == f.name ==> e == f
  {
    var i :| 0 <= i < |entries| && entries[i] == e;
    var j :| 0 <= j < |entries| && entries[j] == f;
    assert i == j || i < j || j < i;
  }

  /** The references of flattened dispositions, part by part. */
  lemma {:induction false} RefsOfFlat(parts: seq<seq<RouteDisposition>>)
    ensures RouteRefsOf(Flat(parts)) == Flat(seq(|parts|, i requires 0 <= i < |parts| => RouteRefsOf(parts[i])))
    ensures DispositionRefs(Flat(parts)) == Flat(seq(|parts|, i requires 0 <= i < |parts| => DispositionRefs(parts[i])))
  {
    if parts != [] {
      var last := |parts| - 1;
      RefsOfFlat(parts[..last]);
      var routes := seq(|parts|, i requires 0 <= i < |parts| => RouteRefsOf(parts[i]));
      var refs := seq(|parts|, i requires 0 <= i < |parts| => DispositionRefs(parts[i]));
      assert routes[..last] == seq(last, i requires 0 <= i < last => RouteRefsOf(parts[..last][i]));
      assert refs[..last] == seq(last, i requires 0 <= i < last => DispositionRefs(parts[..last][i]));
    }
  }

  /** No two dispositions in the parts have one route or one reference. */
  ghost predicate ApartAmong(parts: seq<seq<RouteDisposition>>) {
    forall i, j, k, l |
      && 0 <= i < |parts| && 0 <= j < |parts| && 0 <= k < |parts[i]| && 0 <= l < |parts[j]|
      && (parts[i][k].routeRef == parts[j][l].routeRef || parts[i][k].ref == parts[j][l].ref) ::
      i == j && k == l
  }

  lemma DistinctAmong(parts: seq<seq<RouteDisposition>>)
    ensures Distinct(RouteRefsOf(Flat(parts))) && Distinct(DispositionRefs(Flat(parts))) <==> ApartAmong(parts)
  {
    hide Flat;
    RefsOfFlat(parts);
    var routes := seq(|parts|, i requires 0 <= i < |parts| => RouteRefsOf(parts[i]));
    var refs := seq(|parts|, i requires 0 <= i < |parts| => DispositionRefs(parts[i]));
    FlatDistinct(routes);
    FlatDistinct(refs);
    if OnceAmong(routes) && OnceAmong(refs) {
      forall i, j, k, l |
        && 0 <= i < |parts| && 0 <= j < |parts| && 0 <= k < |parts[i]| && 0 <= l < |parts[j]|
        && (parts[i][k].routeRef == parts[j][l].routeRef || parts[i][k].ref == parts[j][l].ref)
        ensures i == j && k == l
      {
        assert routes[i][k] == parts[i][k].routeRef && routes[j][l] == parts[j][l].routeRef;
        assert refs[i][k] == parts[i][k].ref && refs[j][l] == parts[j][l].ref;
      }
    }
  }

  lemma ReadyTargets(r: Request, labels: seq<Str>)
    requires Ready(r, labels)
    ensures forall l | l in labels :: l in r.targets && r.targets[l] in r.barriers
    ensures forall i | 0 <= i < |labels| :: labels[i] in labels
  {
  }

  lemma DispositionsAreOnce(r: Request, labels: seq<Str>)
    requires Ready(r, labels) && Elements(labels) == r.Unresolved() && Distinct(labels)
    requires IdentitiesFit(r) && BarriersFit(r)
    ensures var ds := AllDispositions(r, labels);
      Distinct(RouteRefsOf(ds)) && Distinct(DispositionRefs(ds)) <==> DispositionsOnce(r)
  {
    hide Flat, ApartAmong, DispositionsOnce, IdentitiesFit, BarriersFit, Ready;
    var parts := DispositionsAt(r, labels);
    DistinctAmong(parts);
    if ApartAmong(parts) {
      ApartIsOnce(r, labels, parts);
    }
    if DispositionsOnce(r) {
      OnceIsApart(r, labels, parts);
    }
  }

  lemma ApartIsOnce(r: Request, labels: seq<Str>, parts: seq<seq<RouteDisposition>>)
    requires Ready(r, labels) && Elements(labels) == r.Unresolved() && IdentitiesFit(r) && BarriersFit(r)
    requires parts == DispositionsAt(r, labels) && ApartAmong(parts)
    ensures DispositionsOnce(r)
  {
    hide IdentitiesFit, BarriersFit, Ready;
    forall t, u, k, l |
      && t in r.barriers && u in r.barriers
      && 0 <= k < |r.barriers[t].dispositions| && 0 <= l < |r.barriers[u].dispositions|
      && (r.barriers[t].dispositions[k].routeRef == r.barriers[u].dispositions[l].routeRef
          || r.barriers[t].dispositions[k].ref == r.barriers[u].dispositions[l].ref)
      ensures t == u && k == l
    {
      var i := LabelOf(r, labels, t);
      var j := LabelOf(r, labels, u);
      assert parts[i][k] == r.barriers[t].dispositions[k] && parts[j][l] == r.barriers[u].dispositions[l];
    }
  }

  lemma OnceIsApart(r: Request, labels: seq<Str>, parts: seq<seq<RouteDisposition>>)
    requires Ready(r, labels) && Distinct(labels) && IdentitiesFit(r) && DispositionsOnce(r)
    requires parts == DispositionsAt(r, labels)
    ensures ApartAmong(parts)
  {
    hide Ready;
    ReadyTargets(r, labels);
    forall i, j, k, l |
      && 0 <= i < |parts| && 0 <= j < |parts| && 0 <= k < |parts[i]| && 0 <= l < |parts[j]|
      && (parts[i][k].routeRef == parts[j][l].routeRef || parts[i][k].ref == parts[j][l].ref)
      ensures i == j && k == l
    {
      var t, u := r.targets[labels[i]], r.targets[labels[j]];
      assert parts[i][k] == r.barriers[t].dispositions[k] && parts[j][l] == r.barriers[u].dispositions[l];
      assert t == u;
      assert labels[i] == labels[j];
    }
  }

  lemma LabelOf(r: Request, labels: seq<Str>, t: Str) returns (i: nat)
    requires Elements(labels) == r.Unresolved() && IdentitiesFit(r) && BarriersFit(r) && t in r.barriers
    ensures i < |labels| && labels[i] in r.targets && r.targets[labels[i]] == t
  {
    var l :| l in r.Unresolved() && r.targets[l] == t;
    assert l in Elements(labels);
    i :| 0 <= i < |labels| && labels[i] == l;
  }

  /** Everything is at rest: there are barriers, the strategy is complete, and nothing is outstanding. */
  predicate Rests(r: Request) {
    |r.barriers| > 0 && r.strategyComplete && |r.requested| == 0 && |r.blocked| == 0 && |r.pendingNotices| == 0
  }

  /** Every target of the strategy, and nothing else, has an identity of its own. */
  ghost predicate TargetsIdentified(r: Request) {
    && (forall l | l in r.acceptedLabels :: HasEntry(r.entries, l))
    && (forall l :: l in r.targets <==> HasEntry(r.entries, l))
    && (forall a, b | a in r.targets && b in r.targets && r.targets[a] == r.targets[b] :: a == b)
  }

  /** Each barrier is under an unresolved target, and each unresolved target has one. */
  ghost predicate BarriersPresent(r: Request) {
    && (forall e | IsUnresolved(r, e) :: e.name in r.targets && r.targets[e.name] in r.barriers)
    && (forall t | t in r.barriers :: exists e :: IsUnresolved(r, e) && e.name in r.targets && r.targets[e.name] == t)
  }

  /** The barriers name exactly the experiments that remain, and some do. */
  ghost predicate NamesRemaining(plan: Plan, r: Request, hash: AggregationHash) {
    && Aggregable(plan, r.accepted, hash)
    && (exists key :: key in Remaining(plan, Measured(r.accepted)))
    && forall key :: key in Remaining(plan, Measured(r.accepted))
         <==> exists t | t in r.barriers :: key in r.barriers[t].experimentKeys
  }

  ghost predicate MayReplan(plan: Plan, r: Request, hash: AggregationHash) {
    && Rests(r) && TargetsIdentified(r) && BarriersAnswer(r) && NamesRemaining(plan, r, hash)
    && RoutesOnce(r) && DispositionsOnce(r) && RoutesAnswered(r) && ReconciliationsAgree(r)
  }

  lemma IdentifiedMeans(r: Request)
    ensures IdentitiesFit(r) <==> TargetsIdentified(r)
  {
    assert forall l :: l in r.Labels() <==> HasEntry(r.entries, l);
    if TargetsIdentified(r) {
      assert r.targets.Keys == r.Labels();
    }
    if IdentitiesFit(r) {
      assert forall l :: l in r.targets <==> l in r.targets.Keys;
    }
  }

  lemma PresentMeans(r: Request)
    requires IdentitiesFit(r)
    ensures BarriersFit(r) <==> BarriersPresent(r)
  {
    var expected := set l | l in r.Unresolved() :: r.targets[l];
    forall l ensures l in r.Unresolved() <==> exists e :: IsUnresolved(r, e) && e.name == l {
      assert l in r.Labels() <==> exists e :: e in r.entries && e.name == l;
    }
    if BarriersPresent(r) {
      forall t ensures t in expected <==> t in r.barriers.Keys {
        if t in expected {
          var l :| l in r.Unresolved() && r.targets[l] == t;
          var e :| IsUnresolved(r, e) && e.name == l;
        }
        if t in r.barriers {
          var e :| IsUnresolved(r, e) && e.name in r.targets && r.targets[e.name] == t;
          assert e.name in r.Unresolved();
        }
      }
      assert expected == r.barriers.Keys;
    }
    if BarriersFit(r) {
      forall e | IsUnresolved(r, e) ensures e.name in r.targets && r.targets[e.name] in r.barriers {
        assert e.name in r.Unresolved();
        assert r.targets[e.name] in expected;
      }
      forall t | t in r.barriers
        ensures exists e :: IsUnresolved(r, e) && e.name in r.targets && r.targets[e.name] == t
      {
        assert t in expected;
        var l :| l in r.Unresolved() && r.targets[l] == t;
        var e :| IsUnresolved(r, e) && e.name == l;
      }
    }
  }

  lemma AnswerMeans(r: Request, labels: seq<Str>)
    requires DictionaryOf(r.entries) && Ready(r, labels) && Elements(labels) == r.Unresolved()
    requires IdentitiesFit(r) && BarriersFit(r)
    ensures LabelsMatch(r, labels) <==> BarriersAnswer(r)
  {
    hide CandidateOf, IdentitiesFit, BarriersFit;
    LabelsAreUnresolved(r, labels);
    if LabelsMatch(r, labels) {
      BarriersOfUnresolved(r, labels);
    } else {
      var l :| l in labels && !BarrierMatches(r, l);
      var e :| IsUnresolved(r, e) && e.name == l;
      CandidateOfEntry(r, e);
    }
  }

  lemma RoutesAnsweredMeans(r: Request, labels: seq<Str>)
    requires DictionaryOf(r.entries) && Ready(r, labels) && Elements(labels) == r.Unresolved()
    requires IdentitiesFit(r) && BarriersFit(r)
    requires Distinct(RouteRefsOf(AllDispositions(r, labels)))
    ensures Elements(AllRoutes(r, labels)) == Elements(RouteRefsOf(AllDispositions(r, labels))) <==> RoutesAnswered(r)
  {
    hide IsRoute, Disposes, AllRoutes, AllDispositions, IdentitiesFit, BarriersFit, Ready, RouteRefsOf;
    var routes, ds := AllRoutes(r, labels), AllDispositions(r, labels);
    if RoutesAnswered(r) {
      DispositionsAreThose(r, labels);
      RoutesAreThose(r, labels);
      forall ref ensures ref in Elements(routes) <==> ref in Elements(RouteRefsOf(ds)) {
        RouteRefsHold(ds, ref);
        assert ref in routes <==> IsRoute(r, ref);
        assert forall d :: d in ds <==> Disposes(r, d);
      }
    } else if Elements(routes) == Elements(RouteRefsOf(ds)) {
      RoutesOfUnresolved(r, labels);
    }
  }

  lemma AgreeMeans(r: Request, ds: seq<RouteDisposition>)
    requires forall d :: d in ds <==> Disposes(r, d)
    ensures Consistent(Reconciled(ds)) <==> ReconciliationsAgree(r)
  {
    hide Reconciled;
    forall c ensures c in Reconciled(ds) <==> Reconciles(r, c) {
      ReconciledHolds(ds, c);
      if Reconciles(r, c) {
        var t, d :| t in r.barriers && d in r.barriers[t].dispositions && c in d.reconciliations;
        assert Disposes(r, d);
      }
    }
  }

  lemma KeysMean(plan: Plan, r: Request, hash: AggregationHash)
    ensures KeysFit(plan, r, hash) <==> NamesRemaining(plan, r, hash)
  {
    hide Aggregable, Remaining;
    assert forall key :: key in BarrierKeys(r) <==> exists t | t in r.barriers :: key in r.barriers[t].experimentKeys;
  }

  /** The routes, dispositions and reconciliations of labelled barriers fit exactly if those of the
      request do. */
  lemma ExactMeans(r: Request, labels: seq<Str>)
    requires DictionaryOf(r.entries) && Ready(r, labels) && Elements(labels) == r.Unresolved() && Distinct(labels)
    requires IdentitiesFit(r) && BarriersFit(r)
    ensures ExactAt(r, labels) && Elements(AllRoutes(r, labels)) == Elements(RouteRefsOf(AllDispositions(r, labels)))
       <==> BarriersAnswer(r) && RoutesOnce(r) && DispositionsOnce(r) && ReconciliationsAgree(r) && RoutesAnswered(r)
  {
    hide AllRoutes, AllDispositions, IdentitiesFit, BarriersFit, Ready, RouteRefsOf, DispositionRefs, Reconciled,
      Consistent, BarriersAnswer, RoutesOnce, DispositionsOnce, ReconciliationsAgree, RoutesAnswered, Distinct,
      LabelsMatch, Disposes;
    AnswerMeans(r, labels);
    RoutesAreOnce(r, labels);
    DispositionsAreOnce(r, labels);
    DispositionsAreThose(r, labels);
    AgreeMeans(r, AllDispositions(r, labels));
    if Distinct(RouteRefsOf(AllDispositions(r, labels))) {
      RoutesAnsweredMeans(r, labels);
    }
  }

  lemma AnsweringIsPresent(r: Request)
    ensures BarriersAnswer(r) ==> BarriersPresent(r)
  {
  }

  /** There is a payload exactly if the request rests, its targets are identified, its barriers answer
      the unresolved ones and name what remains, each route of those has one disposition, none occurs
      twice, and the reconciliations agree. */
  lemma PayloadExactlyWhen(plan: Plan, r: Request, hash: AggregationHash, labels: seq<Str>)
    requires DictionaryOf(r.entries) && SortedFrom(labels, r.Unresolved())
    ensures Replans(plan, r, labels, hash) <==> MayReplan(plan, r, hash)
  {
    hide KeysFit, NamesRemaining, ExactAt, AllRoutes, AllDispositions, IdentitiesFit, BarriersFit, Ready, RouteRefsOf,
      TargetsIdentified, BarriersPresent, BarriersAnswer, RoutesOnce, DispositionsOnce, ReconciliationsAgree,
      RoutesAnswered, AtRest, Rests, Ascending;
    RestMeans(r);
    IdentifiedMeans(r);
    KeysMean(plan, r, hash);
    AnsweringIsPresent(r);
    SortedElements(labels, r.Unresolved());
    AscendingIsDistinct(labels);
    if IdentitiesFit(r) {
      PresentMeans(r);
      if BarriersFit(r) {
        UnresolvedIsReady(r, labels);
        ExactMeans(r, labels);
      }
    }
  }

  lemma RestMeans(r: Request)
    ensures AtRest(r) <==> Rests(r)
  {
  }

  /** There is no payload yet exactly if the request does not rest, or its targets are identified and
      barriers are missing or too many. */
  lemma NotYetExactlyWhen(r: Request)
    ensures !AtRest(r) || (IdentitiesFit(r) && !BarriersFit(r))
       <==> !Rests(r) || (TargetsIdentified(r) && !BarriersPresent(r))
  {
    hide AtRest, Rests, IdentitiesFit, BarriersFit, TargetsIdentified, BarriersPresent;
    RestMeans(r);
    IdentifiedMeans(r);
    if IdentitiesFit(r) {
      PresentMeans(r);
    }
  }
}
