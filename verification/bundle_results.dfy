/** Realized and remaining experiments of a plan, computed from accepted measurement closures,
    and the gate that admits one disposition of a bundle report. */
module BundleResults {
  import opened Wrappers
  import opened PythonText
  import opened Refs
  import opened BundleClosures
  import opened BundleCoverage
  import opened BundleStrategy

  /** One item of the dictionary of accepted closures. */
  datatype Accepted = Accepted(targetRef: Str, closure: Measurement)

  predicate ValidAccepted(a: Accepted, briefs: Briefs, hash: AggregationHash) {
    a.targetRef == a.closure.targetRef && ValidMeasurement(a.closure, briefs, hash)
  }

  predicate AllAccepted(accepted: seq<Accepted>, briefs: Briefs, hash: AggregationHash) {
    forall a | a in accepted :: ValidAccepted(a, briefs, hash)
  }

  function Measured(accepted: seq<Accepted>): (cs: seq<Coverage>)
    ensures |cs| == |accepted| && forall i | 0 <= i < |accepted| :: cs[i] == accepted[i].closure.Covered()
  {
    seq(|accepted|, i requires 0 <= i < |accepted| => accepted[i].closure.Covered())
  }

  /** The identities that a closure selects: its commit, attempt and metric result. */
  datatype Identity = Commit(ref: Str) | Attempt(ref: Str) | Metric(ref: Str)

  function Identities(c: Measurement): set<Identity> {
    {Commit(c.commitRef)}
    + (if c.attemptRef.Some? then {Attempt(c.attemptRef.value)} else {})
    + (if c.metricRef.Some? then {Metric(c.metricRef.value)} else {})
  }

  predicate DistinctIdentities(accepted: seq<Accepted>) {
    forall i, j | 0 <= i < j < |accepted| :: Identities(accepted[i].closure) !! Identities(accepted[j].closure)
  }

  ghost predicate CellsOnce(cs: seq<Coverage>) {
    forall cell :: CoverCount(cs, cell) <= 1
  }

  ghost predicate MeasuredHeldFixed(accepted: seq<Accepted>, briefs: Briefs) {
    AllValid(Measured(accepted), briefs) && HeldFixed(Measured(accepted), briefs)
  }

  /** The closures that `_result_sets` aggregates without raising. */
  ghost predicate Aggregable(plan: Plan, accepted: seq<Accepted>, hash: AggregationHash) {
    && ValidPlan(plan)
    && AllAccepted(accepted, ByKey(plan.briefs), hash)
    && DistinctIdentities(accepted)
    && MeasuredHeldFixed(accepted, ByKey(plan.briefs))
    && CellsOnce(Measured(accepted))
  }

  // ----- The meaning of the result sets -------------------------------------------------

  function PlanKeys(plan: Plan): set<Str> {
    set b | b in plan.briefs :: b.key
  }

  function MeasuredUnits(cs: seq<Coverage>, key: Str): set<Str> {
    set c | c in cs && key in c.experimentKeys :: c.unit
  }

  predicate FullyMeasured(cs: seq<Coverage>, b: Brief) {
    Elements(b.requiredUnits) == MeasuredUnits(cs, b.key)
  }

  function Realized(plan: Plan, cs: seq<Coverage>): set<Str> {
    set b | b in plan.briefs && FullyMeasured(cs, b) :: b.key
  }

  function Remaining(plan: Plan, cs: seq<Coverage>): set<Str> {
    PlanKeys(plan) - Realized(plan, cs)
  }

  lemma MeasuredUnitsAreRequired(plan: Plan, cs: seq<Coverage>, b: Brief)
    requires ValidPlan(plan) && AllValid(cs, ByKey(plan.briefs)) && b in plan.briefs
    ensures MeasuredUnits(cs, b.key) <= Elements(b.requiredUnits)
  {
    hide ValidBrief, DistinctRefs;
    BriefIsFoundByKey(plan.briefs, b);
    forall c | c in cs && b.key in c.experimentKeys ensures c.unit in b.requiredUnits {
      assert ValidCoverage(c, ByKey(plan.briefs));
    }
  }

  lemma RealizedBrief(plan: Plan, cs: seq<Coverage>, b: Brief)
    requires ValidPlan(plan) && b in plan.briefs
    ensures b.key in Realized(plan, cs) <==> FullyMeasured(cs, b)
  {
    hide ValidBrief, FullyMeasured;
    if b.key in Realized(plan, cs) {
      var other :| other in plan.briefs && FullyMeasured(cs, other) && other.key == b.key;
      SameKeySameBrief(plan.briefs, other, b);
    }
  }

  /** Realized only grows as closures are added. */
  lemma RealizedOnlyGrows(plan: Plan, cs: seq<Coverage>, more: seq<Coverage>)
    requires ValidPlan(plan) && AllValid(cs + more, ByKey(plan.briefs))
    ensures Realized(plan, cs) <= Realized(plan, cs + more)
    ensures Remaining(plan, cs + more) <= Remaining(plan, cs)
  {
    hide ValidPlan, AllValid;
    forall b | b in plan.briefs && FullyMeasured(cs, b) ensures FullyMeasured(cs + more, b) {
      MeasuredUnitsAreRequired(plan, cs + more, b);
      assert MeasuredUnits(cs, b.key) <= MeasuredUnits(cs + more, b.key);
    }
  }

  // ----- Closures of a complete strategy ------------------------------------------------

  type Targets = map<Str, Str>

  /** Every strategy label has its own target. */
  predicate TargetsOf(targets: Targets, entries: seq<Entry>) {
    && targets.Keys == (set e | e in entries :: e.name)
    && forall a, b | a in targets && b in targets && a != b :: targets[a] != targets[b]
  }

  /** The closure is that of the candidate's target and covers what the candidate covers. */
  predicate ClosureOf(a: Accepted, e: Entry, targets: Targets) {
    e.name in targets && a.targetRef == targets[e.name] && a.closure.Covered() == e.candidate.Covered()
  }

  predicate IsAccepted(e: Entry, accepted: seq<Accepted>, targets: Targets)
    requires e.name in targets
  {
    exists a | a in accepted :: a.targetRef == targets[e.name]
  }

  /** Every accepted closure belongs to a candidate of the strategy. */
  predicate ClosuresOf(accepted: seq<Accepted>, entries: seq<Entry>, targets: Targets) {
    && TargetsOf(targets, entries)
    && forall a | a in accepted :: exists e :: e in entries && ClosureOf(a, e, targets)
  }

  lemma AcceptedCandidateIsMeasured(accepted: seq<Accepted>, entries: seq<Entry>, targets: Targets, e: Entry)
    requires DictionaryOf(entries) && ClosuresOf(accepted, entries, targets) && e in entries
    ensures e.name in targets
    ensures IsAccepted(e, accepted, targets) ==> e.candidate.Covered() in Measured(accepted)
  {
    hide Candidate.Covered;
    assert e.name in (set x | x in entries :: x.name);
    if IsAccepted(e, accepted, targets) {
      var a :| a in accepted && a.targetRef == targets[e.name];
      var e' :| e' in entries && ClosureOf(a, e', targets);
      assert e'.name == e.name;
      SameNameSameEntry(entries, e, e');
      var i :| 0 <= i < |accepted| && accepted[i] == a;
      assert Measured(accepted)[i] == e.candidate.Covered();
    }
  }

  lemma SameNameSameEntry(entries: seq<Entry>, a: Entry, b: Entry)
    requires DictionaryOf(entries) && a in entries && b in entries && a.name == b.name
    ensures a == b
  {
    var i :| 0 <= i < |entries| && entries[i] == a;
    var j :| 0 <= j < |entries| && entries[j] == b;
  }

  lemma MeasuredComesFromCandidate(accepted: seq<Accepted>, entries: seq<Entry>, targets: Targets, c: Coverage)
    requires ClosuresOf(accepted, entries, targets) && c in Measured(accepted)
    ensures exists e ::
      e in entries && e.name in targets && IsAccepted(e, accepted, targets) && e.candidate.Covered() == c
  {
    hide Candidate.Covered;
    var i :| 0 <= i < |accepted| && Measured(accepted)[i] == c;
    assert accepted[i] in accepted;
    var e :| e in entries && ClosureOf(accepted[i], e, targets);
    assert IsAccepted(e, accepted, targets);
  }

  lemma EntryOfCoverage(entries: seq<Entry>, c: Coverage)
    requires c in Coverages(entries)
    ensures exists e :: e in entries && e.candidate.Covered() == c
  {
    var i :| 0 <= i < |entries| && Coverages(entries)[i] == c;
    assert entries[i] in entries;
  }

  lemma CoverageOfEntry(entries: seq<Entry>, e: Entry)
    requires e in entries
    ensures e.candidate.Covered() in Coverages(entries)
  {
    var i :| 0 <= i < |entries| && entries[i] == e;
    assert Coverages(entries)[i] == e.candidate.Covered();
  }

  ghost predicate Waits(entries: seq<Entry>, accepted: seq<Accepted>, targets: Targets, key: Str) {
    exists e :: e in entries && key in e.candidate.experimentKeys
      && e.name in targets && !IsAccepted(e, accepted, targets)
  }

  /** For a complete strategy whose candidates' closures are (partly) accepted, an experiment
      remains exactly when one of its candidates has not been accepted. */
  lemma RemainingMeansUnaccepted(plan: Plan, entries: seq<Entry>, targets: Targets, accepted: seq<Accepted>, b: Brief)
    requires DictionaryOf(entries) && CompleteStrategy(plan, entries) && ClosuresOf(accepted, entries, targets)
    requires b in plan.briefs
    ensures b.key in Remaining(plan, Measured(accepted)) <==> Waits(entries, accepted, targets, b.key)
  {
    hide ValidPlan, ValidEntries, SlotsHeldFixed, AcyclicStrategy, CoveredOnce, ClosuresOf, IsAccepted, DictionaryOf,
      FullyMeasured;
    CompletionIsABijection(plan, entries);
    var cs := Measured(accepted);
    RealizedBrief(plan, cs, b);
    if Waits(entries, accepted, targets, b.key) {
      var e :| e in entries && b.key in e.candidate.experimentKeys && e.name in targets
               && !IsAccepted(e, accepted, targets);
      UnacceptedUnitIsMissing(plan, entries, targets, accepted, b, e);
    } else {
      AllAcceptedMeansMeasured(plan, entries, targets, accepted, b);
    }
  }

  lemma UnacceptedUnitIsMissing(plan: Plan, entries: seq<Entry>, targets: Targets, accepted: seq<Accepted>, b: Brief,
                                e: Entry)
    requires DictionaryOf(entries) && ClosuresOf(accepted, entries, targets) && ValidPlan(plan)
    requires ExactAssignment(plan, Coverages(entries)) && b in plan.briefs
    requires e in entries && b.key in e.candidate.experimentKeys
    requires e.name in targets && !IsAccepted(e, accepted, targets)
    ensures !FullyMeasured(Measured(accepted), b)
  {
    hide ValidBrief, ClosuresOf, IsAccepted;
    var c := e.candidate.Covered();
    CoverageOfEntry(entries, e);
    assert b.key in Elements(c.experimentKeys);
    assert b.key in Requiring(plan, c.unit);
    var requiring :| requiring in plan.briefs && c.unit in requiring.requiredUnits && requiring.key == b.key;
    SameKeySameBrief(plan.briefs, requiring, b);
    if c.unit in MeasuredUnits(Measured(accepted), b.key) {
      var measured :| measured in Measured(accepted) && b.key in measured.experimentKeys && measured.unit == c.unit;
      MeasuredComesFromCandidate(accepted, entries, targets, measured);
      var other :| other in entries && other.name in targets && IsAccepted(other, accepted, targets)
                   && other.candidate.Covered() == measured;
      SameUnitSameEntry(entries, e, other);
    }
  }

  lemma SameUnitSameEntry(entries: seq<Entry>, a: Entry, b: Entry)
    requires Independent(Coverages(entries)) && a in entries && b in entries
    requires a.candidate.Covered().unit == b.candidate.Covered().unit
    ensures a == b
  {
    hide Candidate.Covered;
    var i :| 0 <= i < |entries| && entries[i] == a;
    var j :| 0 <= j < |entries| && entries[j] == b;
    assert Coverages(entries)[i].unit == Coverages(entries)[j].unit;
  }

  lemma AllAcceptedMeansMeasured(plan: Plan, entries: seq<Entry>, targets: Targets, accepted: seq<Accepted>, b: Brief)
    requires DictionaryOf(entries) && ClosuresOf(accepted, entries, targets) && ValidPlan(plan)
    requires ExactAssignment(plan, Coverages(entries)) && b in plan.briefs
    requires !Waits(entries, accepted, targets, b.key)
    ensures FullyMeasured(Measured(accepted), b)
  {
    hide ClosuresOf, IsAccepted;
    var cs := Measured(accepted);
    forall u | u in b.requiredUnits ensures u in MeasuredUnits(cs, b.key) {
      assert u in RequiredUnits(plan);
      var c :| c in Coverages(entries) && c.unit == u;
      assert b.key in Requiring(plan, u);
      assert b.key in Elements(c.experimentKeys);
      EntryOfCoverage(entries, c);
      var e :| e in entries && e.candidate.Covered() == c;
      AcceptedCandidateIsMeasured(accepted, entries, targets, e);
      assert b.key in e.candidate.experimentKeys;
      assert IsAccepted(e, accepted, targets);
    }
    forall c | c in cs && b.key in c.experimentKeys ensures c.unit in b.requiredUnits {
      MeasuredComesFromCandidate(accepted, entries, targets, c);
      var e :| e in entries && e.name in targets && IsAccepted(e, accepted, targets) && e.candidate.Covered() == c;
      CoverageOfEntry(entries, e);
      assert b.key in Elements(c.experimentKeys);
      assert b.key in Requiring(plan, c.unit);
      var requiring :| requiring in plan.briefs && c.unit in requiring.requiredUnits && requiring.key == b.key;
      SameKeySameBrief(plan.briefs, requiring, b);
    }
  }

  /** When every candidate is accepted, every experiment is realized. */
  lemma AllAcceptedMeansRealized(plan: Plan, entries: seq<Entry>, targets: Targets, accepted: seq<Accepted>)
    requires DictionaryOf(entries) && CompleteStrategy(plan, entries) && ClosuresOf(accepted, entries, targets)
    requires forall e | e in entries && e.name in targets :: IsAccepted(e, accepted, targets)
    ensures Realized(plan, Measured(accepted)) == PlanKeys(plan) && Remaining(plan, Measured(accepted)) == {}
  {
    hide CompleteStrategy, ClosuresOf, IsAccepted;
    forall b | b in plan.briefs ensures b.key in Realized(plan, Measured(accepted)) {
      RemainingMeansUnaccepted(plan, entries, targets, accepted, b);
    }
  }

  // ----- The aggregation as it runs -----------------------------------------------------

  function UnitsIn(counter: Counter, key: Str): set<Str> {
    set cell | cell in counter && cell.0 == key :: cell.1
  }

  lemma CountedUnits(counter: Counter, cs: seq<Coverage>, key: Str)
    requires CellsCounted(counter, cs)
    ensures UnitsIn(counter, key) == MeasuredUnits(cs, key)
  {
    hide CoverCount;
    forall u | u in UnitsIn(counter, key) ensures u in MeasuredUnits(cs, key) {
      var cell :| cell in counter && cell.0 == key && cell.1 == u;
      assert CountOf(counter, cell) > 0;
      CoverCountOfNone(cs, cell);
      var c :| c in cs && Covers(c, cell);
    }
    forall c | c in cs && key in c.experimentKeys ensures c.unit in UnitsIn(counter, key) {
      assert Covers(c, (key, c.unit));
      CoverCountOfNone(cs, (key, c.unit));
      assert CountOf(counter, (key, c.unit)) > 0;
    }
  }

  lemma CountsAreOnce(counter: Counter, cs: seq<Coverage>)
    requires CellsCounted(counter, cs)
    ensures CellsOnce(cs) <==> forall cell | cell in counter :: counter[cell] == 1
  {
    hide CoverCount;
    forall cell ensures CoverCount(cs, cell) == CountOf(counter, cell) {
    }
    forall cell | cell in counter ensures counter[cell] == CoverCount(cs, cell) {
      assert CountOf(counter, cell) == CoverCount(cs, cell);
    }
  }

  /** The closures recorded so far. */
  ghost predicate RecordedClosures(done: seq<Accepted>, briefs: Briefs, taken: set<Identity>, counter: Counter,
                                   held: Established)
  {
    && DistinctIdentities(done)
    && taken == (set a, id | a in done && id in Identities(a.closure) :: id)
    && MeasuredHeldFixed(done, briefs)
    && HeldRecorded(held, Measured(done), briefs)
    && CellsCounted(counter, Measured(done))
  }

  lemma TakeIdentities(done: seq<Accepted>, a: Accepted, taken: set<Identity>)
    requires DistinctIdentities(done) && taken == (set d, id | d in done && id in Identities(d.closure) :: id)
    ensures DistinctIdentities(done + [a]) <==> taken !! Identities(a.closure)
    ensures taken + Identities(a.closure) == (set d, id | d in done + [a] && id in Identities(d.closure) :: id)
  {
    hide Identities;
    var next := done + [a];
    assert forall x :: x in next <==> x in done || x == a;
    if id :| id in taken && id in Identities(a.closure) {
      var d :| d in done && id in Identities(d.closure);
      var i :| 0 <= i < |done| && done[i] == d;
      assert next[i] == d && next[|done|] == a;
    } else {
      forall i | 0 <= i < |done| ensures Identities(done[i].closure) !! Identities(a.closure) {
        assert done[i] in done;
      }
    }
  }

  lemma PartsOfAggregable(accepted: seq<Accepted>, i: nat, briefs: Briefs)
    requires i < |accepted|
    ensures DistinctIdentities(accepted) ==> DistinctIdentities(accepted[..i + 1])
    ensures MeasuredHeldFixed(accepted, briefs) ==> MeasuredHeldFixed(accepted[..i + 1], briefs)
  {
    hide Identities, ValidCoverage, SameHeld;
    assert Measured(accepted[..i + 1]) == Measured(accepted)[..i + 1];
  }

  /** One closure into the sets, the counter and the held-fixed dictionary. */
  method RecordClosure(ghost done: seq<Accepted>, a: Accepted, briefs: Briefs, taken: set<Identity>, counter: Counter,
                       held: Established)
    returns (agreed: bool, taken': set<Identity>, counter': Counter, held': Established)
    requires ValidCoverage(a.closure.Covered(), briefs) && RecordedClosures(done, briefs, taken, counter, held)
    ensures agreed <==> DistinctIdentities(done + [a]) && MeasuredHeldFixed(done + [a], briefs)
    ensures agreed ==> RecordedClosures(done + [a], briefs, taken', counter', held')
  {
    hide HeldRecorded, HeldFixed, CellsCounted, ValidCoverage, Identities, DistinctIdentities;
    taken', counter', held' := taken, counter, held;
    TakeIdentities(done, a, taken);
    assert Measured(done + [a]) == Measured(done) + [a.closure.Covered()];
    if taken * Identities(a.closure) != {} {
      assert !DistinctIdentities(done + [a]);
      return false, taken', counter', held';
    }
    assert forall id | id in taken && id in Identities(a.closure) :: id in taken * Identities(a.closure);
    taken' := taken + Identities(a.closure);
    agreed, counter', held' := AddCoverage(Measured(done), a.closure.Covered(), briefs, counter, held);
    assert agreed <==> MeasuredHeldFixed(done + [a], briefs);
  }

  lemma AcceptedCovers(a: Accepted, briefs: Briefs, hash: AggregationHash)
    requires ValidAccepted(a, briefs, hash)
    ensures ValidCoverage(a.closure.Covered(), briefs)
  {
    hide ClosureProjects, ValidCoverage, DistinctRefs, Aggregated, Reviewed, Receipted;
  }

  /** `_result_sets`: None where the source raises. */
  method ResultSets(plan: Plan, accepted: seq<Accepted>, hash: AggregationHash)
    returns (result: Option<(seq<Str>, seq<Str>)>)
    ensures result.Some? <==> Aggregable(plan, accepted, hash)
    ensures result.Some? ==> SortedFrom(result.value.0, Realized(plan, Measured(accepted)))
    ensures result.Some? ==> SortedFrom(result.value.1, Remaining(plan, Measured(accepted)))
  {
    hide ValidPlan, ValidAccepted, RecordedClosures, MeasuredHeldFixed, DistinctIdentities, CellsOnce, SortedFrom,
      CellsCounted;
    if !ValidPlan(plan) {
      return None;
    }
    var briefs := ByKey(plan.briefs);
    var taken: set<Identity> := {};
    var counter: Counter := map[];
    var held: Established := map[];
    NoClosures(briefs, hash);
    for i := 0 to |accepted|
      invariant AllAccepted(accepted[..i], briefs, hash)
      invariant RecordedClosures(accepted[..i], briefs, taken, counter, held)
    {
      var a := accepted[i];
      assert a in accepted && accepted[..i + 1] == accepted[..i] + [a];
      if !ValidAccepted(a, briefs, hash) {
        return None;
      }
      AcceptedCovers(a, briefs, hash);
      var agreed;
      agreed, taken, counter, held := RecordClosure(accepted[..i], a, briefs, taken, counter, held);
      if !agreed {
        PartsOfAggregable(accepted, i, briefs);
        return None;
      }
    }
    assert accepted[..|accepted|] == accepted;
    RecordedMeans(accepted, briefs, taken, counter, held);
    CountsAreOnce(counter, Measured(accepted));
    if exists cell | cell in counter :: counter[cell] != 1 {
      return None;
    }
    forall b | b in plan.briefs { CountedUnits(counter, Measured(accepted), b.key); }
    var realized := set b | b in plan.briefs && Elements(b.requiredUnits) == UnitsIn(counter, b.key) :: b.key;
    assert realized == Realized(plan, Measured(accepted));
    var sortedRealized := Sort(realized);
    var sortedRemaining := Sort((set b | b in plan.briefs :: b.key) - realized);
    result := Some((sortedRealized, sortedRemaining));
  }

  lemma NoClosures(briefs: Briefs, hash: AggregationHash)
    ensures AllAccepted([], briefs, hash) && RecordedClosures([], briefs, {}, map[], map[])
  {
    NothingRecorded(briefs);
    assert Measured([]) == [];
  }

  lemma RecordedMeans(done: seq<Accepted>, briefs: Briefs, taken: set<Identity>, counter: Counter, held: Established)
    requires RecordedClosures(done, briefs, taken, counter, held)
    ensures DistinctIdentities(done) && MeasuredHeldFixed(done, briefs) && CellsCounted(counter, Measured(done))
  {
  }

  // ----- The report gate ----------------------------------------------------------------

  datatype Disposition = RealizedPlan | Blocked | ReplanRequired | Unlisted

  /** The facts that the gate looks at. */
  datatype Facts = Facts(realized: seq<Str>, remaining: seq<Str>, allKeys: set<Str>,
                         blockers: seq<Str>, semanticChanges: seq<Str>,
                         active: seq<Str>, pending: seq<Str>, unknown: seq<Str>)

  /** `_verify_report_gate` passes. */
  predicate GatePasses(d: Disposition, f: Facts) {
    if d == Unlisted then false
    else if f.active != [] || f.pending != [] || f.unknown != [] then false
    else if f.blockers != [] && d != Blocked then false
    else if d == Blocked then f.blockers != [] && f.semanticChanges == []
    else if d == RealizedPlan then Elements(f.realized) == f.allKeys && f.remaining == [] && f.semanticChanges == []
    else f.remaining != [] && f.semanticChanges != []
  }

  /** The result sets of a plan as the gate sees them. */
  ghost predicate FactsOf(f: Facts, plan: Plan, accepted: seq<Accepted>) {
    && SortedFrom(f.realized, Realized(plan, Measured(accepted)))
    && SortedFrom(f.remaining, Remaining(plan, Measured(accepted)))
    && f.allKeys == PlanKeys(plan)
  }

  /** For fixed facts at most one disposition passes; with the result sets of a plan, work that
      is at rest admits `realized` exactly when nothing remains and nothing is asked for. */
  lemma OneDispositionPasses(f: Facts, plan: Plan, accepted: seq<Accepted>)
    requires FactsOf(f, plan, accepted)
    ensures forall d, d' | GatePasses(d, f) && GatePasses(d', f) :: d == d'
    ensures var atRest := f.active == [] && f.pending == [] && f.unknown == [];
      var left := Remaining(plan, Measured(accepted));
      && (GatePasses(RealizedPlan, f) <==> atRest && f.blockers == [] && f.semanticChanges == [] && left == {})
      && (GatePasses(ReplanRequired, f) <==> atRest && f.blockers == [] && f.semanticChanges != [] && left != {})
      && (GatePasses(Blocked, f) <==> atRest && f.blockers != [] && f.semanticChanges == [])
  {
    hide FullyMeasured, Ascending;
    if f.remaining != [] {
      ElementsNonempty(f.remaining);
    }
    var realized := Realized(plan, Measured(accepted));
    assert realized <= PlanKeys(plan);
    assert forall k | k in PlanKeys(plan) && k !in realized :: k in Remaining(plan, Measured(accepted));
    assert Remaining(plan, Measured(accepted)) == {} ==> PlanKeys(plan) <= realized;
    assert f.remaining == [] ==> Elements(f.remaining) == {};
  }

  /** A fully accepted complete strategy passes the gate as realized. */
  lemma AcceptedStrategyIsRealized(plan: Plan, entries: seq<Entry>, targets: Targets, accepted: seq<Accepted>, f: Facts)
    requires DictionaryOf(entries) && CompleteStrategy(plan, entries) && ClosuresOf(accepted, entries, targets)
    requires forall e | e in entries && e.name in targets :: IsAccepted(e, accepted, targets)
    requires FactsOf(f, plan, accepted)
    requires f.active == [] && f.pending == [] && f.unknown == [] && f.blockers == [] && f.semanticChanges == []
    ensures GatePasses(RealizedPlan, f)
  {
    hide CompleteStrategy, ClosuresOf, IsAccepted;
    AllAcceptedMeansRealized(plan, entries, targets, accepted);
    OneDispositionPasses(f, plan, accepted);
  }
}
