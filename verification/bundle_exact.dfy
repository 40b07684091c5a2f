/** The strategy gate and the result sets in plain terms: what a strategy that is accepted as complete
    looks like target by target, and which closures are aggregated. */
module BundleExact {
  import opened PythonText
  import opened Refs
  import opened BundleAcyclic
  import opened BundleRecords
  import opened BundleCoverage
  import opened BundleStrategy
  import opened BundleClosures
  import opened BundleResults

  // ----- Dependencies -------------------------------------------------------------------

  /** Every target comes after those it depends on, and they are all targets of the strategy. */
  ghost predicate Schedules(entries: seq<Entry>, order: seq<Str>) {
    && Distinct(order)
    && (forall name :: name in order <==> exists e | e in entries :: e.name == name)
    && (forall e, d, i | e in entries && d in e.candidate.dependsOn && 0 <= i < |order| && order[i] == e.name ::
          d in order[..i])
  }

  /** Without a cycle the labels can be put in order. */
  lemma {:induction false} OrderedSoFar(g: Dependencies, order: seq<Str>) returns (whole: seq<Str>)
    requires Closed(g) && !HasCycleWithin(g, g.Keys) && Ordered(g, order) && Elements(order) <= g.Keys
    ensures TopologicalOrder(g, whole)
    decreases g.Keys - Elements(order)
  {
    hide Ordered, HasCycleWithin, Closed;
    var reachable := Elements(order);
    if reachable == g.Keys {
      whole := order;
    } else if NewlyReachable(g, reachable) == {} {
      StuckLabelsAreCyclic(g, reachable);
      CycleWithinMore(g, g.Keys - reachable, g.Keys);
      assert false;
    } else {
      var node :| node in NewlyReachable(g, reachable);
      OneMoreNode(g, order, node);
      whole := OrderedSoFar(g, order + [node]);
    }
  }

  lemma AcyclicHasAnOrder(g: Dependencies)
    ensures Closed(g) && !HasCycleWithin(g, g.Keys) <==> exists order :: TopologicalOrder(g, order)
  {
    hide TopologicalOrder, HasCycleWithin;
    if Closed(g) && !HasCycleWithin(g, g.Keys) {
      NothingIsOrdered(g);
      var order := OrderedSoFar(g, []);
    }
    if order :| TopologicalOrder(g, order) {
      OrderExcludesCycles(g, order);
    }
  }

  lemma {:induction false} DependenciesAt(entries: seq<Entry>, e: Entry)
    requires DictionaryOf(entries) && e in entries
    ensures e.name in DependenciesOf(entries) && DependenciesOf(entries)[e.name] == Elements(e.candidate.dependsOn)
  {
    var last := |entries| - 1;
    assert entries == entries[..last] + [entries[last]];
    if e != entries[last] {
      DependenciesAt(entries[..last], e);
      var i :| 0 <= i < last && entries[i] == e;
      assert entries[i].name != entries[last].name;
    }
  }

  lemma ScheduleIsTopological(entries: seq<Entry>, order: seq<Str>)
    requires DictionaryOf(entries)
    ensures Schedules(entries, order) <==> TopologicalOrder(DependenciesOf(entries), order)
  {
    hide DependenciesOf;
    var g := DependenciesOf(entries);
    forall e | e in entries ensures e.name in g && g[e.name] == Elements(e.candidate.dependsOn) {
      DependenciesAt(entries, e);
    }
    assert forall name :: name in g <==> exists e | e in entries :: e.name == name;
    if TopologicalOrder(g, order) {
      assert forall name :: name in order <==> name in Elements(order);
      forall e, d, i | e in entries && d in e.candidate.dependsOn && 0 <= i < |order| && order[i] == e.name
        ensures d in order[..i]
      {
        assert d in Elements(order[..i]);
      }
    }
    if Schedules(entries, order) {
      forall i | 0 <= i < |order| && order[i] in g ensures g[order[i]] <= Elements(order[..i]) {
        var e :| e in entries && e.name == order[i];
      }
      assert Elements(order) == g.Keys;
    }
  }

  /** The reachability loop accepts exactly the strategies whose targets can be scheduled. */
  lemma AcyclicIsSchedulable(entries: seq<Entry>)
    requires DictionaryOf(entries)
    ensures AcyclicStrategy(entries) <==> exists order :: Schedules(entries, order)
  {
    hide Schedules, TopologicalOrder, HasCycleWithin, Closed, DependenciesOf;
    AcyclicHasAnOrder(DependenciesOf(entries));
    forall order ensures Schedules(entries, order) <==> TopologicalOrder(DependenciesOf(entries), order) {
      ScheduleIsTopological(entries, order);
    }
  }

  // ----- Held-fixed slots ---------------------------------------------------------------

  /** Where both cover an experiment, they bind each slot that it holds fixed to one revision. */
  ghost predicate BindAlike(a: Coverage, b: Coverage, briefs: Briefs) {
    forall key, x, y |
      && key in a.experimentKeys && key in b.experimentKeys && key in briefs
      && x in a.bindings && y in b.bindings && x.slot == y.slot && x.slot in briefs[key].heldFixedSlots ::
      x.revision == y.revision
  }

  lemma BoundRevision(c: Coverage, briefs: Briefs, x: Binding)
    requires ValidCoverage(c, briefs) && x in c.bindings
    ensures x.slot in Bound(c.bindings) && Bound(c.bindings)[x.slot] == x.revision
  {
    hide Bound, ValidBinding, ExpectedSlots;
    var i :| 0 <= i < |c.bindings| && c.bindings[i] == x;
    assert Slots(c.bindings)[i] == x.slot && x.slot in Elements(Slots(c.bindings));
    var y := Binding(x.slot, Bound(c.bindings)[x.slot]);
    var j :| 0 <= j < |c.bindings| && c.bindings[j] == y;
    assert Slots(c.bindings)[j] == x.slot;
  }

  lemma SameHeldBindsAlike(a: Coverage, b: Coverage, briefs: Briefs)
    requires ValidCoverage(a, briefs) && ValidCoverage(b, briefs)
    ensures SameHeld(a, b, briefs) <==> BindAlike(a, b, briefs)
  {
    hide Bound, ValidCoverage;
    if SameHeld(a, b, briefs) {
      forall key, x, y |
        && key in a.experimentKeys && key in b.experimentKeys && key in briefs
        && x in a.bindings && y in b.bindings && x.slot == y.slot && x.slot in briefs[key].heldFixedSlots
        ensures x.revision == y.revision
      {
        BoundRevision(a, briefs, x);
        BoundRevision(b, briefs, y);
        assert HoldsSlot(a, briefs, key, x.slot) && HoldsSlot(b, briefs, key, x.slot);
      }
    } else {
      var key, slot :| HoldsSlot(a, briefs, key, slot) && HoldsSlot(b, briefs, key, slot)
                       && Held(a, briefs, key, slot) != Held(b, briefs, key, slot);
      SlotIsBound(a, briefs, key, slot);
      SlotIsBound(b, briefs, key, slot);
      assert Binding(slot, Bound(a.bindings)[slot]) in a.bindings;
      assert Binding(slot, Bound(b.bindings)[slot]) in b.bindings;
      KeyIsKnown(a, briefs, key);
    }
  }

  lemma KeyIsKnown(c: Coverage, briefs: Briefs, key: Str)
    requires ValidCoverage(c, briefs) && key in c.experimentKeys
    ensures key in briefs
  {
  }

  // ----- The strategy gate --------------------------------------------------------------

  /** Exactly one target of the strategy measures the unit for the experiment. */
  ghost predicate MeasuredByOne(entries: seq<Entry>, key: Str, unit: Str) {
    exists i | 0 <= i < |entries| ::
      && TargetMeasures(entries[i], key, unit)
      && forall j | 0 <= j < |entries| && TargetMeasures(entries[j], key, unit) :: j == i
  }

  predicate TargetMeasures(e: Entry, key: Str, unit: Str) {
    key in e.candidate.experimentKeys && e.candidate.units == [unit]
  }

  ghost predicate StrategyFits(plan: Plan, entries: seq<Entry>) {
    var briefs := ByKey(plan.briefs);
    && (forall b, u | b in plan.briefs && u in b.requiredUnits :: MeasuredByOne(entries, b.key, u))
    && (forall i, j | 0 <= i < j < |entries| :: entries[i].candidate.units != entries[j].candidate.units)
    && (forall a, b | a in entries && b in entries :: BindAlike(a.candidate.Covered(), b.candidate.Covered(), briefs))
    && (exists order :: Schedules(entries, order))
  }

  lemma {:induction false} CountedByOne(entries: seq<Entry>, key: Str, unit: Str)
    requires forall e | e in entries :: |e.candidate.units| == 1
    requires forall i, j | 0 <= i < j < |entries| :: entries[i].candidate.units != entries[j].candidate.units
    ensures CoverCount(Coverages(entries), (key, unit)) == 1 <==> MeasuredByOne(entries, key, unit)
  {
    hide CoverCount;
    var cs := Coverages(entries);
    assert forall e | e in entries :: e.candidate.units == [e.candidate.units[0]];
    forall i | 0 <= i < |cs|
      ensures cs[i].unit == entries[i].candidate.units[0]
      ensures Covers(cs[i], (key, unit)) <==> TargetMeasures(entries[i], key, unit)
    {
      assert entries[i] in entries;
    }
    forall i, j | 0 <= i < j < |cs| ensures cs[i].unit != cs[j].unit {
      assert entries[i] in entries && entries[j] in entries;
    }
    CoveredAtMostOnce(cs, (key, unit));
    if c :| c in cs && Covers(c, (key, unit)) {
      var i :| 0 <= i < |cs| && cs[i] == c;
      assert TargetMeasures(entries[i], key, unit);
    }
  }

  /** A strategy is accepted as complete exactly if its plan and its targets are valid, each required
      measurement is that of exactly one target, no two targets measure one unit, no held-fixed slot of
      an experiment drifts between targets, and the targets can be scheduled. */
  lemma StrategyAcceptedExactly(plan: Plan, entries: seq<Entry>)
    requires DictionaryOf(entries)
    ensures CompleteStrategy(plan, entries)
       <==> ValidPlan(plan) && ValidEntries(entries, ByKey(plan.briefs)) && StrategyFits(plan, entries)
  {
    hide ValidPlan, ValidCandidate, AcyclicStrategy, Schedules, MeasuredByOne, BindAlike, CoverCount, ByKey;
    if ValidEntries(entries, ByKey(plan.briefs)) {
      AcyclicIsSchedulable(entries);
      IndependentUnits(entries, ByKey(plan.briefs));
      HeldFixedAlike(entries, ByKey(plan.briefs));
      if Independent(Coverages(entries)) {
        CoveredByOne(plan, entries);
      }
    }
  }

  lemma OneUnit(entries: seq<Entry>, briefs: Briefs)
    requires ValidEntries(entries, briefs)
    ensures forall e | e in entries :: |e.candidate.units| == 1
  {
    hide Projects, IsRef, ValidCoverage, DistinctRefs;
  }

  lemma IndependentUnits(entries: seq<Entry>, briefs: Briefs)
    requires ValidEntries(entries, briefs)
    ensures Independent(Coverages(entries))
       <==> forall i, j | 0 <= i < j < |entries| :: entries[i].candidate.units != entries[j].candidate.units
  {
    hide ValidEntries;
    OneUnit(entries, briefs);
    var cs := Coverages(entries);
    forall i | 0 <= i < |entries| ensures entries[i].candidate.units == [cs[i].unit] {
      assert entries[i] in entries;
    }
    forall i, j | 0 <= i < j < |entries|
      ensures cs[i].unit != cs[j].unit <==> entries[i].candidate.units != entries[j].candidate.units
    {
      assert [cs[i].unit][0] == cs[i].unit && [cs[j].unit][0] == cs[j].unit;
    }
  }

  lemma CoveredByOne(plan: Plan, entries: seq<Entry>)
    requires ValidEntries(entries, ByKey(plan.briefs)) && Independent(Coverages(entries))
    ensures CoveredOnce(plan, Coverages(entries))
       <==> forall b, u | b in plan.briefs && u in b.requiredUnits :: MeasuredByOne(entries, b.key, u)
  {
    hide ValidEntries, MeasuredByOne, CoverCount, ByKey;
    OneUnit(entries, ByKey(plan.briefs));
    IndependentUnits(entries, ByKey(plan.briefs));
    forall b, u | b in plan.briefs && u in b.requiredUnits
      ensures CoverCount(Coverages(entries), (b.key, u)) == 1 <==> MeasuredByOne(entries, b.key, u)
    {
      CountedByOne(entries, b.key, u);
    }
  }

  lemma HeldFixedAlike(entries: seq<Entry>, briefs: Briefs)
    requires ValidEntries(entries, briefs)
    ensures SlotsHeldFixed(entries, briefs)
       <==> forall a, b | a in entries && b in entries ::
              BindAlike(a.candidate.Covered(), b.candidate.Covered(), briefs)
  {
    hide ValidEntries, ValidCoverage, SameHeld, BindAlike, Candidate.Covered;
    ValidEntriesCover(entries, briefs);
    var cs := Coverages(entries);
    forall a, b | a in cs && b in cs ensures SameHeld(a, b, briefs) <==> BindAlike(a, b, briefs) {
      SameHeldBindsAlike(a, b, briefs);
    }
    forall e | e in entries ensures e.candidate.Covered() in cs {
      CoverageOfEntry(entries, e);
    }
    forall c | c in cs ensures exists e :: e in entries && e.candidate.Covered() == c {
      EntryOfCoverage(entries, c);
    }
  }

  // ----- Closures that are aggregated ---------------------------------------------------

  predicate ShareCell(a: Coverage, b: Coverage) {
    a.unit == b.unit && exists key | key in a.experimentKeys :: key in b.experimentKeys
  }

  /** The closures are of different commits, attempts and metric results, measure no cell both, and
      bind held-fixed slots alike. */
  ghost predicate Apart(a: Measurement, b: Measurement, briefs: Briefs) {
    && a.commitRef != b.commitRef
    && (a.attemptRef.Some? ==> a.attemptRef != b.attemptRef)
    && (a.metricRef.Some? ==> a.metricRef != b.metricRef)
    && !ShareCell(a.Covered(), b.Covered())
    && BindAlike(a.Covered(), b.Covered(), briefs)
  }

  lemma ApartIdentities(a: Measurement, b: Measurement)
    ensures Identities(a) !! Identities(b)
       <==> && a.commitRef != b.commitRef
            && (a.attemptRef.Some? ==> a.attemptRef != b.attemptRef)
            && (a.metricRef.Some? ==> a.metricRef != b.metricRef)
  {
    if Identities(a) !! Identities(b) {
      assert Commit(a.commitRef) in Identities(a) && Commit(b.commitRef) in Identities(b);
      if a.attemptRef.Some? && b.attemptRef.Some? {
        assert Attempt(a.attemptRef.value) in Identities(a) && Attempt(b.attemptRef.value) in Identities(b);
      }
      if a.metricRef.Some? && b.metricRef.Some? {
        assert Metric(a.metricRef.value) in Identities(a) && Metric(b.metricRef.value) in Identities(b);
      }
    }
  }

  lemma {:induction false} CellsOncePairwise(cs: seq<Coverage>)
    ensures CellsOnce(cs) <==> forall i, j | 0 <= i < j < |cs| :: !ShareCell(cs[i], cs[j])
  {
    hide CoverCount;
    if CellsOnce(cs) {
      forall i, j | 0 <= i < j < |cs| ensures !ShareCell(cs[i], cs[j]) {
        if key :| key in cs[i].experimentKeys && key in cs[j].experimentKeys && cs[i].unit == cs[j].unit {
          TwiceCounted(cs, i, j, (key, cs[i].unit));
        }
      }
    } else {
      var cell :| CoverCount(cs, cell) > 1;
      var i, j := CountedTwice(cs, cell);
    }
  }

  lemma {:induction false} TwiceCounted(cs: seq<Coverage>, i: nat, j: nat, cell: Cell)
    requires i < j < |cs| && Covers(cs[i], cell) && Covers(cs[j], cell)
    ensures CoverCount(cs, cell) > 1
  {
    var last := |cs| - 1;
    if j < last {
      TwiceCounted(cs[..last], i, j, cell);
    } else {
      assert cs[..last][i] == cs[i];
      CoverCountOfNone(cs[..last], cell);
    }
  }

  lemma {:induction false} CountedTwice(cs: seq<Coverage>, cell: Cell) returns (i: nat, j: nat)
    requires CoverCount(cs, cell) > 1
    ensures i < j < |cs| && ShareCell(cs[i], cs[j])
  {
    var last := |cs| - 1;
    if CoverCount(cs[..last], cell) > 1 {
      i, j := CountedTwice(cs[..last], cell);
    } else {
      CoverCountOfNone(cs[..last], cell);
      var c :| c in cs[..last] && Covers(c, cell);
      i :| 0 <= i < last && cs[..last][i] == c;
      j := last;
    }
  }

  lemma HeldFixedPairwise(accepted: seq<Accepted>, briefs: Briefs)
    requires AllValid(Measured(accepted), briefs)
    ensures HeldFixed(Measured(accepted), briefs) <==> forall i, j | 0 <= i < j < |accepted| ::
      BindAlike(accepted[i].closure.Covered(), accepted[j].closure.Covered(), briefs)
  {
    hide ValidCoverage, SameHeld, BindAlike, Measurement.Covered;
    var cs := Measured(accepted);
    forall a, b | a in cs && b in cs ensures SameHeld(a, b, briefs) <==> BindAlike(a, b, briefs) {
      SameHeldBindsAlike(a, b, briefs);
      HeldIsSymmetric(a, b, briefs);
    }
    if forall i, j | 0 <= i < j < |accepted| ::
      BindAlike(accepted[i].closure.Covered(), accepted[j].closure.Covered(), briefs)
    {
      forall a, b | a in cs && b in cs ensures SameHeld(a, b, briefs) {
        var i :| 0 <= i < |cs| && cs[i] == a;
        var j :| 0 <= j < |cs| && cs[j] == b;
        HeldIsSymmetric(a, b, briefs);
        if i < j {
          assert BindAlike(accepted[i].closure.Covered(), accepted[j].closure.Covered(), briefs);
        } else if j < i {
          assert BindAlike(accepted[j].closure.Covered(), accepted[i].closure.Covered(), briefs);
        }
      }
    }
  }

  lemma HeldIsSymmetric(a: Coverage, b: Coverage, briefs: Briefs)
    requires ValidCoverage(a, briefs) && ValidCoverage(b, briefs)
    ensures SameHeld(a, a, briefs) && (SameHeld(a, b, briefs) <==> SameHeld(b, a, briefs))
  {
    hide ValidCoverage, Held;
  }

  lemma AcceptedAreCovered(accepted: seq<Accepted>, briefs: Briefs, hash: AggregationHash)
    requires AllAccepted(accepted, briefs, hash)
    ensures AllValid(Measured(accepted), briefs)
  {
    hide ValidAccepted, ValidCoverage;
    forall c | c in Measured(accepted) ensures ValidCoverage(c, briefs) {
      var i :| 0 <= i < |accepted| && Measured(accepted)[i] == c;
      assert accepted[i] in accepted;
      AcceptedCovers(accepted[i], briefs, hash);
    }
  }

  /** Closures are aggregated exactly if each is accepted on its own and any two are apart. */
  lemma AggregableIsPairwise(plan: Plan, accepted: seq<Accepted>, hash: AggregationHash)
    ensures Aggregable(plan, accepted, hash) <==>
      && ValidPlan(plan) && AllAccepted(accepted, ByKey(plan.briefs), hash)
      && forall i, j | 0 <= i < j < |accepted| ::
           Apart(accepted[i].closure, accepted[j].closure, ByKey(plan.briefs))
  {
    hide ValidPlan, ValidAccepted, BindAlike, ByKey, HeldFixed, CellsOnce, Identities, ShareCell;
    if AllAccepted(accepted, ByKey(plan.briefs), hash) {
      AcceptedAreCovered(accepted, ByKey(plan.briefs), hash);
      HeldFixedPairwise(accepted, ByKey(plan.briefs));
      CellsOncePairwise(Measured(accepted));
      forall i, j | 0 <= i < j < |accepted|
        ensures ShareCell(Measured(accepted)[i], Measured(accepted)[j])
           <==> ShareCell(accepted[i].closure.Covered(), accepted[j].closure.Covered())
        ensures Identities(accepted[i].closure) !! Identities(accepted[j].closure)
           <==> && accepted[i].closure.commitRef != accepted[j].closure.commitRef
                && (accepted[i].closure.attemptRef.Some? ==>
                      accepted[i].closure.attemptRef != accepted[j].closure.attemptRef)
                && (accepted[i].closure.metricRef.Some? ==>
                      accepted[i].closure.metricRef != accepted[j].closure.metricRef)
      {
        ApartIdentities(accepted[i].closure, accepted[j].closure);
      }
    }
  }

  /** The closures of a complete strategy, one for each target, are always aggregated: neither a cell
      counted twice nor a drifting slot can refuse them, only a shared commit, attempt or metric. */
  lemma StrategyClosuresAreAggregated(plan: Plan, entries: seq<Entry>, targets: Targets, accepted: seq<Accepted>,
                                      hash: AggregationHash)
    requires DictionaryOf(entries) && CompleteStrategy(plan, entries) && ClosuresOf(accepted, entries, targets)
    requires forall i, j | 0 <= i < j < |accepted| :: accepted[i].targetRef != accepted[j].targetRef
    requires AllAccepted(accepted, ByKey(plan.briefs), hash) && DistinctIdentities(accepted)
    ensures Aggregable(plan, accepted, hash)
  {
    hide ValidPlan, ValidEntries, AcyclicStrategy, CoveredOnce, ValidAccepted, ByKey, SameHeld, ValidCoverage,
      Measurement.Covered, Candidate.Covered, ShareCell;
    var briefs := ByKey(plan.briefs);
    AcceptedAreCovered(accepted, briefs, hash);
    CellsOncePairwise(Measured(accepted));
    forall c | c in Measured(accepted) ensures c in Coverages(entries) {
      var i :| 0 <= i < |accepted| && Measured(accepted)[i] == c;
      assert accepted[i] in accepted;
      var e :| e in entries && ClosureOf(accepted[i], e, targets);
      CoverageOfEntry(entries, e);
    }
    forall i, j | 0 <= i < j < |accepted| ensures !ShareCell(Measured(accepted)[i], Measured(accepted)[j]) {
      assert accepted[i] in accepted && accepted[j] in accepted;
      var d :| d in entries && ClosureOf(accepted[i], d, targets);
      var e :| e in entries && ClosureOf(accepted[j], e, targets);
      OtherTargetsShareNoCell(entries, d, e);
    }
  }

  lemma OtherTargetsShareNoCell(entries: seq<Entry>, d: Entry, e: Entry)
    requires Independent(Coverages(entries)) && d in entries && e in entries && d.name != e.name
    ensures !ShareCell(d.candidate.Covered(), e.candidate.Covered())
  {
    hide Candidate.Covered;
    if d.candidate.Covered().unit == e.candidate.Covered().unit {
      SameUnitSameEntry(entries, d, e);
    }
  }

  /** An experiment is realized exactly if each of its required units has an accepted closure. */
  lemma RealizedMeansMeasured(plan: Plan, accepted: seq<Accepted>, hash: AggregationHash, b: Brief)
    requires Aggregable(plan, accepted, hash) && b in plan.briefs
    ensures b.key in Realized(plan, Measured(accepted)) <==> forall u | u in b.requiredUnits ::
      exists a | a in accepted :: b.key in a.closure.experimentKeys && a.closure.unit == u
  {
    hide ValidPlan, ValidAccepted, ByKey, CellsOnce, Identities;
    var cs := Measured(accepted);
    AcceptedAreCovered(accepted, ByKey(plan.briefs), hash);
    MeasuredUnitsAreRequired(plan, cs, b);
    RealizedBrief(plan, cs, b);
    assert FullyMeasured(cs, b) <==> forall u | u in b.requiredUnits :: u in MeasuredUnits(cs, b.key) by {
      assert forall u :: u in b.requiredUnits <==> u in Elements(b.requiredUnits);
    }
    forall u ensures u in MeasuredUnits(cs, b.key) <==> exists a | a in accepted ::
      b.key in a.closure.experimentKeys && a.closure.unit == u
    {
      if u in MeasuredUnits(cs, b.key) {
        var c :| c in cs && b.key in c.experimentKeys && c.unit == u;
        var i :| 0 <= i < |cs| && cs[i] == c;
        assert accepted[i] in accepted;
      }
      if a :| a in accepted && b.key in a.closure.experimentKeys && a.closure.unit == u {
        var i :| 0 <= i < |accepted| && accepted[i] == a;
        assert cs[i] in cs;
      }
    }
  }

  // ----- Kinds of accepted work ---------------------------------------------------------

  /** What every accepted closure needs, whatever it is of. */
  predicate CommonlyFine(m: Measurement, briefs: Briefs, hash: AggregationHash) {
    && ClosureProjects(MeasurementValue(m)) && RefsPresent(m) && ValidCoverage(m.Covered(), briefs)
    && Aggregated(m, hash) && m.currentnessKnown && m.current
    && Proves(m.assetReceipt, m.manifest) && Proves(m.executionReceipt, m.executionAttempt)
    && Proves(m.commitReceipt, m.commitRef)
    && BindsInput(m.variantInput, m.variantRun)
  }

  /** The attempt and its input binding, apart from that of the variant run. */
  predicate AttemptBound(m: Measurement) {
    && m.attemptRef.Some? && IsRef(m.attemptRef.value)
    && m.attemptInput.Some? && BindsInput(m.attemptInput.value, m.attemptRef.value)
    && m.attemptInput.value.ref != m.variantInput.ref
    && m.attemptInput.value.receipt.ref != m.variantInput.receipt.ref
  }

  /** A formal measurement of the attempt, with its metric result and its receipt. */
  predicate Formal(m: Measurement) {
    && m.formallyAccepted && AttemptBound(m)
    && m.metricRef.Some? && IsRef(m.metricRef.value)
    && m.measurementReceipt.Some? && Proves(m.measurementReceipt.value, m.attemptRef.value)
  }

  /** No measurement is claimed; there may still be an attempt. */
  predicate Informal(m: Measurement) {
    && !m.formallyAccepted && m.metricRef.None? && m.metrics == [] && m.measurementReceipt.None?
    && (AttemptBound(m) || (m.attemptRef.None? && m.attemptInput.None?))
  }

  /** Accepted work is either a formal measurement with values that two independent reviewers looked at,
      or work of a completed root session, formal or not, without any review. */
  lemma AcceptedWorkIsExactly(m: Measurement, briefs: Briefs, hash: AggregationHash)
    ensures ValidMeasurement(m, briefs, hash) <==>
      && CommonlyFine(m, briefs, hash)
      && (|| (&& m.rootReceipt.None? && Formal(m) && m.metrics != []
              && m.codeReview.Some? && CodeReviewFits(m.codeReview.value, m.revision)
              && m.resultReview.Some? && ResultReviewFits(m.resultReview.value, m))
          || (&& m.rootReceipt.Some? && Proves(m.rootReceipt.value, m.executionAttempt)
              && m.codeReview.None? && m.resultReview.None? && (Formal(m) || Informal(m))))
  {
    hide ClosureProjects, IsRef, ValidCoverage, DistinctRefs, Proves, Aggregated, CodeReviewFits, ResultReviewFits;
  }
}
