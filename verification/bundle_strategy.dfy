/** The strategy-completion gate: exact one-target-per-cell coverage of a formal plan. */
module BundleStrategy {
  import opened PythonText
  import opened Refs
  import opened BundleAcyclic
  import opened BundleValues
  import opened BundleRecords
  import opened BundleCoverage

  datatype Candidate = Candidate(localLabel: Str, experimentKeys: seq<Str>, units: seq<Str>,
                                 bindings: seq<Binding>, revision: Str, codeChanged: bool, routes: seq<Route>,
                                 dependsOn: seq<Str>, inputAssets: seq<Str>)
  {
    function Covered(): Coverage {
      Coverage(experimentKeys, if |units| == 1 then units[0] else [], bindings)
    }
  }

  /** One item of the candidate dictionary. */
  datatype Entry = Entry(name: Str, candidate: Candidate)

  function RouteRefs(routes: seq<Route>): seq<Str> {
    seq(|routes|, i requires 0 <= i < |routes| => routes[i].ref)
  }

  const CANDIDATE_NAMES := [
    "code_changed", "depends_on_labels", "direct_accepted_input_asset_refs", "experiment_keys", "held_fixed_bindings",
    "implementation_revision_ref", "local_label", "measurement_unit_keys", "routes"]

  function CandidateValue(c: Candidate): Value {
    RecordOf("TargetCandidate", CANDIDATE_NAMES,
             [Boolean(c.codeChanged), Tuple(Texts(c.dependsOn)), Tuple(Texts(c.inputAssets)),
              Tuple(Texts(c.experimentKeys)), BindingValues(c.bindings), Text(c.revision), Text(c.localLabel),
              Tuple(Texts(c.units)), RouteValues(c.routes)])
  }

  /** What `_verify_candidate` accepts. */
  predicate ValidCandidate(c: Candidate, briefs: Briefs) {
    && Projects(CandidateValue(c)) && IsRef(c.localLabel) && IsRef(c.revision)
    && |c.units| == 1
    && c.localLabel !in c.dependsOn
    && ValidCoverage(c.Covered(), briefs)
    && c.routes != [] && DistinctRefs(RouteRefs(c.routes))
    && (forall r | r in c.routes :: DistinctRefs(r.operations))
    && DistinctRefs(c.inputAssets)
  }

  // ----- What the gate accepts ----------------------------------------------------------

  predicate DictionaryOf(entries: seq<Entry>) {
    forall i, j | 0 <= i < j < |entries| :: entries[i].name != entries[j].name
  }

  /** Every candidate is filed under its own label and is valid. */
  predicate ValidEntries(entries: seq<Entry>, briefs: Briefs) {
    forall e | e in entries :: e.name == e.candidate.localLabel && ValidCandidate(e.candidate, briefs)
  }

  function Coverages(entries: seq<Entry>): (cs: seq<Coverage>)
    ensures |cs| == |entries|
    ensures forall i | 0 <= i < |entries| :: cs[i] == entries[i].candidate.Covered()
  {
    seq(|entries|, i requires 0 <= i < |entries| => entries[i].candidate.Covered())
  }

  /** No two targets share a measurement cell. */
  predicate Independent(cs: seq<Coverage>) {
    forall i, j | 0 <= i < j < |cs| :: cs[i].unit != cs[j].unit
  }

  predicate BriefCovered(cs: seq<Coverage>, b: Brief) {
    forall u | u in b.requiredUnits :: CoverCount(cs, (b.key, u)) == 1
  }

  predicate CoveredOnce(plan: Plan, cs: seq<Coverage>) {
    forall b | b in plan.briefs :: BriefCovered(cs, b)
  }

  function DependenciesOf(entries: seq<Entry>): (g: Dependencies)
    ensures g.Keys == set e | e in entries :: e.name
  {
    if entries == [] then map[]
    else
      var last := entries[|entries| - 1];
      assert entries == entries[..|entries| - 1] + [last];
      DependenciesOf(entries[..|entries| - 1])[last.name := Elements(last.candidate.dependsOn)]
  }

  ghost predicate AcyclicStrategy(entries: seq<Entry>) {
    var g := DependenciesOf(entries);
    Closed(g) && !HasCycleWithin(g, g.Keys)
  }

  lemma ValidEntriesCover(entries: seq<Entry>, briefs: Briefs)
    requires ValidEntries(entries, briefs)
    ensures AllValid(Coverages(entries), briefs)
  {
    hide ValidCoverage, DistinctRefs, IsRef, Projects;
    forall c | c in Coverages(entries) ensures ValidCoverage(c, briefs) {
      var i :| 0 <= i < |entries| && Coverages(entries)[i] == c;
      assert entries[i] in entries;
    }
  }

  ghost predicate SlotsHeldFixed(entries: seq<Entry>, briefs: Briefs) {
    AllValid(Coverages(entries), briefs) && HeldFixed(Coverages(entries), briefs)
  }

  /** The whole gate. */
  ghost predicate CompleteStrategy(plan: Plan, entries: seq<Entry>) {
    && ValidPlan(plan)
    && ValidEntries(entries, ByKey(plan.briefs))
    && Independent(Coverages(entries))
    && SlotsHeldFixed(entries, ByKey(plan.briefs))
    && AcyclicStrategy(entries)
    && CoveredOnce(plan, Coverages(entries))
  }

  // ----- The gate as a bijection --------------------------------------------------------

  function RequiredUnits(plan: Plan): set<Str> {
    set b, u | b in plan.briefs && u in b.requiredUnits :: u
  }

  /** The experiments whose brief requires a unit. */
  function Requiring(plan: Plan, unit: Str): set<Str> {
    set b | b in plan.briefs && unit in b.requiredUnits :: b.key
  }

  function Units(cs: seq<Coverage>): set<Str> {
    set c | c in cs :: c.unit
  }

  /** The candidates are in bijection with the distinct required units, and the candidate of a
      unit lists exactly the experiments whose brief requires it. */
  predicate ExactAssignment(plan: Plan, cs: seq<Coverage>) {
    && Independent(cs)
    && Units(cs) == RequiredUnits(plan)
    && forall c | c in cs :: Elements(c.experimentKeys) == Requiring(plan, c.unit)
  }

  /** With independent units a cell is covered at most once. */
  lemma {:induction false} CoveredAtMostOnce(cs: seq<Coverage>, cell: Cell)
    requires Independent(cs)
    ensures CoverCount(cs, cell) <= 1
    ensures CoverCount(cs, cell) == 1 <==> exists c :: c in cs && Covers(c, cell)
  {
    if cs != [] {
      var before, last := cs[..|cs| - 1], cs[|cs| - 1];
      assert forall c :: c in cs <==> c in before || c == last;
      CoveredAtMostOnce(before, cell);
      if Covers(last, cell) {
        assert forall c | c in before :: c.unit != last.unit;
      }
    }
  }

  lemma CoverageIsRequired(plan: Plan, cs: seq<Coverage>, c: Coverage)
    requires AllValid(cs, ByKey(plan.briefs)) && c in cs
    ensures Elements(c.experimentKeys) <= Requiring(plan, c.unit) && c.unit in RequiredUnits(plan)
  {
    hide ValidBrief, DistinctRefs;
    assert ValidCoverage(c, ByKey(plan.briefs));
    forall key | key in c.experimentKeys ensures key in Requiring(plan, c.unit) {
      var b := ByKey(plan.briefs)[key];
      assert b in plan.briefs && b.key == key;
    }
    var b := ByKey(plan.briefs)[c.experimentKeys[0]];
    assert b in plan.briefs && c.unit in b.requiredUnits;
  }

  lemma CoveredIsExact(plan: Plan, cs: seq<Coverage>)
    requires AllValid(cs, ByKey(plan.briefs)) && Independent(cs) && CoveredOnce(plan, cs)
    ensures ExactAssignment(plan, cs)
  {
    hide AllValid, CoverCount, ByKey;
    forall c | c in cs { CoverageIsRequired(plan, cs, c); }
    forall b, u | b in plan.briefs && u in b.requiredUnits ensures exists c :: c in cs && Covers(c, (b.key, u)) {
      assert BriefCovered(cs, b);
      CoveredAtMostOnce(cs, (b.key, u));
    }
    forall c, key | c in cs && key in Requiring(plan, c.unit) ensures key in Elements(c.experimentKeys) {
      var b :| b in plan.briefs && c.unit in b.requiredUnits && b.key == key;
      var covering :| covering in cs && Covers(covering, (b.key, c.unit));
      assert covering == c;
    }
    forall u | u in RequiredUnits(plan) ensures u in Units(cs) {
      var b :| b in plan.briefs && u in b.requiredUnits;
      var c :| c in cs && Covers(c, (b.key, u));
    }
  }

  lemma ExactIsCovered(plan: Plan, cs: seq<Coverage>)
    requires ExactAssignment(plan, cs)
    ensures CoveredOnce(plan, cs)
  {
    hide CoverCount;
    forall b, u | b in plan.briefs && u in b.requiredUnits ensures CoverCount(cs, (b.key, u)) == 1 {
      CoveredAtMostOnce(cs, (b.key, u));
      assert u in RequiredUnits(plan);
      var c :| c in cs && c.unit == u;
      assert b.key in Requiring(plan, u);
      assert b.key in Elements(c.experimentKeys);
      assert Covers(c, (b.key, u));
    }
  }

  /** An accepted complete strategy is exactly a valid, acyclic, drift-free one whose candidates
      are in bijection with the required units. */
  lemma CompletionIsABijection(plan: Plan, entries: seq<Entry>)
    ensures CompleteStrategy(plan, entries)
       <==> && ValidPlan(plan)
            && ValidEntries(entries, ByKey(plan.briefs))
            && ExactAssignment(plan, Coverages(entries))
            && SlotsHeldFixed(entries, ByKey(plan.briefs))
            && AcyclicStrategy(entries)
  {
    hide ValidPlan, SlotsHeldFixed, AcyclicStrategy, CoveredOnce, ValidEntries, Independent;
    if ValidEntries(entries, ByKey(plan.briefs)) {
      ValidEntriesCover(entries, ByKey(plan.briefs));
      if Independent(Coverages(entries)) && CoveredOnce(plan, Coverages(entries)) {
        CoveredIsExact(plan, Coverages(entries));
      }
      if ExactAssignment(plan, Coverages(entries)) {
        ExactIsCovered(plan, Coverages(entries));
      }
    }
  }

  // ----- The gate as it runs ------------------------------------------------------------

  ghost predicate UnitsTaken(targets: map<Str, Str>, done: seq<Entry>) {
    && (forall e | e in done :: e.candidate.Covered().unit in targets && targets[e.candidate.Covered().unit] == e.name)
    && (forall u | u in targets :: exists e :: e in done && e.candidate.Covered().unit == u)
  }

  lemma TakeUnit(targets: map<Str, Str>, done: seq<Entry>, e: Entry)
    requires Independent(Coverages(done)) && UnitsTaken(targets, done)
    ensures var unit := e.candidate.Covered().unit;
      && (Independent(Coverages(done + [e])) <==> unit !in targets)
      && (unit !in targets ==> UnitsTaken(targets[unit := e.name], done + [e]))
    ensures Coverages(done + [e]) == Coverages(done) + [e.candidate.Covered()]
  {
    hide Candidate.Covered;
    var unit := e.candidate.Covered().unit;
    var cs, next := Coverages(done), Coverages(done + [e]);
    assert next == cs + [e.candidate.Covered()];
    assert forall x :: x in done + [e] <==> x in done || x == e;
    if unit in targets {
      var earlier :| earlier in done && earlier.candidate.Covered().unit == unit;
      var i :| 0 <= i < |done| && done[i] == earlier;
      assert next[i].unit == next[|done|].unit;
    } else {
      forall i | 0 <= i < |cs| ensures cs[i].unit != unit {
        assert done[i] in done;
      }
    }
  }

  lemma PartsOfComplete(entries: seq<Entry>, i: nat, briefs: Briefs)
    requires i < |entries|
    ensures Independent(Coverages(entries)) ==> Independent(Coverages(entries[..i + 1]))
    ensures SlotsHeldFixed(entries, briefs) ==> SlotsHeldFixed(entries[..i + 1], briefs)
  {
    hide ValidCoverage, SameHeld, Candidate.Covered;
    assert Coverages(entries[..i + 1]) == Coverages(entries)[..i + 1];
  }

  function ExpectedCells(b: Brief): set<Cell> {
    set u | u in b.requiredUnits :: (b.key, u)
  }

  /** The cells of the brief's experiment that are counted once. */
  function ActualCells(counter: Counter, b: Brief): set<Cell> {
    set cell | cell in counter && cell.0 == b.key && counter[cell] == 1
  }

  /** The comparison of the source for one brief. */
  predicate CellsMatch(counter: Counter, b: Brief) {
    ActualCells(counter, b) == ExpectedCells(b) && forall cell | cell in ExpectedCells(b) :: CountOf(counter, cell) == 1
  }

  /** The set test of the source adds nothing to the counts. */
  lemma CountsDecideCoverage(plan: Plan, cs: seq<Coverage>, counter: Counter, b: Brief)
    requires ValidPlan(plan) && AllValid(cs, ByKey(plan.briefs)) && CellsCounted(counter, cs) && b in plan.briefs
    ensures CellsMatch(counter, b) <==> BriefCovered(cs, b)
  {
    hide CoverCount, ValidBrief, DistinctRefs;
    forall u | u in b.requiredUnits ensures (b.key, u) in ExpectedCells(b) {
    }
    forall cell | cell in ActualCells(counter, b) ensures cell in ExpectedCells(b) {
      assert CountOf(counter, cell) == CoverCount(cs, cell) == 1;
      CoverCountOfNone(cs, cell);
      var c :| c in cs && Covers(c, cell);
      assert cell.1 in ByKey(plan.briefs)[cell.0].requiredUnits;
      BriefIsFoundByKey(plan.briefs, b);
    }
  }

  /** `_verify_completion_cells` */
  method VerifyCompletionCells(plan: Plan, entries: seq<Entry>) returns (accepted: bool)
    requires DictionaryOf(entries)
    ensures accepted <==> CompleteStrategy(plan, entries)
  {
    hide ValidPlan, ValidCandidate, Independent, SlotsHeldFixed, UnitsTaken, HeldRecorded, CellsCounted,
      AcyclicStrategy,
      CoveredOnce;
    if !ValidPlan(plan) {
      return false;
    }
    var briefs := ByKey(plan.briefs);
    var planned: Counter := map[];
    var targetByUnit: map<Str, Str> := map[];
    var held: Established := map[];
    NoEntries(briefs);
    for i := 0 to |entries|
      invariant ValidEntries(entries[..i], briefs)
      invariant Independent(Coverages(entries[..i])) && UnitsTaken(targetByUnit, entries[..i])
      invariant Recorded(entries[..i], briefs, planned, held)
    {
      var e := entries[i];
      assert e in entries && entries[..i + 1] == entries[..i] + [e];
      if e.name != e.candidate.localLabel || !ValidCandidate(e.candidate, briefs) {
        return false;
      }
      var agreed;
      agreed, planned, targetByUnit, held := RecordEntry(entries[..i], e, briefs, planned, targetByUnit, held);
      if !agreed {
        PartsOfComplete(entries, i, briefs);
        return false;
      }
    }
    assert entries[..|entries|] == entries;
    var acyclic, _, _ := VerifyAcyclic(DependenciesOf(entries));
    assert acyclic <==> AcyclicStrategy(entries) by {
      AcyclicMeans(entries);
    }
    if !acyclic {
      return false;
    }
    RecordedCounts(entries, briefs, planned, held);
    accepted := EveryCellOnce(plan, Coverages(entries), planned);
  }

  lemma AcyclicMeans(entries: seq<Entry>)
    ensures var g := DependenciesOf(entries); AcyclicStrategy(entries) <==> Closed(g) && !HasCycleWithin(g, g.Keys)
  {
  }

  /** The counter and the held-fixed dictionary after these entries. */
  ghost predicate Recorded(done: seq<Entry>, briefs: Briefs, planned: Counter, held: Established) {
    && SlotsHeldFixed(done, briefs)
    && HeldRecorded(held, Coverages(done), briefs)
    && CellsCounted(planned, Coverages(done))
  }

  lemma RecordedCounts(done: seq<Entry>, briefs: Briefs, planned: Counter, held: Established)
    requires Recorded(done, briefs, planned, held)
    ensures SlotsHeldFixed(done, briefs) && AllValid(Coverages(done), briefs) && CellsCounted(planned, Coverages(done))
  {
  }

  lemma NoEntries(briefs: Briefs)
    ensures ValidEntries([], briefs) && Independent(Coverages([])) && UnitsTaken(map[], [])
    ensures Recorded([], briefs, map[], map[])
  {
    NothingRecorded(briefs);
    assert Coverages([]) == [];
  }

  /** One turn of the loop, after the candidate was found valid. */
  method RecordEntry(ghost done: seq<Entry>, e: Entry, briefs: Briefs, planned: Counter,
                     targets: map<Str, Str>, held: Established)
    returns (agreed: bool, planned': Counter, targets': map<Str, Str>, held': Established)
    requires e.name == e.candidate.localLabel && ValidCandidate(e.candidate, briefs)
    requires Independent(Coverages(done)) && UnitsTaken(targets, done) && Recorded(done, briefs, planned, held)
    requires forall d | d in done :: d.name != e.name
    ensures agreed <==> Independent(Coverages(done + [e])) && SlotsHeldFixed(done + [e], briefs)
    ensures agreed ==> UnitsTaken(targets', done + [e]) && Recorded(done + [e], briefs, planned', held')
  {
    hide HeldRecorded, HeldFixed, CellsCounted, ValidCoverage, Candidate.Covered, Independent;
    planned', targets', held' := planned, targets, held;
    var c := e.candidate.Covered();
    TakeUnit(targets, done, e);
    var previous := if c.unit in targets then targets[c.unit] else e.name;
    targets' := targets[c.unit := previous];
    if previous != e.name {
      return false, planned', targets', held';
    }
    agreed, planned', held' := AddCoverage(Coverages(done), c, briefs, planned, held);
  }

  /** The last loop, over the briefs. */
  method EveryCellOnce(plan: Plan, cs: seq<Coverage>, planned: Counter) returns (covered: bool)
    requires ValidPlan(plan) && AllValid(cs, ByKey(plan.briefs)) && CellsCounted(planned, cs)
    ensures covered <==> CoveredOnce(plan, cs)
  {
    hide ValidPlan, BriefCovered, CellsMatch, CellsCounted, AllValid, ByKey;
    for i := 0 to |plan.briefs|
      invariant forall b | b in plan.briefs[..i] :: BriefCovered(cs, b)
    {
      var b := plan.briefs[i];
      assert b in plan.briefs;
      CountsDecideCoverage(plan, cs, planned, b);
      if !CellsMatch(planned, b) {
        return false;
      }
      assert plan.briefs[..i + 1] == plan.briefs[..i] + [b];
    }
    assert plan.briefs[..|plan.briefs|] == plan.briefs;
    covered := true;
  }
}
