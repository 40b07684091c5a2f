/** Plans, briefs and targets in plain terms, and the strategies that are accepted for a plan stated
    with them. */
module BundleEntries {
  import opened PythonText
  import opened Refs
  import opened BundleRecords
  import opened BundleCoverage
  import opened BundleStrategy
  import opened BundleExact

  predicate NoneTwice(refs: seq<Str>) {
    forall i, j | 0 <= i < |refs| && 0 <= j < |refs| && refs[i] == refs[j] :: i == j
  }

  lemma NoneTwiceIsDistinct(refs: seq<Str>)
    ensures Distinct(refs) <==> NoneTwice(refs)
  {
  }

  // ----- The plan -----------------------------------------------------------------------

  /** The brief projects, names its experiment and its change, and lists its slots and at least one
      unit, each once and none of them blank. */
  predicate BriefStands(b: Brief) {
    && Projects(BriefValue(b)) && IsRef(b.key) && IsRef(b.semanticDelta) && |b.requiredUnits| >= 1
    && NoneTwice(b.heldFixedSlots) && (forall s | s in b.heldFixedSlots :: !Blank(s))
    && NoneTwice(b.requiredUnits) && (forall u | u in b.requiredUnits :: !Blank(u))
  }

  /** The plan projects, is accepted by a current receipt for its content, and has briefs, one for each
      experiment. */
  predicate PlanStands(plan: Plan) {
    && Projects(PlanValue(plan)) && IsRef(plan.ref) && |plan.briefs| >= 1
    && plan.content.subject == plan.ref && IsRef(plan.content.hash)
    && plan.receipt.subject == plan.content.hash && !Blank(plan.receipt.ref) && Projects(ProofValue(plan.receipt))
    && plan.receipt.verified && plan.receipt.currentnessKnown && plan.receipt.current
    && (forall b | b in plan.briefs :: BriefStands(b))
    && (forall i, j | 0 <= i < |plan.briefs| && 0 <= j < |plan.briefs| && plan.briefs[i].key == plan.briefs[j].key ::
          i == j)
  }

  lemma PlanMeans(plan: Plan)
    ensures ValidPlan(plan) <==> PlanStands(plan)
  {
    hide Projects, IsRef, NoneTwice;
    forall b ensures ValidBrief(b) <==> BriefStands(b) {
      NoneTwiceIsDistinct(b.heldFixedSlots);
      NoneTwiceIsDistinct(b.requiredUnits);
    }
    KeysOnce(plan.briefs);
  }

  lemma KeysOnce(briefs: seq<Brief>)
    ensures Distinct(Keys(briefs)) <==> forall i, j |
      0 <= i < |briefs| && 0 <= j < |briefs| && briefs[i].key == briefs[j].key :: i == j
  {
    var keys := Keys(briefs);
    assert forall i | 0 <= i < |briefs| :: keys[i] == briefs[i].key;
  }

  // ----- Targets ------------------------------------------------------------------------

  /** The brief of one of the experiments holds the slot fixed. */
  predicate IsHeld(keys: seq<Str>, briefs: Briefs, slot: Str) {
    exists key | key in keys :: key in briefs && slot in briefs[key].heldFixedSlots
  }

  predicate IsBound(bindings: seq<Binding>, slot: Str) {
    exists b | b in bindings :: b.slot == slot
  }

  /** The experiments are of the plan and all require the unit, and exactly the slots that one of them
      holds fixed are bound, each once. */
  ghost predicate CoverageStands(c: Coverage, briefs: Briefs) {
    && |c.experimentKeys| >= 1 && NoneTwice(c.experimentKeys) && IsRef(c.unit)
    && (forall key | key in c.experimentKeys :: key in briefs && c.unit in briefs[key].requiredUnits)
    && (forall b | b in c.bindings :: Projects(BindingValue(b)) && IsRef(b.slot) && IsRef(b.revision))
    && (forall i, j | 0 <= i < |c.bindings| && 0 <= j < |c.bindings| && c.bindings[i].slot == c.bindings[j].slot ::
          i == j)
    && (forall slot :: IsBound(c.bindings, slot) <==> IsHeld(c.experimentKeys, briefs, slot))
  }

  lemma SlotsOnce(bindings: seq<Binding>)
    ensures Distinct(Slots(bindings)) <==> forall i, j |
      0 <= i < |bindings| && 0 <= j < |bindings| && bindings[i].slot == bindings[j].slot :: i == j
    ensures forall slot :: slot in Elements(Slots(bindings)) <==> IsBound(bindings, slot)
  {
    var slots := Slots(bindings);
    assert forall i | 0 <= i < |bindings| :: slots[i] == bindings[i].slot;
    forall slot ensures slot in Elements(slots) <==> IsBound(bindings, slot) {
      if slot in Elements(slots) {
        var i :| 0 <= i < |slots| && slots[i] == slot;
        assert bindings[i] in bindings;
      }
      if b :| b in bindings && b.slot == slot {
        var i :| 0 <= i < |bindings| && bindings[i] == b;
        assert slots[i] in slots;
      }
    }
  }

  lemma CoverageMeans(c: Coverage, briefs: Briefs)
    ensures ValidCoverage(c, briefs) <==> CoverageStands(c, briefs)
  {
    hide Projects, IsRef, NoneTwice, Elements, IsBound;
    NoneTwiceIsDistinct(c.experimentKeys);
    SlotsOnce(c.bindings);
    if forall key | key in c.experimentKeys :: key in briefs {
      HeldAreExpected(c.experimentKeys, briefs);
      var bound, expected := Elements(Slots(c.bindings)), ExpectedSlots(c.experimentKeys, briefs);
      if forall slot :: IsBound(c.bindings, slot) <==> IsHeld(c.experimentKeys, briefs, slot) {
        assert forall slot :: slot in bound <==> slot in expected;
      }
    }
  }

  lemma HeldAreExpected(keys: seq<Str>, briefs: Briefs)
    requires forall key | key in keys :: key in briefs
    ensures forall slot :: slot in ExpectedSlots(keys, briefs) <==> IsHeld(keys, briefs, slot)
  {
  }

  /** The target projects, is for one unit, does not depend on itself, covers properly, and has routes,
      with its references and theirs each once. */
  ghost predicate TargetStands(c: Candidate, briefs: Briefs) {
    && Projects(CandidateValue(c)) && IsRef(c.localLabel) && IsRef(c.revision)
    && (exists unit :: c.units == [unit] && CoverageStands(Coverage(c.experimentKeys, unit, c.bindings), briefs))
    && c.localLabel !in c.dependsOn
    && |c.routes| >= 1
    && (forall i, j | 0 <= i < |c.routes| && 0 <= j < |c.routes| && c.routes[i].ref == c.routes[j].ref :: i == j)
    && (forall r | r in c.routes ::
          IsRef(r.ref) && NoneTwice(r.operations) && forall o | o in r.operations :: IsRef(o))
    && NoneTwice(c.inputAssets) && (forall a | a in c.inputAssets :: IsRef(a))
  }

  lemma RoutesOnce(routes: seq<Route>)
    ensures DistinctRefs(RouteRefs(routes))
       <==> && (forall i, j | 0 <= i < |routes| && 0 <= j < |routes| && routes[i].ref == routes[j].ref :: i == j)
            && forall r | r in routes :: IsRef(r.ref)
  {
    hide IsRef;
    var refs := RouteRefs(routes);
    assert forall i | 0 <= i < |routes| :: refs[i] == routes[i].ref && refs[i] in refs && routes[i] in routes;
  }

  lemma RefsOnce(refs: seq<Str>)
    ensures DistinctRefs(refs) <==> NoneTwice(refs) && forall r | r in refs :: IsRef(r)
  {
    hide IsRef;
  }

  lemma TargetMeans(c: Candidate, briefs: Briefs)
    ensures ValidCandidate(c, briefs) <==> TargetStands(c, briefs)
  {
    hide Projects, IsRef, DistinctRefs, NoneTwice, ValidCoverage, CoverageStands, RouteRefs;
    RoutesOnce(c.routes);
    RefsOnce(c.inputAssets);
    forall r: Route ensures DistinctRefs(r.operations) <==> NoneTwice(r.operations) && forall o | o in r.operations ::
      IsRef(o)
    {
      RefsOnce(r.operations);
    }
    CoverageMeans(c.Covered(), briefs);
    if |c.units| == 1 {
      assert c.units == [c.units[0]];
    }
  }

  /** Every target stands and is filed under its own label. */
  ghost predicate TargetsStand(entries: seq<Entry>, briefs: Briefs) {
    forall e | e in entries :: e.name == e.candidate.localLabel && TargetStands(e.candidate, briefs)
  }

  /** A strategy is accepted for a plan exactly if the plan and every target stand, and the targets fit
      together. */
  lemma StrategyStandsExactly(plan: Plan, entries: seq<Entry>)
    requires DictionaryOf(entries)
    ensures CompleteStrategy(plan, entries)
       <==> PlanStands(plan) && TargetsStand(entries, ByKey(plan.briefs)) && StrategyFits(plan, entries)
  {
    hide ValidPlan, PlanStands, ValidCandidate, TargetStands, StrategyFits, CompleteStrategy, ByKey;
    StrategyAcceptedExactly(plan, entries);
    PlanMeans(plan);
    forall e | e in entries
      ensures ValidCandidate(e.candidate, ByKey(plan.briefs)) <==> TargetStands(e.candidate, ByKey(plan.briefs))
    {
      TargetMeans(e.candidate, ByKey(plan.briefs));
    }
  }
}
