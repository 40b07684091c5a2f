/** What targets and accepted measurement closures have in common: the experiments and the
    measurement unit they cover, and the revisions they bind to held-fixed slots; and the
    counters and dictionaries in which the gates record them. */
module BundleCoverage {
  import opened PythonText
  import opened Refs
  import opened BundleValues
  import opened BundleRecords

  datatype Brief = Brief(key: Str, semanticDelta: Str, heldFixedSlots: seq<Str>, requiredUnits: seq<Str>)

  datatype Plan = Plan(ref: Str, briefs: seq<Brief>, content: Content, receipt: Proof)

  datatype Coverage = Coverage(experimentKeys: seq<Str>, unit: Str, bindings: seq<Binding>)

  type Briefs = map<Str, Brief>

  type Cell = (Str, Str)

  // ----- Single records -----------------------------------------------------------------

  const BRIEF_NAMES := ["experiment_key", "held_fixed_slots", "required_measurement_unit_keys", "semantic_delta"]
  const PLAN_NAMES := ["acceptance_receipt", "briefs", "content_binding", "formal_plan_ref"]

  function BriefValue(b: Brief): Value {
    RecordOf("ExperimentBrief", BRIEF_NAMES,
             [Text(b.key), Tuple(Texts(b.heldFixedSlots)), Tuple(Texts(b.requiredUnits)), Text(b.semanticDelta)])
  }

  function PlanValue(plan: Plan): Value {
    var briefs := seq(|plan.briefs|, i requires 0 <= i < |plan.briefs| => BriefValue(plan.briefs[i]));
    RecordOf("FormalPlan", PLAN_NAMES,
             [ProofValue(plan.receipt), Tuple(briefs), ContentValue(plan.content), Text(plan.ref)])
  }

  /** Without repetition, none of them empty or white space. */
  predicate DistinctTexts(refs: seq<Str>) {
    Distinct(refs) && forall r | r in refs :: !Blank(r)
  }

  /** `_require_ref` on every one of them, without repetition. */
  predicate DistinctRefs(refs: seq<Str>) {
    Distinct(refs) && forall r | r in refs :: IsRef(r)
  }

  /** `_validate_brief` */
  predicate ValidBrief(b: Brief) {
    && Projects(BriefValue(b)) && IsRef(b.key) && IsRef(b.semanticDelta)
    && DistinctTexts(b.heldFixedSlots)
    && b.requiredUnits != [] && DistinctTexts(b.requiredUnits)
  }

  function Keys(briefs: seq<Brief>): seq<Str> {
    seq(|briefs|, i requires 0 <= i < |briefs| => briefs[i].key)
  }

  /** The content binding and the acceptance receipt of the plan. */
  predicate PlanProved(plan: Plan) {
    plan.content.subject == plan.ref && IsRef(plan.content.hash) && Proves(plan.receipt, plan.content.hash)
  }

  /** What `_briefs_by_key` accepts. */
  predicate ValidPlan(plan: Plan) {
    && Projects(PlanValue(plan)) && IsRef(plan.ref) && plan.briefs != [] && PlanProved(plan)
    && (forall b | b in plan.briefs :: ValidBrief(b))
    && Distinct(Keys(plan.briefs))
  }

  /** `_briefs_by_key` of a valid plan. */
  function ByKey(briefs: seq<Brief>): (byKey: Briefs)
    ensures forall k | k in byKey :: byKey[k] in briefs && byKey[k].key == k
    ensures forall b | b in briefs :: b.key in byKey
  {
    if briefs == [] then map[] else ByKey(briefs[..|briefs| - 1])[briefs[|briefs| - 1].key := briefs[|briefs| - 1]]
  }

  lemma BriefIsFoundByKey(briefs: seq<Brief>, b: Brief)
    requires Distinct(Keys(briefs)) && b in briefs
    ensures ByKey(briefs)[b.key] == b
  {
    hide ByKey;
    SameKeySameBrief(briefs, ByKey(briefs)[b.key], b);
  }

  lemma SameKeySameBrief(briefs: seq<Brief>, a: Brief, b: Brief)
    requires Distinct(Keys(briefs)) && a in briefs && b in briefs && a.key == b.key
    ensures a == b
  {
    var i :| 0 <= i < |briefs| && briefs[i] == a;
    var j :| 0 <= j < |briefs| && briefs[j] == b;
    assert Keys(briefs)[i] == Keys(briefs)[j];
  }

  /** `_binding_map` */
  function Bound(bindings: seq<Binding>): (m: map<Str, Str>)
    ensures m.Keys == Elements(Slots(bindings))
    ensures forall s | s in m :: Binding(s, m[s]) in bindings
  {
    if bindings == [] then map[]
    else
      var last := bindings[|bindings| - 1];
      assert Slots(bindings) == Slots(bindings[..|bindings| - 1]) + [last.slot];
      ElementsOfBoth(Slots(bindings[..|bindings| - 1]), [last.slot]);
      Bound(bindings[..|bindings| - 1])[last.slot := last.revision]
  }

  function ExpectedSlots(keys: seq<Str>, briefs: Briefs): set<Str>
    requires forall k | k in keys :: k in briefs
  {
    set k, s | k in keys && s in briefs[k].heldFixedSlots :: s
  }

  predicate ValidBinding(b: Binding) {
    Projects(BindingValue(b)) && IsRef(b.slot) && IsRef(b.revision)
  }

  /** The checks that candidates and closures share. */
  predicate ValidCoverage(c: Coverage, briefs: Briefs) {
    && c.experimentKeys != [] && Distinct(c.experimentKeys)
    && (forall k | k in c.experimentKeys :: k in briefs)
    && IsRef(c.unit)
    && (forall k | k in c.experimentKeys :: c.unit in briefs[k].requiredUnits)
    && Distinct(Slots(c.bindings))
    && (forall b | b in c.bindings :: ValidBinding(b))
    && Elements(Slots(c.bindings)) == ExpectedSlots(c.experimentKeys, briefs)
  }

  predicate AllValid(cs: seq<Coverage>, briefs: Briefs) {
    forall c | c in cs :: ValidCoverage(c, briefs)
  }

  // ----- Cells --------------------------------------------------------------------------

  predicate Covers(c: Coverage, cell: Cell) {
    cell.0 in c.experimentKeys && c.unit == cell.1
  }

  /** How many of them cover a cell. */
  function CoverCount(cs: seq<Coverage>, cell: Cell): nat {
    if cs == [] then 0
    else CoverCount(cs[..|cs| - 1], cell) + (if Covers(cs[|cs| - 1], cell) then 1 else 0)
  }

  lemma {:induction false} CoverCountOfNone(cs: seq<Coverage>, cell: Cell)
    ensures CoverCount(cs, cell) == 0 <==> forall c | c in cs :: !Covers(c, cell)
  {
    if cs != [] {
      var before, last := cs[..|cs| - 1], cs[|cs| - 1];
      assert forall c :: c in cs <==> c in before || c == last;
      CoverCountOfNone(before, cell);
    }
  }

  // ----- Held-fixed slots ---------------------------------------------------------------

  predicate HoldsSlot(c: Coverage, briefs: Briefs, key: Str, slot: Str)
    requires ValidCoverage(c, briefs)
  {
    key in c.experimentKeys && slot in briefs[key].heldFixedSlots
  }

  function Held(c: Coverage, briefs: Briefs, key: Str, slot: Str): Str
    requires ValidCoverage(c, briefs) && HoldsSlot(c, briefs, key, slot)
  {
    assert slot in ExpectedSlots(c.experimentKeys, briefs);
    Bound(c.bindings)[slot]
  }

  ghost predicate SameHeld(a: Coverage, b: Coverage, briefs: Briefs)
    requires ValidCoverage(a, briefs) && ValidCoverage(b, briefs)
  {
    forall key, slot | HoldsSlot(a, briefs, key, slot) && HoldsSlot(b, briefs, key, slot) ::
      Held(a, briefs, key, slot) == Held(b, briefs, key, slot)
  }

  /** All of an experiment bind each of its held-fixed slots to one revision. */
  ghost predicate HeldFixed(cs: seq<Coverage>, briefs: Briefs)
    requires AllValid(cs, briefs)
  {
    forall a, b | a in cs && b in cs :: SameHeld(a, b, briefs)
  }

  // ----- What the loops record ----------------------------------------------------------

  type Counter = map<Cell, nat>

  function CountOf(counter: Counter, cell: Cell): nat {
    if cell in counter then counter[cell] else 0
  }

  ghost predicate CellsCounted(counter: Counter, done: seq<Coverage>) {
    && (forall cell: Cell :: CountOf(counter, cell) == CoverCount(done, cell))
    && (forall cell | cell in counter :: counter[cell] > 0)
  }

  /** Revisions by experiment and slot. */
  type Established = map<(Str, Str), Str>

  ghost predicate HeldRecorded(held: Established, done: seq<Coverage>, briefs: Briefs)
    requires AllValid(done, briefs)
  {
    && (forall c, key, slot | c in done && HoldsSlot(c, briefs, key, slot) ::
          (key, slot) in held && held[(key, slot)] == Held(c, briefs, key, slot))
    && (forall ks | ks in held :: exists c :: c in done && HoldsSlot(c, briefs, ks.0, ks.1))
  }

  /** Adds one to the cell of every experiment of a coverage. */
  method CountCells(counter: Counter, c: Coverage) returns (counted: Counter)
    requires Distinct(c.experimentKeys)
    ensures (forall cell | cell in counter :: counter[cell] > 0) ==> forall cell | cell in counted :: counted[cell] > 0
    ensures forall cell: Cell :: CountOf(counted, cell) == CountOf(counter, cell) + if Covers(c, cell) then 1 else 0
  {
    counted := counter;
    for i := 0 to |c.experimentKeys|
      invariant forall cell: Cell ::
        CountOf(counted, cell)
        == CountOf(counter, cell) + if cell.1 == c.unit && cell.0 in c.experimentKeys[..i] then 1 else 0
      invariant (forall cell | cell in counter :: counter[cell] > 0) ==> forall cell | cell in counted ::
        counted[cell] > 0
    {
      var cell := (c.experimentKeys[i], c.unit);
      assert c.experimentKeys[i] !in c.experimentKeys[..i];
      assert c.experimentKeys[..i + 1] == c.experimentKeys[..i] + [c.experimentKeys[i]];
      counted := counted[cell := CountOf(counted, cell) + 1];
    }
    assert c.experimentKeys[..|c.experimentKeys|] == c.experimentKeys;
  }

  /** Records the held-fixed slots of one experiment of a coverage, unless one drifted. */
  method RecordSlots(held: Established, key: Str, slots: seq<Str>, bindings: map<Str, Str>)
    returns (agreed: bool, recorded: Established)
    requires forall s | s in slots :: s in bindings
    ensures agreed <==> forall s | s in slots && (key, s) in held :: held[(key, s)] == bindings[s]
    ensures agreed ==> forall ks :: ks in recorded <==> ks in held || (ks.0 == key && ks.1 in slots)
    ensures agreed ==> forall ks | ks in recorded ::
      recorded[ks] == if ks.0 == key && ks.1 in slots then bindings[ks.1] else held[ks]
  {
    recorded, agreed := held, true;
    for i := 0 to |slots|
      invariant forall s | s in slots[..i] && (key, s) in held :: held[(key, s)] == bindings[s]
      invariant forall ks :: ks in recorded <==> ks in held || (ks.0 == key && ks.1 in slots[..i])
      invariant forall ks | ks in recorded ::
        recorded[ks] == if ks.0 == key && ks.1 in slots[..i] then bindings[ks.1] else held[ks]
    {
      var ks := (key, slots[i]);
      assert slots[..i + 1] == slots[..i] + [slots[i]];
      if ks in recorded && recorded[ks] != bindings[slots[i]] {
        assert ks in held;
        return false, recorded;
      }
      recorded := recorded[ks := bindings[slots[i]]];
    }
    assert slots[..|slots|] == slots;
  }

  predicate Drifts(c: Coverage, briefs: Briefs, held: Established)
    requires ValidCoverage(c, briefs)
  {
    exists key, slot | key in c.experimentKeys && slot in briefs[key].heldFixedSlots ::
      (key, slot) in held && held[(key, slot)] != Held(c, briefs, key, slot)
  }

  lemma SlotIsBound(c: Coverage, briefs: Briefs, key: Str, slot: Str)
    requires ValidCoverage(c, briefs) && HoldsSlot(c, briefs, key, slot)
    ensures slot in Bound(c.bindings) && Held(c, briefs, key, slot) == Bound(c.bindings)[slot]
  {
    assert slot in ExpectedSlots(c.experimentKeys, briefs);
  }

  /** The held-fixed slots of all experiments of a coverage. */
  method RecordCoverage(held: Established, c: Coverage, briefs: Briefs) returns (agreed: bool, recorded: Established)
    requires ValidCoverage(c, briefs)
    ensures agreed <==> !Drifts(c, briefs, held)
    ensures agreed ==> forall ks :: ks in recorded <==> ks in held || HoldsSlot(c, briefs, ks.0, ks.1)
    ensures agreed ==> forall ks | ks in recorded ::
      recorded[ks] == if HoldsSlot(c, briefs, ks.0, ks.1) then Held(c, briefs, ks.0, ks.1) else held[ks]
  {
    hide ValidBrief, ValidBinding, IsRef, Distinct, Bound;
    recorded, agreed := held, true;
    var keys := c.experimentKeys;
    forall key, slot | HoldsSlot(c, briefs, key, slot) { SlotIsBound(c, briefs, key, slot); }
    for i := 0 to |keys|
      invariant forall key, slot | key in keys[..i] && slot in briefs[key].heldFixedSlots && (key, slot) in held ::
        held[(key, slot)] == Bound(c.bindings)[slot]
      invariant forall ks ::
        ks in recorded <==> ks in held || (ks.0 in keys[..i] && ks.1 in briefs[ks.0].heldFixedSlots)
      invariant forall ks | ks in recorded ::
        recorded[ks] == if ks.0 in keys[..i] && ks.1 in briefs[ks.0].heldFixedSlots then Bound(c.bindings)[ks.1]
                        else held[ks]
    {
      var key := keys[i];
      assert keys[..i + 1] == keys[..i] + [key];
      agreed, recorded := RecordSlots(recorded, key, briefs[key].heldFixedSlots, Bound(c.bindings));
      if !agreed {
        return;
      }
    }
    assert keys[..|keys|] == keys;
  }

  lemma RecordHeld(held: Established, recorded: Established, done: seq<Coverage>, c: Coverage, briefs: Briefs)
    requires AllValid(done, briefs) && ValidCoverage(c, briefs)
    requires HeldFixed(done, briefs) && HeldRecorded(held, done, briefs)
    requires !Drifts(c, briefs, held)
    requires forall ks :: ks in recorded <==> ks in held || HoldsSlot(c, briefs, ks.0, ks.1)
    requires forall ks | ks in recorded ::
      recorded[ks] == if HoldsSlot(c, briefs, ks.0, ks.1) then Held(c, briefs, ks.0, ks.1) else held[ks]
    ensures HeldFixed(done + [c], briefs) && HeldRecorded(recorded, done + [c], briefs)
  {
    hide ValidCoverage, Held;
    assert forall x :: x in done + [c] <==> x in done || x == c;
    forall a | a in done ensures SameHeld(a, c, briefs) && SameHeld(c, a, briefs) {
    }
  }

  lemma DriftBreaksHeldFixed(held: Established, done: seq<Coverage>, c: Coverage, briefs: Briefs)
    requires AllValid(done, briefs) && ValidCoverage(c, briefs)
    requires HeldRecorded(held, done, briefs) && Drifts(c, briefs, held)
    ensures !HeldFixed(done + [c], briefs)
  {
    hide Bound, ValidBrief, DistinctRefs, Held;
    var key, slot :| key in c.experimentKeys && slot in briefs[key].heldFixedSlots
                     && (key, slot) in held && held[(key, slot)] != Held(c, briefs, key, slot);
    var earlier :| earlier in done && HoldsSlot(earlier, briefs, key, slot);
    assert c in done + [c] && earlier in done + [c];
    assert !SameHeld(earlier, c, briefs);
  }

  lemma NothingRecorded(briefs: Briefs)
    ensures AllValid([], briefs) && HeldFixed([], briefs) && HeldRecorded(map[], [], briefs) && CellsCounted(map[], [])
  {
  }

  /** One more coverage into the counter and the held-fixed dictionary. */
  method AddCoverage(ghost done: seq<Coverage>, c: Coverage, briefs: Briefs, counter: Counter, held: Established)
    returns (agreed: bool, counter': Counter, held': Established)
    requires AllValid(done, briefs) && ValidCoverage(c, briefs)
    requires HeldFixed(done, briefs) && HeldRecorded(held, done, briefs) && CellsCounted(counter, done)
    ensures AllValid(done + [c], briefs)
    ensures agreed <==> HeldFixed(done + [c], briefs)
    ensures agreed ==> HeldRecorded(held', done + [c], briefs) && CellsCounted(counter', done + [c])
  {
    hide Drifts, HoldsSlot, Held, HeldFixed, HeldRecorded, ValidBrief, DistinctRefs;
    counter' := CountCells(counter, c);
    assert (done + [c])[..|done|] == done;
    agreed, held' := RecordCoverage(held, c, briefs);
    if agreed {
      RecordHeld(held, held', done, c, briefs);
    } else {
      DriftBreaksHeldFixed(held, done, c, briefs);
    }
  }
}
