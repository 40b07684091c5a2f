/** Exploration claims: the parsers of their JSON form and the printer of the records.  A JSON object
    is the dictionary of its items in the order of their keys, as its canonical text has them. */
module ExhaustionClaims {
  import opened Wrappers
  import opened PythonText
  import opened Refs
  import opened BundleValues
  import opened BundleRecords

  const REF_MAX := 256
  const OUTCOME_MAX := 64
  const HASH_LENGTH := 64

  datatype Disposition = Disposition(
    ref: Str, routeRef: Str, experiments: seq<Str>, outcome: Str, requiredChanges: seq<Str>,
    evidence: seq<Str>, reconciliations: seq<Reconciliation>)

  /** The part of an exploration record that the root provider claims. */
  datatype Claim = Claim(
    ref: Str, experiment: Str, unit: Str, held: seq<Binding>, route: Route, disposition: Disposition,
    fingerprint: Str)

  // ---- Texts

  /** `_text` as a check. */
  predicate TextFine(s: Str, maximum: nat) {
    !Blank(s) && |s| <= maximum && Utf8Length(s).Some?
  }

  predicate HashFine(s: Str) {
    TextFine(s, HASH_LENGTH) && |s| == HASH_LENGTH && forall c | c in s :: LowerHexPoint(c)
  }

  /** The last condition is `refs == tuple(sorted(set(refs)))`. */
  predicate RefsFine(refs: seq<Str>) {
    (forall i | 0 <= i < |refs| :: TextFine(refs[i], REF_MAX)) && Ascending(refs)
  }

  // ---- Objects

  const DISPOSITION_NAMES := [
    "disposition_ref", "evidence_refs", "experiment_keys", "external_reconciliations", "outcome",
    "required_changes", "route_ref"]
  const CLAIM_NAMES := [
    "experiment_key", "frozen_semantic_fingerprint", "held_fixed_bindings", "measurement_unit_key",
    "record_ref", "route", "route_disposition"]

  function Object(names: seq<string>, items: seq<Value>): Value
    requires |names| == |items|
  {
    Dict(seq(|names|, i requires 0 <= i < |names| => Entry(Text(Points(names[i])), items[i])))
  }

  /** The items of an object with exactly these keys. */
  function ItemsOf(v: Value, names: seq<string>): (items: Option<seq<Value>>)
    ensures items.Some? ==> |items.value| == |names|
  {
    if v.Dict? && |v.entries| == |names| && (forall i | 0 <= i < |names| :: v.entries[i].key == Text(Points(names[i])))
    then Some(seq(|names|, i requires 0 <= i < |names| => v.entries[i].item))
    else None
  }

  lemma ItemsRebuildTheObject(v: Value, names: seq<string>)
    requires ItemsOf(v, names).Some?
    ensures Object(names, ItemsOf(v, names).value) == v
  {
  }

  lemma ObjectHasItsItems(names: seq<string>, items: seq<Value>)
    requires |names| == |items|
    ensures ItemsOf(Object(names, items), names) == Some(items)
  {
    assert ItemsOf(Object(names, items), names).value == items;
  }

  // ---- Records as values, and what they print

  function DispositionValue(d: Disposition): Value {
    RecordOf("RouteDisposition", DISPOSITION_NAMES,
             [Text(d.ref), Tuple(Texts(d.evidence)), Tuple(Texts(d.experiments)),
              ReconciliationValues(d.reconciliations),
              Text(d.outcome), Tuple(Texts(d.requiredChanges)), Text(d.routeRef)])
  }

  /** `claim_dict` */
  function ClaimDict(c: Claim): Value {
    Object(CLAIM_NAMES,
           [Text(c.experiment), Text(c.fingerprint), Plain(BindingValues(c.held)), Text(c.unit), Text(c.ref),
            Plain(RouteValue(c.route)), Plain(DispositionValue(c.disposition))])
  }

  // ---- Parsers; None is the `OwnerConflict` they raise

  predicate IsText(v: Value, maximum: nat) {
    v.Text? && TextFine(v.s, maximum)
  }

  predicate AllTexts(items: seq<Value>) {
    forall i | 0 <= i < |items| :: items[i].Text?
  }

  function StringsOf(items: seq<Value>): seq<Str>
    requires AllTexts(items)
  {
    seq(|items|, i requires 0 <= i < |items| => items[i].s)
  }

  function RefsFrom(v: Value): Option<seq<Str>> {
    if v.List? && AllTexts(v.items) && RefsFine(StringsOf(v.items)) then Some(StringsOf(v.items)) else None
  }

  function HeldOneFrom(v: Value): Option<Binding> {
    var items := ItemsOf(v, BINDING_NAMES);
    if items.Some? && IsText(items.value[0], REF_MAX) && IsText(items.value[1], REF_MAX)
    then Some(Binding(items.value[1].s, items.value[0].s)) else None
  }

  function HeldListFrom(items: seq<Value>): (held: Option<seq<Binding>>)
    ensures held.Some? ==> |held.value| == |items| && forall i | 0 <= i < |items| ::
      HeldOneFrom(items[i]) == Some(held.value[i])
  {
    hide HeldOneFrom;
    if items == [] then Some([])
    else
      var before, last := HeldListFrom(items[..|items| - 1]), HeldOneFrom(items[|items| - 1]);
      if before.Some? && last.Some? then Some(before.value + [last.value]) else None
  }

  function HeldFrom(v: Value): Option<seq<Binding>> {
    if v.List? then HeldListFrom(v.items) else None
  }

  function RouteFrom(v: Value): Option<Route> {
    var items := ItemsOf(v, ROUTE_NAMES);
    if items.None? || !IsText(items.value[1], REF_MAX) then None
    else
      var operations := RefsFrom(items.value[0]);
      if operations.Some? then Some(Route(items.value[1].s, operations.value)) else None
  }

  function ProofFrom(v: Value): Option<Proof> {
    var items := ItemsOf(v, PROOF_NAMES);
    if items.Some? && items.value[0].Boolean? && items.value[1].Boolean? && items.value[4].Boolean?
       && IsText(items.value[2], REF_MAX) && IsText(items.value[3], REF_MAX)
    then Some(Proof(items.value[2].s, items.value[3].s, items.value[4].b, items.value[1].b, items.value[0].b)) else None
  }

  function ReconciliationFrom(v: Value): Option<Reconciliation> {
    var items := ItemsOf(v, RECONCILIATION_NAMES);
    if items.None? || !IsText(items.value[0], REF_MAX) || !IsText(items.value[1], OUTCOME_MAX) then None
    else
      var receipt := ProofFrom(items.value[2]);
      if receipt.Some? then Some(Reconciliation(items.value[0].s, receipt.value, items.value[1].s)) else None
  }

  function ReconciliationListFrom(items: seq<Value>): (list: Option<seq<Reconciliation>>)
    ensures list.Some? ==> |list.value| == |items|
  {
    hide ReconciliationFrom;
    if items == [] then Some([])
    else
      var before, last := ReconciliationListFrom(items[..|items| - 1]), ReconciliationFrom(items[|items| - 1]);
      if before.Some? && last.Some? then Some(before.value + [last.value]) else None
  }

  lemma {:induction false} ReconciliationsAreParsed(items: seq<Value>)
    requires ReconciliationListFrom(items).Some?
    ensures forall i | 0 <= i < |items| :: ReconciliationFrom(items[i]) == Some(ReconciliationListFrom(items).value[i])
  {
    hide ReconciliationFrom;
    if items != [] {
      ReconciliationsAreParsed(items[..|items| - 1]);
    }
  }

  function DispositionFrom(v: Value): Option<Disposition> {
    var items := ItemsOf(v, DISPOSITION_NAMES);
    if items.None? then None
    else
      var i := items.value;
      if !IsText(i[0], REF_MAX) || !IsText(i[6], REF_MAX) || !IsText(i[4], OUTCOME_MAX) || !i[3].List? then None
      else
        var evidence, experiments, changes := RefsFrom(i[1]), RefsFrom(i[2]), RefsFrom(i[5]);
        var reconciliations := ReconciliationListFrom(i[3].items);
        if evidence.None? || experiments.None? || changes.None? || reconciliations.None? then None
        else
          Some(Disposition(i[0].s, i[6].s, experiments.value, i[4].s, changes.value, evidence.value,
                           reconciliations.value))
  }

  /** A claim with its texts checked. */
  function ClaimFrom(v: Value): Option<Claim> {
    var items := ItemsOf(v, CLAIM_NAMES);
    if items.None? then None
    else
      var i := items.value;
      if !IsText(i[0], REF_MAX) || !(i[1].Text? && HashFine(i[1].s)) then None
      else if !IsText(i[3], REF_MAX) || !IsText(i[4], REF_MAX) then None
      else
        var held, route, disposition := HeldFrom(i[2]), RouteFrom(i[5]), DispositionFrom(i[6]);
        if held.None? || route.None? || disposition.None? then None
        else Some(Claim(i[4].s, i[0].s, i[3].s, held.value, route.value, disposition.value, i[1].s))
  }

  // ---- Printing undoes parsing

  lemma {:induction false} PlainFieldsOf(names: seq<string>, items: seq<Value>, n: nat)
    requires |names| == |items| && n <= |names|
    ensures var fields := seq(n, i requires 0 <= i < n => Field(names[i], items[i]));
      PlainFields(fields) == seq(n, i requires 0 <= i < n => Entry(Text(Points(names[i])), Plain(items[i])))
  {
    hide Plain, Points;
    if n > 0 {
      PlainFieldsOf(names, items, n - 1);
      var fields := seq(n, i requires 0 <= i < n => Field(names[i], items[i]));
      assert fields[..n - 1] == seq(n - 1, i requires 0 <= i < n - 1 => Field(names[i], items[i]));
    }
  }

  lemma RecordPrintsAsObject(kind: string, names: seq<string>, items: seq<Value>, printed: seq<Value>)
    requires |names| == |items| == |printed| && forall i | 0 <= i < |items| :: printed[i] == Plain(items[i])
    ensures Plain(RecordOf(kind, names, items)) == Object(names, printed)
  {
    PlainFieldsOf(names, items, |names|);
  }

  lemma {:induction false} PlainItemsAt(items: seq<Value>)
    ensures |PlainItems(items)| == |items| && forall i | 0 <= i < |items| :: PlainItems(items)[i] == Plain(items[i])
  {
    hide Plain;
    if items != [] {
      PlainItemsAt(items[..|items| - 1]);
    }
  }

  lemma TextsPrintAsThemselves(refs: seq<Str>)
    ensures Plain(Tuple(Texts(refs))) == List(Texts(refs))
  {
    PlainItemsAt(Texts(refs));
    assert PlainItems(Texts(refs)) == Texts(refs);
  }

  lemma RefsAreReprinted(v: Value)
    requires RefsFrom(v).Some?
    ensures Plain(Tuple(Texts(RefsFrom(v).value))) == v
  {
    TextsPrintAsThemselves(RefsFrom(v).value);
    assert Texts(StringsOf(v.items)) == v.items;
  }

  lemma HeldIsReprinted(v: Value)
    requires HeldOneFrom(v).Some?
    ensures Plain(BindingValue(HeldOneFrom(v).value)) == v
  {
    var i := ItemsOf(v, BINDING_NAMES).value;
    ItemsRebuildTheObject(v, BINDING_NAMES);
    RecordPrintsAsObject("HeldFixedBinding", BINDING_NAMES, i, i);
    assert i == [i[0], i[1]];
  }

  lemma HeldListIsReprinted(v: Value)
    requires HeldFrom(v).Some?
    ensures Plain(BindingValues(HeldFrom(v).value)) == v
  {
    hide Plain, HeldOneFrom;
    var held := HeldFrom(v).value;
    var values := BindingValues(held).items;
    PlainItemsAt(values);
    forall i | 0 <= i < |held| ensures PlainItems(values)[i] == v.items[i] {
      HeldIsReprinted(v.items[i]);
    }
    assert PlainItems(values) == v.items;
    PlainOfTuple(values);
  }

  lemma PlainOfTuple(items: seq<Value>)
    ensures Plain(Tuple(items)) == List(PlainItems(items))
  {
  }

  lemma RouteIsReprinted(v: Value)
    requires RouteFrom(v).Some?
    ensures Plain(RouteValue(RouteFrom(v).value)) == v
  {
    hide RefsFine, TextFine;
    var i := ItemsOf(v, ROUTE_NAMES).value;
    ItemsRebuildTheObject(v, ROUTE_NAMES);
    RefsAreReprinted(i[0]);
    var items := [Tuple(Texts(RefsFrom(i[0]).value)), i[1]];
    RecordPrintsAsObject("RouteSpec", ROUTE_NAMES, items, i);
  }

  lemma ProofIsReprinted(v: Value)
    requires ProofFrom(v).Some?
    ensures Plain(ProofValue(ProofFrom(v).value)) == v
  {
    hide TextFine, Plain;
    var i := ItemsOf(v, PROOF_NAMES).value;
    ScalarsArePlain(i);
    ItemsRebuildTheObject(v, PROOF_NAMES);
    RecordPrintsAsObject("ReceiptProof", PROOF_NAMES, i, i);
    assert i == [i[0], i[1], i[2], i[3], i[4]];
  }

  lemma ReconciliationIsReprinted(v: Value)
    requires ReconciliationFrom(v).Some?
    ensures Plain(ReconciliationValue(ReconciliationFrom(v).value)) == v
  {
    hide TextFine, ProofFrom, ProofValue;
    var i := ItemsOf(v, RECONCILIATION_NAMES).value;
    ItemsRebuildTheObject(v, RECONCILIATION_NAMES);
    ProofIsReprinted(i[2]);
    var items := [i[0], i[1], ProofValue(ProofFrom(i[2]).value)];
    RecordPrintsAsObject("ExternalOperationReconciliation", RECONCILIATION_NAMES, items, i);
  }

  lemma ReconciliationsAreReprinted(items: seq<Value>)
    requires ReconciliationListFrom(items).Some?
    ensures Plain(ReconciliationValues(ReconciliationListFrom(items).value)) == List(items)
  {
    hide Plain, ReconciliationFrom;
    var list := ReconciliationListFrom(items).value;
    ReconciliationsAreParsed(items);
    var values := ReconciliationValues(list).items;
    PlainItemsAt(values);
    forall i | 0 <= i < |list| ensures PlainItems(values)[i] == items[i] {
      ReconciliationIsReprinted(items[i]);
    }
    assert PlainItems(values) == items;
    PlainOfTuple(values);
  }

  lemma ScalarsArePlain(items: seq<Value>)
    ensures forall i | 0 <= i < |items| && (items[i].Text? || items[i].Boolean?) ::
      Plain(items[i]) == items[i]
  {
  }

  lemma DispositionIsReprinted(v: Value)
    requires DispositionFrom(v).Some?
    ensures Plain(DispositionValue(DispositionFrom(v).value)) == v
  {
    hide TextFine, RefsFrom, ReconciliationListFrom, ReconciliationValues, Texts, Plain, Object;
    var i := ItemsOf(v, DISPOSITION_NAMES).value;
    ScalarsArePlain(i);
    ItemsRebuildTheObject(v, DISPOSITION_NAMES);
    RefsAreReprinted(i[1]);
    RefsAreReprinted(i[2]);
    RefsAreReprinted(i[5]);
    ReconciliationsAreReprinted(i[3].items);
    var items := [i[0], Tuple(Texts(RefsFrom(i[1]).value)), Tuple(Texts(RefsFrom(i[2]).value)),
                  ReconciliationValues(ReconciliationListFrom(i[3].items).value), i[4],
                  Tuple(Texts(RefsFrom(i[5]).value)), i[6]];
    RecordPrintsAsObject("RouteDisposition", DISPOSITION_NAMES, items, i);
  }

  /** A claim that parses prints back to the very same value. */
  lemma ClaimPrintsBack(v: Value)
    requires ClaimFrom(v).Some?
    ensures ClaimDict(ClaimFrom(v).value) == v
  {
    hide TextFine, HashFine, HeldFrom, RouteFrom, DispositionFrom, BindingValues, RouteValue, DispositionValue, Plain;
    var i := ItemsOf(v, CLAIM_NAMES).value;
    ItemsRebuildTheObject(v, CLAIM_NAMES);
    HeldListIsReprinted(i[2]);
    RouteIsReprinted(i[5]);
    DispositionIsReprinted(i[6]);
    assert i == [i[0], i[1], i[2], i[3], i[4], i[5], i[6]];
  }

  // ---- Parsing undoes printing

  predicate HeldFine(h: Binding) {
    TextFine(h.slot, REF_MAX) && TextFine(h.revision, REF_MAX)
  }

  predicate RouteFine(r: Route) {
    TextFine(r.ref, REF_MAX) && RefsFine(r.operations)
  }

  predicate ReconciliationFine(r: Reconciliation) {
    && TextFine(r.operation, REF_MAX) && TextFine(r.outcome, OUTCOME_MAX)
    && TextFine(r.receipt.ref, REF_MAX) && TextFine(r.receipt.subject, REF_MAX)
  }

  predicate DispositionFine(d: Disposition) {
    && TextFine(d.ref, REF_MAX) && TextFine(d.routeRef, REF_MAX) && TextFine(d.outcome, OUTCOME_MAX)
    && RefsFine(d.experiments) && RefsFine(d.requiredChanges) && RefsFine(d.evidence)
    && forall i | 0 <= i < |d.reconciliations| :: ReconciliationFine(d.reconciliations[i])
  }

  /** The texts of a claim are those that the parsers accept. */
  predicate ClaimFine(c: Claim) {
    && TextFine(c.ref, REF_MAX) && TextFine(c.experiment, REF_MAX) && TextFine(c.unit, REF_MAX)
    && HashFine(c.fingerprint) && (forall i | 0 <= i < |c.held| :: HeldFine(c.held[i]))
    && RouteFine(c.route) && DispositionFine(c.disposition)
  }

  lemma RefsParseBack(refs: seq<Str>)
    requires RefsFine(refs)
    ensures RefsFrom(Plain(Tuple(Texts(refs)))) == Some(refs)
  {
    hide RefsFine;
    TextsPrintAsThemselves(refs);
    assert StringsOf(Texts(refs)) == refs;
  }

  lemma HeldParsesBack(h: Binding)
    requires HeldFine(h)
    ensures HeldOneFrom(Plain(BindingValue(h))) == Some(h)
  {
    hide TextFine;
    var items := [Text(h.revision), Text(h.slot)];
    RecordPrintsAsObject("HeldFixedBinding", BINDING_NAMES, items, items);
    ObjectHasItsItems(BINDING_NAMES, items);
  }

  lemma {:induction false} HeldListParsesBack(held: seq<Binding>, printed: seq<Value>)
    requires |printed| == |held| && forall i | 0 <= i < |held| :: HeldOneFrom(printed[i]) == Some(held[i])
    ensures HeldListFrom(printed) == Some(held)
  {
    hide HeldOneFrom;
    if held != [] {
      HeldListParsesBack(held[..|held| - 1], printed[..|held| - 1]);
      assert held == held[..|held| - 1] + [held[|held| - 1]];
    }
  }

  lemma HeldValuesParseBack(held: seq<Binding>)
    requires forall i | 0 <= i < |held| :: HeldFine(held[i])
    ensures HeldFrom(Plain(BindingValues(held))) == Some(held)
  {
    hide Plain, HeldOneFrom, HeldFine, HeldListFrom;
    var values := BindingValues(held).items;
    PlainItemsAt(values);
    PlainOfTuple(values);
    forall i | 0 <= i < |held| ensures HeldOneFrom(PlainItems(values)[i]) == Some(held[i]) {
      HeldParsesBack(held[i]);
    }
    HeldListParsesBack(held, PlainItems(values));
  }

  lemma RouteParsesBack(r: Route)
    requires RouteFine(r)
    ensures RouteFrom(Plain(RouteValue(r))) == Some(r)
  {
    hide TextFine, RefsFine, RefsFrom;
    var items := [Tuple(Texts(r.operations)), Text(r.ref)];
    var printed := [Plain(items[0]), items[1]];
    RecordPrintsAsObject("RouteSpec", ROUTE_NAMES, items, printed);
    ObjectHasItsItems(ROUTE_NAMES, printed);
    RefsParseBack(r.operations);
  }

  lemma ProofParsesBack(p: Proof)
    requires TextFine(p.ref, REF_MAX) && TextFine(p.subject, REF_MAX)
    ensures ProofFrom(Plain(ProofValue(p))) == Some(p)
  {
    hide TextFine;
    var items := [Boolean(p.current), Boolean(p.currentnessKnown), Text(p.ref), Text(p.subject), Boolean(p.verified)];
    RecordPrintsAsObject("ReceiptProof", PROOF_NAMES, items, items);
    ObjectHasItsItems(PROOF_NAMES, items);
  }

  lemma ReconciliationParsesBack(r: Reconciliation)
    requires ReconciliationFine(r)
    ensures ReconciliationFrom(Plain(ReconciliationValue(r))) == Some(r)
  {
    hide TextFine, ProofFrom, ProofValue, Object;
    ProofParsesBack(r.receipt);
    var items := [Text(r.operation), Text(r.outcome), ProofValue(r.receipt)];
    var printed := [items[0], items[1], Plain(ProofValue(r.receipt))];
    RecordPrintsAsObject("ExternalOperationReconciliation", RECONCILIATION_NAMES, items, printed);
    ObjectHasItsItems(RECONCILIATION_NAMES, printed);
  }

  lemma {:induction false} ReconciliationListParsesBack(list: seq<Reconciliation>, printed: seq<Value>)
    requires |printed| == |list| && forall i | 0 <= i < |list| :: ReconciliationFrom(printed[i]) == Some(list[i])
    ensures ReconciliationListFrom(printed) == Some(list)
  {
    hide ReconciliationFrom;
    if list != [] {
      ReconciliationListParsesBack(list[..|list| - 1], printed[..|list| - 1]);
      assert list == list[..|list| - 1] + [list[|list| - 1]];
    }
  }

  lemma ReconciliationValuesParseBack(list: seq<Reconciliation>)
    requires forall i | 0 <= i < |list| :: ReconciliationFine(list[i])
    ensures var printed := Plain(ReconciliationValues(list));
      printed.List? && ReconciliationListFrom(printed.items) == Some(list)
  {
    hide Plain, ReconciliationFrom, ReconciliationFine, ReconciliationListFrom;
    var values := ReconciliationValues(list).items;
    PlainItemsAt(values);
    PlainOfTuple(values);
    forall i | 0 <= i < |list| ensures ReconciliationFrom(PlainItems(values)[i]) == Some(list[i]) {
      ReconciliationParsesBack(list[i]);
    }
    ReconciliationListParsesBack(list, PlainItems(values));
  }

  lemma DispositionParsesBack(d: Disposition)
    requires DispositionFine(d)
    ensures DispositionFrom(Plain(DispositionValue(d))) == Some(d)
  {
    hide TextFine, RefsFine, RefsFrom, ReconciliationFine, ReconciliationListFrom, ReconciliationValues, Texts;
    var items := [Text(d.ref), Tuple(Texts(d.evidence)), Tuple(Texts(d.experiments)),
                  ReconciliationValues(d.reconciliations),
                  Text(d.outcome), Tuple(Texts(d.requiredChanges)), Text(d.routeRef)];
    var printed := [items[0], Plain(items[1]), Plain(items[2]), Plain(items[3]), items[4], Plain(items[5]), items[6]];
    RecordPrintsAsObject("RouteDisposition", DISPOSITION_NAMES, items, printed);
    ObjectHasItsItems(DISPOSITION_NAMES, printed);
    RefsParseBack(d.evidence);
    RefsParseBack(d.experiments);
    RefsParseBack(d.requiredChanges);
    ReconciliationValuesParseBack(d.reconciliations);
  }

  /** A claim with acceptable texts is read back from what it prints. */
  lemma ClaimReadsBack(c: Claim)
    requires ClaimFine(c)
    ensures ClaimFrom(ClaimDict(c)) == Some(c)
  {
    hide TextFine, HashFine, HeldFrom, RouteFrom, DispositionFrom, BindingValues, RouteValue, DispositionValue, Plain,
      RouteFine, DispositionFine, HeldFine;
    var items := [Text(c.experiment), Text(c.fingerprint), Plain(BindingValues(c.held)), Text(c.unit), Text(c.ref),
                  Plain(RouteValue(c.route)), Plain(DispositionValue(c.disposition))];
    ObjectHasItsItems(CLAIM_NAMES, items);
    HeldValuesParseBack(c.held);
    RouteParsesBack(c.route);
    DispositionParsesBack(c.disposition);
  }

  lemma {:induction false} HeldListIsFine(items: seq<Value>)
    requires HeldListFrom(items).Some?
    ensures forall i | 0 <= i < |items| :: HeldFine(HeldListFrom(items).value[i])
  {
    hide TextFine;
  }

  lemma ReconciliationIsFine(v: Value)
    requires ReconciliationFrom(v).Some?
    ensures ReconciliationFine(ReconciliationFrom(v).value)
  {
    hide TextFine, ItemsOf;
  }

  lemma ReconciliationListIsFine(items: seq<Value>)
    requires ReconciliationListFrom(items).Some?
    ensures forall i | 0 <= i < |items| :: ReconciliationFine(ReconciliationListFrom(items).value[i])
  {
    hide ReconciliationFrom, ReconciliationFine, ReconciliationListFrom;
    ReconciliationsAreParsed(items);
    forall i | 0 <= i < |items| ensures ReconciliationFine(ReconciliationListFrom(items).value[i]) {
      ReconciliationIsFine(items[i]);
    }
  }

  lemma DispositionIsFine(v: Value)
    requires DispositionFrom(v).Some?
    ensures DispositionFine(DispositionFrom(v).value)
  {
    hide TextFine, RefsFine, ReconciliationListFrom, ReconciliationFine;
    ReconciliationListIsFine(ItemsOf(v, DISPOSITION_NAMES).value[3].items);
  }

  lemma ParsedClaimIsFine(v: Value)
    requires ClaimFrom(v).Some?
    ensures ClaimFine(ClaimFrom(v).value)
  {
    hide TextFine, HashFine, RefsFine, HeldListFrom, HeldFine, DispositionFrom, DispositionFine;
    var i := ItemsOf(v, CLAIM_NAMES).value;
    HeldListIsFine(i[2].items);
    DispositionIsFine(i[6]);
  }

  /** Parsing and printing are inverse: the values that parse as a claim are exactly the printed forms
      of the claims with acceptable texts. */
  lemma ClaimsAndValuesCorrespond(v: Value, c: Claim)
    ensures ClaimFrom(v) == Some(c) <==> ClaimFine(c) && v == ClaimDict(c)
  {
    hide ClaimFrom, ClaimDict, ClaimFine;
    if ClaimFrom(v) == Some(c) {
      ClaimPrintsBack(v);
      ParsedClaimIsFine(v);
    }
    if ClaimFine(c) {
      ClaimReadsBack(c);
    }
  }
}
