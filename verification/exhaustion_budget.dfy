/** The JSON root budget of an assessment, and why it covers the projection budgets that the record
    constructor checks on its own. */
module ExhaustionBudget {
  import opened Wrappers
  import opened PythonText
  import opened BundleValues
  import opened BundleBudget
  import opened BundleRecords
  import opened ExhaustionClaims

  /** A JSON value with bounded collections whose canonical text exists. */
  predicate JsonFine(v: Value)
    decreases v
  {
    match v
    case Null => true
    case Boolean(_) => true
    case Integer(_) => true
    case Float(finite, _) => finite
    case Text(s) => Utf8Length(s).Some?
    case List(items) => |items| <= TUPLE_MAX_ITEMS && forall i | 0 <= i < |items| :: JsonFine(items[i])
    case Dict(entries) =>
      |entries| <= TUPLE_MAX_ITEMS
      && forall i | 0 <= i < |entries| :: entries[i].key.Text? && JsonFine(entries[i].key) && JsonFine(entries[i].item)
    case _ => false
  }

  /** `_validate_json_root_budget` */
  predicate JsonBudget(v: Value) {
    JsonFine(v) && Nodes(v) <= ROOT_MAX_NODES && Length(v) <= ROOT_MAX_BYTES
  }

  // ---- Parts are within the budget of the whole

  lemma {:induction false} ItemIsShorter(items: seq<Value>, i: nat)
    requires i < |items|
    ensures Length(items[i]) <= ItemsLength(items) && Nodes(items[i]) <= AllNodes(items)
  {
    var last := |items| - 1;
    if i < last {
      ItemIsShorter(items[..last], i);
    }
  }

  lemma {:induction false} EntryIsShorter(entries: seq<Entry>, i: nat)
    requires i < |entries|
    ensures PairLength(entries[i]) <= EntriesLength(entries) && PairNodes(entries[i]) <= EntryNodes(entries)
  {
    var last := |entries| - 1;
    if i < last {
      EntryIsShorter(entries[..last], i);
    }
  }

  lemma ItemIsWithinBudget(v: Value, i: nat)
    requires JsonBudget(v) && v.List? && i < |v.items|
    ensures JsonBudget(v.items[i])
  {
    ItemIsShorter(v.items, i);
  }

  lemma ObjectItemsAreWithinBudget(v: Value, names: seq<string>)
    requires JsonBudget(v) && ItemsOf(v, names).Some?
    ensures forall i | 0 <= i < |names| :: JsonBudget(ItemsOf(v, names).value[i])
  {
    hide Length, Nodes;
    forall i | 0 <= i < |names| ensures JsonBudget(ItemsOf(v, names).value[i]) {
      EntryIsWithinBudget(v, i);
    }
  }

  lemma EntryIsWithinBudget(v: Value, i: nat)
    requires JsonBudget(v) && v.Dict? && i < |v.entries|
    ensures JsonBudget(v.entries[i].item)
  {
    EntryIsShorter(v.entries, i);
  }

  // ---- A value has no more nodes than what it prints

  lemma {:induction false} NodesFitTheProjection(schema: Schema, v: Value, planText: bool)
    requires Shape(schema, v, false, planText)
    ensures Nodes(v) <= Nodes(Plain(v))
    decreases v
  {
    hide TextFits, Matches, Scalars, Depth, ValidMetric, NoDuplicateProofs;
    match v
    case Tuple(items) =>
      ItemNodesFit(schema, items, planText);
    case Record(kind, fields) =>
      FieldNodesFit(schema, kind, fields);
    case Closure(fields, metrics, receipt) =>
      FieldNodesFit(schema, CLOSURE, fields);
      NodesFitTheProjection(schema, receipt, false);
      ClosureNodesFit(v);
    case _ =>
  }

  lemma {:induction false} EntryNodesOfBoth(a: seq<Entry>, b: seq<Entry>)
    ensures EntryNodes(a + b) == EntryNodes(a) + EntryNodes(b)
    decreases |b|
  {
    if b == [] {
      assert a + b == a;
    } else {
      var last := |b| - 1;
      EntryNodesOfBoth(a, b[..last]);
      assert (a + b)[..|a + b| - 1] == a + b[..last];
    }
  }

  lemma ClosureNodesFit(v: Value)
    requires v.Closure? && v.metrics.Tuple?
    requires FieldNodes(v.fields) <= EntryNodes(PlainFields(v.fields)) && Nodes(v.receipt) <= Nodes(Plain(v.receipt))
    ensures Nodes(v) <= Nodes(Plain(v))
  {
    var metrics := [Entry(Text(Points("metric_values")), List(v.metrics.items))];
    var receipt := if v.receipt.Null? then []
                   else [Entry(Text(Points("root_completion_receipt")), Plain(v.receipt))];
    OneEntryNodes(metrics[0]);
    if !v.receipt.Null? {
      OneEntryNodes(receipt[0]);
    }
    EntryNodesOfBoth(metrics, receipt);
    EntryNodesOfBoth(PlainFields(v.fields), metrics + receipt);
  }

  lemma OneEntryNodes(e: Entry)
    ensures EntryNodes([e]) == PairNodes(e)
  {
    assert [e][..0] == [];
  }

  lemma {:induction false} ItemNodesFit(schema: Schema, items: seq<Value>, planText: bool)
    requires forall i | 0 <= i < |items| :: Shape(schema, items[i], false, planText)
    ensures AllNodes(items) <= AllNodes(PlainItems(items))
    decreases items
  {
    if items != [] {
      ItemNodesFit(schema, items[..|items| - 1], planText);
      NodesFitTheProjection(schema, items[|items| - 1], planText);
      assert PlainItems(items)[..|PlainItems(items)| - 1] == PlainItems(items[..|items| - 1]);
    }
  }

  lemma {:induction false} FieldNodesFit(schema: Schema, kind: string, fields: seq<Field>)
    requires forall i | 0 <= i < |fields| :: FieldShape(schema, kind, fields[i])
    ensures FieldNodes(fields) <= EntryNodes(PlainFields(fields))
    decreases fields
  {
    if fields != [] {
      FieldNodesFit(schema, kind, fields[..|fields| - 1]);
      FieldIsFit(schema, kind, fields[|fields| - 1]);
      assert PlainFields(fields)[..|PlainFields(fields)| - 1] == PlainFields(fields[..|fields| - 1]);
    }
  }

  lemma {:induction false} FieldIsFit(schema: Schema, kind: string, f: Field)
    requires FieldShape(schema, kind, f)
    ensures Nodes(f.value) <= Nodes(Plain(f.value))
    decreases f
  {
    NodesFitTheProjection(schema, f.value, InheritsPlanText(kind, f.name));
  }

  // ---- The shapes of the record parts

  lemma {:induction false} Utf8IsAtMostFour(s: Str)
    requires Utf8Length(s).Some?
    ensures Utf8Length(s).value <= 4 * |s|
  {
    if s != [] {
      Utf8IsAtMostFour(s[..|s| - 1]);
    }
  }

  lemma TextShape(schema: Schema, s: Str, maximum: nat)
    requires TextFine(s, maximum) && maximum <= REF_MAX
    ensures Shape(schema, Text(s), false, false)
  {
    Utf8IsAtMostFour(s);
  }

  lemma TextsShape(schema: Schema, refs: seq<Str>)
    requires RefsFine(refs) && |refs| <= TUPLE_MAX_ITEMS
    ensures Shape(schema, Tuple(Texts(refs)), false, false) && Matches(Tuple(Texts(refs)), ManyOf(TextType))
  {
    hide TextFine;
    forall i | 0 <= i < |refs| ensures Shape(schema, Texts(refs)[i], false, false) {
      TextShape(schema, refs[i], REF_MAX);
    }
  }

  ghost predicate ItemsMatch(kind: string, names: seq<string>, items: seq<Value>) {
    |names| == |items| && forall i | 0 <= i < |items| :: Matches(items[i], Declared(kind, names[i]))
  }

  lemma RecordShape(schema: Schema, kind: string, names: seq<string>, items: seq<Value>)
    requires Knows(schema) && kind in KINDS && kind != "ExperimentBrief" && ItemsMatch(kind, names, items)
    requires forall i | 0 <= i < |items| :: Shape(schema, items[i], false, false)
    ensures Shape(schema, RecordOf(kind, names, items), false, false)
  {
    hide Matches, Declared;
    var fields := RecordOf(kind, names, items).fields;
    forall i | 0 <= i < |fields| ensures FieldShape(schema, kind, fields[i]) {
      assert !InheritsPlanText(kind, names[i]);
    }
  }

  lemma BindingShape(schema: Schema, b: Binding)
    requires Knows(schema) && HeldFine(b)
    ensures Shape(schema, BindingValue(b), false, false)
  {
    hide TextFine, Shape, Knows, Declared;
    var items := [Text(b.revision), Text(b.slot)];
    OtherTexts("HeldFixedBinding");
    TextShape(schema, b.revision, REF_MAX);
    TextShape(schema, b.slot, REF_MAX);
    assert ItemsMatch("HeldFixedBinding", BINDING_NAMES, items);
    RecordShape(schema, "HeldFixedBinding", BINDING_NAMES, items);
  }

  lemma BindingValuesShape(schema: Schema, bindings: seq<Binding>)
    requires Knows(schema) && |bindings| <= TUPLE_MAX_ITEMS && forall i | 0 <= i < |bindings| :: HeldFine(bindings[i])
    ensures Shape(schema, BindingValues(bindings), false, false)
  {
    hide HeldFine;
    var items := BindingValues(bindings).items;
    forall i | 0 <= i < |items| ensures Shape(schema, items[i], false, false) && !IsProof(schema, items[i]) {
      BindingShape(schema, bindings[i]);
      assert KindOf(items[i]) == Some("HeldFixedBinding");
      NotAProof(schema, "HeldFixedBinding");
    }
  }

  lemma NotAProof(schema: Schema, kind: string)
    requires Knows(schema) && kind in KINDS && kind !in PROOF_KINDS
    ensures kind !in schema.proofs
  {
    assert kind in schema.proofs ==> kind in schema.proofs * KINDS;
  }

  lemma RouteShape(schema: Schema, r: Route)
    requires Knows(schema) && RouteFine(r) && |r.operations| <= TUPLE_MAX_ITEMS
    ensures Shape(schema, RouteValue(r), false, false)
  {
    hide TextFine, RefsFine, Shape, Knows, Texts;
    var items := [Tuple(Texts(r.operations)), Text(r.ref)];
    TextsShape(schema, r.operations);
    TextShape(schema, r.ref, REF_MAX);
    assert ItemsMatch("RouteSpec", ROUTE_NAMES, items) by {
      RouteMatches(items);
    }
    RecordShape(schema, "RouteSpec", ROUTE_NAMES, items);
  }

  lemma RouteMatches(items: seq<Value>)
    requires |items| == 2 && Matches(items[0], ManyOf(TextType)) && items[1].Text?
    ensures ItemsMatch("RouteSpec", ROUTE_NAMES, items)
  {
  }

  function ProofItems(p: Proof): seq<Value> {
    [Boolean(p.current), Boolean(p.currentnessKnown), Text(p.ref), Text(p.subject), Boolean(p.verified)]
  }

  lemma ProofMatches(p: Proof)
    ensures ItemsMatch("ReceiptProof", PROOF_NAMES, ProofItems(p))
  {
    hide Declared;
    RefsAreTexts("ReceiptProof");
    FlagsAreBooleans("ReceiptProof");
  }

  lemma ProofShape(schema: Schema, p: Proof)
    requires Knows(schema) && TextFine(p.ref, REF_MAX) && TextFine(p.subject, REF_MAX)
    ensures Shape(schema, ProofValue(p), false, false)
  {
    hide TextFine, Knows, ItemsMatch;
    TextShape(schema, p.ref, REF_MAX);
    TextShape(schema, p.subject, REF_MAX);
    ProofMatches(p);
    RecordShape(schema, "ReceiptProof", PROOF_NAMES, ProofItems(p));
  }

  function ReconciliationItems(r: Reconciliation): seq<Value> {
    [Text(r.operation), Text(r.outcome), ProofValue(r.receipt)]
  }

  lemma ReconciliationMatches(r: Reconciliation)
    ensures ItemsMatch("ExternalOperationReconciliation", RECONCILIATION_NAMES, ReconciliationItems(r))
  {
    hide Declared;
    RefsAreTexts("ExternalOperationReconciliation");
    OtherTexts("ExternalOperationReconciliation");
    ReceiptIsAProof("ExternalOperationReconciliation");
  }

  lemma ReconciliationShape(schema: Schema, r: Reconciliation)
    requires Knows(schema) && ReconciliationFine(r)
    ensures Shape(schema, ReconciliationValue(r), false, false)
  {
    hide TextFine, Shape, Knows, ItemsMatch, ProofValue;
    TextShape(schema, r.operation, REF_MAX);
    TextShape(schema, r.outcome, OUTCOME_MAX);
    ProofShape(schema, r.receipt);
    ReconciliationMatches(r);
    RecordShape(schema, "ExternalOperationReconciliation", RECONCILIATION_NAMES, ReconciliationItems(r));
  }

  lemma ReconciliationValuesShape(schema: Schema, list: seq<Reconciliation>)
    requires Knows(schema) && |list| <= TUPLE_MAX_ITEMS && forall i | 0 <= i < |list| :: ReconciliationFine(list[i])
    ensures Shape(schema, ReconciliationValues(list), false, false)
    ensures Matches(ReconciliationValues(list), ManyOf(RecordType("ExternalOperationReconciliation")))
  {
    hide ReconciliationFine, Knows;
    var kind, items := "ExternalOperationReconciliation", ReconciliationValues(list).items;
    NotAProof(schema, kind);
    forall i | 0 <= i < |items| ensures Shape(schema, items[i], false, false) && !IsProof(schema, items[i]) {
      ReconciliationShape(schema, list[i]);
      assert KindOf(items[i]) == Some(kind);
    }
  }

  predicate DispositionSizes(d: Disposition) {
    && |d.evidence| <= TUPLE_MAX_ITEMS && |d.experiments| <= TUPLE_MAX_ITEMS
    && |d.requiredChanges| <= TUPLE_MAX_ITEMS && |d.reconciliations| <= TUPLE_MAX_ITEMS
  }

  lemma DispositionMatches(items: seq<Value>)
    requires |items| == 7 && items[0].Text? && items[4].Text? && items[6].Text?
    requires Matches(items[1], ManyOf(TextType)) && Matches(items[2], ManyOf(TextType))
    requires Matches(items[5], ManyOf(TextType))
    requires Matches(items[3], ManyOf(RecordType("ExternalOperationReconciliation")))
    ensures ItemsMatch("RouteDisposition", DISPOSITION_NAMES, items)
  {
  }

  lemma DispositionShape(schema: Schema, d: Disposition)
    requires Knows(schema) && DispositionFine(d) && DispositionSizes(d)
    ensures Shape(schema, DispositionValue(d), false, false)
  {
    hide TextFine, RefsFine, ReconciliationFine, Shape, Texts, ReconciliationValues, Knows, ItemsMatch, Matches;
    TextShape(schema, d.ref, REF_MAX);
    TextShape(schema, d.routeRef, REF_MAX);
    TextShape(schema, d.outcome, OUTCOME_MAX);
    TextsShape(schema, d.evidence);
    TextsShape(schema, d.experiments);
    TextsShape(schema, d.requiredChanges);
    ReconciliationValuesShape(schema, d.reconciliations);
    DispositionMatches(DispositionItems(d));
    RecordShape(schema, "RouteDisposition", DISPOSITION_NAMES, DispositionItems(d));
  }

  function DispositionItems(d: Disposition): seq<Value> {
    [Text(d.ref), Tuple(Texts(d.evidence)), Tuple(Texts(d.experiments)), ReconciliationValues(d.reconciliations),
     Text(d.outcome), Tuple(Texts(d.requiredChanges)), Text(d.routeRef)]
  }

  // ---- What the JSON budget gives

  lemma PrintedWithinBudget(schema: Schema, v: Value, json: Value)
    requires Shape(schema, v, false, false) && Plain(v) == json && JsonBudget(json)
    ensures Accepted(schema, v, ROOT_MAX_BYTES)
  {
    hide Shape, Plain, JsonFine;
    NodesFitTheProjection(schema, v, false);
  }

  lemma HeldIsAccepted(schema: Schema, json: Value)
    requires Knows(schema) && JsonBudget(json) && HeldFrom(json).Some?
    ensures Accepted(schema, BindingValues(HeldFrom(json).value), ROOT_MAX_BYTES)
  {
    hide Accepted, Shape, Plain, HeldListFrom, HeldFine, BindingValues;
    var held := HeldFrom(json).value;
    HeldListIsFine(json.items);
    BindingValuesShape(schema, held);
    HeldListIsReprinted(json);
    PrintedWithinBudget(schema, BindingValues(held), json);
  }

  lemma RouteIsAccepted(schema: Schema, json: Value)
    requires Knows(schema) && JsonBudget(json) && RouteFrom(json).Some?
    ensures Accepted(schema, RouteValue(RouteFrom(json).value), ROOT_MAX_BYTES)
  {
    hide Accepted, Shape, Plain, RefsFine, TextFine, RouteValue;
    var r := RouteFrom(json).value;
    ObjectItemsAreWithinBudget(json, ROUTE_NAMES);
    RouteShape(schema, r);
    RouteIsReprinted(json);
    PrintedWithinBudget(schema, RouteValue(r), json);
  }

  lemma DispositionIsAccepted(schema: Schema, json: Value)
    requires Knows(schema) && JsonBudget(json) && DispositionFrom(json).Some?
    ensures Accepted(schema, DispositionValue(DispositionFrom(json).value), ROOT_MAX_BYTES)
  {
    hide Accepted, Shape, Plain, DispositionFrom, DispositionValue, DispositionFine;
    var d := DispositionFrom(json).value;
    DispositionIsFine(json);
    DispositionIsSmall(json);
    DispositionShape(schema, d);
    DispositionIsReprinted(json);
    PrintedWithinBudget(schema, DispositionValue(d), json);
  }

  lemma DispositionIsSmall(json: Value)
    requires JsonBudget(json) && DispositionFrom(json).Some?
    ensures DispositionSizes(DispositionFrom(json).value)
  {
    hide TextFine, RefsFine, ReconciliationFrom, Length, Nodes;
    ObjectItemsAreWithinBudget(json, DISPOSITION_NAMES);
    var i := ItemsOf(json, DISPOSITION_NAMES).value;
    assert JsonBudget(i[1]) && JsonBudget(i[2]) && JsonBudget(i[3]) && JsonBudget(i[5]);
  }
}
