/** The traversals with their running counters, proved to decide the predicates of `BundleBudget`. */
module BundleVisits {
  import opened BundleValues
  import opened BundleBudget

  /** Bounded at a position of the tree. */
  predicate FineAt(v: Value, depth: nat) {
    LeavesFine(v) && depth + Depth(v) <= METRIC_MAX_DEPTH
  }

  predicate PairFineAt(e: Entry, depth: nat) {
    e.key.Text? && FineAt(e.key, depth) && FineAt(e.item, depth)
  }

  lemma {:induction false} ItemDepthIsBounded(items: seq<Value>, bound: nat)
    ensures ItemDepth(items) <= bound <==> forall i | 0 <= i < |items| :: Depth(items[i]) <= bound
  {
    if items != [] {
      var last := |items| - 1;
      ItemDepthIsBounded(items[..last], bound);
      assert forall i | 0 <= i < last :: items[..last][i] == items[i];
    }
  }

  lemma {:induction false} EntryDepthIsBounded(entries: seq<Entry>, bound: nat)
    ensures EntryDepth(entries) <= bound <==> forall i | 0 <= i < |entries| :: PairDepth(entries[i]) <= bound
  {
    if entries != [] {
      var last := |entries| - 1;
      EntryDepthIsBounded(entries[..last], bound);
      assert forall i | 0 <= i < last :: entries[..last][i] == entries[i];
    }
  }

  lemma ListIsFineAt(v: Value, depth: nat)
    requires v.List? && depth <= METRIC_MAX_DEPTH
    ensures FineAt(v, depth) <==> forall i | 0 <= i < |v.items| :: FineAt(v.items[i], depth + 1)
  {
    if depth < METRIC_MAX_DEPTH {
      ItemDepthIsBounded(v.items, METRIC_MAX_DEPTH - depth - 1);
    } else if v.items != [] {
      assert !FineAt(v.items[0], depth + 1);
    }
  }

  lemma DictIsFineAt(v: Value, depth: nat)
    requires v.Dict? && depth <= METRIC_MAX_DEPTH
    ensures FineAt(v, depth) <==> forall i | 0 <= i < |v.entries| :: PairFineAt(v.entries[i], depth + 1)
  {
    if depth < METRIC_MAX_DEPTH {
      EntryDepthIsBounded(v.entries, METRIC_MAX_DEPTH - depth - 1);
    } else if v.entries != [] {
      assert !PairFineAt(v.entries[0], depth + 1);
    }
  }

  lemma {:induction false} ItemsGrow(items: seq<Value>, i: nat)
    requires i < |items|
    ensures AllNodes(items[..i + 1]) == AllNodes(items[..i]) + Nodes(items[i])
    ensures AllScalars(items[..i + 1]) == AllScalars(items[..i]) + Scalars(items[i])
    ensures AllNodes(items[..i + 1]) <= AllNodes(items) && AllScalars(items[..i + 1]) <= AllScalars(items)
    decreases |items|
  {
    assert items[..i + 1][..i] == items[..i];
    if i + 1 < |items| {
      ItemsGrow(items[..|items| - 1], i);
      assert items[..|items| - 1][..i + 1] == items[..i + 1];
    } else {
      assert items[..i + 1] == items;
    }
  }

  lemma {:induction false} EntriesGrow(entries: seq<Entry>, i: nat)
    requires i < |entries|
    ensures EntryNodes(entries[..i + 1]) == EntryNodes(entries[..i]) + PairNodes(entries[i])
    ensures EntryScalars(entries[..i + 1]) == EntryScalars(entries[..i]) + PairScalars(entries[i])
    ensures EntryNodes(entries[..i + 1]) <= EntryNodes(entries)
    ensures EntryScalars(entries[..i + 1]) <= EntryScalars(entries)
    decreases |entries|
  {
    assert entries[..i + 1][..i] == entries[..i];
    if i + 1 < |entries| {
      EntriesGrow(entries[..|entries| - 1], i);
      assert entries[..|entries| - 1][..i + 1] == entries[..i + 1];
    } else {
      assert entries[..i + 1] == entries;
    }
  }

  lemma {:induction false} FieldsGrow(fields: seq<Field>, i: nat)
    requires i < |fields|
    ensures FieldNodes(fields[..i + 1]) == FieldNodes(fields[..i]) + Nodes(fields[i].value)
    ensures FieldScalars(fields[..i + 1]) == FieldScalars(fields[..i]) + Scalars(fields[i].value)
    ensures FieldNodes(fields[..i + 1]) <= FieldNodes(fields) && FieldScalars(fields[..i + 1]) <= FieldScalars(fields)
    decreases |fields|
  {
    assert fields[..i + 1][..i] == fields[..i];
    if i + 1 < |fields| {
      FieldsGrow(fields[..|fields| - 1], i);
      assert fields[..|fields| - 1][..i + 1] == fields[..i + 1];
    } else {
      assert fields[..i + 1] == fields;
    }
  }

  /** The closure of `valid_target_metric_value` with its node counter. */
  class MetricCheck {
    var nodes: nat

    constructor ()
      ensures nodes == 0
    {
      nodes := 0;
    }

    method Valid(v: Value, depth: nat) returns (ok: bool)
      requires nodes <= ROOT_MAX_NODES
      modifies this
      ensures ok <==> old(nodes) + Nodes(v) <= ROOT_MAX_NODES && FineAt(v, depth)
      ensures ok ==> nodes == old(nodes) + Nodes(v)
      decreases v
    {
      nodes := nodes + 1;
      if nodes > ROOT_MAX_NODES || depth > METRIC_MAX_DEPTH {
        return false;
      }
      match v
      case List(items) =>
        ok := AllValid(v, depth);
      case Dict(entries) =>
        ok := AllEntriesValid(v, depth);
      case _ =>
        ok := LeafFine(v);
    }

    method AllValid(v: Value, depth: nat) returns (ok: bool)
      requires v.List? && nodes <= ROOT_MAX_NODES && depth <= METRIC_MAX_DEPTH
      modifies this
      ensures ok <==> old(nodes) + AllNodes(v.items) <= ROOT_MAX_NODES && FineAt(v, depth)
      ensures ok ==> nodes == old(nodes) + AllNodes(v.items)
      decreases v, 0
    {
      hide FineAt, Nodes, LeavesFine;
      ListIsFineAt(v, depth);
      for i := 0 to |v.items|
        invariant nodes == old(nodes) + AllNodes(v.items[..i]) && nodes <= ROOT_MAX_NODES
        invariant forall j | 0 <= j < i :: FineAt(v.items[j], depth + 1)
      {
        ItemsGrow(v.items, i);
        var fine := Valid(v.items[i], depth + 1);
        if !fine {
          return false;
        }
      }
      assert v.items[..|v.items|] == v.items;
      ok := true;
    }

    method AllEntriesValid(v: Value, depth: nat) returns (ok: bool)
      requires v.Dict? && nodes <= ROOT_MAX_NODES && depth <= METRIC_MAX_DEPTH
      modifies this
      ensures ok <==> old(nodes) + EntryNodes(v.entries) <= ROOT_MAX_NODES && FineAt(v, depth)
      ensures ok ==> nodes == old(nodes) + EntryNodes(v.entries)
      decreases v, 0
    {
      hide FineAt, Nodes, LeavesFine;
      DictIsFineAt(v, depth);
      for i := 0 to |v.entries|
        invariant nodes == old(nodes) + EntryNodes(v.entries[..i]) && nodes <= ROOT_MAX_NODES
        invariant forall j | 0 <= j < i :: PairFineAt(v.entries[j], depth + 1)
      {
        EntriesGrow(v.entries, i);
        if !v.entries[i].key.Text? {
          return false;
        }
        var keyFine := Valid(v.entries[i].key, depth + 1);
        if !keyFine {
          return false;
        }
        var fine := Valid(v.entries[i].item, depth + 1);
        if !fine {
          return false;
        }
      }
      assert v.entries[..|v.entries|] == v.entries;
      ok := true;
    }
  }

  /** `valid_target_metric_value`: the short-circuiting check with its shared counter decides the
      bounds on the whole tree. */
  method ValidTargetMetricValue(v: Value) returns (ok: bool)
    ensures ok <==> ValidMetric(v)
  {
    var check := new MetricCheck();
    ok := check.Valid(v, 0);
  }

  // ---- Projections

  /** What was seen among the first items: those of the duplicate-sensitive types. */
  ghost predicate SeenProofs(schema: Schema, items: seq<Value>, seen: set<Value>) {
    && (forall i | 0 <= i < |items| && IsProof(schema, items[i]) :: items[i] in seen)
    && (forall v | v in seen :: IsProof(schema, v) && v in items)
    && NoDuplicateProofs(schema, items)
  }

  lemma SeenOneMore(schema: Schema, items: seq<Value>, i: nat, seen: set<Value>)
    requires i < |items| && SeenProofs(schema, items[..i], seen)
    ensures IsProof(schema, items[i]) && items[i] in seen ==> !NoDuplicateProofs(schema, items)
    ensures IsProof(schema, items[i]) && items[i] !in seen ==> SeenProofs(schema, items[..i + 1], seen + {items[i]})
    ensures !IsProof(schema, items[i]) ==> SeenProofs(schema, items[..i + 1], seen)
  {
    hide IsProof;
    assert items[..i + 1] == items[..i] + [items[i]];
    if IsProof(schema, items[i]) && items[i] in seen {
      var k :| 0 <= k < i && items[..i][k] == items[i];
      assert items[k] == items[i];
    }
  }

  /** The closure of `validate_closed_bundle_projection` with its two counters; `Visit` returns false
      where the source raises. */
  class ProjectionVisit {
    const schema: Schema
    const maxBytes: nat
    var nodes: nat
    var scalarBytes: nat

    constructor (schema: Schema, maxBytes: nat)
      ensures nodes == 0 && scalarBytes == 0 && this.schema == schema && this.maxBytes == maxBytes
    {
      this.schema, this.maxBytes, nodes, scalarBytes := schema, maxBytes, 0, 0;
    }

    predicate Within()
      reads this
    {
      nodes <= ROOT_MAX_NODES && scalarBytes <= maxBytes
    }

    /** Counting these nodes and bytes on top stays within both budgets. */
    predicate Room(moreNodes: nat, moreBytes: nat)
      reads this
    {
      nodes + moreNodes <= ROOT_MAX_NODES && scalarBytes + moreBytes <= maxBytes
    }

    twostate predicate Counted(moreNodes: nat, moreBytes: nat)
      reads this
    {
      nodes == old(nodes) + moreNodes && scalarBytes == old(scalarBytes) + moreBytes
    }

    method AddScalarBytes(size: nat) returns (ok: bool)
      requires Within()
      modifies this
      ensures ok <==> old(Room(0, size))
      ensures ok ==> Counted(0, size)
    {
      scalarBytes := scalarBytes + size;
      ok := scalarBytes <= maxBytes;
    }

    method Visit(v: Value, metric: bool, planText: bool) returns (ok: bool)
      requires Within()
      modifies this
      ensures ok <==> Shape(schema, v, metric, planText) && old(Room(Nodes(v), Scalars(v)))
      ensures ok ==> Counted(Nodes(v), Scalars(v))
      decreases v
    {
      hide Shape, Nodes, Scalars, FieldShape;
      Unfolded(schema, v, metric, planText);
      nodes := nodes + 1;
      if nodes > ROOT_MAX_NODES {
        return false;
      }
      match v
      case Record(kind, fields) =>
        if kind !in schema.canonical {
          return false;
        }
        ok := VisitFields(kind, fields, v);
      case Closure(fields, metrics, receipt) =>
        ok := VisitClosure(v);
      case Tuple(items) =>
        if |items| > TUPLE_MAX_ITEMS {
          return false;
        }
        ok := VisitTuple(v, metric, planText);
      case Dict(entries) =>
        if !metric {
          return false;
        }
        ok := VisitEntries(v);
      case List(items) =>
        if !metric {
          return false;
        }
        ok := VisitList(v);
      case _ =>
        ok := VisitScalar(v, metric, planText);
    }

    method VisitScalar(v: Value, metric: bool, planText: bool) returns (ok: bool)
      requires v.Text? || v.Integer? || v.Float? || v.Boolean? || v.Null? || v.Foreign?
      requires Within()
      modifies this
      ensures ok <==> Shape(schema, v, metric, planText) && old(Room(0, Scalars(v)))
      ensures ok ==> Counted(0, Scalars(v))
    {
      hide TextFits, IntegerLength, TextLength;
      match v
      case Text(s) =>
        if !TextFits(s, planText) {
          return false;
        }
        ok := AddScalarBytes(TextLength(s));
      case Integer(n) =>
        if !(-INTEGER_MAX <= n <= INTEGER_MAX) {
          return false;
        }
        ok := AddScalarBytes(IntegerLength(n));
      case Float(finite, repr) =>
        if !finite {
          return false;
        }
        ok := AddScalarBytes(|repr|);
      case Boolean(b) =>
        ok := AddScalarBytes(if b then 4 else 5);
      case Null =>
        ok := AddScalarBytes(4);
      case Foreign =>
        ok := false;
    }

    method VisitFields(kind: string, fields: seq<Field>, ghost v: Value) returns (ok: bool)
      requires Within() && ((v.Record? && v.fields == fields) || (v.Closure? && v.fields == fields))
      modifies this
      ensures ok <==> (forall i | 0 <= i < |fields| ::
        FieldShape(schema, kind, fields[i])) && old(Room(FieldNodes(fields), FieldScalars(fields)))
      ensures ok ==> Counted(FieldNodes(fields), FieldScalars(fields))
      decreases v, 0
    {
      hide Shape, Nodes, Scalars, Matches, InheritsPlanText;
      for i := 0 to |fields|
        invariant Counted(FieldNodes(fields[..i]), FieldScalars(fields[..i])) && Within()
        invariant forall j | 0 <= j < i :: FieldShape(schema, kind, fields[j])
      {
        FieldsGrow(fields, i);
        var f := fields[i];
        if !Matches(f.value, schema.hints(kind, f.name)) {
          return false;
        }
        var fine := Visit(f.value, false, InheritsPlanText(kind, f.name));
        if !fine {
          return false;
        }
      }
      assert fields[..|fields|] == fields;
      ok := true;
    }

    /** Every metric value is checked on its own before the tuple of them is visited. */
    method MetricsValid(metrics: seq<Value>) returns (ok: bool)
      ensures ok <==> forall i | 0 <= i < |metrics| :: ValidMetric(metrics[i])
    {
      hide ValidMetric;
      for i := 0 to |metrics|
        invariant forall j | 0 <= j < i :: ValidMetric(metrics[j])
      {
        var fine := ValidTargetMetricValue(metrics[i]);
        if !fine {
          return false;
        }
      }
      ok := true;
    }

    method VisitClosure(v: Value) returns (ok: bool)
      requires v.Closure? && 0 < nodes && Within()
      modifies this
      ensures ok <==> Shape(schema, v, false, false) && old(Room(Nodes(v) - 1, Scalars(v)))
      ensures ok ==> Counted(Nodes(v) - 1, Scalars(v))
      decreases v, 1
    {
      hide Matches, ValidMetric, FieldShape;
      if CLOSURE !in schema.canonical {
        return false;
      }
      ok := VisitFields(CLOSURE, v.fields, v);
      if !ok {
        return;
      }
      if !v.metrics.Tuple? {
        return false;
      }
      var valid := MetricsValid(v.metrics.items);
      if !valid {
        return false;
      }
      ok := Visit(v.metrics, true, false);
      if !ok {
        return;
      }
      if !Matches(v.receipt, schema.hints(CLOSURE, "root_completion_receipt")) {
        return false;
      }
      ok := Visit(v.receipt, false, false);
    }

    method VisitTuple(v: Value, metric: bool, planText: bool) returns (ok: bool)
      requires v.Tuple? && |v.items| <= TUPLE_MAX_ITEMS && Within()
      modifies this
      ensures ok <==> Shape(schema, v, metric, planText) && old(Room(AllNodes(v.items), AllScalars(v.items)))
      ensures ok ==> Counted(AllNodes(v.items), AllScalars(v.items))
      decreases v, 0
    {
      hide Nodes, Scalars, IsProof, NoDuplicateProofs, SeenProofs, Shape;
      TupleShape(schema, v, metric, planText);
      var seen: set<Value> := {};
      NothingSeen();
      for i := 0 to |v.items|
        invariant Counted(AllNodes(v.items[..i]), AllScalars(v.items[..i])) && Within()
        invariant SeenProofs(schema, v.items[..i], seen)
        invariant forall j | 0 <= j < i :: Shape(schema, v.items[j], metric, planText)
      {
        ItemsGrow(v.items, i);
        SeenOneMore(schema, v.items, i, seen);
        var nested := v.items[i];
        var fine := Visit(nested, metric, planText);
        if !fine {
          return false;
        }
        if IsProof(schema, nested) {
          if nested in seen {
            return false;
          }
          seen := seen + {nested};
        }
      }
      assert v.items[..|v.items|] == v.items;
      AllSeen(v.items, seen);
      ok := true;
    }

    lemma NothingSeen()
      ensures SeenProofs(schema, [], {})
    {
    }

    lemma AllSeen(items: seq<Value>, seen: set<Value>)
      requires SeenProofs(schema, items, seen)
      ensures NoDuplicateProofs(schema, items)
    {
    }

    method VisitList(v: Value) returns (ok: bool)
      requires v.List? && Within()
      modifies this
      ensures ok <==> Shape(schema, v, true, false) && old(Room(AllNodes(v.items), AllScalars(v.items)))
      ensures ok ==> Counted(AllNodes(v.items), AllScalars(v.items))
      decreases v, 0
    {
      hide Nodes, Scalars, Shape;
      ListShape(schema, v);
      for i := 0 to |v.items|
        invariant Counted(AllNodes(v.items[..i]), AllScalars(v.items[..i])) && Within()
        invariant forall j | 0 <= j < i :: Shape(schema, v.items[j], true, false)
      {
        ItemsGrow(v.items, i);
        var fine := Visit(v.items[i], true, false);
        if !fine {
          return false;
        }
      }
      assert v.items[..|v.items|] == v.items;
      ok := true;
    }

    method VisitEntries(v: Value) returns (ok: bool)
      requires v.Dict? && Within()
      modifies this
      ensures ok <==> Shape(schema, v, true, false) && old(Room(EntryNodes(v.entries), EntryScalars(v.entries)))
      ensures ok ==> Counted(EntryNodes(v.entries), EntryScalars(v.entries))
      decreases v, 0
    {
      hide Nodes, Scalars, Shape;
      DictShape(schema, v);
      for i := 0 to |v.entries|
        invariant Counted(EntryNodes(v.entries[..i]), EntryScalars(v.entries[..i])) && Within()
        invariant forall j | 0 <= j < i :: PairShape(schema, v.entries[j])
      {
        EntriesGrow(v.entries, i);
        var fine := Visit(v.entries[i].key, true, false);
        if !fine {
          return false;
        }
        fine := Visit(v.entries[i].item, true, false);
        if !fine {
          return false;
        }
      }
      assert v.entries[..|v.entries|] == v.entries;
      ok := true;
    }
  }

  /** What is asked of a value in terms of its parts. */
  lemma Unfolded(schema: Schema, v: Value, metric: bool, planText: bool)
    ensures Nodes(v) >= 1
    ensures v.Record? ==>
      && (Shape(schema, v, metric, planText)
          <==> v.kind in schema.canonical && forall i | 0 <= i < |v.fields| :: FieldShape(schema, v.kind, v.fields[i]))
      && Nodes(v) == 1 + FieldNodes(v.fields) && Scalars(v) == FieldScalars(v.fields)
    ensures v.Closure? ==> Shape(schema, v, metric, planText) == Shape(schema, v, false, false)
    ensures v.Tuple? ==>
      && (Shape(schema, v, metric, planText) ==> |v.items| <= TUPLE_MAX_ITEMS)
      && Nodes(v) == 1 + AllNodes(v.items) && Scalars(v) == AllScalars(v.items)
    ensures v.Dict? ==>
      && Shape(schema, v, metric, planText) == (metric && Shape(schema, v, true, false))
      && Nodes(v) == 1 + EntryNodes(v.entries) && Scalars(v) == EntryScalars(v.entries)
    ensures v.List? ==>
      && Shape(schema, v, metric, planText) == (metric && Shape(schema, v, true, false))
      && Nodes(v) == 1 + AllNodes(v.items) && Scalars(v) == AllScalars(v.items)
    ensures !(v.Record? || v.Closure? || v.Tuple? || v.Dict? || v.List?) ==> Nodes(v) == 1
  {
    hide FieldShape, NoDuplicateProofs, Matches, ValidMetric, TextFits, TextLength, IntegerLength;
  }

  predicate PairShape(schema: Schema, e: Entry) {
    Shape(schema, e.key, true, false) && Shape(schema, e.item, true, false)
  }

  lemma TupleShape(schema: Schema, v: Value, metric: bool, planText: bool)
    requires v.Tuple? && |v.items| <= TUPLE_MAX_ITEMS
    ensures Shape(schema, v, metric, planText)
       <==> NoDuplicateProofs(schema, v.items) && forall i | 0 <= i < |v.items| ::
           Shape(schema, v.items[i], metric, planText)
  {
  }

  lemma ListShape(schema: Schema, v: Value)
    requires v.List?
    ensures Shape(schema, v, true, false) <==> forall i | 0 <= i < |v.items| :: Shape(schema, v.items[i], true, false)
  {
  }

  lemma DictShape(schema: Schema, v: Value)
    requires v.Dict?
    ensures Shape(schema, v, true, false) <==> forall i | 0 <= i < |v.entries| :: PairShape(schema, v.entries[i])
  {
  }

  /** `validate_closed_bundle_projection` up to the digest it returns: accepted exactly when the shape
      is right, the nodes are within their budget and the canonical text fits. */
  method ValidateClosedBundleProjection(schema: Schema, v: Value, maxBytes: int) returns (ok: bool)
    ensures ok <==> Accepted(schema, v, maxBytes)
  {
    hide Shape, Nodes, Scalars, Length, Plain;
    if maxBytes < 1 || maxBytes > ROOT_MAX_BYTES {
      return false;
    }
    RunningBytesNeverDecide(schema, v, maxBytes);
    var visit := new ProjectionVisit(schema, maxBytes);
    ok := visit.Visit(v, false, false);
    if ok {
      ok := Length(Plain(v)) <= maxBytes;
    }
  }
}
