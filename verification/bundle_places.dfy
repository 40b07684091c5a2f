/** The accepted values place by place: every value, item, key, entry and field of a tree stands at a
    place, and whether the whole is accepted is decided at each place alone and by how many there are. */
module BundlePlaces {
  import opened PythonText
  import opened BundleValues
  import opened BundleBudget
  import opened BundleText
  import opened BundleVisits

  /** How deep a place is, whether it is inside metric values, and whether a plan text stands there. */
  datatype Context = Context(depth: nat, metric: bool, planText: bool)
  {
    function Under(metric: bool, planText: bool): Context {
      Context(depth + 1, metric, planText)
    }
  }

  datatype Place = Place(v: Value, at: Context)

  // ----- The places of a value ----------------------------------------------------------

  function Places(v: Value, at: Context): seq<Place>
    decreases v
  {
    [Place(v, at)]
    + match v
      case List(items) => ItemPlaces(items, at.Under(true, false))
      case Tuple(items) => ItemPlaces(items, at.Under(at.metric, at.planText))
      case Dict(entries) => EntryPlaces(entries, at.Under(true, false))
      case Record(kind, fields) => FieldPlaces(kind, fields, at)
      case Closure(fields, metrics, receipt) =>
        FieldPlaces(CLOSURE, fields, at) + Places(metrics, at.Under(true, false))
        + Places(receipt, at.Under(false, false))
      case _ => []
  }

  function ItemPlaces(items: seq<Value>, at: Context): seq<Place>
    decreases items
  {
    if items == [] then [] else ItemPlaces(items[..|items| - 1], at) + Places(items[|items| - 1], at)
  }

  function PairPlaces(e: Entry, at: Context): seq<Place>
    decreases e
  {
    Places(e.key, at) + Places(e.item, at)
  }

  function EntryPlaces(entries: seq<Entry>, at: Context): seq<Place>
    decreases entries
  {
    if entries == [] then []
    else
      EntryPlaces(entries[..|entries| - 1], at) + PairPlaces(entries[|entries| - 1], at)
  }

  function FieldPlaces(kind: string, fields: seq<Field>, at: Context): seq<Place>
    decreases fields
  {
    if fields == [] then []
    else
      var last := fields[|fields| - 1];
      FieldPlaces(kind, fields[..|fields| - 1], at)
      + Places(last.value, at.Under(false, InheritsPlanText(kind, last.name)))
  }

  /** There are as many places as nodes. */
  lemma {:induction false} PlacesAreNodes(v: Value, at: Context)
    ensures |Places(v, at)| == Nodes(v)
    decreases v
  {
    match v
    case List(items) =>
      ItemPlacesAreNodes(items, at.Under(true, false));
    case Tuple(items) =>
      ItemPlacesAreNodes(items, at.Under(at.metric, at.planText));
    case Dict(entries) =>
      EntryPlacesAreNodes(entries, at.Under(true, false));
    case Record(kind, fields) =>
      FieldPlacesAreNodes(kind, fields, at);
    case Closure(fields, metrics, receipt) =>
      FieldPlacesAreNodes(CLOSURE, fields, at);
      PlacesAreNodes(metrics, at.Under(true, false));
      PlacesAreNodes(receipt, at.Under(false, false));
    case _ =>
  }

  lemma {:induction false} ItemPlacesAreNodes(items: seq<Value>, at: Context)
    ensures |ItemPlaces(items, at)| == AllNodes(items)
    decreases items
  {
    if items != [] {
      ItemPlacesAreNodes(items[..|items| - 1], at);
      PlacesAreNodes(items[|items| - 1], at);
    }
  }

  lemma {:induction false} PairPlacesAreNodes(e: Entry, at: Context)
    ensures |PairPlaces(e, at)| == PairNodes(e)
    decreases e
  {
    PlacesAreNodes(e.key, at);
    PlacesAreNodes(e.item, at);
  }

  lemma {:induction false} EntryPlacesAreNodes(entries: seq<Entry>, at: Context)
    ensures |EntryPlaces(entries, at)| == EntryNodes(entries)
    decreases entries
  {
    if entries != [] {
      EntryPlacesAreNodes(entries[..|entries| - 1], at);
      PairPlacesAreNodes(entries[|entries| - 1], at);
    }
  }

  lemma {:induction false} FieldPlacesAreNodes(kind: string, fields: seq<Field>, at: Context)
    ensures |FieldPlaces(kind, fields, at)| == FieldNodes(fields)
    decreases fields
  {
    if fields != [] {
      FieldPlacesAreNodes(kind, fields[..|fields| - 1], at);
      var last := fields[|fields| - 1];
      FieldIsAPlace(kind, last, at);
    }
  }

  lemma {:induction false} FieldIsAPlace(kind: string, f: Field, at: Context)
    ensures |Places(f.value, at.Under(false, InheritsPlanText(kind, f.name)))| == Nodes(f.value)
    decreases f
  {
    PlacesAreNodes(f.value, at.Under(false, InheritsPlanText(kind, f.name)));
  }

  // ----- Metric values ------------------------------------------------------------------

  /** What may stand at a place of a metric value: null, a boolean, an integer of 64 bits, a finite
      number, a text of at most 4096 bytes, a list, or a dictionary with texts as keys. */
  predicate MetricPlace(p: Place) {
    && p.at.depth <= 64
    && match p.v
       case Integer(n) => -0x7FFF_FFFF_FFFF_FFFF <= n <= 0x7FFF_FFFF_FFFF_FFFF
       case Float(finite, _) => finite
       case Text(s) => exists bytes: nat :: HasBytes(s, bytes) && bytes <= 4096
       case Dict(entries) => forall e | e in entries :: e.key.Text?
       case _ => p.v.Null? || p.v.Boolean? || p.v.List?
  }

  predicate AllMetric(places: seq<Place>) {
    forall p | p in places :: MetricPlace(p)
  }

  lemma MetricInBoth(a: seq<Place>, b: seq<Place>)
    ensures AllMetric(a + b) <==> AllMetric(a) && AllMetric(b)
  {
    assert forall p :: p in a + b <==> p in a || p in b;
  }

  lemma {:induction false} MetricIsLocal(v: Value, at: Context)
    ensures AllMetric(Places(v, at)) <==> FineAt(v, at.depth)
    decreases v
  {
    MetricAtTop(v, at);
    match v
    case List(items) =>
      MetricInBoth([Place(v, at)], ItemPlaces(items, at.Under(true, false)));
      MetricItemsAreLocal(items, at.Under(true, false));
      if at.depth <= METRIC_MAX_DEPTH {
        ListIsFineAt(v, at.depth);
      }
    case Dict(entries) =>
      MetricInBoth([Place(v, at)], EntryPlaces(entries, at.Under(true, false)));
      MetricEntriesAreLocal(entries, at.Under(true, false));
      if at.depth <= METRIC_MAX_DEPTH {
        DictIsFineAt(v, at.depth);
      }
    case _ =>
      MetricInBoth([Place(v, at)], Places(v, at)[1..]);
      assert Places(v, at) == [Place(v, at)] + Places(v, at)[1..];
  }

  lemma MetricAtTop(v: Value, at: Context)
    ensures AllMetric([Place(v, at)]) <==> MetricPlace(Place(v, at))
    ensures !v.Dict? ==> (MetricPlace(Place(v, at)) <==> at.depth <= METRIC_MAX_DEPTH && LeafFine(v))
  {
    assert forall p :: p in [Place(v, at)] <==> p == Place(v, at);
    if v.Text? {
      BytesWithin(v.s, STRING_MAX_BYTES);
    }
  }

  lemma BytesWithin(s: Str, maximum: nat)
    ensures (exists bytes: nat :: HasBytes(s, bytes) && bytes <= maximum)
       <==> Utf8Length(s).Some? && Utf8Length(s).value <= maximum
  {
    if Utf8Length(s).Some? {
      assert HasBytes(s, Utf8Length(s).value);
    }
  }

  lemma {:induction false} MetricItemsAreLocal(items: seq<Value>, at: Context)
    ensures AllMetric(ItemPlaces(items, at)) <==> forall i | 0 <= i < |items| :: FineAt(items[i], at.depth)
    decreases items
  {
    if items != [] {
      var last := |items| - 1;
      MetricInBoth(ItemPlaces(items[..last], at), Places(items[last], at));
      MetricItemsAreLocal(items[..last], at);
      MetricIsLocal(items[last], at);
    }
  }

  lemma {:induction false} MetricPairIsLocal(e: Entry, at: Context)
    ensures AllMetric(PairPlaces(e, at)) <==> FineAt(e.key, at.depth) && FineAt(e.item, at.depth)
    decreases e
  {
    MetricInBoth(Places(e.key, at), Places(e.item, at));
    MetricIsLocal(e.key, at);
    MetricIsLocal(e.item, at);
  }

  lemma {:induction false} MetricEntriesAreLocal(entries: seq<Entry>, at: Context)
    ensures AllMetric(EntryPlaces(entries, at)) <==> forall i | 0 <= i < |entries| ::
      FineAt(entries[i].key, at.depth) && FineAt(entries[i].item, at.depth)
    decreases entries
  {
    if entries != [] {
      var last := |entries| - 1;
      MetricInBoth(EntryPlaces(entries[..last], at), PairPlaces(entries[last], at));
      MetricEntriesAreLocal(entries[..last], at);
      MetricPairIsLocal(entries[last], at);
    }
  }

  /** At most 65536 places, each of them bounded. */
  predicate IsMetric(v: Value) {
    var places := Places(v, Context(0, true, false));
    |places| <= 65536 && AllMetric(places)
  }

  predicate AllAreMetric(items: seq<Value>) {
    forall m | m in items :: IsMetric(m)
  }

  /** A target metric value is accepted exactly if it has at most 65536 places and each is bounded. */
  lemma MetricPlaceByPlace(v: Value)
    ensures ValidMetric(v) <==> IsMetric(v)
  {
    PlacesAreNodes(v, Context(0, true, false));
    MetricIsLocal(v, Context(0, true, false));
  }

  // ----- Projections --------------------------------------------------------------------

  /** No two equal items are receipts or other proofs. */
  predicate ProofsApart(schema: Schema, items: seq<Value>) {
    forall i, j | 0 <= i < j < |items| && items[i] == items[j] ::
      KindOf(items[j]).None? || KindOf(items[j]).value !in schema.proofs
  }

  predicate FieldsMatch(schema: Schema, kind: string, fields: seq<Field>) {
    forall f | f in fields :: Matches(f.value, schema.hints(kind, f.name))
  }

  /** What may stand at a place of a projection: lists and dictionaries inside metric values alone, tuples
      of at most 1024 items without repeated proofs, records of the schema, texts of at most 8192
      characters where a plan text stands and of at most 4096 bytes elsewhere. */
  ghost predicate ProjectionPlace(schema: Schema, p: Place) {
    match p.v
    case Null => true
    case Boolean(_) => true
    case Integer(n) => -0x7FFF_FFFF_FFFF_FFFF <= n <= 0x7FFF_FFFF_FFFF_FFFF
    case Float(finite, _) => finite
    case Text(s) =>
      exists bytes: nat :: HasBytes(s, bytes) && if p.at.planText then |s| <= 8192 else bytes <= 4096
    case List(_) => p.at.metric
    case Dict(_) => p.at.metric
    case Tuple(items) => |items| <= 1024 && ProofsApart(schema, items)
    case Record(kind, fields) => kind in schema.canonical && FieldsMatch(schema, kind, fields)
    case Closure(fields, metrics, receipt) =>
      && CLOSURE in schema.canonical && FieldsMatch(schema, CLOSURE, fields)
      && metrics.Tuple? && AllAreMetric(metrics.items)
      && Matches(receipt, schema.hints(CLOSURE, "root_completion_receipt"))
    case Foreign => false
  }

  ghost predicate AllProjected(schema: Schema, places: seq<Place>) {
    forall p | p in places :: ProjectionPlace(schema, p)
  }

  lemma ProjectedInBoth(schema: Schema, a: seq<Place>, b: seq<Place>)
    ensures AllProjected(schema, a + b) <==> AllProjected(schema, a) && AllProjected(schema, b)
  {
    assert forall p :: p in a + b <==> p in a || p in b;
  }

  /** What the visit checks at the top of a value. */
  ghost predicate TopFits(schema: Schema, v: Value, at: Context) {
    match v
    case Null => true
    case Boolean(_) => true
    case Integer(n) => -INTEGER_MAX <= n <= INTEGER_MAX
    case Float(finite, _) => finite
    case Text(s) => TextFits(s, at.planText)
    case List(_) => at.metric
    case Dict(_) => at.metric
    case Record(kind, fields) => kind in schema.canonical && FieldsMatch(schema, kind, fields)
    case Tuple(items) => |items| <= TUPLE_MAX_ITEMS && NoDuplicateProofs(schema, items)
    case Closure(fields, metrics, receipt) =>
      && CLOSURE in schema.canonical && FieldsMatch(schema, CLOSURE, fields)
      && metrics.Tuple? && (forall i | 0 <= i < |metrics.items| :: ValidMetric(metrics.items[i]))
      && Matches(receipt, schema.hints(CLOSURE, "root_completion_receipt"))
    case Foreign => false
  }

  lemma ProjectedAtTop(schema: Schema, v: Value, at: Context)
    ensures AllProjected(schema, [Place(v, at)]) <==> TopFits(schema, v, at)
  {
    hide AllProjected, ValidMetric, AllAreMetric, Matches, FieldsMatch, Utf8Length, ProofsApart, NoDuplicateProofs;
    OnePlaceProjected(schema, Place(v, at));
    match v
    case Text(s) =>
      BytesWithin(s, STRING_MAX_BYTES);
      BytesExist(s);
    case Tuple(items) =>
      ApartMeans(schema, items);
    case Closure(fields, metrics, receipt) =>
      if metrics.Tuple? {
        MetricsMean(metrics.items);
      }
    case _ =>
  }

  lemma OnePlaceProjected(schema: Schema, p: Place)
    ensures AllProjected(schema, [p]) <==> ProjectionPlace(schema, p)
  {
    hide ProjectionPlace;
    var top := [p];
    assert top[0] == p && forall q | q in top :: q == p;
  }

  lemma ApartMeans(schema: Schema, items: seq<Value>)
    ensures NoDuplicateProofs(schema, items) <==> ProofsApart(schema, items)
  {
    hide KindOf;
    forall i, j | 0 <= i < j < |items|
      ensures (IsProof(schema, items[j]) ==> items[i] != items[j])
         <==> (items[i] == items[j] ==> KindOf(items[j]).None? || KindOf(items[j]).value !in schema.proofs)
    {
    }
  }

  lemma MetricsMean(items: seq<Value>)
    ensures (forall i | 0 <= i < |items| :: ValidMetric(items[i])) <==> AllAreMetric(items)
  {
    hide ValidMetric, IsMetric;
    forall i | 0 <= i < |items| ensures ValidMetric(items[i]) <==> IsMetric(items[i]) {
      MetricPlaceByPlace(items[i]);
    }
  }

  lemma BytesExist(s: Str)
    ensures (exists bytes: nat :: HasBytes(s, bytes)) <==> Utf8Length(s).Some?
  {
    if Utf8Length(s).Some? {
      assert HasBytes(s, Utf8Length(s).value);
    }
  }

  lemma {:induction false} ShapeIsLocal(schema: Schema, v: Value, at: Context)
    ensures AllProjected(schema, Places(v, at)) <==> Shape(schema, v, at.metric, at.planText)
    decreases v
  {
    hide AllProjected, ProjectionPlace, TextFits, NoDuplicateProofs, ValidMetric, Matches, Utf8Length;
    var top := [Place(v, at)];
    ProjectedAtTop(schema, v, at);
    match v
    case List(items) =>
      ProjectedInBoth(schema, top, ItemPlaces(items, at.Under(true, false)));
      ItemShapesAreLocal(schema, items, at.Under(true, false));
    case Tuple(items) =>
      ProjectedInBoth(schema, top, ItemPlaces(items, at.Under(at.metric, at.planText)));
      ItemShapesAreLocal(schema, items, at.Under(at.metric, at.planText));
    case Dict(entries) =>
      ProjectedInBoth(schema, top, EntryPlaces(entries, at.Under(true, false)));
      EntryShapesAreLocal(schema, entries, at.Under(true, false));
    case Record(kind, fields) =>
      ProjectedInBoth(schema, top, FieldPlaces(kind, fields, at));
      FieldShapesAreLocal(schema, kind, fields, at);
    case Closure(fields, metrics, receipt) =>
      var own := FieldPlaces(CLOSURE, fields, at) + Places(metrics, at.Under(true, false));
      ProjectedInBoth(schema, top, own + Places(receipt, at.Under(false, false)));
      ProjectedInBoth(schema, own, Places(receipt, at.Under(false, false)));
      ProjectedInBoth(schema, FieldPlaces(CLOSURE, fields, at), Places(metrics, at.Under(true, false)));
      FieldShapesAreLocal(schema, CLOSURE, fields, at);
      ShapeIsLocal(schema, metrics, at.Under(true, false));
      ShapeIsLocal(schema, receipt, at.Under(false, false));
    case _ =>
      assert Places(v, at) == top;
  }

  lemma {:induction false} ItemShapesAreLocal(schema: Schema, items: seq<Value>, at: Context)
    ensures AllProjected(schema, ItemPlaces(items, at))
       <==> forall i | 0 <= i < |items| :: Shape(schema, items[i], at.metric, at.planText)
    decreases items
  {
    hide AllProjected, Shape;
    if items == [] {
      NothingProjected(schema);
    } else {
      var last := |items| - 1;
      ProjectedInBoth(schema, ItemPlaces(items[..last], at), Places(items[last], at));
      ItemShapesAreLocal(schema, items[..last], at);
      ShapeIsLocal(schema, items[last], at);
    }
  }

  lemma NothingProjected(schema: Schema)
    ensures AllProjected(schema, [])
  {
  }

  lemma {:induction false} PairShapesAreLocal(schema: Schema, e: Entry, at: Context)
    ensures AllProjected(schema, PairPlaces(e, at))
       <==> Shape(schema, e.key, at.metric, at.planText) && Shape(schema, e.item, at.metric, at.planText)
    decreases e
  {
    hide AllProjected, Shape;
    ProjectedInBoth(schema, Places(e.key, at), Places(e.item, at));
    ShapeIsLocal(schema, e.key, at);
    ShapeIsLocal(schema, e.item, at);
  }

  lemma {:induction false} EntryShapesAreLocal(schema: Schema, entries: seq<Entry>, at: Context)
    ensures AllProjected(schema, EntryPlaces(entries, at)) <==> forall i | 0 <= i < |entries| ::
      Shape(schema, entries[i].key, at.metric, at.planText) && Shape(schema, entries[i].item, at.metric, at.planText)
    decreases entries
  {
    hide AllProjected, Shape;
    if entries == [] {
      NothingProjected(schema);
    } else {
      var last := |entries| - 1;
      ProjectedInBoth(schema, EntryPlaces(entries[..last], at), PairPlaces(entries[last], at));
      EntryShapesAreLocal(schema, entries[..last], at);
      PairShapesAreLocal(schema, entries[last], at);
    }
  }

  lemma {:induction false} FieldShapesAreLocal(schema: Schema, kind: string, fields: seq<Field>, at: Context)
    ensures FieldsMatch(schema, kind, fields) && AllProjected(schema, FieldPlaces(kind, fields, at))
       <==> forall i | 0 <= i < |fields| :: FieldShape(schema, kind, fields[i])
    decreases fields
  {
    hide AllProjected, Shape, Matches;
    if fields == [] {
      NothingProjected(schema);
    } else {
      var last := |fields| - 1;
      var f := fields[last];
      ProjectedInBoth(schema, FieldPlaces(kind, fields[..last], at),
                      Places(f.value, at.Under(false, InheritsPlanText(kind, f.name))));
      FieldShapesAreLocal(schema, kind, fields[..last], at);
      FieldShapeIsLocal(schema, kind, f, at);
      assert forall g :: g in fields <==> g in fields[..last] || g == f;
    }
  }

  lemma {:induction false} FieldShapeIsLocal(schema: Schema, kind: string, f: Field, at: Context)
    ensures AllProjected(schema, Places(f.value, at.Under(false, InheritsPlanText(kind, f.name))))
       <==> Shape(schema, f.value, false, InheritsPlanText(kind, f.name))
    decreases f
  {
    hide AllProjected, Shape;
    ShapeIsLocal(schema, f.value, at.Under(false, InheritsPlanText(kind, f.name)));
  }

  /** A projection is accepted exactly if it has at most 65536 places, each of them fine, and the canonical
      text of what it prints fits the bytes. */
  lemma AcceptedPlaceByPlace(schema: Schema, v: Value, maxBytes: int)
    requires Printable(Plain(v))
    ensures var places := Places(v, Context(0, false, false));
      Accepted(schema, v, maxBytes) <==>
        && 1 <= maxBytes <= 8 * 1024 * 1024 && |places| <= 65536 && AllProjected(schema, places)
        && exists bytes: nat :: HasBytes(JsonText(Plain(v)), bytes) && bytes <= maxBytes
  {
    hide Shape, JsonText, Printable, Nodes, Length, Plain, AllProjected, Accepted, Places;
    PlacesAreNodes(v, Context(0, false, false));
    ShapeIsLocal(schema, v, Context(0, false, false));
    AcceptedByItsText(schema, v, maxBytes);
  }
}
