/** The registry of experiment baselines: one table of immutable documents, one of named method
    versions.  The canonical hash and the reference of a new row are parameters; equality of JSON
    values is structural. */
module BaselineIdentity {
  import opened Wrappers
  import opened PythonText

  const METHOD_SCHEMA := "meta-research/baseline-method-version/v1"
  const REF_MAX := 1024
  const IDENTITY_KEYS := {"baseline_ref", "method_key", "method_version", "method_contract"}
  const ENVELOPE_KEYS := IDENTITY_KEYS + {"schema_ref", "run_bindings", "notes", "research_note_ref"}
  /** The keys that no historical contract carries. */
  const VERSION_KEYS := {"baseline_ref", "method_version", "method_contract"}

  datatype Json = Null | Bool(b: bool) | Number(n: int) | Str(s: string) | Items(items: seq<Json>) | Object(fields: Doc)

  type Doc = map<string, Json>

  type DocHash = Doc -> string

  ghost predicate Injective(hash: DocHash) {
    forall a, b :: hash(a) == hash(b) ==> a == b
  }

  /** A stored text: the canonical text of an object, or anything else. */
  datatype StoredText = Document(fields: Doc) | Unusable

  datatype BaselineRow = BaselineRow(ref: string, document: StoredText, hash: string)

  datatype MethodRow = MethodRow(key: string, version: string, ref: string, contract: StoredText, hash: string)

  datatype Tables = Tables(baselines: seq<BaselineRow>, methods: seq<MethodRow>)

  // ---- Queries: the first row that matches

  function BaselineByHash(rows: seq<BaselineRow>, hash: string): (row: Option<BaselineRow>)
    ensures row.Some? ==> row.value in rows && row.value.hash == hash
    ensures row.None? ==> forall r | r in rows :: r.hash != hash
  {
    if rows == [] then None
    else if rows[0].hash == hash then Some(rows[0])
    else BaselineByHash(rows[1..], hash)
  }

  function BaselineByRef(rows: seq<BaselineRow>, ref: string): (row: Option<BaselineRow>)
    ensures row.Some? ==> row.value in rows && row.value.ref == ref
    ensures row.None? ==> forall r | r in rows :: r.ref != ref
  {
    if rows == [] then None
    else if rows[0].ref == ref then Some(rows[0])
    else BaselineByRef(rows[1..], ref)
  }

  function MethodByRef(rows: seq<MethodRow>, ref: string): (row: Option<MethodRow>)
    ensures row.Some? ==> row.value in rows && row.value.ref == ref
    ensures row.None? ==> forall r | r in rows :: r.ref != ref
  {
    if rows == [] then None
    else if rows[0].ref == ref then Some(rows[0])
    else MethodByRef(rows[1..], ref)
  }

  function MethodByName(rows: seq<MethodRow>, key: string, version: string): (row: Option<MethodRow>)
    ensures row.Some? ==> row.value in rows && row.value.key == key && row.value.version == version
    ensures row.None? ==> forall r | r in rows :: r.key != key || r.version != version
  {
    if rows == [] then None
    else if rows[0].key == key && rows[0].version == version then Some(rows[0])
    else MethodByName(rows[1..], key, version)
  }

  // ---- Envelopes

  /** `_ref` as a check: a trimmed text of one line. */
  predicate RefFine(v: Json) {
    && v.Str? && !Blank(Points(v.s)) && |v.s| <= REF_MAX
    && !SpacePoint(v.s[0] as int) && !SpacePoint(v.s[|v.s| - 1] as int)
    && forall c | c in v.s :: c as int != 0 && c != '\r' && c != '\n'
  }

  predicate Has(forward: Doc, key: string, check: Json -> bool) {
    key in forward && check(forward[key])
  }

  predicate IsNamed(forward: Doc) {
    "method_key" in forward || "method_version" in forward
  }

  predicate IsContract(v: Json) {
    v.Object? && v.fields != map[]
  }

  datatype Envelope = Historical | Invalid | Explicit

  /** `_method_envelope`: no envelope at all, a refused one, or an explicit identity. */
  function EnvelopeOf(forward: Doc): Envelope {
    if forward.Keys !! VERSION_KEYS then Historical
    else if !(forward.Keys <= ENVELOPE_KEYS) then Invalid
    else if "baseline_ref" in forward && !RefFine(forward["baseline_ref"]) then Invalid
    else if IsNamed(forward) && !Has(forward, "method_key", RefFine) then Invalid
    else if IsNamed(forward) && !Has(forward, "method_version", RefFine) then Invalid
    else if "baseline_ref" !in forward && !IsNamed(forward) then Invalid
    else if "method_contract" in forward then (if IsContract(forward["method_contract"]) then Explicit else Invalid)
    else if "baseline_ref" !in forward then Invalid
    else Explicit
  }

  /** `_stored_method` */
  function StoredMethod(key: string, version: string, contract: Doc): Doc {
    map["schema_ref" := Str(METHOD_SCHEMA), "method_key" := Str(key), "method_version" := Str(version),
        "method_contract" := Object(contract)]
  }

  // ---- Verification

  predicate BaselineIntact(row: BaselineRow, hash: DocHash) {
    row.document.Document? && row.document.fields != map[] && row.hash == hash(row.document.fields)
  }

  predicate MethodIntact(named: MethodRow, row: BaselineRow, hash: DocHash)
    requires row.document.Document?
  {
    && named.contract.Document? && named.contract.fields != map[] && named.ref == row.ref
    && named.hash == hash(named.contract.fields)
    && row.document.fields == StoredMethod(named.key, named.version, named.contract.fields)
  }

  /** The explicit identity of the request is that of the selected rows. */
  predicate Selects(forward: Doc, row: BaselineRow, named: Option<MethodRow>)
    requires row.document.Document? && (named.Some? ==> named.value.contract.Document?)
  {
    && ("baseline_ref" in forward ==> forward["baseline_ref"] == Str(row.ref))
    && (IsNamed(forward) ==>
          && named.Some?
          && "method_key" in forward && forward["method_key"] == Str(named.value.key)
          && "method_version" in forward && forward["method_version"] == Str(named.value.version))
    && ("method_contract" in forward ==>
          forward["method_contract"]
          == Object(if named.Some? then named.value.contract.fields else row.document.fields))
  }

  /** `verify_baseline_method_identity` returns without raising. */
  predicate Verified(forward: Doc, row: Option<BaselineRow>, named: Option<MethodRow>, hash: DocHash) {
    && row.Some? && BaselineIntact(row.value, hash)
    && (named.Some? ==> MethodIntact(named.value, row.value, hash))
    && var stored := row.value.document.fields;
       && (named.None? ==> !("schema_ref" in stored && stored["schema_ref"] == Str(METHOD_SCHEMA)))
       && ((named.None? && forward == stored)
           || match EnvelopeOf(forward)
              case Historical => stored == forward
              case Invalid => false
              case Explicit => Selects(forward, row.value, named))
  }

  // ---- Resolution

  datatype Outcome = Resolved(tables: Tables, ref: string, registered: bool) | Raised

  function Selected(tables: Tables, forward: Doc, row: Option<BaselineRow>, named: Option<MethodRow>,
                    hash: DocHash): (o: Outcome)
    ensures o.Resolved? ==> Verified(forward, row, named, hash) && row.Some?
  {
    if Verified(forward, row, named, hash) then Resolved(tables, row.value.ref, false) else Raised
  }

  function Registered(tables: Tables, key: string, version: string, contract: Doc, newRef: string,
                      hash: DocHash): Tables
  {
    var stored := StoredMethod(key, version, contract);
    Tables(tables.baselines + [BaselineRow(newRef, Document(stored), hash(stored))],
           tables.methods + [MethodRow(key, version, newRef, Document(contract), hash(contract))])
  }

  /** `resolve_baseline_method_identity`; `newRef` is what `new_ref` would return. */
  function Resolve(tables: Tables, forward: Doc, newRef: string, hash: DocHash): Outcome {
    var exact := BaselineByHash(tables.baselines, hash(forward));
    if exact.Some? then Selected(tables, forward, exact, MethodByRef(tables.methods, exact.value.ref), hash)
    else if !EnvelopeOf(forward).Explicit? then Raised
    else if "baseline_ref" in forward then
      var ref := forward["baseline_ref"].s;
      Selected(tables, forward, BaselineByRef(tables.baselines, ref), MethodByRef(tables.methods, ref), hash)
    else
      var key, version := forward["method_key"].s, forward["method_version"].s;
      var named := MethodByName(tables.methods, key, version);
      if named.Some? then Selected(tables, forward, BaselineByRef(tables.baselines, named.value.ref), named, hash)
      else
        var contract := forward["method_contract"].fields;
        var existing := BaselineByHash(tables.baselines, hash(StoredMethod(key, version, contract)));
        if existing.Some? then Selected(tables, forward, existing, None, hash)
        else Resolved(Registered(tables, key, version, contract, newRef, hash), newRef, true)
  }

  function After(tables: Tables, forward: Doc, newRef: string, hash: DocHash): Tables {
    var o := Resolve(tables, forward, newRef, hash);
    if o.Resolved? then o.tables else tables
  }

  // ---- The registry over runs

  ghost predicate DistinctBaselines(rows: seq<BaselineRow>) {
    forall a, b | 0 <= a < b < |rows| :: rows[a].ref != rows[b].ref && rows[a].hash != rows[b].hash
  }

  ghost predicate DistinctMethods(rows: seq<MethodRow>) {
    forall a, b | 0 <= a < b < |rows| ::
      rows[a].ref != rows[b].ref && (rows[a].key != rows[b].key || rows[a].version != rows[b].version)
  }

  predicate IsHistorical(row: BaselineRow) {
    row.document.Document? && row.document.fields.Keys !! VERSION_KEYS
  }

  /** The baseline of a named method version holds its stored document. */
  ghost predicate HasItsBaseline(tables: Tables, m: MethodRow, hash: DocHash) {
    exists row | row in tables.baselines :: BaselineIntact(row, hash) && MethodIntact(m, row, hash)
  }

  ghost predicate HasItsMethod(tables: Tables, row: BaselineRow) {
    exists m | m in tables.methods :: m.ref == row.ref
  }

  ghost predicate Consistent(tables: Tables, hash: DocHash) {
    && DistinctBaselines(tables.baselines) && DistinctMethods(tables.methods)
    && (forall row | row in tables.baselines ::
        BaselineIntact(row, hash) && (IsHistorical(row) || HasItsMethod(tables, row)))
    && (forall m | m in tables.methods :: HasItsBaseline(tables, m, hash))
  }

  ghost predicate IsNew(tables: Tables, ref: string) {
    forall row | row in tables.baselines :: row.ref != ref
  }

  /** Tables of historical contracts only. */
  ghost predicate HistoricalTables(tables: Tables, hash: DocHash) {
    && tables.methods == [] && DistinctBaselines(tables.baselines)
    && forall row | row in tables.baselines :: BaselineIntact(row, hash) && IsHistorical(row)
  }

  datatype Request = Request(forward: Doc, newRef: string)

  function RunResolve(tables: Tables, requests: seq<Request>, hash: DocHash): Tables {
    if requests == [] then tables
    else
      var last := requests[|requests| - 1];
      After(RunResolve(tables, requests[..|requests| - 1], hash), last.forward, last.newRef, hash)
  }

  /** `new_ref` never returns a reference that is in use. */
  ghost predicate NewRefs(tables: Tables, requests: seq<Request>, hash: DocHash) {
    forall i | 0 <= i < |requests| :: IsNew(RunResolve(tables, requests[..i], hash), requests[i].newRef)
  }

  lemma OneRowPerRef(tables: Tables, a: BaselineRow, b: BaselineRow)
    requires DistinctBaselines(tables.baselines) && a in tables.baselines && b in tables.baselines && a.ref == b.ref
    ensures a == b
  {
  }

  lemma OneMethodPerName(tables: Tables, a: MethodRow, b: MethodRow)
    requires DistinctMethods(tables.methods) && a in tables.methods && b in tables.methods
    requires a.ref == b.ref || (a.key == b.key && a.version == b.version)
    ensures a == b
  {
  }

  /** Registering a new name in consistent tables keeps them consistent. */
  lemma RegisteringKeepsConsistent(tables: Tables, key: string, version: string, contract: Doc, newRef: string,
                                   hash: DocHash)
    requires Injective(hash) && Consistent(tables, hash) && IsNew(tables, newRef) && contract != map[]
    requires MethodByName(tables.methods, key, version).None?
    requires BaselineByHash(tables.baselines, hash(StoredMethod(key, version, contract))).None?
    ensures Consistent(Registered(tables, key, version, contract, newRef, hash), hash)
  {
    hide StoredMethod, Injective;
    var more := Registered(tables, key, version, contract, newRef, hash);
    var row, named := more.baselines[|tables.baselines|], more.methods[|tables.methods|];
    assert StoredMethod(key, version, contract) != map[] by {
      StoredMethodHasKeys(key, version, contract);
    }
    assert row in more.baselines && named in more.methods;
    NewRowsAreDistinct(tables, key, version, contract, newRef, hash);
    forall b | b in more.baselines ensures BaselineIntact(b, hash) && (IsHistorical(b) || HasItsMethod(more, b)) {
      if b != row && !IsHistorical(b) {
        var m :| m in tables.methods && m.ref == b.ref;
        assert m in more.methods;
      }
    }
    forall m | m in more.methods ensures HasItsBaseline(more, m, hash) {
      if m != named {
        var b :| b in tables.baselines && BaselineIntact(b, hash) && MethodIntact(m, b, hash);
        assert b in more.baselines;
      }
    }
  }

  lemma StoredMethodHasKeys(key: string, version: string, contract: Doc)
    ensures var stored := StoredMethod(key, version, contract);
      "method_version" in stored && "method_key" in stored && "method_contract" in stored && "schema_ref" in stored
  {
  }

  lemma NewRowsAreDistinct(tables: Tables, key: string, version: string, contract: Doc, newRef: string, hash: DocHash)
    requires Consistent(tables, hash) && IsNew(tables, newRef)
    requires MethodByName(tables.methods, key, version).None?
    requires BaselineByHash(tables.baselines, hash(StoredMethod(key, version, contract))).None?
    ensures var more := Registered(tables, key, version, contract, newRef, hash);
      DistinctBaselines(more.baselines) && DistinctMethods(more.methods)
  {
    hide StoredMethod;
    forall m | m in tables.methods ensures m.ref != newRef {
      var b :| b in tables.baselines && BaselineIntact(b, hash) && MethodIntact(m, b, hash);
    }
  }

  /** Every resolution keeps the tables consistent; it changes nothing unless it registers, and what it
      raises on changes nothing. */
  lemma ResolveKeepsConsistent(tables: Tables, forward: Doc, newRef: string, hash: DocHash)
    requires Injective(hash) && Consistent(tables, hash) && IsNew(tables, newRef)
    ensures Consistent(After(tables, forward, newRef, hash), hash)
    ensures var o := Resolve(tables, forward, newRef, hash);
      o.Resolved? ==>
        && (o.registered || o.tables == tables)
        && tables.baselines <= o.tables.baselines && tables.methods <= o.tables.methods
  {
    hide Consistent, Verified, Injective, StoredMethod;
    var o := Resolve(tables, forward, newRef, hash);
    if o.Resolved? && o.registered {
      RegisteringKeepsConsistent(tables, forward["method_key"].s, forward["method_version"].s,
        forward["method_contract"].fields, newRef, hash);
    }
  }

  lemma HistoricalIsConsistent(tables: Tables, hash: DocHash)
    requires HistoricalTables(tables, hash)
    ensures Consistent(tables, hash)
  {
  }

  /** From tables of historical contracts every run of resolutions keeps one baseline per method name
      and version, holding its stored document, with distinct references and unique hashes. */
  lemma {:induction false} EveryRunIsConsistent(tables: Tables, requests: seq<Request>, hash: DocHash)
    requires Injective(hash) && HistoricalTables(tables, hash) && NewRefs(tables, requests, hash)
    ensures Consistent(RunResolve(tables, requests, hash), hash)
  {
    hide Consistent, After, Injective, HistoricalTables;
    if requests == [] {
      HistoricalIsConsistent(tables, hash);
    } else {
      var before, last := requests[..|requests| - 1], requests[|requests| - 1];
      forall i | 0 <= i < |before| ensures IsNew(RunResolve(tables, before[..i], hash), before[i].newRef) {
        assert before[..i] == requests[..i];
      }
      EveryRunIsConsistent(tables, before, hash);
      ResolveKeepsConsistent(RunResolve(tables, before, hash), last.forward, last.newRef, hash);
    }
  }

  // ---- What an accepted request selects

  /** The method row of a name, with its baseline. */
  ghost predicate Registers(tables: Tables, m: MethodRow, forward: Doc) {
    && m in tables.methods
    && "method_key" in forward && forward["method_key"] == Str(m.key)
    && "method_version" in forward && forward["method_version"] == Str(m.version)
  }

  predicate SameContract(m: MethodRow, forward: Doc) {
    "method_contract" in forward ==> m.contract.Document? && forward["method_contract"] == Object(m.contract.fields)
  }

  lemma VersionedIsNotHistorical(fields: Doc)
    requires "method_version" in fields
    ensures !(fields.Keys !! VERSION_KEYS)
  {
    assert "method_version" in fields.Keys * VERSION_KEYS;
  }

  lemma HistoricalHasNoVersion(row: BaselineRow)
    ensures IsHistorical(row) ==> "method_version" !in row.document.fields
  {
    assert "method_version" in VERSION_KEYS;
  }

  /** Rows that verify for a versioned request are those of the method it names. */
  lemma VerifiedNamesTheMethod(tables: Tables, forward: Doc, row: BaselineRow, hash: DocHash) returns (m: MethodRow)
    requires Consistent(tables, hash) && row in tables.baselines && "method_version" in forward
    requires Verified(forward, Some(row), MethodByRef(tables.methods, row.ref), hash)
    ensures Registers(tables, m, forward) && m.ref == row.ref && SameContract(m, forward)
  {
    hide RefFine, StoredMethod, VERSION_KEYS;
    VersionedIsNotHistorical(forward);
    HistoricalHasNoVersion(row);
    var found := MethodByRef(tables.methods, row.ref);
    if found.None? {
      assert false;
    }
    m := found.value;
  }

  /** An accepted request that names a version answers with the one baseline of that name; a contract
      it gives is the registered one. */
  lemma AcceptedNamesItsMethod(tables: Tables, forward: Doc, newRef: string, hash: DocHash) returns (m: MethodRow)
    requires Injective(hash) && Consistent(tables, hash) && IsNew(tables, newRef)
    requires "method_version" in forward && Resolve(tables, forward, newRef, hash).Resolved?
    ensures var o := Resolve(tables, forward, newRef, hash);
      Registers(o.tables, m, forward) && m.ref == o.ref && SameContract(m, forward)
  {
    hide Consistent, Verified, Injective, StoredMethod, VERSION_KEYS, ENVELOPE_KEYS;
    var o := Resolve(tables, forward, newRef, hash);
    if o.registered {
      m := o.tables.methods[|tables.methods|];
    } else {
      VersionedIsNotHistorical(forward);
      var row := SelectedRow(tables, forward, newRef, hash);
      m := VerifiedNamesTheMethod(tables, forward, row, hash);
    }
  }

  /** The row behind an answer that registered nothing. */
  lemma SelectedRow(tables: Tables, forward: Doc, newRef: string, hash: DocHash) returns (row: BaselineRow)
    requires Injective(hash) && Consistent(tables, hash)
    requires var o := Resolve(tables, forward, newRef, hash); o.Resolved? && !o.registered
    ensures row in tables.baselines && row.ref == Resolve(tables, forward, newRef, hash).ref
    ensures Verified(forward, Some(row), MethodByRef(tables.methods, row.ref), hash)
  {
    hide Verified, StoredMethod, VERSION_KEYS, ENVELOPE_KEYS;
    var exact := BaselineByHash(tables.baselines, hash(forward));
    if exact.Some? {
      row := exact.value;
    } else if "baseline_ref" in forward {
      row := BaselineByRef(tables.baselines, forward["baseline_ref"].s).value;
    } else {
      var key, version := forward["method_key"].s, forward["method_version"].s;
      var found := MethodByName(tables.methods, key, version);
      if found.Some? {
        row := BaselineByRef(tables.baselines, found.value.ref).value;
        OneMethodPerName(tables, found.value, MethodByRef(tables.methods, found.value.ref).value);
      } else {
        var stored := StoredMethod(key, version, forward["method_contract"].fields);
        row := BaselineByHash(tables.baselines, hash(stored)).value;
        StoredNeedsItsMethod(row, key, version, forward["method_contract"].fields, forward, hash);
        assert false;
      }
    }
  }

  /** A stored method document is never selected without its method row. */
  lemma StoredNeedsItsMethod(row: BaselineRow, key: string, version: string, contract: Doc, forward: Doc, hash: DocHash)
    requires Injective(hash) && row.hash == hash(StoredMethod(key, version, contract))
    ensures !Verified(forward, Some(row), None, hash)
  {
  }

  // ---- Repeated and conflicting requests

  /** A registered name with another contract raises, whatever else the request says, and the tables
      stay as they are. */
  lemma OtherContractRaises(tables: Tables, forward: Doc, newRef: string, hash: DocHash, m: MethodRow)
    requires Injective(hash) && Consistent(tables, hash) && IsNew(tables, newRef)
    requires Registers(tables, m, forward) && !SameContract(m, forward)
    ensures Resolve(tables, forward, newRef, hash).Raised? && After(tables, forward, newRef, hash) == tables
  {
    hide Consistent, Injective, Resolve;
    var o := Resolve(tables, forward, newRef, hash);
    if o.Resolved? {
      var n := AcceptedNamesItsMethod(tables, forward, newRef, hash);
      ResolveKeepsConsistent(tables, forward, newRef, hash);
      NamesAreUnique(o.tables, m, n, hash);
      assert false;
    }
  }

  lemma NamesAreUnique(tables: Tables, a: MethodRow, b: MethodRow, hash: DocHash)
    requires Consistent(tables, hash) && a in tables.methods && b in tables.methods
    requires a.key == b.key && a.version == b.version
    ensures a == b
  {
    hide BaselineIntact, IsHistorical, HasItsMethod, HasItsBaseline, DistinctBaselines;
    OneMethodPerName(tables, a, b);
  }

  /** Tables that later resolutions left: rows were added, each method with a reference of its own. */
  ghost predicate Later(tables: Tables, later: Tables) {
    && tables.baselines <= later.baselines && tables.methods <= later.methods
    && forall m | m in later.methods && m !in tables.methods :: IsNew(tables, m.ref)
  }

  lemma ResolveIsLater(tables: Tables, forward: Doc, newRef: string, hash: DocHash)
    requires IsNew(tables, newRef)
    ensures Later(tables, After(tables, forward, newRef, hash))
  {
    hide Verified, StoredMethod, EnvelopeOf;
    var o := Resolve(tables, forward, newRef, hash);
    if o.Resolved? && !o.registered {
      assert o.tables == tables;
    }
  }

  lemma LaterIsTransitive(a: Tables, b: Tables, c: Tables)
    requires Later(a, b) && Later(b, c)
    ensures Later(a, c)
  {
    forall m | m in c.methods && m !in a.methods ensures IsNew(a, m.ref) {
      if m !in b.methods {
        assert forall row | row in a.baselines :: row in b.baselines;
      }
    }
  }

  /** The tables of a longer run are later than those of its beginning. */
  lemma {:induction false} RunIsLater(tables: Tables, requests: seq<Request>, hash: DocHash, n: nat)
    requires n <= |requests| && NewRefs(tables, requests, hash)
    ensures Later(RunResolve(tables, requests[..n], hash), RunResolve(tables, requests, hash))
    decreases |requests|
  {
    hide After, Later;
    if n == |requests| {
      assert requests[..n] == requests;
      LaterIsReflexive(RunResolve(tables, requests, hash));
    } else {
      var before, last := requests[..|requests| - 1], requests[|requests| - 1];
      forall i | 0 <= i < |before| ensures IsNew(RunResolve(tables, before[..i], hash), before[i].newRef) {
        assert before[..i] == requests[..i];
      }
      RunIsLater(tables, before, hash, n);
      assert before[..n] == requests[..n];
      ResolveIsLater(RunResolve(tables, before, hash), last.forward, last.newRef, hash);
      LaterIsTransitive(RunResolve(tables, requests[..n], hash), RunResolve(tables, before, hash),
                        RunResolve(tables, requests, hash));
    }
  }

  lemma LaterIsReflexive(tables: Tables)
    ensures Later(tables, tables)
  {
  }

  /** The same identity, with any run bindings, notes and research note. */
  ghost predicate SameIdentity(a: Doc, b: Doc) {
    && b.Keys <= ENVELOPE_KEYS
    && forall k | k in IDENTITY_KEYS :: (k in a <==> k in b) && (k in a ==> a[k] == b[k])
  }

  lemma SameIdentityIsExplicit(a: Doc, b: Doc)
    requires SameIdentity(a, b) && EnvelopeOf(a).Explicit?
    ensures EnvelopeOf(b).Explicit?
  {
    hide RefFine, IsContract;
    assert forall k | k in VERSION_KEYS :: k in IDENTITY_KEYS;
    assert "method_key" in IDENTITY_KEYS;
    if k :| k in a.Keys && k in VERSION_KEYS {
      assert k in b.Keys * VERSION_KEYS;
    }
  }

  lemma SameIdentitySelectsTheSame(a: Doc, b: Doc, row: BaselineRow, m: Option<MethodRow>, hash: DocHash)
    requires SameIdentity(a, b) && EnvelopeOf(a).Explicit?
    requires Verified(a, Some(row), m, hash) && (m.None? ==> IsHistorical(row))
    ensures Verified(b, Some(row), m, hash)
  {
    hide RefFine, IsContract, StoredMethod;
    SameIdentityIsExplicit(a, b);
    assert "method_key" in IDENTITY_KEYS && "method_version" in IDENTITY_KEYS;
    assert "baseline_ref" in IDENTITY_KEYS && "method_contract" in IDENTITY_KEYS;
  }

  lemma HistoricalWithoutMethod(tables: Tables, row: BaselineRow, hash: DocHash)
    requires Consistent(tables, hash) && row in tables.baselines && MethodByRef(tables.methods, row.ref).None?
    ensures IsHistorical(row)
  {
  }

  lemma MethodByRefIsIt(tables: Tables, m: MethodRow, hash: DocHash)
    requires Consistent(tables, hash) && m in tables.methods
    ensures MethodByRef(tables.methods, m.ref) == Some(m) && MethodByName(tables.methods, m.key, m.version) == Some(m)
  {
    OneMethodPerName(tables, m, MethodByRef(tables.methods, m.ref).value);
    OneMethodPerName(tables, m, MethodByName(tables.methods, m.key, m.version).value);
  }

  lemma BaselineByRefIsIt(tables: Tables, row: BaselineRow, hash: DocHash)
    requires Consistent(tables, hash) && row in tables.baselines
    ensures BaselineByRef(tables.baselines, row.ref) == Some(row)
  {
    OneRowPerRef(tables, row, BaselineByRef(tables.baselines, row.ref).value);
  }

  lemma SameRowsLater(tables: Tables, later: Tables, row: BaselineRow, hash: DocHash)
    requires Later(tables, later) && Consistent(later, hash) && row in tables.baselines
    ensures row in later.baselines && MethodByRef(later.methods, row.ref) == MethodByRef(tables.methods, row.ref)
  {
    hide Consistent;
    var was := MethodByRef(tables.methods, row.ref);
    if was.Some? {
      assert was.value in later.methods;
      MethodByRefIsIt(later, was.value, hash);
    }
  }

  /** The row behind an answer, in the tables that the request left. */
  lemma AnsweredRow(tables: Tables, forward: Doc, newRef: string, hash: DocHash) returns (row: BaselineRow)
    requires Injective(hash) && Consistent(tables, hash) && IsNew(tables, newRef)
    requires EnvelopeOf(forward).Explicit? && Resolve(tables, forward, newRef, hash).Resolved?
    ensures var o := Resolve(tables, forward, newRef, hash);
      && row in o.tables.baselines && row.ref == o.ref
      && Verified(forward, Some(row), MethodByRef(o.tables.methods, row.ref), hash)
  {
    hide Consistent, Verified, Injective, StoredMethod, EnvelopeOf;
    var o := Resolve(tables, forward, newRef, hash);
    if o.registered {
      row := o.tables.baselines[|tables.baselines|];
      ResolveKeepsConsistent(tables, forward, newRef, hash);
      MethodByRefIsIt(o.tables, o.tables.methods[|tables.methods|], hash);
      RegisteredVerifies(forward, newRef, hash);
    } else {
      row := SelectedRow(tables, forward, newRef, hash);
      ResolveKeepsConsistent(tables, forward, newRef, hash);
    }
  }

  lemma RegisteredVerifies(forward: Doc, newRef: string, hash: DocHash)
    requires EnvelopeOf(forward).Explicit? && "baseline_ref" !in forward
    ensures var key, version := forward["method_key"].s, forward["method_version"].s;
      var contract := forward["method_contract"].fields;
      var stored := StoredMethod(key, version, contract);
      Verified(forward, Some(BaselineRow(newRef, Document(stored), hash(stored))),
               Some(MethodRow(key, version, newRef, Document(contract), hash(contract))), hash)
  {
    StoredMethodHasKeys(forward["method_key"].s, forward["method_version"].s, forward["method_contract"].fields);
  }

  /** The document of a row that equals an explicit request is that of a named method. */
  lemma ExactRowIsNamed(tables: Tables, forward: Doc, row: BaselineRow, hash: DocHash) returns (m: MethodRow)
    requires Consistent(tables, hash) && row in tables.baselines && EnvelopeOf(forward).Explicit?
    requires row.document == Document(forward)
    ensures Registers(tables, m, forward) && m.ref == row.ref && MethodByRef(tables.methods, row.ref) == Some(m)
  {
    hide RefFine, IsContract;
    m :| m in tables.methods && m.ref == row.ref;
    MethodByRefIsIt(tables, m, hash);
    var b :| b in tables.baselines && BaselineIntact(b, hash) && MethodIntact(m, b, hash);
    OneRowPerRef(tables, row, b);
  }

  lemma VerifiedIsResolved(tables: Tables, forward: Doc, newRef: string, row: BaselineRow, hash: DocHash)
    requires Injective(hash) && Consistent(tables, hash) && row in tables.baselines && EnvelopeOf(forward).Explicit?
    requires Verified(forward, Some(row), MethodByRef(tables.methods, row.ref), hash)
    ensures Resolve(tables, forward, newRef, hash) == Resolved(tables, row.ref, false)
  {
    hide Consistent, StoredMethod, RefFine, IsContract;
    BaselineByRefIsIt(tables, row, hash);
    var exact := BaselineByHash(tables.baselines, hash(forward));
    if exact.Some? {
      ExactIsTheRow(tables, forward, row, exact.value, hash);
    } else if "baseline_ref" !in forward {
      MethodOfVerified(tables, forward, row, hash);
    }
  }

  lemma MethodOfVerified(tables: Tables, forward: Doc, row: BaselineRow, hash: DocHash)
    requires Consistent(tables, hash) && row in tables.baselines && EnvelopeOf(forward).Explicit? && IsNamed(forward)
    requires Verified(forward, Some(row), MethodByRef(tables.methods, row.ref), hash)
    ensures var m := MethodByRef(tables.methods, row.ref);
      m.Some? && Registers(tables, m.value, forward) && MethodByName(tables.methods, m.value.key, m.value.version) == m
  {
    hide Consistent, StoredMethod, RefFine, IsContract;
    var m := MethodByRef(tables.methods, row.ref);
    if m.None? {
      HistoricalWithoutMethod(tables, row, hash);
      assert false;
    }
    MethodByRefIsIt(tables, m.value, hash);
  }

  lemma ExactIsTheRow(tables: Tables, forward: Doc, row: BaselineRow, exact: BaselineRow, hash: DocHash)
    requires Injective(hash) && Consistent(tables, hash) && row in tables.baselines && EnvelopeOf(forward).Explicit?
    requires Verified(forward, Some(row), MethodByRef(tables.methods, row.ref), hash)
    requires exact in tables.baselines && exact.hash == hash(forward)
    ensures exact == row
  {
    hide StoredMethod, RefFine, IsContract;
    assert BaselineIntact(exact, hash);
    var n := ExactRowIsNamed(tables, forward, exact, hash);
    MethodOfVerified(tables, forward, row, hash);
    NamesAreUnique(tables, n, MethodByRef(tables.methods, row.ref).value, hash);
    OneRowPerRef(tables, row, exact);
  }

  /** Resolving an accepted identity again, however much later and with whatever run bindings and
      notes, answers with the same reference and registers nothing. */
  lemma ResolvedAgainIsTheSame(tables: Tables, later: Tables, a: Doc, b: Doc, newRef: string, nextRef: string,
                               hash: DocHash)
    requires Injective(hash) && Consistent(tables, hash) && Consistent(later, hash) && IsNew(tables, newRef)
    requires EnvelopeOf(a).Explicit? && Resolve(tables, a, newRef, hash).Resolved? && SameIdentity(a, b)
    requires Later(After(tables, a, newRef, hash), later)
    ensures Resolve(later, b, nextRef, hash) == Resolved(later, Resolve(tables, a, newRef, hash).ref, false)
  {
    hide Consistent, Injective, Resolve, EnvelopeOf, SameIdentity;
    var first := Resolve(tables, a, newRef, hash);
    ResolveKeepsConsistent(tables, a, newRef, hash);
    var row := AnsweredRow(tables, a, newRef, hash);
    var m := MethodByRef(first.tables.methods, row.ref);
    SameRowsLater(first.tables, later, row, hash);
    if m.None? {
      HistoricalWithoutMethod(first.tables, row, hash);
    }
    SameIdentitySelectsTheSame(a, b, row, m, hash);
    SameIdentityIsExplicit(a, b);
    VerifiedIsResolved(later, b, nextRef, row, hash);
  }

  lemma BaselineByHashIsIt(tables: Tables, row: BaselineRow, hash: DocHash)
    requires Consistent(tables, hash) && row in tables.baselines
    ensures BaselineByHash(tables.baselines, row.hash) == Some(row)
  {
    var found := BaselineByHash(tables.baselines, row.hash).value;
    assert DistinctBaselines(tables.baselines);
  }

  /** A document accepted as it stands, without an explicit identity, is accepted as the same row again. */
  lemma ExactAgainIsTheSame(tables: Tables, later: Tables, a: Doc, newRef: string, nextRef: string, hash: DocHash)
    requires Consistent(tables, hash) && Consistent(later, hash)
    requires !EnvelopeOf(a).Explicit? && Resolve(tables, a, newRef, hash).Resolved?
    requires Later(After(tables, a, newRef, hash), later)
    ensures Resolve(later, a, nextRef, hash) == Resolved(later, Resolve(tables, a, newRef, hash).ref, false)
  {
    hide Consistent, Verified, EnvelopeOf, StoredMethod;
    var row := BaselineByHash(tables.baselines, hash(a)).value;
    SameRowsLater(tables, later, row, hash);
    BaselineByHashIsIt(later, row, hash);
  }

  lemma PrefixOfNewRefs(tables: Tables, requests: seq<Request>, hash: DocHash, n: nat)
    requires n <= |requests| && NewRefs(tables, requests, hash)
    ensures NewRefs(tables, requests[..n], hash)
  {
    hide IsNew;
    forall i | 0 <= i < n ensures IsNew(RunResolve(tables, requests[..n][..i], hash), requests[..n][i].newRef) {
      assert requests[..n][..i] == requests[..i];
    }
  }

  /** In every run from historical tables: an identity that was accepted gets the same reference again
      at every later step, whatever was resolved in between, and registers nothing. */
  lemma EveryRunResolvesTheSame(tables: Tables, requests: seq<Request>, hash: DocHash, i: nat, j: nat)
    requires Injective(hash) && HistoricalTables(tables, hash) && NewRefs(tables, requests, hash)
    requires i < j < |requests|
    requires Resolve(RunResolve(tables, requests[..i], hash), requests[i].forward, requests[i].newRef, hash).Resolved?
    requires var a, b := requests[i].forward, requests[j].forward;
      a == b || (EnvelopeOf(a).Explicit? && SameIdentity(a, b))
    ensures var before := RunResolve(tables, requests[..i], hash);
      var first := Resolve(before, requests[i].forward, requests[i].newRef, hash);
      var later := RunResolve(tables, requests[..j], hash);
      Resolve(later, requests[j].forward, requests[j].newRef, hash) == Resolved(later, first.ref, false)
  {
    hide Consistent, Injective, HistoricalTables, Resolve, After, EnvelopeOf, Later, IsNew;
    var a, b, next := requests[i].forward, requests[j].forward, requests[j].newRef;
    PrefixOfNewRefs(tables, requests, hash, i);
    PrefixOfNewRefs(tables, requests, hash, j);
    EveryRunIsConsistent(tables, requests[..i], hash);
    EveryRunIsConsistent(tables, requests[..j], hash);
    var before, later := RunResolve(tables, requests[..i], hash), RunResolve(tables, requests[..j], hash);
    RunIsLater(tables, requests[..j], hash, i + 1);
    assert requests[..j][..i + 1] == requests[..i + 1] && requests[..i + 1][..i] == requests[..i];
    assert RunResolve(tables, requests[..i + 1], hash) == After(before, a, requests[i].newRef, hash);
    if EnvelopeOf(a).Explicit? {
      ExplicitHasEnvelopeKeys(a);
      ResolvedAgainIsTheSame(before, later, a, b, requests[i].newRef, next, hash);
    } else {
      ExactAgainIsTheSame(before, later, a, requests[i].newRef, next, hash);
    }
  }

  lemma ExplicitHasEnvelopeKeys(a: Doc)
    requires EnvelopeOf(a).Explicit?
    ensures SameIdentity(a, a)
  {
  }

  // ---- The tables inside a transaction

  class BaselineRegistry {
    const hash: DocHash
    var baselines: seq<BaselineRow>
    var methods: seq<MethodRow>

    function View(): Tables
      reads this
    {
      Tables(baselines, methods)
    }

    constructor (hash: DocHash, historical: seq<BaselineRow>)
      ensures View() == Tables(historical, []) && this.hash == hash
    {
      this.hash, baselines, methods := hash, historical, [];
    }

    /** Registers or selects a baseline; None is the `OwnerConflict` it raises. */
    method ResolveIdentity(forward: Doc, newRef: string) returns (answer: Option<(string, bool)>)
      modifies this`baselines, this`methods
      ensures View() == After(old(View()), forward, newRef, hash)
      ensures var o := Resolve(old(View()), forward, newRef, hash);
        answer == if o.Resolved? then Some((o.ref, o.registered)) else None
    {
      hide Verified, StoredMethod;
      var exact := BaselineByHash(baselines, hash(forward));
      if exact.Some? {
        answer := Select(forward, exact, MethodByRef(methods, exact.value.ref));
        return;
      }
      if !EnvelopeOf(forward).Explicit? {
        return None;
      }
      if "baseline_ref" in forward {
        var ref := forward["baseline_ref"].s;
        answer := Select(forward, BaselineByRef(baselines, ref), MethodByRef(methods, ref));
        return;
      }
      var key, version := forward["method_key"].s, forward["method_version"].s;
      var registered := MethodByName(methods, key, version);
      if registered.Some? {
        answer := Select(forward, BaselineByRef(baselines, registered.value.ref), registered);
        return;
      }
      var contract := forward["method_contract"].fields;
      var stored := StoredMethod(key, version, contract);
      var existing := BaselineByHash(baselines, hash(stored));
      if existing.Some? {
        answer := Select(forward, existing, None);
        return;
      }
      baselines := baselines + [BaselineRow(newRef, Document(stored), hash(stored))];
      methods := methods + [MethodRow(key, version, newRef, Document(contract), hash(contract))];
      answer := Some((newRef, true));
    }

    /** The answer for selected rows, once they verify. */
    function Select(forward: Doc, row: Option<BaselineRow>, named: Option<MethodRow>): Option<(string, bool)> {
      if Verified(forward, row, named, hash) then Some((row.value.ref, false)) else None
    }
  }
}
