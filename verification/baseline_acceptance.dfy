/** Exactly which baseline requests are accepted in consistent tables, and what they leave. */
module BaselineAcceptance {
  import opened Wrappers
  import opened PythonText
  import opened BaselineIdentity

  // ----- Requests -----------------------------------------------------------------------

  /** A text of 1 to 1024 characters on one line, without spaces at its ends. */
  predicate IsOneLine(v: Json) {
    && v.Str? && 1 <= |v.s| <= 1024 && !SpacePoint(v.s[0] as int) && !SpacePoint(v.s[|v.s| - 1] as int)
    && forall c | c in v.s :: c != 0 as char && c != '\r' && c != '\n'
  }

  lemma RefIsOneLine(v: Json)
    ensures RefFine(v) <==> IsOneLine(v)
  {
    if v.Str? && |v.s| > 0 {
      assert Points(v.s)[0] == v.s[0] as int && Points(v.s)[0] in Points(v.s);
    }
  }

  /** The request selects a baseline by reference, or names a method version with its contract. */
  predicate IsExplicit(forward: Doc) {
    && forward.Keys <= {"baseline_ref", "method_key", "method_version", "method_contract", "schema_ref",
                        "run_bindings", "notes", "research_note_ref"}
    && ("baseline_ref" in forward ==> IsOneLine(forward["baseline_ref"]))
    && ("method_key" in forward <==> "method_version" in forward)
    && ("method_key" in forward ==> IsOneLine(forward["method_key"]) && IsOneLine(forward["method_version"]))
    && ("method_contract" in forward ==>
          forward["method_contract"].Object? && forward["method_contract"].fields != map[])
    && ("baseline_ref" in forward || ("method_key" in forward && "method_contract" in forward))
  }

  lemma ExplicitEnvelopes(forward: Doc)
    ensures EnvelopeOf(forward).Explicit? <==> IsExplicit(forward)
  {
    hide RefFine, IsOneLine;
    forall v ensures RefFine(v) <==> IsOneLine(v) {
      RefIsOneLine(v);
    }
    assert "baseline_ref" in forward ==> "baseline_ref" in forward.Keys * VERSION_KEYS;
    assert "method_version" in forward ==> "method_version" in forward.Keys * VERSION_KEYS;
  }

  predicate NamesMethod(forward: Doc, m: MethodRow) {
    && "method_key" in forward && forward["method_key"] == Str(m.key)
    && "method_version" in forward && forward["method_version"] == Str(m.version)
  }

  /** The request names a version that no method row has. */
  ghost predicate NameIsFree(tables: Tables, forward: Doc) {
    "baseline_ref" !in forward && forall m | m in tables.methods :: !NamesMethod(forward, m)
  }

  /** The rows that the request selects agree with its reference, name and contract. */
  ghost predicate AgreesWithMethod(tables: Tables, forward: Doc, row: BaselineRow, m: MethodRow) {
    && row in tables.baselines && m in tables.methods && m.ref == row.ref
    && ("baseline_ref" in forward ==> forward["baseline_ref"] == Str(row.ref))
    && ("method_key" in forward ==> NamesMethod(forward, m))
    && ("method_contract" in forward ==>
          m.contract.Document? && forward["method_contract"] == Object(m.contract.fields))
  }

  predicate LooksNamed(row: BaselineRow) {
    row.document.Document? && "schema_ref" in row.document.fields
    && row.document.fields["schema_ref"] == Str(METHOD_SCHEMA)
  }

  /** The same for a historical baseline, which has no name. */
  ghost predicate AgreesWithHistorical(tables: Tables, forward: Doc, row: BaselineRow) {
    && row in tables.baselines && !HasItsMethod(tables, row) && !LooksNamed(row)
    && "baseline_ref" in forward && forward["baseline_ref"] == Str(row.ref)
    && "method_key" !in forward
    && ("method_contract" in forward ==>
          row.document.Document? && forward["method_contract"] == Object(row.document.fields))
  }

  ghost predicate Agrees(tables: Tables, forward: Doc, row: BaselineRow) {
    AgreesWithHistorical(tables, forward, row) || exists m :: AgreesWithMethod(tables, forward, row, m)
  }

  /** What an accepted new name adds: one baseline with the stored document and one method row. */
  ghost predicate Adds(tables: Tables, forward: Doc, newRef: string, hash: DocHash, after: Tables) {
    && |after.baselines| == |tables.baselines| + 1 && |after.methods| == |tables.methods| + 1
    && tables.baselines <= after.baselines && tables.methods <= after.methods
    && var row, m := after.baselines[|tables.baselines|], after.methods[|tables.methods|];
    && row.ref == newRef && m.ref == newRef && NamesMethod(forward, m)
    && m.contract.Document? && Has(forward, "method_contract", v => v == Object(m.contract.fields))
    && m.hash == hash(m.contract.fields)
    && row.document.Document? && row.hash == hash(row.document.fields)
    && row.document.fields == map["schema_ref" := Str(METHOD_SCHEMA), "method_key" := Str(m.key),
                                  "method_version" := Str(m.version),
                                  "method_contract" := Object(m.contract.fields)]
    && BaselineByRef(after.baselines, newRef) == Some(row)
    && MethodByName(after.methods, m.key, m.version) == Some(m)
  }

  // ----- The rows of an explicit request ------------------------------------------------

  lemma MethodOfRow(tables: Tables, row: BaselineRow, hash: DocHash)
    requires Consistent(tables, hash) && row in tables.baselines
    ensures var m := MethodByRef(tables.methods, row.ref);
      && BaselineIntact(row, hash)
      && (m.Some? <==> HasItsMethod(tables, row))
      && (m.None? ==> IsHistorical(row))
      && (m.Some? ==> MethodIntact(m.value, row, hash)
                      && forall n | n in tables.methods && n.ref == row.ref :: n == m.value)
  {
    hide MethodIntact, IsHistorical;
    var m := MethodByRef(tables.methods, row.ref);
    if m.Some? {
      var b :| b in tables.baselines && BaselineIntact(b, hash) && MethodIntact(m.value, b, hash);
      MethodNamesItsRow(m.value, b, hash);
      OneRowPerRef(tables, row, b);
      forall n | n in tables.methods && n.ref == row.ref ensures n == m.value {
        OneMethodPerName(tables, n, m.value);
      }
    }
  }

  lemma MethodNamesItsRow(m: MethodRow, row: BaselineRow, hash: DocHash)
    requires row.document.Document? && MethodIntact(m, row, hash)
    ensures m.ref == row.ref && m.contract.Document?
  {
  }

  /** An explicit request verifies against a row exactly if it agrees with it. */
  lemma VerifiedAgrees(tables: Tables, forward: Doc, row: BaselineRow, hash: DocHash)
    requires Consistent(tables, hash) && row in tables.baselines && IsExplicit(forward)
    ensures Verified(forward, Some(row), MethodByRef(tables.methods, row.ref), hash) <==> Agrees(tables, forward, row)
  {
    hide Consistent, IsOneLine, MethodIntact;
    MethodOfRow(tables, row, hash);
    ExplicitEnvelopes(forward);
    var m := MethodByRef(tables.methods, row.ref);
    if m.Some? {
      MethodNamesItsRow(m.value, row, hash);
      assert AgreesWithMethod(tables, forward, row, m.value) <==> Selects(forward, row, m);
    } else {
      HistoricalIsNotExplicit(row, forward);
    }
  }

  lemma HistoricalIsNotExplicit(row: BaselineRow, forward: Doc)
    requires IsHistorical(row) && IsExplicit(forward)
    ensures row.document.fields != forward
  {
    assert "baseline_ref" in VERSION_KEYS && "method_version" in VERSION_KEYS;
  }

  // ----- Acceptance ---------------------------------------------------------------------

  /** A row that holds the document of a method version is that of its method row. */
  lemma StoredRowIsNamed(tables: Tables, row: BaselineRow, key: string, version: string, contract: Doc, hash: DocHash)
    requires Injective(hash) && Consistent(tables, hash) && row in tables.baselines
    requires row.hash == hash(StoredMethod(key, version, contract))
    ensures exists m | m in tables.methods :: m.ref == row.ref && m.key == key && m.version == version
  {
    hide Consistent, Injective;
    MethodOfRow(tables, row, hash);
    SameHashSameDocument(row, StoredMethod(key, version, contract), hash);
    StoredIsVersioned(row, key, version, contract);
    var m := MethodByRef(tables.methods, row.ref).value;
    assert m in tables.methods;
    StoredMethodsDiffer(m.key, m.version, m.contract.fields, key, version, contract);
  }

  lemma StoredMethodsDiffer(key: string, version: string, contract: Doc, key': string, version': string, contract': Doc)
    requires StoredMethod(key, version, contract) == StoredMethod(key', version', contract')
    ensures key == key' && version == version'
  {
    assert StoredMethod(key, version, contract)["method_key"] == Str(key');
    assert StoredMethod(key, version, contract)["method_version"] == Str(version');
  }

  lemma SameHashSameDocument(row: BaselineRow, document: Doc, hash: DocHash)
    requires Injective(hash) && BaselineIntact(row, hash) && row.hash == hash(document)
    ensures row.document == Document(document)
  {
  }

  lemma StoredIsVersioned(row: BaselineRow, key: string, version: string, contract: Doc)
    requires row.document == Document(StoredMethod(key, version, contract))
    ensures !IsHistorical(row)
  {
    VersionedIsNotHistorical(row.document.fields);
  }

  /** A free name is registered: with the new reference, its document and its contract, and nothing
      else changes. */
  lemma FreeNameIsRegistered(tables: Tables, forward: Doc, newRef: string, hash: DocHash)
    requires Injective(hash) && Consistent(tables, hash) && IsNew(tables, newRef)
    requires IsExplicit(forward) && NameIsFree(tables, forward)
    ensures var o := Resolve(tables, forward, newRef, hash);
      o.Resolved? && o.registered && o.ref == newRef && Adds(tables, forward, newRef, hash, o.tables)
  {
    hide Consistent, Injective, Verified, EnvelopeOf;
    ExplicitEnvelopes(forward);
    var key, version := forward["method_key"].s, forward["method_version"].s;
    var contract := forward["method_contract"].fields;
    var exact := BaselineByHash(tables.baselines, hash(forward));
    if exact.Some? {
      MethodOfRow(tables, exact.value, hash);
      SameHashSameDocument(exact.value, forward, hash);
      var m := ExactRowIsNamed(tables, forward, exact.value, hash);
      assert false;
    }
    var existing := BaselineByHash(tables.baselines, hash(StoredMethod(key, version, contract)));
    if existing.Some? {
      StoredRowIsNamed(tables, existing.value, key, version, contract, hash);
      assert false;
    }
    assert MethodByName(tables.methods, key, version).None?;
    var more := Registered(tables, key, version, contract, newRef, hash);
    RegisteringKeepsConsistent(tables, key, version, contract, newRef, hash);
    BaselineByRefIsIt(more, more.baselines[|tables.baselines|], hash);
    MethodByRefIsIt(more, more.methods[|tables.methods|], hash);
  }

  /** Explicit requests are accepted exactly if their name is free or the rows they select agree; a free
      name is registered, and otherwise the row that agrees is the answer. */
  lemma ExplicitAcceptedExactly(tables: Tables, forward: Doc, newRef: string, hash: DocHash)
    requires Injective(hash) && Consistent(tables, hash) && IsNew(tables, newRef) && IsExplicit(forward)
    ensures var o := Resolve(tables, forward, newRef, hash);
      && (o.Resolved? <==> NameIsFree(tables, forward) || exists row :: Agrees(tables, forward, row))
      && (NameIsFree(tables, forward) ==>
            o.Resolved? && o.registered && o.ref == newRef && Adds(tables, forward, newRef, hash, o.tables))
      && (o.Resolved? && !NameIsFree(tables, forward) ==>
            !o.registered && o.tables == tables && exists row :: Agrees(tables, forward, row) && row.ref == o.ref)
  {
    hide Consistent, Injective, Verified, EnvelopeOf, IsOneLine, Resolve, Agrees, Adds, NameIsFree;
    ExplicitEnvelopes(forward);
    var o := Resolve(tables, forward, newRef, hash);
    if NameIsFree(tables, forward) {
      FreeNameIsRegistered(tables, forward, newRef, hash);
    } else {
      if o.Resolved? {
        if o.registered {
          OnlyFreeNamesAreRegistered(tables, forward, newRef, hash);
        }
        ResolveKeepsConsistent(tables, forward, newRef, hash);
        var row := SelectedRow(tables, forward, newRef, hash);
        VerifiedAgrees(tables, forward, row, hash);
      }
      if row :| Agrees(tables, forward, row) {
        AgreesInTable(tables, forward, row);
        VerifiedAgrees(tables, forward, row, hash);
        VerifiedIsResolved(tables, forward, newRef, row, hash);
      }
    }
  }

  lemma AgreesInTable(tables: Tables, forward: Doc, row: BaselineRow)
    requires Agrees(tables, forward, row)
    ensures row in tables.baselines
  {
  }

  lemma OnlyFreeNamesAreRegistered(tables: Tables, forward: Doc, newRef: string, hash: DocHash)
    requires IsExplicit(forward)
    requires var o := Resolve(tables, forward, newRef, hash); o.Resolved? && o.registered
    ensures NameIsFree(tables, forward)
  {
    hide Verified, EnvelopeOf, IsOneLine, StoredMethod;
  }

  /** Any other request is accepted exactly if a historical baseline holds that very document, which is
      then the answer. */
  lemma OtherAcceptedExactly(tables: Tables, forward: Doc, newRef: string, hash: DocHash)
    requires Injective(hash) && Consistent(tables, hash) && !IsExplicit(forward)
    ensures var o := Resolve(tables, forward, newRef, hash);
      && (o.Resolved? <==> exists row :: IsHistoricalCopy(tables, forward, row))
      && (o.Resolved? ==>
            && !o.registered && o.tables == tables
            && exists row :: IsHistoricalCopy(tables, forward, row) && row.ref == o.ref)
  {
    hide Consistent, Injective, Verified, EnvelopeOf, IsOneLine, StoredMethod, IsHistoricalCopy;
    ExplicitEnvelopes(forward);
    if row :| IsHistoricalCopy(tables, forward, row) {
      CopyIsFound(tables, forward, row, hash);
      CopyVerifies(tables, forward, row, hash);
    } else if row :| row in tables.baselines && row.hash == hash(forward) {
      CopyVerifies(tables, forward, BaselineByHash(tables.baselines, hash(forward)).value, hash);
    }
  }

  ghost predicate IsHistoricalCopy(tables: Tables, forward: Doc, row: BaselineRow) {
    && row in tables.baselines && row.document == Document(forward)
    && !HasItsMethod(tables, row) && !LooksNamed(row)
  }

  lemma CopyIsFound(tables: Tables, forward: Doc, row: BaselineRow, hash: DocHash)
    requires Consistent(tables, hash) && IsHistoricalCopy(tables, forward, row)
    ensures BaselineByHash(tables.baselines, hash(forward)) == Some(row)
  {
    MethodOfRow(tables, row, hash);
    BaselineByHashIsIt(tables, row, hash);
  }

  lemma CopyVerifies(tables: Tables, forward: Doc, row: BaselineRow, hash: DocHash)
    requires Injective(hash) && Consistent(tables, hash) && !IsExplicit(forward)
    requires row in tables.baselines && row.hash == hash(forward)
    ensures Verified(forward, Some(row), MethodByRef(tables.methods, row.ref), hash)
       <==> IsHistoricalCopy(tables, forward, row)
  {
    hide Consistent, Injective, IsOneLine, IsExplicit;
    MethodOfRow(tables, row, hash);
    ExplicitEnvelopes(forward);
    SameHashSameDocument(row, forward, hash);
    if MethodByRef(tables.methods, row.ref).Some? {
      VersionedIsNotHistorical(forward);
      NotHistoricalEnvelope(forward);
    }
  }

  lemma NotHistoricalEnvelope(forward: Doc)
    requires !(forward.Keys !! VERSION_KEYS)
    ensures !EnvelopeOf(forward).Historical?
  {
  }
}
