/** The loops of the assessment validator and of the evidence constructor over their tables, and the
    way back from a record to its claim. */
module ExhaustionChecks {
  import opened Wrappers
  import opened PythonText
  import opened Refs
  import opened BundleValues
  import opened BundleBudget
  import opened BundleRecords
  import opened ExhaustionClaims
  import opened ExhaustionBudget
  import opened ExhaustionAssessment

  // ---- The tables

  /** `held_by_experiment` after these claims, all of which agreed. */
  ghost predicate HeldTable(table: map<Str, seq<Binding>>, claims: seq<Claim>) {
    && (forall i | 0 <= i < |claims| :: claims[i].experiment in table && table[claims[i].experiment] == claims[i].held)
    && (forall k | k in table :: exists c | c in claims :: c.experiment == k)
  }

  lemma HeldTableAgrees(table: map<Str, seq<Binding>>, claims: seq<Claim>)
    requires HeldTable(table, claims)
    ensures HeldAgree(claims)
  {
  }

  lemma OneMoreHeld(table: map<Str, seq<Binding>>, claims: seq<Claim>, c: Claim)
    requires HeldTable(table, claims)
    ensures c.experiment in table && table[c.experiment] != c.held ==> !HeldAgree(claims + [c])
    ensures !(c.experiment in table && table[c.experiment] != c.held) ==>
      HeldTable(table[c.experiment := c.held], claims + [c])
  {
    var more := claims + [c];
    if c.experiment in table && table[c.experiment] != c.held {
      var d :| d in claims && d.experiment == c.experiment;
      var i :| 0 <= i < |claims| && claims[i] == d;
      assert more[i] == d && more[|claims|] == c;
    } else {
      var wider := table[c.experiment := c.held];
      forall k | k in wider ensures exists d | d in more :: d.experiment == k {
        if k == c.experiment {
          assert c in more;
        } else {
          var d :| d in claims && d.experiment == k;
          assert d in more;
        }
      }
    }
  }

  /** `reconciliations_by_operation` and `receipt_subjects` after these reconciliations. */
  datatype Tables = Tables(byOperation: map<Str, Reconciliation>, subjects: map<Str, Str>)

  ghost predicate TablesOf(t: Tables, items: seq<Reconciliation>) {
    && (forall i | 0 <= i < |items| ::
          && items[i].operation in t.byOperation && t.byOperation[items[i].operation] == items[i]
          && items[i].receipt.ref in t.subjects && t.subjects[items[i].receipt.ref] == items[i].operation)
    && (forall k | k in t.byOperation :: t.byOperation[k] in items && t.byOperation[k].operation == k)
    && (forall k | k in t.subjects :: exists r | r in items :: r.receipt.ref == k && r.operation == t.subjects[k])
  }

  lemma TablesAgree(t: Tables, items: seq<Reconciliation>)
    requires TablesOf(t, items)
    ensures ReconciliationsAgree(items)
  {
  }

  predicate Fits(t: Tables, r: Reconciliation) {
    && (r.operation in t.byOperation ==> t.byOperation[r.operation] == r)
    && (r.receipt.ref in t.subjects ==> t.subjects[r.receipt.ref] == r.operation)
  }

  lemma OneMoreReconciliation(t: Tables, items: seq<Reconciliation>, r: Reconciliation)
    requires TablesOf(t, items)
    ensures !Fits(t, r) ==> !ReconciliationsAgree(items + [r])
    ensures Fits(t, r) ==>
      TablesOf(Tables(t.byOperation[r.operation := r], t.subjects[r.receipt.ref := r.operation]), items + [r])
  {
    var more := items + [r];
    assert more[|items|] == r;
    if !Fits(t, r) {
      var s :| s in items && ((s.operation == r.operation && s != r)
                              || (s.receipt.ref == r.receipt.ref && s.operation != r.operation));
      var i :| 0 <= i < |items| && items[i] == s;
      assert more[i] == s;
    } else {
      assert forall s | s in items :: s in more;
      assert r in more;
    }
  }

  lemma MoreReconciliationsDisagree(a: seq<Reconciliation>, b: seq<Reconciliation>)
    requires ReconciliationsAgree(a + b)
    ensures ReconciliationsAgree(a)
  {
    PartAgrees(a, b, 0, |a|);
    assert (a + b)[0..|a|] == a;
  }

  /** `setdefault` for every reconciliation of a record. */
  method AddReconciliations(t: Tables, items: seq<Reconciliation>, ghost before: seq<Reconciliation>)
    returns (ok: bool, u: Tables)
    requires TablesOf(t, before)
    ensures ok <==> ReconciliationsAgree(before + items)
    ensures ok ==> TablesOf(u, before + items)
  {
    hide TablesOf, ReconciliationsAgree;
    u := t;
    assert before + [] == before;
    for i := 0 to |items|
      invariant TablesOf(u, before + items[..i])
    {
      var r := items[i];
      assert before + items[..i] + [r] == before + items[..i + 1];
      OneMoreReconciliation(u, before + items[..i], r);
      if !Fits(u, r) {
        assert before + items == before + items[..i + 1] + items[i + 1..];
        if ReconciliationsAgree(before + items) {
          MoreReconciliationsDisagree(before + items[..i + 1], items[i + 1..]);
        }
        return false, u;
      }
      u := Tables(u.byOperation[r.operation := r], u.subjects[r.receipt.ref := r.operation]);
    }
    assert items[..|items|] == items;
    TablesAgree(u, before + items);
    ok := true;
  }

  // ---- The validator

  lemma {:induction false} ClaimsPrefix(items: seq<Value>, n: nat)
    requires n <= |items| && ClaimsFrom(items).Some?
    ensures ClaimsFrom(items[..n]).Some? && ClaimsFrom(items[..n]).value == ClaimsFrom(items).value[..n]
    decreases |items|
  {
    hide ClaimFrom;
    if n < |items| {
      ClaimsPrefix(items[..|items| - 1], n);
      assert items[..|items| - 1][..n] == items[..n];
    } else {
      assert items[..n] == items;
    }
  }

  lemma ClaimsOneMore(items: seq<Value>, n: nat)
    requires n < |items| && ClaimsFrom(items[..n]).Some?
    ensures ClaimFrom(items[n]).Some? ==>
      ClaimsFrom(items[..n + 1]) == Some(ClaimsFrom(items[..n]).value + [ClaimFrom(items[n]).value])
    ensures ClaimFrom(items[n]).None? ==> ClaimsFrom(items).None?
  {
    hide ClaimFrom;
    assert items[..n + 1][..n] == items[..n];
    if ClaimsFrom(items).Some? {
      ClaimsAreParsed(items);
      assert ClaimFrom(items[n]) == Some(ClaimsFrom(items).value[n]);
    }
  }

  lemma {:induction false} ReconciliationsOfBoth(a: seq<Claim>, b: seq<Claim>)
    ensures AllReconciliations(a + b) == AllReconciliations(a) + AllReconciliations(b)
    decreases |b|
  {
    if b == [] {
      assert a + b == a;
    } else {
      ReconciliationsOfBoth(a, b[..|b| - 1]);
      assert (a + b)[..|a + b| - 1] == a + b[..|b| - 1];
    }
  }

  /** What all claims together need, the first n of them need as well. */
  lemma PrefixIsAccepted(at: Setting, contract: Contract, claims: seq<Claim>, n: nat)
    requires ClaimsAccepted(at, contract, claims) && n <= |claims|
    ensures HeldAgree(claims[..n]) && ReconciliationsAgree(AllReconciliations(claims[..n]))
    ensures forall i | 0 <= i < n :: ClaimChecked(at, contract, claims[i])
  {
    hide ClaimChecked, Ascending, Distinct, CellsCovered;
    assert claims == claims[..n] + claims[n..];
    ReconciliationsOfBoth(claims[..n], claims[n..]);
    MoreReconciliationsDisagree(AllReconciliations(claims[..n]), AllReconciliations(claims[n..]));
  }

  /** A record at which the loop raises is in no accepted assessment. */
  lemma BadRecordIsRefused(at: Setting, contract: Contract, items: seq<Value>, n: nat)
    requires n < |items| && ClaimsFrom(items[..n]).Some? && ClaimFrom(items[n]).Some?
    requires var before, c := ClaimsFrom(items[..n]).value, ClaimFrom(items[n]).value;
      || !ClaimChecked(at, contract, c) || !HeldAgree(before + [c])
      || !ReconciliationsAgree(AllReconciliations(before + [c]))
    ensures ClaimsFrom(items).Some? ==> !ClaimsAccepted(at, contract, ClaimsFrom(items).value)
  {
    hide ClaimFrom, ClaimChecked, HeldAgree, ReconciliationsAgree, ClaimsAccepted;
    if ClaimsFrom(items).Some? {
      var claims := ClaimsFrom(items).value;
      ClaimsPrefix(items, n + 1);
      ClaimsOneMore(items, n);
      assert claims[n] == claims[..n + 1][n];
      if ClaimsAccepted(at, contract, claims) {
        PrefixIsAccepted(at, contract, claims, n + 1);
      }
    }
  }

  /** The checks of one record and of its agreement with the records before it. */
  method CheckClaim(at: Setting, contract: Contract, held: map<Str, seq<Binding>>, t: Tables, c: Claim,
                    ghost before: seq<Claim>)
      returns (ok: bool, newHeld: map<Str, seq<Binding>>, u: Tables)
    requires HeldTable(held, before) && TablesOf(t, AllReconciliations(before))
    ensures ok <==>
      && ClaimChecked(at, contract, c) && HeldAgree(before + [c])
      && ReconciliationsAgree(AllReconciliations(before + [c]))
    ensures ok ==> HeldTable(newHeld, before + [c]) && TablesOf(u, AllReconciliations(before + [c]))
  {
    hide SlotsFit, DispositionFits, OperationsSettled, RouteFingerprint, HeldTable, TablesOf, HeldAgree,
      ReconciliationsAgree;
    newHeld, u := held, t;
    assert (before + [c])[..|before|] == before;
    if !SlotsFit(contract, c) {
      return false, newHeld, u;
    }
    OneMoreHeld(held, before, c);
    if c.experiment in held && held[c.experiment] != c.held {
      return false, newHeld, u;
    }
    newHeld := held[c.experiment := c.held];
    HeldTableAgrees(newHeld, before + [c]);
    if !DispositionFits(c) || !OperationsSettled(c) {
      return false, newHeld, u;
    }
    ok, u := AddReconciliations(t, c.disposition.reconciliations, AllReconciliations(before));
    if ok && RouteFingerprint(at, c) != Some(c.fingerprint) {
      ok := false;
    }
  }

  /** The loop over the records of an assessment and the checks after it. */
  method ValidateRecords(at: Setting, contract: Contract, items: seq<Value>) returns (accepted: bool)
    ensures accepted <==> ClaimsFrom(items).Some? && ClaimsAccepted(at, contract, ClaimsFrom(items).value)
  {
    hide ClaimFrom, ClaimChecked, HeldTable, TablesOf, HeldAgree, ReconciliationsAgree, ClaimsAccepted;
    var claims: seq<Claim>, held: map<Str, seq<Binding>>, tables := [], map[], Tables(map[], map[]);
    if items == [] {
      NoRecords(at, contract);
      return false;
    }
    NothingRead();
    for n := 0 to |items|
      invariant ClaimsFrom(items[..n]) == Some(claims)
      invariant forall i | 0 <= i < n :: ClaimChecked(at, contract, claims[i])
      invariant HeldTable(held, claims) && TablesOf(tables, AllReconciliations(claims))
    {
      var claim := ClaimFrom(items[n]);
      ClaimsOneMore(items, n);
      if claim.None? {
        return false;
      }
      var ok, newHeld, newTables := CheckClaim(at, contract, held, tables, claim.value, claims);
      if !ok {
        BadRecordIsRefused(at, contract, items, n);
        return false;
      }
      held, tables, claims := newHeld, newTables, claims + [claim.value];
    }
    assert items[..|items|] == items;
    accepted := Ascending(ClaimRefs(claims)) && Distinct(RouteIdentities(claims)) && CellsCovered(contract, claims);
    HeldTableAgrees(held, claims);
    TablesAgree(tables, AllReconciliations(claims));
    AcceptedByChecks(at, contract, claims);
  }

  lemma NothingRead()
    ensures HeldTable(map[], []) && TablesOf(Tables(map[], map[]), AllReconciliations([]))
  {
  }

  lemma NoRecords(at: Setting, contract: Contract)
    ensures ClaimsFrom([]) == Some([]) && !ClaimsAccepted(at, contract, [])
  {
  }

  lemma AcceptedByChecks(at: Setting, contract: Contract, claims: seq<Claim>)
    requires claims != [] && (forall i | 0 <= i < |claims| :: ClaimChecked(at, contract, claims[i]))
    requires HeldAgree(claims) && ReconciliationsAgree(AllReconciliations(claims))
    ensures ClaimsAccepted(at, contract, claims)
       <==> Ascending(ClaimRefs(claims)) && Distinct(RouteIdentities(claims)) && CellsCovered(contract, claims)
  {
    hide ClaimChecked, HeldAgree, ReconciliationsAgree, Ascending, Distinct, CellsCovered;
  }

  /** `validate_bundle_exhaustion_assessment` up to the hash it returns. */
  method ValidateAssessment(at: Setting, value: Value) returns (accepted: bool)
    ensures accepted <==> AssessmentAccepted(at, value)
  {
    hide JsonBudget, OpenedFrom, ClaimsFrom, ClaimsAccepted;
    if !JsonBudget(value) {
      return false;
    }
    var content := OpenedFrom(at, value);
    if content.None? || !content.value.records.List? {
      return false;
    }
    accepted := ValidateRecords(at, content.value.contract, content.value.records.items);
  }

  // ---- The evidence constructor's loops

  /** The checks of the constructor on its exploration records and rejected submissions: held-fixed
      bindings and fingerprints in one loop, the citations of rejected submissions in a second, the
      external reconciliations in a third. */
  method CheckEvidenceRecords(at: Setting, contract: Contract, records: seq<ExplorationRecord>, rejected: seq<Str>,
                              assessmentHash: Str, invocation: Str)
      returns (ok: bool)
    ensures ok <==>
      && EvidenceRecordsFit(at, contract, records, assessmentHash, invocation)
      && RejectionsFit(ClaimsOf(records), rejected)
  {
    hide SlotsFit, RouteFingerprint, HeldAgree, ReconciliationsAgree, Ascending, Distinct, CellsCovered, RejectionsFit;
    var claims := ClaimsOf(records);
    if records == [] || !(forall i | 0 <= i < |records| ::
      records[i].assessmentHash == assessmentHash && records[i].receipt.subject == invocation) {
      return false;
    }
    if !Ascending(ClaimRefs(claims)) || !Distinct(RouteIdentities(claims)) {
      return false;
    }
    var heldFine := HeldLoop(at, contract, claims);
    if !heldFine {
      return false;
    }
    var cited := RejectionLoops(claims, rejected);
    if !cited {
      return false;
    }
    var settled := ReconciliationLoop(claims);
    ok := settled && CellsCovered(contract, claims);
  }

  method RejectionLoops(claims: seq<Claim>, rejected: seq<Str>) returns (ok: bool)
    ensures ok <==> RejectionsFit(claims, rejected)
  {
    hide Ascending, Distinct;
    if !Ascending(rejected) {
      return false;
    }
    var covered: seq<Str> := [];
    for n := 0 to |claims|
      invariant covered == CitedRejections(claims[..n])
    {
      assert claims[..n + 1][..n] == claims[..n];
      if claims[n].disposition.outcome == Points("attempted_rejected") {
        covered := covered + claims[n].disposition.evidence;
      }
    }
    assert claims[..|claims|] == claims;
    if !Distinct(covered) || Elements(covered) != Elements(rejected) {
      return false;
    }
    for n := 0 to |claims|
      invariant forall i | 0 <= i < n && claims[i].disposition.outcome != Points("attempted_rejected") ::
        Elements(claims[i].disposition.evidence) * Elements(rejected) == {}
    {
      if claims[n].disposition.outcome != Points("attempted_rejected")
         && Elements(claims[n].disposition.evidence) * Elements(rejected) != {} {
        return false;
      }
    }
    ok := true;
  }

  method HeldLoop(at: Setting, contract: Contract, claims: seq<Claim>) returns (ok: bool)
    ensures ok <==> HeldAgree(claims) && forall i | 0 <= i < |claims| ::
      SlotsFit(contract, claims[i]) && RouteFingerprint(at, claims[i]) == Some(claims[i].fingerprint)
  {
    hide SlotsFit, RouteFingerprint, HeldTable, HeldAgree;
    var held: map<Str, seq<Binding>> := map[];
    NothingRead();
    for n := 0 to |claims|
      invariant HeldTable(held, claims[..n])
      invariant forall i | 0 <= i < n ::
        SlotsFit(contract, claims[i]) && RouteFingerprint(at, claims[i]) == Some(claims[i].fingerprint)
    {
      var c := claims[n];
      if !SlotsFit(contract, c) {
        return false;
      }
      assert claims[..n + 1] == claims[..n] + [c];
      OneMoreHeld(held, claims[..n], c);
      if c.experiment in held && held[c.experiment] != c.held {
        PrefixDisagrees(claims, n + 1);
        return false;
      }
      held := held[c.experiment := c.held];
      if RouteFingerprint(at, c) != Some(c.fingerprint) {
        return false;
      }
    }
    assert claims[..|claims|] == claims;
    HeldTableAgrees(held, claims);
    ok := true;
  }

  lemma PrefixDisagrees(claims: seq<Claim>, n: nat)
    requires n <= |claims| && !HeldAgree(claims[..n])
    ensures !HeldAgree(claims)
  {
    var first := claims[..n];
    var i, j :| 0 <= i < n && 0 <= j < n
                && first[i].experiment == first[j].experiment && first[i].held != first[j].held;
    assert claims[i].experiment == claims[j].experiment;
  }

  method ReconciliationLoop(claims: seq<Claim>) returns (ok: bool)
    ensures ok <==> ReconciliationsAgree(AllReconciliations(claims))
  {
    hide TablesOf, ReconciliationsAgree;
    var tables := Tables(map[], map[]);
    NothingRead();
    for n := 0 to |claims|
      invariant TablesOf(tables, AllReconciliations(claims[..n]))
    {
      assert claims[..n + 1][..n] == claims[..n];
      var items := claims[n].disposition.reconciliations;
      var fits, more := AddReconciliations(tables, items, AllReconciliations(claims[..n]));
      if !fits {
        assert claims == claims[..n + 1] + claims[n + 1..];
        ReconciliationsOfBoth(claims[..n + 1], claims[n + 1..]);
        if ReconciliationsAgree(AllReconciliations(claims)) {
          MoreReconciliationsDisagree(AllReconciliations(claims[..n + 1]), AllReconciliations(claims[n + 1..]));
        }
        return false;
      }
      tables := more;
    }
    assert claims[..|claims|] == claims;
    TablesAgree(tables, AllReconciliations(claims));
    ok := true;
  }

  // ---- From a record back to its claim

  lemma {:induction false} AsciiLength(s: Str)
    requires forall i | 0 <= i < |s| :: 0x21 <= s[i] < 0x7F
    ensures Utf8Length(s) == Some(|s|)
  {
    if s != [] {
      AsciiLength(s[..|s| - 1]);
    }
  }

  lemma AsciiIsFine(name: string, maximum: nat)
    requires name != "" && |name| <= maximum && forall i | 0 <= i < |name| :: '!' <= name[i] <= '~'
    ensures TextFine(Points(name), maximum)
  {
    var s := Points(name);
    AsciiLength(s);
    assert s[0] in s && !SpacePoint(s[0]);
  }

  lemma OutcomesAreFine(outcome: Str)
    requires outcome in Outcomes() || outcome in TerminalOutcomes()
    ensures TextFine(outcome, OUTCOME_MAX)
  {
    hide TextFine;
    AsciiIsFine("duplicate_frozen_semantics", OUTCOME_MAX);
    AsciiIsFine("semantically_ineligible", OUTCOME_MAX);
    AsciiIsFine("attempted_rejected", OUTCOME_MAX);
    AsciiIsFine("succeeded", OUTCOME_MAX);
    AsciiIsFine("rejected", OUTCOME_MAX);
    AsciiIsFine("cancelled", OUTCOME_MAX);
    AsciiIsFine("no_effect", OUTCOME_MAX);
    AsciiIsFine("already_applied", OUTCOME_MAX);
  }

  lemma ValidRecordIsFine(schema: Schema, r: ExplorationRecord)
    requires RecordValid(schema, r)
    ensures ClaimFine(r.claim)
  {
    hide TextFine, HashFine, Accepted, HeldFine, Ascending, Distinct, Outcomes, TerminalOutcomes;
    var c := r.claim;
    OutcomesAreFine(c.disposition.outcome);
    OneRefIsFine(c.experiment);
    forall i | 0 <= i < |c.disposition.reconciliations|
      ensures ReconciliationFine(c.disposition.reconciliations[i])
    {
      var item := c.disposition.reconciliations[i];
      assert Settles(item);
      OutcomesAreFine(item.outcome);
      assert TextFine(item.operation, REF_MAX) && TextFine(item.receipt.ref, REF_MAX);
    }
  }

  lemma OneRefIsFine(s: Str)
    requires TextFine(s, REF_MAX)
    ensures RefsFine([s]) && RefsFine([])
  {
  }

  /** Every record that the constructor admits is rebuilt from its own claim. */
  lemma RecordReadsBack(schema: Schema, r: ExplorationRecord)
    requires RecordValid(schema, r)
    ensures RecordFromClaim(schema, ClaimDict(r.claim), r.assessmentHash, r.receipt) == Some(r)
  {
    hide RecordValid, ClaimFrom, ClaimDict, ClaimFine;
    ValidRecordIsFine(schema, r);
    ClaimsAndValuesCorrespond(ClaimDict(r.claim), r.claim);
  }
}
