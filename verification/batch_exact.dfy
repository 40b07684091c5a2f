/** Exactly which bodies a prompt leaves out: the scan of the sealed operations, the baseline and the
    next view stated by positions in the lists and by what the session was shown. */
module BatchExact {
  import opened Wrappers
  import opened BatchRecords
  import opened BatchDelivery

  // ----- Selections of a list -----------------------------------------------------------

  /** The picked records stand in the list at these ascending positions. */
  ghost predicate PickedAt(records: seq<Record>, picked: seq<Record>, positions: seq<nat>) {
    && |positions| == |picked|
    && (forall i, j | 0 <= i < j < |positions| :: positions[i] < positions[j])
    && (forall i | 0 <= i < |positions| :: positions[i] < |records| && picked[i] == records[positions[i]])
  }

  ghost predicate UniqueRef(records: seq<Record>, ref: string) {
    forall i, j | 0 <= i < j < |records| :: records[i].ref != ref || records[j].ref != ref
  }

  lemma {:induction false} CountsToOne(records: seq<Record>, ref: string)
    ensures UniqueRef(records, ref) <==> Count(records, ref) <= 1
    ensures (exists r | r in records :: r.ref == ref) <==> Count(records, ref) > 0
  {
    if records != [] {
      var last := |records| - 1;
      CountsToOne(records[..last], ref);
      assert records == records[..last] + [records[last]];
      if records[last].ref == ref && !UniqueRef(records, ref) {
        assert exists r | r in records[..last] :: r.ref == ref by {
          var i, j :| 0 <= i < j < |records| && records[i].ref == ref && records[j].ref == ref;
          assert records[i] in records[..last];
        }
      }
    }
  }

  lemma NextPick(records: seq<Record>, picked: seq<Record>, positions: seq<nat>, n: nat)
    requires n < |records| && PickedAt(records[..n], picked, positions)
    ensures PickedAt(records[..n + 1], picked, positions)
    ensures PickedAt(records[..n + 1], picked + [records[n]], positions + [n])
  {
  }

  /** The bodies of a view are the records to be shown, each as often and in the order of the list. */
  lemma {:induction false} BodiesArePicked(records: seq<Record>, base: seq<Record>, readers: map<string, Reader>,
                                           hash: Hash, n: nat) returns (positions: seq<nat>)
    requires n <= |records|
    ensures PickedAt(records[..n], Bodies(records, base, readers, hash, n), positions)
    ensures forall k | 0 <= k < n :: k in positions <==> Shown(records, base, readers, records[k], hash)
  {
    hide Shown, PickedAt;
    if n == 0 {
      positions := [];
      NothingPicked(records[..0]);
    } else {
      positions := BodiesArePicked(records, base, readers, hash, n - 1);
      var before := Bodies(records, base, readers, hash, n - 1);
      NextPick(records, before, positions, n - 1);
      PicksAreBelow(records[..n - 1], before, positions);
      assert before + [] == before;
      if Shown(records, base, readers, records[n - 1], hash) {
        positions := positions + [n - 1];
      }
    }
  }

  lemma NothingPicked(records: seq<Record>)
    ensures PickedAt(records, [], [])
  {
  }

  lemma PicksAreBelow(records: seq<Record>, picked: seq<Record>, positions: seq<nat>)
    requires PickedAt(records, picked, positions)
    ensures forall k | k in positions :: k < |records|
  {
  }

  lemma {:induction false} KeptArePicked(records: seq<Record>, delivered: set<string>, hash: Hash)
      returns (positions: seq<nat>)
    ensures PickedAt(records, Kept(records, delivered, hash), positions)
    ensures forall k | 0 <= k < |records| :: k in positions <==> hash(records[k]) in delivered
  {
    hide PickedAt;
    if records == [] {
      positions := [];
      NothingPicked(records);
    } else {
      var last := |records| - 1;
      positions := KeptArePicked(records[..last], delivered, hash);
      var before := Kept(records[..last], delivered, hash);
      assert records[..last + 1] == records && before + [] == before;
      NextPick(records, before, positions, last);
      PicksAreBelow(records[..last], before, positions);
      if hash(records[last]) in delivered {
        positions := positions + [last];
      }
    }
  }

  // ----- The scan -----------------------------------------------------------------------

  /** The sealed operation is of this session and request, in its place. */
  ghost predicate Own(ops: Operations, request: Request, g: nat)
    requires g in ops
  {
    ops[g].native == request.native && ops[g].baseGeneration == g - 1 && ops[g].identity == request.identity
  }

  /** The view shows nothing that was not frozen. */
  ghost predicate ShowsFrozen(op: Operation, hash: Hash) {
    forall f, r | r in op.view.Of(f) :: hash(r) in HashesOf(op.frozen.Of(f), hash)
  }

  ghost predicate Fine(ops: Operations, request: Request, hash: Hash, g: nat) {
    g in ops ==> Own(ops, request, g) && g in request.proposed && ShowsFrozen(ops[g], hash)
  }

  /** The first generation below n whose operation is not fine. */
  ghost predicate FirstTrouble(ops: Operations, request: Request, hash: Hash, n: nat, g: nat) {
    g < n && !Fine(ops, request, hash, g) && forall k | 0 <= k < g :: Fine(ops, request, hash, k)
  }

  /** Only the proposal of the operation is missing. */
  ghost predicate Unproposed(ops: Operations, request: Request, g: nat) {
    g in ops && Own(ops, request, g) && g !in request.proposed
  }

  /** Some operation below n is not fine; whether only its proposal is missing for the first of them. */
  ghost predicate Troubled(ops: Operations, request: Request, hash: Hash, n: nat, onlyProposal: bool) {
    exists g :: FirstTrouble(ops, request, hash, n, g) && Unproposed(ops, request, g) == onlyProposal
  }

  lemma {:induction false} ScanMeans(ops: Operations, request: Request, hash: Hash, n: nat)
    ensures var scanned := Scan(ops, request, hash, n);
      && (scanned.Going? <==> forall g | 0 <= g < n :: Fine(ops, request, hash, g))
      && (scanned.Stopped? <==> Troubled(ops, request, hash, n, true))
      && (scanned.Refused? <==> Troubled(ops, request, hash, n, false))
  {
    hide ShowsFrozen;
    if n > 0 {
      ScanMeans(ops, request, hash, n - 1);
      if n - 1 in ops {
        ShowsFrozenByHashes(ops[n - 1], hash);
      }
      assert Scan(ops, request, hash, n).Going?
        <==> Scan(ops, request, hash, n - 1).Going? && Fine(ops, request, hash, n - 1);
      forall g: nat
        ensures FirstTrouble(ops, request, hash, n, g)
           <==> if g == n - 1 then !Fine(ops, request, hash, g) && Scan(ops, request, hash, n - 1).Going?
                else FirstTrouble(ops, request, hash, n - 1, g)
      {
      }
    }
  }

  lemma ShowsFrozenByHashes(op: Operation, hash: Hash)
    ensures ShowsFrozen(op, hash)
       <==> HashesOf(op.view.targets, hash) <= HashesOf(op.frozen.targets, hash)
            && HashesOf(op.view.commits, hash) <= HashesOf(op.frozen.commits, hash)
  {
    assert op.view.Of(CurrentTargets) == op.view.targets && op.view.Of(TargetCommits) == op.view.commits;
    assert op.frozen.Of(CurrentTargets) == op.frozen.targets && op.frozen.Of(TargetCommits) == op.frozen.commits;
    if !ShowsFrozen(op, hash) {
      var f, r :| r in op.view.Of(f) && hash(r) !in HashesOf(op.frozen.Of(f), hash);
      assert hash(r) in HashesOf(op.view.Of(f), hash);
    }
  }

  /** What the scan counts as delivered is exactly what some view of the session showed, and its latest
      operation is the last one. */
  lemma {:induction false} ScanDelivers(ops: Operations, request: Request, hash: Hash, n: nat)
    requires Scan(ops, request, hash, n).Going?
    ensures var scanned := Scan(ops, request, hash, n);
      && (forall f, digest ::
            digest in scanned.delivered.Of(f) <==> HashWasShown(ops, request.native, n, f, digest, hash))
      && (n > 0 && n - 1 in ops ==> scanned.latest == Some(ops[n - 1]))
  {
    hide HashesOf;
    if n > 0 {
      ScanDelivers(ops, request, hash, n - 1);
      var before, scanned := Scan(ops, request, hash, n - 1), Scan(ops, request, hash, n);
      forall f, digest
        ensures digest in scanned.delivered.Of(f) <==> HashWasShown(ops, request.native, n, f, digest, hash)
      {
        if digest in before.delivered.Of(f) {
          var h :| HashShownAt(ops, request.native, n - 1, h, f, digest, hash);
          assert HashShownAt(ops, request.native, n, h, f, digest, hash);
        } else if h: nat :| HashShownAt(ops, request.native, n, h, f, digest, hash) {
          assert h < n - 1 ==> HashShownAt(ops, request.native, n - 1, h, f, digest, hash);
        }
        if n - 1 in ops && digest in HashesOf(ops[n - 1].view.Of(f), hash) {
          assert HashShownAt(ops, request.native, n, n - 1, f, digest, hash);
        }
      }
    }
  }

  // ----- The baseline -------------------------------------------------------------------

  /** The records of the list that some view of the session up to the base generation showed, by
      their hashes and in the order of the list. */
  ghost predicate ShownPart(ops: Operations, request: Request, f: Field, records: seq<Record>, picked: seq<Record>,
                            hash: Hash)
  {
    exists positions :: PickedAt(records, picked, positions)
      && forall k | 0 <= k < |records| ::
           k in positions
           <==> HashWasShown(ops, request.native, request.baseGeneration + 1, f, hash(records[k]), hash)
  }

  /** There is no baseline without a session, without the operation of the base generation, or where
      a missing proposal is the first trouble; any other trouble is a conflict; else the baseline is
      the part of the latest frozen lists that was shown. */
  ghost predicate BaselineMeans(ops: Operations, request: Request, hash: Hash, baseline: Baseline) {
    var n := request.baseGeneration + 1;
    && (baseline.NoBaseline? <==>
          || request.native == "" || request.baseGeneration !in ops
          || Troubled(ops, request, hash, n, true))
    && (baseline.Conflict? <==>
          && request.native != "" && request.baseGeneration in ops
          && Troubled(ops, request, hash, n, false))
    && (baseline.Verified? ==>
          && request.baseGeneration in ops
          && forall f ::
               ShownPart(ops, request, f, ops[request.baseGeneration].frozen.Of(f), baseline.records.Of(f), hash))
  }

  lemma BaselineIsExact(ops: Operations, request: Request, hash: Hash)
    ensures BaselineMeans(ops, request, hash, BaselineOf(ops, request, hash))
  {
    hide Troubled, PickedAt, HashWasShown, Kept;
    var n, baseline := request.baseGeneration + 1, BaselineOf(ops, request, hash);
    ScanMeans(ops, request, hash, n);
    NoTroubleTwice(ops, request, hash, n);
    if request.baseGeneration in ops && Scan(ops, request, hash, n).Going? {
      ScanDelivers(ops, request, hash, n);
      var delivered := Scan(ops, request, hash, n).delivered;
      forall f ensures baseline.Verified? ==>
          ShownPart(ops, request, f, ops[request.baseGeneration].frozen.Of(f), baseline.records.Of(f), hash) {
        var positions := KeptArePicked(ops[request.baseGeneration].frozen.Of(f), delivered.Of(f), hash);
      }
    }
  }

  lemma NoTroubleTwice(ops: Operations, request: Request, hash: Hash, n: nat)
    ensures !(Troubled(ops, request, hash, n, true) && Troubled(ops, request, hash, n, false))
  {
    hide Fine;
  }

  lemma PickedUnique(records: seq<Record>, picked: seq<Record>, positions: seq<nat>, ref: string)
    requires PickedAt(records, picked, positions)
    ensures UniqueRef(picked, ref)
       <==> forall i, j | 0 <= i < j < |records| && i in positions && j in positions ::
              records[i].ref != ref || records[j].ref != ref
  {
    if !UniqueRef(picked, ref) {
      var a, b :| 0 <= a < b < |picked| && picked[a].ref == ref && picked[b].ref == ref;
      assert positions[a] in positions && positions[b] in positions;
    } else {
      forall i, j | 0 <= i < j < |records| && i in positions && j in positions
        ensures records[i].ref != ref || records[j].ref != ref
      {
        var a :| 0 <= a < |positions| && positions[a] == i;
        var b :| 0 <= b < |positions| && positions[b] == j;
        assert a < b || b < a;
      }
    }
  }

  // ----- What the next view leaves out --------------------------------------------------

  /** The record was in a view of the session up to the base generation. */
  ghost predicate SeenAt(ops: Operations, request: Request, f: Field, r: Record, h: nat) {
    h <= request.baseGeneration && h in ops && ops[h].native == request.native && r in ops[h].view.Of(f)
  }

  ghost predicate Seen(ops: Operations, request: Request, f: Field, r: Record) {
    exists h :: SeenAt(ops, request, f, r, h)
  }

  /** No two records of the list that were seen have this reference. */
  ghost predicate UniqueAmongSeen(ops: Operations, request: Request, f: Field, records: seq<Record>, ref: string) {
    forall i, j | 0 <= i < j < |records| && records[i].ref == ref && records[j].ref == ref ::
      !Seen(ops, request, f, records[i]) || !Seen(ops, request, f, records[j])
  }

  /** The operation, if there is one, is of this session and identity and was proposed. */
  predicate Continues(ops: Operations, request: Request, g: nat) {
    g in ops ==>
      ops[g].native == request.native && ops[g].identity == request.identity && g in request.proposed
  }

  /** The request offers to read this very version of the record, whole and from its start. */
  predicate IsReadable(request: Request, f: Field, r: Record, hash: Hash) {
    && r.ref in request.Readers(f)
    && request.Readers(f)[r.ref]
       == Reader("research_memory.stage_context.read",
                 Arguments(request.contextPack, if f.CurrentTargets? then "bundle_target" else "bundle_target_commit",
                           r.ref, hash(r), [], 0, 16384),
                 hash(r))
  }

  lemma ReadableMeansExact(request: Request, f: Field, r: Record, hash: Hash)
    ensures HasExactReader(request, f, r, hash) <==> IsReadable(request, f, r, hash)
  {
  }

  /** The body of the record may be left out of the next view: deltas are allowed, the session showed
      it and froze it last, nothing interrupts the session, its reference is unique, and it has an exact
      reader. */
  ghost predicate LeftOut(ops: Operations, request: Request, f: Field, r: Record, hash: Hash) {
    && request.native != "" && request.allowsDelta && request.baseGeneration in ops
    && (forall g | 0 <= g <= request.baseGeneration :: Continues(ops, request, g))
    && Seen(ops, request, f, r)
    && r in ops[request.baseGeneration].frozen.Of(f)
    && UniqueRef(request.records.Of(f), r.ref)
    && UniqueAmongSeen(ops, request, f, ops[request.baseGeneration].frozen.Of(f), r.ref)
    && IsReadable(request, f, r, hash)
  }

  lemma SeenByHash(ops: Operations, request: Request, f: Field, r: Record, hash: Hash)
    requires Injective(hash)
    ensures HashWasShown(ops, request.native, request.baseGeneration + 1, f, hash(r), hash)
       <==> Seen(ops, request, f, r)
  {
    var n := request.baseGeneration + 1;
    if h: nat :| HashShownAt(ops, request.native, n, h, f, hash(r), hash) {
      assert SeenAt(ops, request, f, r, h);
    } else if h: nat :| SeenAt(ops, request, f, r, h) {
      assert HashShownAt(ops, request.native, n, h, f, hash(r), hash);
    }
  }

  lemma ShownPositions(ops: Operations, request: Request, f: Field, records: seq<Record>, picked: seq<Record>,
                       hash: Hash) returns (positions: seq<nat>)
    requires Injective(hash) && ShownPart(ops, request, f, records, picked, hash)
    ensures PickedAt(records, picked, positions)
    ensures forall k | 0 <= k < |records| :: k in positions <==> Seen(ops, request, f, records[k])
  {
    hide HashWasShown, Seen, Injective, PickedAt;
    positions :| PickedAt(records, picked, positions)
      && forall k | 0 <= k < |records| ::
           k in positions
           <==> HashWasShown(ops, request.native, request.baseGeneration + 1, f, hash(records[k]), hash);
    forall k | 0 <= k < |records| ensures k in positions <==> Seen(ops, request, f, records[k]) {
      SeenByHash(ops, request, f, records[k], hash);
    }
  }

  /** In the shown part of a list a record is there once by its reference. */
  lemma OnceInShownPart(ops: Operations, request: Request, f: Field, records: seq<Record>, picked: seq<Record>,
                        r: Record, hash: Hash)
    requires Injective(hash) && ShownPart(ops, request, f, records, picked, hash)
    ensures r in picked && Count(picked, r.ref) == 1
       <==> r in records && Seen(ops, request, f, r) && UniqueAmongSeen(ops, request, f, records, r.ref)
  {
    hide ShownPart, Seen, Count, Injective, PickedAt, UniqueAmongSeen;
    var positions := ShownPositions(ops, request, f, records, picked, hash);
    OnceAmongPicked(ops, request, f, records, picked, positions, r);
  }

  lemma OnceAmongPicked(ops: Operations, request: Request, f: Field, records: seq<Record>, picked: seq<Record>,
                        positions: seq<nat>, r: Record)
    requires PickedAt(records, picked, positions)
    requires forall k | 0 <= k < |records| :: k in positions <==> Seen(ops, request, f, records[k])
    ensures r in picked && Count(picked, r.ref) == 1
       <==> r in records && Seen(ops, request, f, r) && UniqueAmongSeen(ops, request, f, records, r.ref)
  {
    hide Seen, Count, PickedAt, UniqueRef;
    PickedUnique(records, picked, positions, r.ref);
    CountsToOne(picked, r.ref);
    PickedHolds(records, picked, positions, r);
  }

  lemma PickedHolds(records: seq<Record>, picked: seq<Record>, positions: seq<nat>, r: Record)
    requires PickedAt(records, picked, positions)
    ensures r in picked <==> exists k | 0 <= k < |records| :: k in positions && records[k] == r
  {
    if r in picked {
      var i :| 0 <= i < |picked| && picked[i] == r;
      assert positions[i] in positions;
    }
  }

  /** The index of a delta names each record in its place, with a reader exactly where there is an exact
      one for that record. */
  lemma IndexNamesExactReaders(request: Request, f: Field, hash: Hash, i: nat)
    requires i < |request.records.Of(f)|
    ensures var r := request.records.Of(f)[i];
      Index(request.records.Of(f), ExactReaders(request, f, hash), hash)[i]
      == Entry(r.ref, hash(r), r.status, r.state,
               if IsReadable(request, f, r, hash) then Some(request.Readers(f)[r.ref]) else None)
  {
    hide ExactReaders, HasExactReader, IsReadable;
    ReadableMeansExact(request, f, request.records.Of(f)[i], hash);
    MatchedIsExact(request, f, hash, request.records.Of(f)[i]);
  }

  lemma MatchedIsExact(request: Request, f: Field, hash: Hash, r: Record)
    requires r in request.records.Of(f)
    ensures Matched(ReaderOf(ExactReaders(request, f, hash), r.ref), hash(r))
         == if HasExactReader(request, f, r, hash) then Some(request.Readers(f)[r.ref]) else None
  {
    hide Exact;
    forall s: Record | s.ref == r.ref && HasExactReader(request, f, s, hash)
      ensures request.Readers(f)[r.ref].contentHash == hash(s)
      ensures hash(s) == hash(r) ==> HasExactReader(request, f, r, hash)
    {
      ExactNamesItsHash(request, f, s, request.Readers(f)[r.ref], hash);
      ExactByHash(request, f, s, r, request.Readers(f)[r.ref], hash);
    }
  }

  lemma ExactByHash(request: Request, f: Field, s: Record, r: Record, reader: Reader, hash: Hash)
    requires s.ref == r.ref && Exact(request, f, s, reader, hash)
    ensures hash(s) == hash(r) ==> Exact(request, f, r, reader, hash)
  {
  }

  lemma ExactNamesItsHash(request: Request, f: Field, r: Record, reader: Reader, hash: Hash)
    requires Exact(request, f, r, reader, hash)
    ensures reader.contentHash == hash(r)
  {
  }

  /** As every run of prompts seals its operations. */
  ghost predicate WellSealed(ops: Operations, hash: Hash) {
    forall g | g in ops :: ops[g].baseGeneration == g - 1 && ShowsFrozen(ops[g], hash)
  }

  lemma FineMeansContinues(ops: Operations, request: Request, hash: Hash, g: nat)
    requires WellSealed(ops, hash)
    ensures Fine(ops, request, hash, g) <==> Continues(ops, request, g)
  {
    hide ShowsFrozen;
  }

  /** A record is absent from the next view exactly if its body may be left out. */
  lemma ViewLeavesOutExactly(ops: Operations, request: Request, f: Field, r: Record, hash: Hash)
    requires WellSealed(ops, hash)
    requires Injective(hash) && r in request.records.Of(f) && !BaselineOf(ops, request, hash).Conflict?
    ensures r !in ShownIn(request, BaselineOf(ops, request, hash), f, hash) <==> LeftOut(ops, request, f, r, hash)
  {
    hide Injective, ShownPart, Count, Bodies, ExactReaders, HasExactReader, IsReadable, Matched, Seen, UniqueAmongSeen,
      UniqueRef,
      BaselineOf, Fine, Continues, Troubled, WellSealed;
    var baseline, records := BaselineOf(ops, request, hash), request.records.Of(f);
    BaselineIsExact(ops, request, hash);
    var n := request.baseGeneration + 1;
    FineUnlessTrouble(ops, request, hash, n);
    forall g | 0 <= g < n ensures Fine(ops, request, hash, g) <==> Continues(ops, request, g) {
      FineMeansContinues(ops, request, hash, g);
    }
    assert baseline.Verified? ==> forall g | 0 <= g < n :: Fine(ops, request, hash, g);
    if request.native != "" && request.allowsDelta {
      LeftOutExactly(records, Base(baseline, f), ExactReaders(request, f, hash), hash, r);
      CountsToOne(records, r.ref);
      MatchedIsExact(request, f, hash, r);
      ReadableMeansExact(request, f, r, hash);
      if baseline.Verified? {
        OnceInShownPart(ops, request, f, ops[request.baseGeneration].frozen.Of(f), baseline.records.Of(f), r, hash);
      }
    }
  }

  lemma FineUnlessTrouble(ops: Operations, request: Request, hash: Hash, n: nat)
    ensures (forall g | 0 <= g < n :: Fine(ops, request, hash, g))
       <==> !Troubled(ops, request, hash, n, true) && !Troubled(ops, request, hash, n, false)
  {
    ScanMeans(ops, request, hash, n);
  }

  /** The view is the list without what may be left out, in its order. */
  ghost predicate ExactView(ops: Operations, request: Request, f: Field, view: seq<Record>, hash: Hash) {
    var records := request.records.Of(f);
    exists positions :: PickedAt(records, view, positions)
      && forall k | 0 <= k < |records| :: k in positions <==> !LeftOut(ops, request, f, records[k], hash)
  }

  lemma ViewIsExact(ops: Operations, request: Request, f: Field, hash: Hash)
    requires WellSealed(ops, hash) && Injective(hash) && !BaselineOf(ops, request, hash).Conflict?
    ensures ExactView(ops, request, f, ShownIn(request, BaselineOf(ops, request, hash), f, hash), hash)
  {
    hide WellSealed, Injective, BaselineOf, LeftOut, Shown, ExactReaders, Count, PickedAt;
    var baseline, records := BaselineOf(ops, request, hash), request.records.Of(f);
    var base, readers := Base(baseline, f), ExactReaders(request, f, hash);
    forall k | 0 <= k < |records|
      ensures records[k] in ShownIn(request, baseline, f, hash) <==> !LeftOut(ops, request, f, records[k], hash)
    {
      ViewLeavesOutExactly(ops, request, f, records[k], hash);
    }
    assert records[..|records|] == records;
    if request.native == "" || !request.allowsDelta {
      WholeIsPicked(records);
    } else {
      var positions := BodiesArePicked(records, base, readers, hash, |records|);
      forall k | 0 <= k < |records| ensures k in positions <==> !LeftOut(ops, request, f, records[k], hash) {
        BodiesHoldTheShown(records, base, readers, hash, |records|, records[k]);
      }
    }
  }

  lemma WholeIsPicked(records: seq<Record>)
    ensures exists positions :: PickedAt(records, records, positions) && forall k | 0 <= k < |records| :: k in positions
  {
    var positions := seq(|records|, i => i);
    forall k: nat | k < |records| ensures k in positions {
      assert positions[k] == k;
    }
    assert PickedAt(records, records, positions);
  }

  /** The first operation up to the base generation that does not continue the session is one of
      another session or identity. */
  ghost predicate Interrupted(ops: Operations, request: Request) {
    exists g :: g <= request.baseGeneration && g in ops
      && (ops[g].native != request.native || ops[g].identity != request.identity)
      && forall k | 0 <= k < g :: Continues(ops, request, k)
  }

  /** The next prompt of any run: a sealed generation is replayed; an interrupted session makes no prompt;
      otherwise the request is frozen as it is, next to the operations before it, with the exact views. */
  lemma EveryPromptIsExact(requests: seq<Request>, request: Request, hash: Hash)
    requires Injective(hash)
    ensures var ops := RunPrompts(requests, hash);
      var g, next := request.baseGeneration + 1, Prompted(ops, request, hash);
      if g in ops then next == Some(ops)
      else if request.native != "" && request.baseGeneration in ops && Interrupted(ops, request) then next.None?
      else
        && next.Some? && g in next.value
        && var op := next.value[g];
        && next.value == ops[g := op]
        && op.native == request.native && op.baseGeneration == g - 1 && op.identity == request.identity
        && op.frozen == request.records
        && forall f :: ExactView(ops, request, f, op.view.Of(f), hash)
  {
    hide RunPrompts, Injective, BaselineOf, ShownIn, ExactView, Complete, Interrupted;
    var ops := RunPrompts(requests, hash);
    EveryRecordWasShown(requests, hash);
    CompleteIsWellSealed(ops, hash);
    BaselineIsExact(ops, request, hash);
    InterruptedMeansTroubled(ops, request, hash);
    if !BaselineOf(ops, request, hash).Conflict? {
      forall f ensures ExactView(ops, request, f, ShownIn(request, BaselineOf(ops, request, hash), f, hash), hash) {
        ViewIsExact(ops, request, f, hash);
      }
    }
  }

  lemma CompleteIsWellSealed(ops: Operations, hash: Hash)
    requires AllComplete(ops)
    ensures WellSealed(ops, hash)
  {
    forall g | g in ops ensures ops[g].baseGeneration == g - 1 && ShowsFrozen(ops[g], hash) {
      assert Complete(ops, g);
    }
  }

  lemma InterruptedMeansTroubled(ops: Operations, request: Request, hash: Hash)
    requires WellSealed(ops, hash)
    ensures Interrupted(ops, request) <==> Troubled(ops, request, hash, request.baseGeneration + 1, false)
  {
    hide Fine, Continues, WellSealed;
    var n := request.baseGeneration + 1;
    forall g: nat ensures Fine(ops, request, hash, g) <==> Continues(ops, request, g) {
      FineMeansContinues(ops, request, hash, g);
    }
    if Interrupted(ops, request) {
      var g: nat :| g <= request.baseGeneration && g in ops
        && (ops[g].native != request.native || ops[g].identity != request.identity)
        && forall k | 0 <= k < g :: Continues(ops, request, k);
      NotContinued(ops, request, g);
      assert FirstTrouble(ops, request, hash, n, g);
    }
    if Troubled(ops, request, hash, n, false) {
      var g: nat :| FirstTrouble(ops, request, hash, n, g) && !Unproposed(ops, request, g);
      ForeignWhenTroubled(ops, request, hash, g);
    }
  }

  lemma NotContinued(ops: Operations, request: Request, g: nat)
    requires g in ops && (ops[g].native != request.native || ops[g].identity != request.identity)
    ensures !Continues(ops, request, g) && !Unproposed(ops, request, g)
  {
  }

  lemma ForeignWhenTroubled(ops: Operations, request: Request, hash: Hash, g: nat)
    requires WellSealed(ops, hash) && !Fine(ops, request, hash, g) && !Unproposed(ops, request, g)
    ensures g in ops && (ops[g].native != request.native || ops[g].identity != request.identity)
  {
    hide ShowsFrozen;
  }

  // ----- Bodies that are shown once more ------------------------------------------------

  /** Each reason to show a delivered body again, and that there is one exactly for the delivered
      records among the bodies. */
  lemma ReasonsAreExact(records: seq<Record>, base: seq<Record>, readers: map<string, Reader>, r: Record, hash: Hash)
    requires r in records
    ensures var reason := ReasonToShow(records, base, readers, r, hash);
      var again := Delivered(base, r.ref, hash(r), hash);
      var once := UniqueRef(records, r.ref) && UniqueRef(base, r.ref);
      && (reason.Some? <==> again && r in Bodies(records, base, readers, hash, |records|))
      && (reason == Some(DuplicateCurrentRef) <==> again && !UniqueRef(records, r.ref))
      && (reason == Some(DuplicateBaselineRef) <==> again && UniqueRef(records, r.ref) && !UniqueRef(base, r.ref))
      && (reason == Some(MissingReader) <==> again && once && r.ref !in readers)
      && (reason == Some(ReaderHashMismatch) <==>
            again && once && r.ref in readers && readers[r.ref].contentHash != hash(r))
  {
    hide Count, UniqueRef, Delivered, Bodies;
    CountsToOne(records, r.ref);
    CountsToOne(base, r.ref);
    BodiesHoldTheShown(records, base, readers, hash, |records|, r);
    assert records[..|records|] == records;
  }

  /** The retained entries are those of the records at these ascending positions. */
  ghost predicate RetainedAt(records: seq<Record>, base: seq<Record>, readers: map<string, Reader>, hash: Hash,
                             n: nat, retained: seq<Retained>, positions: seq<nat>)
    requires n <= |records|
  {
    && |positions| == |retained|
    && (forall i, j | 0 <= i < j < |positions| :: positions[i] < positions[j])
    && (forall i | 0 <= i < |positions| ::
          && positions[i] < n
          && var r := records[positions[i]];
          && ReasonToShow(records, base, readers, r, hash).Some?
          && retained[i] == Retained(r.ref, hash(r), ReasonToShow(records, base, readers, r, hash).value))
  }

  lemma NothingRetained(records: seq<Record>, base: seq<Record>, readers: map<string, Reader>, hash: Hash)
    ensures RetainedAt(records, base, readers, hash, 0, [], [])
  {
  }

  lemma NextRetained(records: seq<Record>, base: seq<Record>, readers: map<string, Reader>, hash: Hash, n: nat,
                     retained: seq<Retained>, positions: seq<nat>)
    requires n < |records| && RetainedAt(records, base, readers, hash, n, retained, positions)
    ensures RetainedAt(records, base, readers, hash, n + 1, retained, positions)
    ensures var r := records[n];
      var reason := ReasonToShow(records, base, readers, r, hash);
      reason.Some? ==>
        RetainedAt(records, base, readers, hash, n + 1, retained + [Retained(r.ref, hash(r), reason.value)],
                   positions + [n])
  {
    hide ReasonToShow;
  }

  /** The list of bodies shown again, in the order of the records. */
  lemma {:induction false} RetainedArePicked(records: seq<Record>, base: seq<Record>, readers: map<string, Reader>,
                                             hash: Hash, n: nat) returns (positions: seq<nat>)
    requires n <= |records|
    ensures RetainedAt(records, base, readers, hash, n, RetainedBodies(records, base, readers, hash, n), positions)
    ensures forall k | 0 <= k < n && ReasonToShow(records, base, readers, records[k], hash).Some? :: k in positions
  {
    hide ReasonToShow, RetainedAt;
    if n == 0 {
      positions := [];
      NothingRetained(records, base, readers, hash);
    } else {
      positions := RetainedArePicked(records, base, readers, hash, n - 1);
      var before := RetainedBodies(records, base, readers, hash, n - 1);
      NextRetained(records, base, readers, hash, n - 1, before, positions);
      assert before + [] == before;
      if ReasonToShow(records, base, readers, records[n - 1], hash).Some? {
        positions := positions + [n - 1];
      }
    }
  }
}
