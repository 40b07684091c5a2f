/** What was delivered to one native session over the generations of a job, and the next prompt.  The
    sealed operations of the job are a table by generation; whether a verified proposal matches one
    of them, and the comparison of the other identity fields, are inputs. */
module BatchDelivery {
  import opened Wrappers
  import opened BatchRecords

  datatype Field = CurrentTargets | TargetCommits

  datatype Records = Records(targets: seq<Record>, commits: seq<Record>)
  {
    function Of(f: Field): seq<Record> {
      if f.CurrentTargets? then targets else commits
    }
  }

  datatype Hashes = Hashes(targets: set<string>, commits: set<string>)
  {
    function Of(f: Field): set<string> {
      if f.CurrentTargets? then targets else commits
    }
  }

  /** A sealed operation: its frozen records and the records in the view of its prompt. */
  datatype Operation = Operation(native: string, baseGeneration: int, identity: string, frozen: Records, view: Records)

  type Operations = map<nat, Operation>

  datatype Request = Request(
    native: string,
    baseGeneration: nat,
    identity: string,
    records: Records,
    contextPack: string,
    proposed: set<nat>,
    allowsDelta: bool,
    targetReaders: map<string, Reader>,
    commitReaders: map<string, Reader>
  )
  {
    function Readers(f: Field): map<string, Reader> {
      if f.CurrentTargets? then targetReaders else commitReaders
    }
  }

  function Source(f: Field): string {
    if f.CurrentTargets? then "bundle_target" else "bundle_target_commit"
  }

  /** `_exact_source` of one record */
  predicate Exact(request: Request, f: Field, r: Record, reader: Reader, hash: Hash) {
    && reader.operation == READ_OPERATION
    && reader.arguments == Arguments(request.contextPack, Source(f), r.ref, hash(r), [], 0, READ_LIMIT)
    && reader.contentHash == hash(r)
  }

  predicate HasExactReader(request: Request, f: Field, r: Record, hash: Hash) {
    r.ref in request.Readers(f) && Exact(request, f, r, request.Readers(f)[r.ref], hash)
  }

  function ExactReaders(request: Request, f: Field, hash: Hash): map<string, Reader> {
    map ref | ref in request.Readers(f) && (exists r | r in request.records.Of(f) ::
        r.ref == ref && HasExactReader(request, f, r, hash))
      :: request.Readers(f)[ref]
  }

  function HashesOf(records: seq<Record>, hash: Hash): set<string> {
    set r | r in records :: hash(r)
  }

  // ---- The delivery baseline

  datatype Scanned =
    | Going(delivered: Hashes, latest: Option<Operation>)
    | Stopped
    | Refused

  /** One sealed operation; refused when it belongs to another request or session, or when its view
      shows a record that it did not freeze. */
  function ScanOne(s: Scanned, request: Request, generation: nat, op: Operation, hash: Hash): Scanned {
    if !s.Going? then s
    else if op.native != request.native || op.baseGeneration != generation - 1 then Refused
    else if op.identity != request.identity then Refused
    else if generation !in request.proposed then Stopped
    else if !(HashesOf(op.view.targets, hash) <= HashesOf(op.frozen.targets, hash))
         || !(HashesOf(op.view.commits, hash) <= HashesOf(op.frozen.commits, hash)) then Refused
    else
      Going(Hashes(s.delivered.targets + HashesOf(op.view.targets, hash),
                   s.delivered.commits + HashesOf(op.view.commits, hash)), Some(op))
  }

  /** The operations below generation n, in their order. */
  function Scan(ops: Operations, request: Request, hash: Hash, n: nat): Scanned {
    if n == 0 then Going(Hashes({}, {}), None)
    else
      var before := Scan(ops, request, hash, n - 1);
      if n - 1 in ops then ScanOne(before, request, n - 1, ops[n - 1], hash) else before
  }

  function Kept(records: seq<Record>, delivered: set<string>, hash: Hash): (kept: seq<Record>)
    ensures forall r | r in kept :: r in records && hash(r) in delivered
  {
    if records == [] then []
    else
      Kept(records[..|records| - 1], delivered, hash)
      + (if hash(records[|records| - 1]) in delivered then [records[|records| - 1]] else [])
  }

  datatype Baseline = NoBaseline | Conflict | Verified(records: Records)

  /** `verified_batch_delivery_baseline` */
  function BaselineOf(ops: Operations, request: Request, hash: Hash): Baseline {
    if request.native == "" || request.baseGeneration !in ops then NoBaseline
    else
      match Scan(ops, request, hash, request.baseGeneration + 1)
      case Refused => Conflict
      case Stopped => NoBaseline
      case Going(delivered, latest) =>
        if latest.None? then NoBaseline
        else
          var frozen := latest.value.frozen;
          Verified(Records(Kept(frozen.targets, delivered.targets, hash),
                           Kept(frozen.commits, delivered.commits, hash)))
  }

  // ---- Prompts

  function Base(baseline: Baseline, f: Field): seq<Record> {
    if baseline.Verified? then baseline.records.Of(f) else []
  }

  function ShownIn(request: Request, baseline: Baseline, f: Field, hash: Hash): (shown: seq<Record>)
    ensures forall r | r in shown :: r in request.records.Of(f)
  {
    var records := request.records.Of(f);
    if request.native == "" || !request.allowsDelta then records
    else Bodies(records, Base(baseline, f), ExactReaders(request, f, hash), hash, |records|)
  }

  /** The operation that the request seals: its view shows every record or only the delta. */
  function Sealed(request: Request, baseline: Baseline, hash: Hash): Operation {
    Operation(request.native, request.baseGeneration, request.identity, request.records,
              Records(ShownIn(request, baseline, CurrentTargets, hash),
                      ShownIn(request, baseline, TargetCommits, hash)))
  }

  /** The next prompt of a job.  A sealed generation is replayed as it is; a baseline conflict makes
      no prompt. */
  function Prompted(ops: Operations, request: Request, hash: Hash): Option<Operations> {
    var generation := request.baseGeneration + 1;
    if generation in ops then Some(ops)
    else
      var baseline := BaselineOf(ops, request, hash);
      if baseline.Conflict? then None else Some(ops[generation := Sealed(request, baseline, hash)])
  }

  function RunPrompts(requests: seq<Request>, hash: Hash): Operations {
    if requests == [] then map[]
    else
      var before := RunPrompts(requests[..|requests| - 1], hash);
      Prompted(before, requests[|requests| - 1], hash).GetOr(before)
  }

  // ---- The theorems

  /** The record was in the view of generation h, at the latest g, of the same native session. */
  ghost predicate ShownAt(ops: Operations, g: nat, h: nat, f: Field, r: Record) {
    && g in ops && h in ops && h <= g && ops[h].native == ops[g].native
    && r in ops[h].view.Of(f)
  }

  ghost predicate WasShown(ops: Operations, g: nat, f: Field, r: Record) {
    exists h :: ShownAt(ops, g, h, f, r)
  }

  /** Every frozen record was shown by then, and no view shows anything else. */
  ghost predicate Complete(ops: Operations, g: nat)
    requires g in ops
  {
    && ops[g].baseGeneration == g - 1
    && (forall f, r | r in ops[g].frozen.Of(f) :: WasShown(ops, g, f, r))
    && (forall f, r | r in ops[g].view.Of(f) :: r in ops[g].frozen.Of(f))
  }

  ghost predicate AllComplete(ops: Operations) {
    forall g | g in ops :: Complete(ops, g)
  }

  /** Some operation below n of the session has this hash in its view. */
  ghost predicate HashShownAt(ops: Operations, native: string, n: nat, h: nat, f: Field, digest: string, hash: Hash) {
    h < n && h in ops && ops[h].native == native && digest in HashesOf(ops[h].view.Of(f), hash)
  }

  ghost predicate HashWasShown(ops: Operations, native: string, n: nat, f: Field, digest: string, hash: Hash) {
    exists h :: HashShownAt(ops, native, n, h, f, digest, hash)
  }

  lemma {:induction false} DeliveredWasShown(ops: Operations, request: Request, hash: Hash, n: nat, f: Field,
                                             digest: string)
    requires Scan(ops, request, hash, n).Going? && digest in Scan(ops, request, hash, n).delivered.Of(f)
    ensures HashWasShown(ops, request.native, n, f, digest, hash)
  {
    if n > 0 {
      var before := Scan(ops, request, hash, n - 1);
      if digest in before.delivered.Of(f) {
        DeliveredWasShown(ops, request, hash, n - 1, f, digest);
        var h :| HashShownAt(ops, request.native, n - 1, h, f, digest, hash);
        assert HashShownAt(ops, request.native, n, h, f, digest, hash);
      } else {
        assert HashShownAt(ops, request.native, n, n - 1, f, digest, hash);
      }
    }
  }

  /** Everything in a verified baseline was shown to the session with exactly this content. */
  lemma BaselineWasShown(ops: Operations, request: Request, hash: Hash, f: Field, r: Record) returns (h: nat)
    requires Injective(hash) && r in Base(BaselineOf(ops, request, hash), f)
    ensures h in ops && h <= request.baseGeneration && ops[h].native == request.native && r in ops[h].view.Of(f)
  {
    var n := request.baseGeneration + 1;
    DeliveredWasShown(ops, request, hash, n, f, hash(r));
    h :| HashShownAt(ops, request.native, n, h, f, hash(r), hash);
  }

  lemma MoreOperationsKeepComplete(ops: Operations, g: nat, op: Operation, k: nat)
    requires g !in ops && k in ops && Complete(ops, k)
    ensures Complete(ops[g := op], k)
  {
    var more := ops[g := op];
    forall f, r | r in more[k].frozen.Of(f) ensures WasShown(more, k, f, r) {
      var h :| ShownAt(ops, k, h, f, r);
      assert ShownAt(more, k, h, f, r);
    }
  }

  lemma NewOperationIsComplete(ops: Operations, request: Request, hash: Hash)
    requires Injective(hash) && request.baseGeneration + 1 !in ops && !BaselineOf(ops, request, hash).Conflict?
    ensures var g := request.baseGeneration + 1;
      Complete(ops[g := Sealed(request, BaselineOf(ops, request, hash), hash)], g)
  {
    hide BaselineOf, ShownIn, WasShown;
    var g, baseline := request.baseGeneration + 1, BaselineOf(ops, request, hash);
    var more := ops[g := Sealed(request, baseline, hash)];
    forall f, r | r in more[g].frozen.Of(f) ensures WasShown(more, g, f, r) {
      NewRecordWasShown(ops, request, hash, f, r);
    }
  }

  lemma NewRecordWasShown(ops: Operations, request: Request, hash: Hash, f: Field, r: Record)
    requires Injective(hash) && request.baseGeneration + 1 !in ops && r in request.records.Of(f)
    ensures var g := request.baseGeneration + 1;
      WasShown(ops[g := Sealed(request, BaselineOf(ops, request, hash), hash)], g, f, r)
  {
    hide BaselineOf, Exact, Count, Shown, Injective;
    var g, baseline := request.baseGeneration + 1, BaselineOf(ops, request, hash);
    var more := ops[g := Sealed(request, baseline, hash)];
    if r in ShownIn(request, baseline, f, hash) {
      assert ShownAt(more, g, g, f, r);
    } else {
      LeftOutExactly(request.records.Of(f), Base(baseline, f), ExactReaders(request, f, hash), hash, r);
      var h := BaselineWasShown(ops, request, hash, f, r);
      assert ShownAt(more, g, h, f, r);
    }
  }

  lemma PromptKeepsComplete(ops: Operations, request: Request, hash: Hash)
    requires Injective(hash) && AllComplete(ops)
    ensures var o := Prompted(ops, request, hash); o.Some? ==> AllComplete(o.value)
  {
    hide BaselineOf, Complete, Sealed;
    var g, o := request.baseGeneration + 1, Prompted(ops, request, hash);
    if o.Some? && g !in ops {
      NewOperationIsComplete(ops, request, hash);
      forall k | k in o.value ensures Complete(o.value, k) {
        if k != g {
          MoreOperationsKeepComplete(ops, g, Sealed(request, BaselineOf(ops, request, hash), hash), k);
        }
      }
    }
  }

  /** Over every run of prompts, in every sealed generation each frozen record was shown with exactly
      its content in that prompt or an earlier one of the same native session. */
  lemma {:induction false} EveryRecordWasShown(requests: seq<Request>, hash: Hash)
    requires Injective(hash)
    ensures var ops := RunPrompts(requests, hash);
      forall g, f, r | g in ops && r in ops[g].frozen.Of(f) :: WasShown(ops, g, f, r)
    ensures AllComplete(RunPrompts(requests, hash))
  {
    hide Prompted, WasShown;
    if requests != [] {
      EveryRecordWasShown(requests[..|requests| - 1], hash);
      PromptKeepsComplete(RunPrompts(requests[..|requests| - 1], hash), requests[|requests| - 1], hash);
    }
    var ops := RunPrompts(requests, hash);
    forall g, f, r | g in ops && r in ops[g].frozen.Of(f) ensures WasShown(ops, g, f, r) {
      assert Complete(ops, g);
    }
  }

  /** All that the session was shown for a field, up to generation n. */
  function Transcript(ops: Operations, native: string, f: Field, n: nat): seq<Record> {
    if n == 0 then []
    else
      Transcript(ops, native, f, n - 1)
      + (if n - 1 in ops && ops[n - 1].native == native then ops[n - 1].view.Of(f) else [])
  }

  lemma {:induction false} TranscriptHolds(ops: Operations, native: string, f: Field, n: nat, h: nat, r: Record)
    requires h < n && h in ops && ops[h].native == native && r in ops[h].view.Of(f)
    ensures r in Transcript(ops, native, f, n)
  {
    if h < n - 1 {
      TranscriptHolds(ops, native, f, n - 1, h, r);
    }
  }

  /** The full ordered list of any generation is rebuilt from its index and what the session was shown
      so far. */
  lemma TranscriptRebuildsEveryList(requests: seq<Request>, hash: Hash, g: nat, f: Field, readers: map<string, Reader>)
    requires Injective(hash) && g in RunPrompts(requests, hash)
    ensures var ops := RunPrompts(requests, hash);
      Rebuilt(Transcript(ops, ops[g].native, f, g + 1), Index(ops[g].frozen.Of(f), readers, hash), hash)
        == AllFound(ops[g].frozen.Of(f))
  {
    hide RunPrompts;
    var ops := RunPrompts(requests, hash);
    EveryRecordWasShown(requests, hash);
    var store, records := Transcript(ops, ops[g].native, f, g + 1), ops[g].frozen.Of(f);
    forall r | r in records ensures r in store {
      assert WasShown(ops, g, f, r);
      var h: nat :| ShownAt(ops, g, h, f, r);
      TranscriptHolds(ops, ops[g].native, f, g + 1, h, r);
    }
    StoreRebuilds(store, records, readers, hash);
  }

  /** Every body that a prompt leaves out is reachable through a reader with its exact hash. */
  lemma LeftOutHasExactReader(request: Request, baseline: Baseline, f: Field, hash: Hash, r: Record)
    requires Injective(hash) && r in request.records.Of(f) && r !in ShownIn(request, baseline, f, hash)
    ensures HasExactReader(request, f, r, hash)
  {
    hide Count;
    var records := request.records.Of(f);
    LeftOutExactly(records, Base(baseline, f), ExactReaders(request, f, hash), hash, r);
    var s :| s in records && s.ref == r.ref && HasExactReader(request, f, s, hash);
    OneOfItsReference(records, r, s);
  }

  lemma {:induction false} OneOfItsReference(records: seq<Record>, r: Record, s: Record)
    requires r in records && s in records && r.ref == s.ref && Count(records, r.ref) == 1
    ensures r == s
  {
    var last := |records| - 1;
    assert records == records[..last] + [records[last]];
    if records[last].ref == r.ref {
      if r in records[..last] {
        CountIsPositive(records[..last], r);
      }
      if s in records[..last] {
        CountIsPositive(records[..last], s);
      }
    } else {
      OneOfItsReference(records[..last], r, s);
    }
  }

  /** A prompt never keeps a body because its reader names another hash: readers that are not exact
      were dropped before. */
  lemma MismatchIsNeverReported(request: Request, baseline: Baseline, f: Field, hash: Hash, r: Record)
    requires r in request.records.Of(f)
    ensures ReasonToShow(request.records.Of(f), Base(baseline, f), ExactReaders(request, f, hash), r, hash)
         != Some(ReaderHashMismatch)
  {
    hide Count;
    var records, readers := request.records.Of(f), ExactReaders(request, f, hash);
    CountIsPositive(records, r);
    if Count(records, r.ref) == 1 && r.ref in readers {
      var s :| s in records && s.ref == r.ref && HasExactReader(request, f, s, hash);
      OneOfItsReference(records, r, s);
    }
  }

  /** The baseline of a reachable job is refused only for a foreign session or identity, never for
      what its views show. */
  lemma {:induction false} ViewsAreNeverRefused(ops: Operations, request: Request, hash: Hash, n: nat) returns (g: nat)
    requires AllComplete(ops) && Scan(ops, request, hash, n).Refused?
    ensures g < n && g in ops && (ops[g].native != request.native || ops[g].identity != request.identity)
  {
    if Scan(ops, request, hash, n - 1).Refused? {
      g := ViewsAreNeverRefused(ops, request, hash, n - 1);
    } else {
      g := n - 1;
      var op := ops[g];
      assert Complete(ops, g);
      forall f ensures HashesOf(op.view.Of(f), hash) <= HashesOf(op.frozen.Of(f), hash) {
      }
      assert op.view.Of(CurrentTargets) == op.view.targets && op.view.Of(TargetCommits) == op.view.commits;
      assert op.frozen.Of(CurrentTargets) == op.frozen.targets && op.frozen.Of(TargetCommits) == op.frozen.commits;
    }
  }
}
