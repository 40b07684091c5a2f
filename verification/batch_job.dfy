/** The sealed operations of a job as mutable state, and the loops over them. */
module BatchJobs {
  import opened Wrappers
  import opened BatchRecords
  import opened BatchDelivery
  import opened BatchExact

  /** `[record for record in records if canonical_hash(record) in delivered]` */
  method KeepDelivered(records: seq<Record>, delivered: set<string>, hash: Hash) returns (kept: seq<Record>)
    ensures kept == Kept(records, delivered, hash)
  {
    kept := [];
    for i := 0 to |records|
      invariant kept == Kept(records[..i], delivered, hash)
    {
      assert records[..i + 1][..i] == records[..i];
      if hash(records[i]) in delivered {
        kept := kept + [records[i]];
      }
    }
    assert records[..|records|] == records;
  }

  /** Adds the hashes of the records shown; stops at one that was not frozen. */
  method AddShown(shown: seq<Record>, frozen: seq<Record>, delivered: set<string>, hash: Hash)
      returns (valid: bool, more: set<string>)
    ensures valid == (HashesOf(shown, hash) <= HashesOf(frozen, hash))
    ensures valid ==> more == delivered + HashesOf(shown, hash)
  {
    var frozenHashes := HashesOf(frozen, hash);
    more := delivered;
    for i := 0 to |shown|
      invariant HashesOf(shown[..i], hash) <= frozenHashes && more == delivered + HashesOf(shown[..i], hash)
    {
      assert shown[..i + 1] == shown[..i] + [shown[i]];
      if hash(shown[i]) !in frozenHashes {
        assert hash(shown[i]) in HashesOf(shown, hash);
        return false, more;
      }
      more := more + {hash(shown[i])};
    }
    assert shown[..|shown|] == shown;
    valid := true;
  }

  method SelectExact(request: Request, f: Field, hash: Hash) returns (exact: map<string, Reader>)
    ensures exact == ExactReaders(request, f, hash)
  {
    hide Exact;
    var records, readers := request.records.Of(f), request.Readers(f);
    exact := map[];
    for i := 0 to |records|
      invariant exact == map ref | ref in readers && (exists r | r in records[..i] ::
        r.ref == ref && HasExactReader(request, f, r, hash)) :: readers[ref]
    {
      assert records[..i + 1] == records[..i] + [records[i]];
      if HasExactReader(request, f, records[i], hash) {
        exact := exact[records[i].ref := readers[records[i].ref]];
      }
    }
    assert records[..|records|] == records;
  }

  class BatchJob {
    const hash: Hash
    var operations: Operations

    constructor (hash: Hash)
      ensures operations == map[] && this.hash == hash
    {
      this.hash, operations := hash, map[];
    }

    method VerifiedBaseline(request: Request) returns (baseline: Baseline)
      ensures baseline == BaselineOf(operations, request, hash)
      ensures BaselineMeans(operations, request, hash, baseline)
    {
      hide BaselineMeans;
      BaselineIsExact(operations, request, hash);
      if request.native == "" || request.baseGeneration !in operations {
        return NoBaseline;
      }
      var targets, commits, latest := {}, {}, None;
      for g := 0 to request.baseGeneration + 1
        invariant Scan(operations, request, hash, g) == Going(Hashes(targets, commits), latest)
        invariant request.baseGeneration < g ==> latest.Some?
      {
        if g in operations {
          var op := operations[g];
          ghost var next := ScanOne(Going(Hashes(targets, commits), latest), request, g, op, hash);
          ScanEnds(operations, request, hash, g + 1, request.baseGeneration + 1);
          if op.native != request.native || op.baseGeneration != g - 1 || op.identity != request.identity {
            return Conflict;
          }
          if g !in request.proposed {
            return NoBaseline;
          }
          var targetsValid, moreTargets := AddShown(op.view.targets, op.frozen.targets, targets, hash);
          if !targetsValid {
            return Conflict;
          }
          var commitsValid, moreCommits := AddShown(op.view.commits, op.frozen.commits, commits, hash);
          if !commitsValid {
            return Conflict;
          }
          targets, commits, latest := moreTargets, moreCommits, Some(op);
        }
      }
      var frozen := latest.value.frozen;
      var keptTargets := KeepDelivered(frozen.targets, targets, hash);
      var keptCommits := KeepDelivered(frozen.commits, commits, hash);
      baseline := Verified(Records(keptTargets, keptCommits));
    }

    /** The record part of the view of the next prompt. */
    method RenderField(request: Request, baseline: Baseline, f: Field)
        returns (shown: seq<Record>, index: seq<Entry>)
      ensures shown == ShownIn(request, baseline, f, hash)
      ensures request.native != "" && request.allowsDelta ==>
        index == Index(request.records.Of(f), ExactReaders(request, f, hash), hash)
    {
      if request.native == "" || !request.allowsDelta {
        return request.records.Of(f), [];
      }
      var exact := SelectExact(request, f, hash);
      var previous := if baseline.Verified? then Some(baseline.records.Of(f)) else None;
      var retained;
      shown, index, retained := Partition(request.records.Of(f), previous, exact, hash);
    }

    /** Seals the next generation unless it is sealed already; false when the baseline conflicts. */
    method Prompt(request: Request) returns (made: bool)
      modifies this`operations
      ensures made == Prompted(old(operations), request, hash).Some?
      ensures operations == Prompted(old(operations), request, hash).GetOr(old(operations))
    {
      hide BaselineOf, ShownIn;
      var generation := request.baseGeneration + 1;
      if generation in operations {
        return true;
      }
      var baseline := VerifiedBaseline(request);
      if baseline.Conflict? {
        return false;
      }
      var targets, _ := RenderField(request, baseline, CurrentTargets);
      var commits, _ := RenderField(request, baseline, TargetCommits);
      operations := operations[generation := Operation(request.native, request.baseGeneration, request.identity,
        request.records, Records(targets, commits))];
      made := true;
    }
  }

  /** Once the scan has ended it stays ended. */
  lemma {:induction false} ScanEnds(ops: Operations, request: Request, hash: Hash, k: nat, n: nat)
    requires k <= n
    ensures !Scan(ops, request, hash, k).Going? ==> Scan(ops, request, hash, n) == Scan(ops, request, hash, k)
  {
    if k < n {
      ScanEnds(ops, request, hash, k, n - 1);
    }
  }
}
