/** The record part of a delta prompt: bodies that were delivered before are left out and only
    indexed.  The canonical hash is a parameter; the theorems about content take it injective. */
module BatchRecords {
  import opened Wrappers

  const READ_OPERATION := "research_memory.stage_context.read"
  const READ_LIMIT := 16384

  datatype Record = Record(ref: string, status: Option<string>, state: Option<string>, content: string)

  type Hash = Record -> string

  ghost predicate Injective(hash: Hash) {
    forall a, b :: hash(a) == hash(b) ==> a == b
  }

  datatype Arguments = Arguments(contextPack: string, source: string, sourceRef: string, version: string,
                                 path: seq<string>, offset: int, limit: int)

  datatype Reader = Reader(operation: string, arguments: Arguments, contentHash: string)

  datatype Entry = Entry(ref: string, contentHash: string, status: Option<string>, state: Option<string>,
                         reader: Option<Reader>)

  datatype Reason = DuplicateCurrentRef | DuplicateBaselineRef | MissingReader | ReaderHashMismatch

  datatype Retained = Retained(ref: string, contentHash: string, reason: Reason)

  function Count(records: seq<Record>, ref: string): nat {
    if records == [] then 0
    else Count(records[..|records| - 1], ref) + (if records[|records| - 1].ref == ref then 1 else 0)
  }

  /** The baseline holds the reference with this hash. */
  predicate Delivered(base: seq<Record>, ref: string, digest: string, hash: Hash) {
    exists b | b in base :: b.ref == ref && hash(b) == digest
  }

  function Matched(reader: Option<Reader>, digest: string): Option<Reader> {
    if reader.Some? && reader.value.contentHash == digest then reader else None
  }

  function ReaderOf(readers: map<string, Reader>, ref: string): Option<Reader> {
    if ref in readers then Some(readers[ref]) else None
  }

  /** Why a delivered body is shown once more. */
  function ReasonToShow(records: seq<Record>, base: seq<Record>, readers: map<string, Reader>, r: Record,
                        hash: Hash): Option<Reason>
  {
    if !Delivered(base, r.ref, hash(r), hash) then None
    else if Count(records, r.ref) > 1 then Some(DuplicateCurrentRef)
    else if Count(base, r.ref) > 1 then Some(DuplicateBaselineRef)
    else if r.ref !in readers then Some(MissingReader)
    else if readers[r.ref].contentHash != hash(r) then Some(ReaderHashMismatch)
    else None
  }

  predicate Shown(records: seq<Record>, base: seq<Record>, readers: map<string, Reader>, r: Record, hash: Hash) {
    !Delivered(base, r.ref, hash(r), hash) || ReasonToShow(records, base, readers, r, hash).Some?
  }

  /** The bodies among the first n records. */
  function Bodies(records: seq<Record>, base: seq<Record>, readers: map<string, Reader>, hash: Hash,
                  n: nat): (bodies: seq<Record>)
    requires n <= |records|
    ensures forall r | r in bodies :: r in records
  {
    if n == 0 then []
    else
      Bodies(records, base, readers, hash, n - 1)
      + (if Shown(records, base, readers, records[n - 1], hash) then [records[n - 1]] else [])
  }

  function EntryOf(r: Record, readers: map<string, Reader>, hash: Hash): Entry {
    Entry(r.ref, hash(r), r.status, r.state, Matched(ReaderOf(readers, r.ref), hash(r)))
  }

  function Index(records: seq<Record>, readers: map<string, Reader>, hash: Hash): (index: seq<Entry>)
    ensures |index| == |records|
  {
    seq(|records|, i requires 0 <= i < |records| => EntryOf(records[i], readers, hash))
  }

  function RetainedBodies(records: seq<Record>, base: seq<Record>, readers: map<string, Reader>, hash: Hash,
                          n: nat): seq<Retained>
    requires n <= |records|
  {
    if n == 0 then []
    else
      var r := records[n - 1];
      var reason := ReasonToShow(records, base, readers, r, hash);
      RetainedBodies(records, base, readers, hash, n - 1)
      + (if reason.Some? then [Retained(r.ref, hash(r), reason.value)] else [])
  }

  // ---- The counting loops

  /** `counts[ref] = counts.get(ref, 0) + 1` for every record. */
  method CountRefs(records: seq<Record>) returns (counts: map<string, nat>)
    ensures forall ref :: (if ref in counts then counts[ref] else 0) == Count(records, ref)
  {
    counts := map[];
    for i := 0 to |records|
      invariant forall ref :: (if ref in counts then counts[ref] else 0) == Count(records[..i], ref)
    {
      var ref := records[i].ref;
      assert records[..i + 1][..i] == records[..i];
      counts := counts[ref := (if ref in counts then counts[ref] else 0) + 1];
    }
    assert records[..|records|] == records;
  }

  predicate InTable(hashes: map<string, set<string>>, ref: string, digest: string) {
    ref in hashes && digest in hashes[ref]
  }

  ghost predicate TableOf(hashes: map<string, set<string>>, records: seq<Record>, hash: Hash) {
    forall ref, digest :: InTable(hashes, ref, digest) <==> Delivered(records, ref, digest, hash)
  }

  /** `hashes.setdefault(ref, set()).add(hash)` for every record. */
  method CollectHashes(records: seq<Record>, hash: Hash) returns (hashes: map<string, set<string>>)
    ensures TableOf(hashes, records, hash)
  {
    hide TableOf;
    hashes := map[];
    NothingInTable(hash);
    for i := 0 to |records|
      invariant TableOf(hashes, records[..i], hash)
    {
      var r := records[i];
      OneMoreInTable(hashes, records, i, hash);
      hashes := hashes[r.ref := (if r.ref in hashes then hashes[r.ref] else {}) + {hash(r)}];
    }
    assert records[..|records|] == records;
  }

  lemma NothingInTable(hash: Hash)
    ensures TableOf(map[], [], hash)
  {
  }

  lemma OneMoreInTable(hashes: map<string, set<string>>, records: seq<Record>, i: nat, hash: Hash)
    requires i < |records| && TableOf(hashes, records[..i], hash)
    ensures var r := records[i];
      TableOf(hashes[r.ref := (if r.ref in hashes then hashes[r.ref] else {}) + {hash(r)}], records[..i + 1], hash)
  {
    hide Delivered;
    var r := records[i];
    var more := hashes[r.ref := (if r.ref in hashes then hashes[r.ref] else {}) + {hash(r)}];
    forall ref, digest
      ensures InTable(more, ref, digest) <==> Delivered(records[..i + 1], ref, digest, hash)
    {
      OneMoreDelivered(records, i, ref, digest, hash);
      assert InTable(hashes, ref, digest) <==> Delivered(records[..i], ref, digest, hash);
    }
  }

  lemma OneMoreDelivered(records: seq<Record>, i: nat, ref: string, digest: string, hash: Hash)
    requires i < |records|
    ensures Delivered(records[..i + 1], ref, digest, hash)
       <==> Delivered(records[..i], ref, digest, hash) || (records[i].ref == ref && hash(records[i]) == digest)
  {
    assert records[..i + 1] == records[..i] + [records[i]];
  }

  /** `partition_batch_records` */
  method Partition(records: seq<Record>, baseline: Option<seq<Record>>, readers: map<string, Reader>, hash: Hash)
      returns (bodies: seq<Record>, index: seq<Entry>, retained: seq<Retained>)
    ensures bodies == Bodies(records, baseline.GetOr([]), readers, hash, |records|)
    ensures index == Index(records, readers, hash)
    ensures retained == RetainedBodies(records, baseline.GetOr([]), readers, hash, |records|)
  {
    hide Delivered, Count;
    var base := baseline.GetOr([]);
    var baseCounts := CountRefs(base);
    var baseHashes := CollectHashes(base, hash);
    var counts := CountRefs(records);
    bodies, index, retained := [], [], [];
    for n := 0 to |records|
      invariant bodies == Bodies(records, base, readers, hash, n)
      invariant index == Index(records, readers, hash)[..n]
      invariant retained == RetainedBodies(records, base, readers, hash, n)
    {
      var rec := records[n];
      var ref, digest := rec.ref, hash(rec);
      var reader := ReaderOf(readers, ref);
      var matched := Matched(reader, digest);
      index := index + [Entry(ref, digest, rec.status, rec.state, matched)];
      var delivered := InTable(baseHashes, ref, digest);
      var reason := None;
      if delivered {
        if (if ref in counts then counts[ref] else 0) > 1 {
          reason := Some(DuplicateCurrentRef);
        } else if (if ref in baseCounts then baseCounts[ref] else 0) > 1 {
          reason := Some(DuplicateBaselineRef);
        } else if reader.None? {
          reason := Some(MissingReader);
        } else if matched.None? {
          reason := Some(ReaderHashMismatch);
        }
      }
      assert reason == ReasonToShow(records, base, readers, rec, hash);
      if reason.Some? {
        retained := retained + [Retained(ref, digest, reason.value)];
      }
      if !delivered || reason.Some? {
        bodies := bodies + [rec];
      }
    }
  }

  // ---- What is left out, and what can be rebuilt

  lemma {:induction false} BodiesHoldTheShown(records: seq<Record>, base: seq<Record>, readers: map<string, Reader>,
                                              hash: Hash, n: nat, r: Record)
    requires n <= |records|
    ensures r in Bodies(records, base, readers, hash, n)
       <==> r in records[..n] && Shown(records, base, readers, r, hash)
  {
    hide Shown;
    if n > 0 {
      BodiesHoldTheShown(records, base, readers, hash, n - 1, r);
      assert records[..n] == records[..n - 1] + [records[n - 1]];
    }
  }

  lemma {:induction false} CountIsPositive(records: seq<Record>, r: Record)
    requires r in records
    ensures Count(records, r.ref) > 0
  {
    var last := |records| - 1;
    if records[last] != r {
      assert records == records[..last] + [records[last]];
      CountIsPositive(records[..last], r);
    }
  }

  /** A body is left out exactly when the very same record was delivered, its reference occurs once
      in both lists, and its reader names its hash. */
  lemma LeftOutExactly(records: seq<Record>, base: seq<Record>, readers: map<string, Reader>, hash: Hash, r: Record)
    requires Injective(hash) && r in records
    ensures r !in Bodies(records, base, readers, hash, |records|)
       <==> (r in base && Count(records, r.ref) == 1 && Count(base, r.ref) == 1
             && Matched(ReaderOf(readers, r.ref), hash(r)).Some?)
  {
    hide Count;
    BodiesHoldTheShown(records, base, readers, hash, |records|, r);
    assert records[..|records|] == records;
    CountIsPositive(records, r);
    if r in base {
      CountIsPositive(base, r);
      assert Delivered(base, r.ref, hash(r), hash);
    }
  }

  function FindByHash(records: seq<Record>, digest: string, hash: Hash): Option<Record> {
    if records == [] then None
    else if hash(records[0]) == digest then Some(records[0])
    else FindByHash(records[1..], digest, hash)
  }

  /** The records that an index names, looked up by hash in a store of bodies. */
  function Rebuilt(store: seq<Record>, index: seq<Entry>, hash: Hash): seq<Option<Record>> {
    seq(|index|, i requires 0 <= i < |index| => FindByHash(store, index[i].contentHash, hash))
  }

  function AllFound(records: seq<Record>): seq<Option<Record>> {
    seq(|records|, i requires 0 <= i < |records| => Some(records[i]))
  }

  lemma {:induction false} FoundByItsHash(store: seq<Record>, r: Record, hash: Hash)
    requires Injective(hash) && r in store
    ensures FindByHash(store, hash(r), hash) == Some(r)
  {
    if hash(store[0]) != hash(r) {
      assert r in store[1..];
      FoundByItsHash(store[1..], r, hash);
    }
  }

  /** Any store that has every record rebuilds the full ordered list from the index. */
  lemma StoreRebuilds(store: seq<Record>, records: seq<Record>, readers: map<string, Reader>, hash: Hash)
    requires Injective(hash) && forall r | r in records :: r in store
    ensures Rebuilt(store, Index(records, readers, hash), hash) == AllFound(records)
  {
    forall i | 0 <= i < |records|
      ensures FindByHash(store, hash(records[i]), hash) == Some(records[i])
    {
      FoundByItsHash(store, records[i], hash);
    }
  }

  /** The delta agrees with the full view: bodies, index and baseline alone give back the full
      ordered record list. */
  lemma DeltaRebuildsTheFullView(records: seq<Record>, base: seq<Record>, readers: map<string, Reader>, hash: Hash)
    requires Injective(hash)
    ensures var bodies := Bodies(records, base, readers, hash, |records|);
      Rebuilt(bodies + base, Index(records, readers, hash), hash) == AllFound(records)
  {
    var bodies := Bodies(records, base, readers, hash, |records|);
    forall r | r in records ensures r in bodies + base {
      LeftOutExactly(records, base, readers, hash, r);
    }
    StoreRebuilds(bodies + base, records, readers, hash);
  }
}
