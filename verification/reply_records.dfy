/** Newline-terminated records of a provider's output stream.

    `Split` is the plain whole-stream meaning; the incremental splitter keeps only a partial
    record and a discard flag.  `Advance` is one incremental step on a chunk. */
module ReplyRecords {
  newtype Byte = b: int | 0 <= b < 256

  type Bytes = seq<Byte>

  const LINE_END: Byte := 10

  const READ_MAX_BYTES: nat := 524288

  /** `bytes.split(b"\n")`: the terminated records and the unterminated last part. */
  datatype Parts = Parts(complete: seq<Bytes>, tail: Bytes)

  function Split(s: Bytes): Parts {
    if s == [] then Parts([], [])
    else
      var before, last := Split(s[..|s| - 1]), s[|s| - 1];
      if last == LINE_END then Parts(before.complete + [before.tail], [])
      else Parts(before.complete, before.tail + [last])
  }

  /** The newline-terminated records of a stream, in order. */
  function Complete(s: Bytes): seq<Bytes> {
    Split(s).complete
  }

  /** The bytes after the last newline. */
  function Tail(s: Bytes): Bytes {
    Split(s).tail
  }

  /** The records that are short enough to be looked at. */
  function Kept(records: seq<Bytes>): seq<Bytes> {
    if records == [] then []
    else (if |records[0]| <= READ_MAX_BYTES then [records[0]] else []) + Kept(records[1..])
  }

  /** The records of a whole stream that the preview accepts. */
  function Accepted(stream: Bytes): seq<Bytes> {
    Kept(Complete(stream))
  }

  /** What is kept of an unfinished record, and whether it is being skipped. */
  function Partial(stream: Bytes): Bytes {
    if |Tail(stream)| <= READ_MAX_BYTES then Tail(stream) else []
  }

  predicate Discarding(stream: Bytes) {
    |Tail(stream)| > READ_MAX_BYTES
  }

  function FindLineEnd(s: Bytes): (at: nat)
    ensures at <= |s|
    ensures forall i | 0 <= i < at :: s[i] != LINE_END
    ensures at < |s| ==> s[at] == LINE_END
  {
    if s == [] || s[0] == LINE_END then 0 else 1 + FindLineEnd(s[1..])
  }

  datatype Advanced = Advanced(records: seq<Bytes>, partial: Bytes, discard: bool)

  /** One chunk through the splitter: the records it accepts and the state it leaves. */
  function Advance(partial: Bytes, discard: bool, chunk: Bytes): Advanced {
    var at := FindLineEnd(chunk);
    if discard && at == |chunk| then Advanced([], partial, true)
    else
      var content := partial + (if discard then chunk[at + 1..] else chunk);
      Advanced(Kept(Complete(content)),
               if |Tail(content)| > READ_MAX_BYTES then [] else Tail(content),
               |Tail(content)| > READ_MAX_BYTES)
  }

  // ----- Splitting and concatenation ----------------------------------------------------

  predicate NoLineEnd(s: Bytes) {
    forall i | 0 <= i < |s| :: s[i] != LINE_END
  }

  function Terminated(records: seq<Bytes>): Bytes {
    if records == [] then []
    else Terminated(records[..|records| - 1]) + records[|records| - 1] + [LINE_END]
  }

  /** Splitting loses nothing: putting the newlines back gives the stream, and no part holds
      one, so the parts are the records of the stream. */
  lemma {:induction false} SplitIsExact(s: Bytes)
    ensures Terminated(Complete(s)) + Tail(s) == s
    ensures NoLineEnd(Tail(s)) && forall r | r in Complete(s) :: NoLineEnd(r)
  {
    if s != [] {
      var before, last := s[..|s| - 1], s[|s| - 1];
      SplitIsExact(before);
      assert s == before + [last];
      if last == LINE_END {
        assert Complete(s)[..|Complete(s)| - 1] == Complete(before);
      }
    }
  }

  lemma {:induction false} SplitWithoutLineEnd(s: Bytes)
    requires NoLineEnd(s)
    ensures Split(s) == Parts([], s)
  {
    if s != [] {
      SplitWithoutLineEnd(s[..|s| - 1]);
      assert s == s[..|s| - 1] + [s[|s| - 1]];
    }
  }

  lemma {:induction false} SplitOfConcatenation(a: Bytes, b: Bytes)
    ensures Complete(a + b) == Complete(a) + Complete(Tail(a) + b)
    ensures Tail(a + b) == Tail(Tail(a) + b)
  {
    if b == [] {
      SplitIsExact(a);
      SplitWithoutLineEnd(Tail(a));
      assert a + b == a && Tail(a) + b == Tail(a);
    } else {
      var before := b[..|b| - 1];
      SplitOfConcatenation(a, before);
      assert (a + b)[..|a + b| - 1] == a + before;
      assert (Tail(a) + b)[..|Tail(a) + b| - 1] == Tail(a) + before;
    }
  }

  lemma {:induction false} KeptOfConcatenation(a: seq<Bytes>, b: seq<Bytes>)
    ensures Kept(a + b) == Kept(a) + Kept(b)
  {
    if a == [] {
      assert a + b == b;
    } else {
      assert (a + b)[1..] == a[1..] + b;
      KeptOfConcatenation(a[1..], b);
    }
  }

  /** A chunk without a newline only lengthens the tail. */
  lemma UnfinishedChunk(stream: Bytes, chunk: Bytes)
    requires FindLineEnd(chunk) == |chunk|
    ensures Complete(stream + chunk) == Complete(stream)
    ensures Tail(stream + chunk) == Tail(stream) + chunk
  {
    SplitIsExact(stream);
    SplitOfConcatenation(stream, chunk);
    SplitWithoutLineEnd(Tail(stream) + chunk);
  }

  /** A chunk with a newline finishes the tail as one record. */
  lemma FinishedRecord(stream: Bytes, skipped: Bytes, rest: Bytes)
    requires NoLineEnd(skipped)
    ensures var next := stream + (skipped + [LINE_END] + rest);
      && Complete(next) == Complete(stream) + ([Tail(stream) + skipped] + Complete(rest))
      && Tail(next) == Tail(rest)
  {
    hide Split, NoLineEnd;
    var record := Tail(stream) + skipped;
    NoLineEndInRecord(stream, skipped);
    SplitOfConcatenation(stream, skipped + [LINE_END] + rest);
    assert Tail(stream) + (skipped + [LINE_END] + rest) == (record + [LINE_END]) + rest;
    SplitOfConcatenation(record + [LINE_END], rest);
    TerminatedRecord(record);
    assert [] + rest == rest;
  }

  lemma NoLineEndInRecord(stream: Bytes, skipped: Bytes)
    requires NoLineEnd(skipped)
    ensures NoLineEnd(Tail(stream) + skipped)
  {
    SplitIsExact(stream);
  }

  lemma TerminatedRecord(record: Bytes)
    requires NoLineEnd(record)
    ensures Split(record + [LINE_END]) == Parts([record], [])
  {
    SplitWithoutLineEnd(record);
    assert (record + [LINE_END])[..|record|] == record;
  }

  /** The step from `stream` to `stream + chunk`: the splitter accepts exactly the new records
      of acceptable length and leaves the state that belongs to the longer stream. */
  lemma AdvanceFollowsTheStream(stream: Bytes, chunk: Bytes)
    ensures var step := Advance(Partial(stream), Discarding(stream), chunk);
      && Accepted(stream + chunk) == Accepted(stream) + step.records
      && step.partial == Partial(stream + chunk)
      && step.discard == Discarding(stream + chunk)
  {
    hide Split, Complete, Tail, Kept;
    var at := FindLineEnd(chunk);
    if !Discarding(stream) {
      SplitOfConcatenation(stream, chunk);
      KeptOfConcatenation(Complete(stream), Complete(Tail(stream) + chunk));
    } else if at == |chunk| {
      UnfinishedChunk(stream, chunk);
      assert Accepted(stream) + [] == Accepted(stream);
    } else {
      var skipped, rest := chunk[..at], chunk[at + 1..];
      assert chunk == skipped + [LINE_END] + rest;
      FinishedRecord(stream, skipped, rest);
      var long := [Tail(stream) + skipped];
      KeptOfConcatenation(Complete(stream), long + Complete(rest));
      KeptOfConcatenation(long, Complete(rest));
      OversizedRecordIsDropped(Tail(stream) + skipped);
      assert [] + rest == rest;
    }
  }

  lemma OversizedRecordIsDropped(record: Bytes)
    requires |record| > READ_MAX_BYTES
    ensures Kept([record]) == []
  {
    assert [record][1..] == [];
  }

  /** The accepted records are those of at most 512 KiB, each once and in order. */
  lemma {:induction false} KeptAreTheShort(records: seq<Bytes>) returns (places: seq<nat>)
    ensures |places| == |Kept(records)|
    ensures forall i, j | 0 <= i < j < |places| :: places[i] < places[j]
    ensures forall i | 0 <= i < |places| :: places[i] < |records| && Kept(records)[i] == records[places[i]]
    ensures forall k | 0 <= k < |records| :: k in places <==> |records[k]| <= 512 * 1024
  {
    if records == [] {
      places := [];
    } else {
      var last := |records| - 1;
      var before := records[..last];
      places := KeptAreTheShort(before);
      assert records == before + [records[last]];
      KeptOfConcatenation(before, [records[last]]);
      KeptOfOne(records[last]);
      hide Kept;
      assert forall k | k in places :: k < last;
      if |records[last]| <= READ_MAX_BYTES {
        places := places + [last];
      }
    }
  }

  lemma KeptOfOne(record: Bytes)
    ensures Kept([record]) == if |record| <= READ_MAX_BYTES then [record] else []
  {
    assert [record][1..] == [];
  }

  // ----- Any way of cutting a stream into chunks ----------------------------------------

  function Flat(chunks: seq<Bytes>): Bytes {
    if chunks == [] then [] else Flat(chunks[..|chunks| - 1]) + chunks[|chunks| - 1]
  }

  /** The splitter run over chunks, from its initial state. */
  function Fed(chunks: seq<Bytes>): Advanced {
    if chunks == [] then Advanced([], [], false)
    else
      var before := Fed(chunks[..|chunks| - 1]);
      var step := Advance(before.partial, before.discard, chunks[|chunks| - 1]);
      Advanced(before.records + step.records, step.partial, step.discard)
  }

  /** However a stream is cut, the splitter accepts exactly its terminated records of
      acceptable length, in order, and ends in the state of the stream fed in one piece. */
  lemma {:induction false} CuttingDoesNotMatter(chunks: seq<Bytes>)
    ensures Fed(chunks) == Advanced(Accepted(Flat(chunks)), Partial(Flat(chunks)), Discarding(Flat(chunks)))
    ensures Fed(chunks) == Fed([Flat(chunks)])
    ensures |Fed(chunks).partial| <= READ_MAX_BYTES && (Fed(chunks).discard ==> Fed(chunks).partial == [])
  {
    FedIsOfTheStream(chunks);
    FedIsOfTheStream([Flat(chunks)]);
    assert [Flat(chunks)][..0] == [];
    assert Flat([Flat(chunks)]) == Flat([]) + Flat(chunks) == Flat(chunks);
  }

  lemma {:induction false} FedIsOfTheStream(chunks: seq<Bytes>)
    ensures Fed(chunks) == Advanced(Accepted(Flat(chunks)), Partial(Flat(chunks)), Discarding(Flat(chunks)))
  {
    hide Advance;
    if chunks != [] {
      var before := chunks[..|chunks| - 1];
      FedIsOfTheStream(before);
      AdvanceFollowsTheStream(Flat(before), chunks[|chunks| - 1]);
    }
  }
}
