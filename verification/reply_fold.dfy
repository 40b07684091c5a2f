/** What the records of a provider file leave in its reader: the fold of `consume` over chunks, also
    when accepting a record raises.  Parsing a record and decoding JSON inside an item text are
    parameters. */
module ReplyFolds {
  import opened Wrappers
  import opened ReplyRecords
  import P = ReplyPreview

  type RecordParser = Bytes -> P.Event

  datatype Parser = Parser(parse: RecordParser, decode: P.Decoder)

  // ----- Records ------------------------------------------------------------------------

  /** The events of accepted records, in order. */
  function EventsOf(records: seq<Bytes>, parse: RecordParser): (events: seq<P.Event>)
    ensures |events| == |records|
  {
    if records == [] then []
    else EventsOf(records[..|records| - 1], parse) + [parse(records[|records| - 1])]
  }

  /** The preview of records, computed in one go. */
  function RecordsPreview(records: seq<Bytes>, parser: Parser): P.Preview {
    P.PreviewOf(EventsOf(records, parser.parse), parser.decode)
  }

  /** Accepting one of the records raises. */
  predicate RecordsRaise(records: seq<Bytes>, parser: Parser) {
    P.SomeRaises(EventsOf(records, parser.parse), parser.decode)
  }

  function StreamPreview(stream: Bytes, parser: Parser): P.Preview {
    RecordsPreview(Accepted(stream), parser)
  }

  predicate StreamRaises(stream: Bytes, parser: Parser) {
    RecordsRaise(Accepted(stream), parser)
  }

  lemma OneMoreRecord(records: seq<Bytes>, record: Bytes, parser: Parser)
    ensures RecordsPreview(records + [record], parser)
         == P.Accept(RecordsPreview(records, parser), parser.parse(record), parser.decode)
    ensures RecordsRaise(records + [record], parser)
         <==> RecordsRaise(records, parser)
              || P.Raises(RecordsPreview(records, parser), parser.parse(record), parser.decode)
  {
    hide P.Accept, P.Raises;
    assert (records + [record])[..|records|] == records;
    var events := EventsOf(records, parser.parse);
    assert (events + [parser.parse(record)])[..|events|] == events;
  }

  /** What raised in the records of a stream raises in those of a longer one. */
  lemma {:induction false} MoreRecordsRaise(records: seq<Bytes>, more: seq<Bytes>, parser: Parser)
    requires RecordsRaise(records, parser)
    ensures RecordsRaise(records + more, parser)
  {
    hide RecordsRaise, RecordsPreview;
    if more == [] {
      assert records + more == records;
    } else {
      var last := |more| - 1;
      MoreRecordsRaise(records, more[..last], parser);
      OneMoreRecord(records + more[..last], more[last], parser);
      assert records + more[..last] + [more[last]] == records + more;
    }
  }

  /** What raised in a stream raises in the longer one. */
  lemma LongerStreamRaises(stream: Bytes, whole: Bytes, parser: Parser)
    requires stream <= whole && StreamRaises(stream, parser)
    ensures StreamRaises(whole, parser)
  {
    hide RecordsRaise;
    var content := whole[|stream|..];
    assert whole == stream + content;
    AdvanceFollowsTheStream(stream, content);
    MoreRecordsRaise(Accepted(stream), Accepted(whole)[|Accepted(stream)|..], parser);
    assert Accepted(stream) + Accepted(whole)[|Accepted(stream)|..] == Accepted(whole);
  }

  // ----- Chunks -------------------------------------------------------------------------

  /** The fields of a reader that `consume` changes. */
  datatype Fold = Fold(partial: Bytes, discard: bool, preview: P.Preview)

  const NOTHING := Fold([], false, P.EMPTY_PREVIEW)

  datatype Taken = Taken(preview: P.Preview, raised: bool)

  /** The loop over the finished records of a chunk: it ends at the first one that raises. */
  function TakeRecords(p: P.Preview, records: seq<Bytes>, parser: Parser): Taken
    decreases |records|
  {
    if records == [] then Taken(p, false)
    else
      var event := parser.parse(records[0]);
      if P.Raises(p, event, parser.decode) then Taken(P.AfterRaise(p, event, parser.decode), true)
      else TakeRecords(P.Accept(p, event, parser.decode), records[1..], parser)
  }

  datatype Consumed = Consumed(fold: Fold, raised: bool)

  /** `consume`: a chunk that raises leaves the unfinished record that was there before it. */
  function Consume(f: Fold, chunk: Bytes, parser: Parser): Consumed {
    var step := Advance(f.partial, f.discard, chunk);
    var taken := TakeRecords(f.preview, step.records, parser);
    if taken.raised then Consumed(Fold(f.partial, false, taken.preview), true)
    else Consumed(Fold(step.partial, step.discard, taken.preview), false)
  }

  /** `consume` over a whole stream; None where it raises. */
  function Folded(stream: Bytes, parser: Parser): Option<Fold> {
    var whole := Consume(NOTHING, stream, parser);
    if whole.raised then None else Some(whole.fold)
  }

  /** The splitter state and the preview of a stream. */
  function FoldOf(stream: Bytes, parser: Parser): Fold {
    Fold(Partial(stream), Discarding(stream), StreamPreview(stream, parser))
  }

  /** The preview stays bounded, whatever raises. */
  lemma {:induction false} TakingKeepsTheBound(p: P.Preview, records: seq<Bytes>, parser: Parser)
    requires P.WellFormed(p)
    ensures P.WellFormed(TakeRecords(p, records, parser).preview)
    decreases |records|
  {
    hide P.Raises, P.Accept, P.WellFormed;
    if records != [] {
      var event := parser.parse(records[0]);
      if P.Raises(p, event, parser.decode) {
        P.RaisingKeepsWellFormed(p, event, parser.decode);
      } else {
        P.AcceptKeepsWellFormed(p, event, parser.decode);
        TakingKeepsTheBound(P.Accept(p, event, parser.decode), records[1..], parser);
      }
    }
  }

  /** After records that did not raise, more of them are taken as the longer list is. */
  lemma {:induction false} TakingFollowsTheRecords(earlier: seq<Bytes>, records: seq<Bytes>, parser: Parser)
    requires !RecordsRaise(earlier, parser)
    ensures var taken := TakeRecords(RecordsPreview(earlier, parser), records, parser);
      && taken.raised == RecordsRaise(earlier + records, parser)
      && (!taken.raised ==> taken.preview == RecordsPreview(earlier + records, parser))
    decreases |records|
  {
    hide RecordsRaise, RecordsPreview, P.Raises, P.Accept, P.AfterRaise;
    if records == [] {
      assert earlier + records == earlier;
    } else {
      var one := earlier + [records[0]];
      assert earlier + records == one + records[1..];
      OneMoreRecord(earlier, records[0], parser);
      if RecordsRaise(one, parser) {
        MoreRecordsRaise(one, records[1..], parser);
      } else {
        TakingFollowsTheRecords(one, records[1..], parser);
      }
    }
  }

  /** One chunk after a stream that did not raise: it raises exactly when the longer stream does, and
      leaves the fold of the longer stream otherwise. */
  lemma ConsumeFollowsTheStream(stream: Bytes, chunk: Bytes, parser: Parser)
    requires !StreamRaises(stream, parser)
    ensures var c := Consume(FoldOf(stream, parser), chunk, parser);
      && c.raised == StreamRaises(stream + chunk, parser)
      && (!c.raised ==> c.fold == FoldOf(stream + chunk, parser))
  {
    hide RecordsRaise, RecordsPreview, TakeRecords, Advance, Partial, Discarding, Accepted;
    AdvanceFollowsTheStream(stream, chunk);
    TakingFollowsTheRecords(Accepted(stream), Advance(Partial(stream), Discarding(stream), chunk).records, parser);
  }

  /** The fold of a stream exists exactly when none of its records raises. */
  lemma FoldedUnlessRaising(stream: Bytes, parser: Parser)
    ensures Folded(stream, parser) == if StreamRaises(stream, parser) then None else Some(FoldOf(stream, parser))
  {
    hide Consume;
    assert FoldOf([], parser) == NOTHING && !StreamRaises([], parser);
    ConsumeFollowsTheStream([], stream, parser);
    assert [] + stream == stream;
  }
}
