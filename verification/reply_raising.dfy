/** A provider file that grows by a record on which `accept` raises: what is lost of it. */
module ReplyRaising {
  import opened Wrappers
  import opened ReplyRecords
  import opened ReplyFolds
  import opened ReplyCache
  import T = PythonText
  import P = ReplyPreview

  /** A plain message of one letter, with an identity of its own. */
  function Letter(letter: int, id: int): P.Event {
    P.ItemEvent(P.Item(true, P.NoChannel, P.NoChannel, P.NoRole, Some([letter]), Some([id])))
  }

  /** Records of one byte: the messages a, d and e, and one whose identity has no UTF-8. */
  function SampleParse(record: Bytes): P.Event {
    if record == [1] then Letter(0x61, 1)
    else if record == [2] then Letter(0x62, 0xD800)
    else if record == [4] then Letter(0x64, 4)
    else if record == [5] then Letter(0x65, 5)
    else P.Ignored
  }

  function Said(letter: int, id: int): P.Paragraph {
    P.Paragraph(P.Hashed([id]), [letter])
  }

  function OneSaid(): P.Preview {
    P.Preview([Said(0x61, 1)], [])
  }

  function TwoSaid(): P.Preview {
    P.Preview([Said(0x61, 1), Said(0x64, 4)], [])
  }

  // ----- What the records do ------------------------------------------------------------

  lemma PlainAnswer(letter: int, decode: P.Decoder)
    requires 0x61 <= letter <= 0x7A
    ensures P.AnswerOf([letter], decode) == P.Answer(false, [letter]) && !P.AnswerRaises([letter], decode)
  {
    assert P.SkipSpaces([letter], 0) == 0 && [letter][0..] == [letter];
    assert P.Unfenced([letter]) == [letter];
  }

  lemma PlainLetter(p: P.Preview, letter: int, id: int, decode: P.Decoder)
    requires p.reply == [] && 0x61 <= letter <= 0x7A
    ensures P.Raises(p, Letter(letter, id), decode) <==> T.Surrogate(id)
    ensures T.Surrogate(id) ==> P.AfterRaise(p, Letter(letter, id), decode) == p
    ensures P.Accept(p, Letter(letter, id), decode)
         == P.AcceptAnswer(p, Letter(letter, id).item, P.Answer(false, [letter]))
  {
    hide P.AnswerOf, P.AnswerRaises, P.AcceptAnswer;
    PlainAnswer(letter, decode);
    assert [id][0] == id;
    assert letter in [letter];
  }

  lemma FirstLetterIsShown(decode: P.Decoder)
    ensures P.Accept(P.EMPTY_PREVIEW, Letter(0x61, 1), decode) == OneSaid()
  {
    hide P.Accept;
    PlainLetter(P.EMPTY_PREVIEW, 0x61, 1, decode);
  }

  lemma SecondLetterIsShown(decode: P.Decoder)
    ensures P.Accept(OneSaid(), Letter(0x64, 4), decode) == TwoSaid()
  {
    hide P.Accept;
    PlainLetter(OneSaid(), 0x64, 4, decode);
    var one, key := OneSaid().paragraphs, P.Hashed([4]);
    assert one[1..] == [] && [1][0] != [4][0];
    assert P.Lookup(one, key) == None && P.Used(one) == 1;
    assert P.Put(one, key, [0x64]) == TwoSaid().paragraphs;
  }

  lemma RepeatedLetterChangesNothing(decode: P.Decoder)
    ensures P.Accept(TwoSaid(), Letter(0x64, 4), decode) == TwoSaid()
  {
    hide P.Accept;
    PlainLetter(TwoSaid(), 0x64, 4, decode);
    var two, key := TwoSaid().paragraphs, P.Hashed([4]);
    assert two[1..] == [Said(0x64, 4)] && [1][0] != [4][0];
    assert P.Lookup(two, key) == Some([0x64]);
  }

  // ----- What the chunks do -------------------------------------------------------------

  const FIRST: Bytes := [1, 10, 4]
  const SECOND: Bytes := [1, 10, 4, 10, 2, 10, 5]
  const THIRD: Bytes := [1, 10, 4, 10, 2, 10, 5, 10]

  lemma FirstChunk()
    ensures Advance([], false, [1, 10, 4]) == Advanced([[1]], [4], false)
  {
    assert [1, 10, 4][..2] == [1, 10] && [1, 10][..1] == [1] && [1][..0] == [];
    assert Split([1]) == Parts([], [1]) && Split([1, 10]) == Parts([[1]], []);
    assert [] + [1, 10, 4] == [1, 10, 4] && Split([1, 10, 4]) == Parts([[1]], [4]);
    assert [[1]][1..] == [];
  }

  lemma SecondRecords()
    ensures Split([4, 10, 2, 10, 5]) == Parts([[4], [2]], [5])
  {
    assert [4, 10, 2, 10, 5][..4] == [4, 10, 2, 10] && [4, 10, 2, 10][..3] == [4, 10, 2];
    assert [4, 10, 2][..2] == [4, 10] && [4, 10][..1] == [4] && [4][..0] == [];
    assert Split([4]) == Parts([], [4]) && Split([4, 10]) == Parts([[4]], []);
    assert Split([4, 10, 2]) == Parts([[4]], [2]);
  }

  lemma SecondChunk()
    ensures Advance([4], false, [10, 2, 10, 5]) == Advanced([[4], [2]], [5], false)
  {
    hide Split;
    SecondRecords();
    assert [4] + [10, 2, 10, 5] == [4, 10, 2, 10, 5];
    assert [[4], [2]][1..] == [[2]] && [[2]][1..] == [];
  }

  lemma ThirdChunk()
    ensures Advance([4], false, [10]) == Advanced([[4]], [], false)
  {
    assert [4] + [10] == [4, 10] && [4, 10][..1] == [4] && [4][..0] == [];
    assert Split([4]) == Parts([], [4]) && Split([4, 10]) == Parts([[4]], []);
    assert [[4]][1..] == [];
  }

  function SampleParser(decode: P.Decoder): Parser {
    Parser(SampleParse, decode)
  }

  lemma FirstIsConsumed(decode: P.Decoder)
    ensures Consume(NOTHING, FIRST, SampleParser(decode)) == Consumed(Fold([4], false, OneSaid()), false)
  {
    hide P.Accept, P.Raises, Advance, OneSaid;
    FirstChunk();
    PlainLetter(P.EMPTY_PREVIEW, 0x61, 1, decode);
    FirstLetterIsShown(decode);
    assert [[1]][0] == [1] && [[1]][1..] == [];
  }

  /** The message d is shown, the next record raises, and the unfinished record stays that of before. */
  lemma SecondRaises(decode: P.Decoder)
    ensures Consume(Fold([4], false, OneSaid()), [10, 2, 10, 5], SampleParser(decode))
         == Consumed(Fold([4], false, TwoSaid()), true)
  {
    hide P.Accept, P.Raises, Advance, P.AfterRaise, TakeRecords;
    SecondChunk();
    PlainLetter(OneSaid(), 0x64, 4, decode);
    SecondLetterIsShown(decode);
    PlainLetter(TwoSaid(), 0x62, 0xD800, decode);
    TakesTwo(decode);
  }

  lemma TakesTwo(decode: P.Decoder)
    requires !P.Raises(OneSaid(), Letter(0x64, 4), decode) && P.Raises(TwoSaid(), Letter(0x62, 0xD800), decode)
    requires P.Accept(OneSaid(), Letter(0x64, 4), decode) == TwoSaid()
    requires P.AfterRaise(TwoSaid(), Letter(0x62, 0xD800), decode) == TwoSaid()
    ensures TakeRecords(OneSaid(), [[4], [2]], SampleParser(decode)) == Taken(TwoSaid(), true)
  {
    hide P.Accept, P.Raises, P.AfterRaise;
    assert [[4], [2]][1..] == [[2]];
    assert [4][0] != [1][0] && [4][0] != [2][0] && [2][0] != [1][0];
    assert SampleParse([4]) == Letter(0x64, 4) && SampleParse([2]) == Letter(0x62, 0xD800);
  }

  /** The next bytes are joined to the stale record: d is taken once more, and e never. */
  lemma ThirdJoinsTheStaleRecord(decode: P.Decoder)
    ensures Consume(Fold([4], false, TwoSaid()), [10], SampleParser(decode))
         == Consumed(Fold([], false, TwoSaid()), false)
  {
    hide P.Accept, P.Raises, Advance, TwoSaid;
    ThirdChunk();
    assert TwoSaid().reply == [] by {
      TwoHasNoReply();
    }
    PlainLetter(TwoSaid(), 0x64, 4, decode);
    RepeatedLetterChangesNothing(decode);
    assert [[4]][1..] == [] && [4][0] != [1][0] && [4][0] != [2][0];
    assert SampleParse([4]) == Letter(0x64, 4);
  }

  lemma TwoHasNoReply()
    ensures TwoSaid().reply == []
  {
  }

  // ----- What the looks do --------------------------------------------------------------

  function LookWhen(content: Bytes, modified: int): Look {
    Opened(0, |content|, modified, content)
  }

  function AfterFirst(): Cached {
    Cached(0, FIRST, 3, 1, Fold([4], false, OneSaid()))
  }

  function AfterSecond(): Cached {
    Cached(0, SECOND, 3, 1, Fold([4], false, TwoSaid()))
  }

  function AfterThird(): Cached {
    Cached(0, THIRD, 8, 3, Fold([], false, TwoSaid()))
  }

  lemma FirstLook(decode: P.Decoder)
    ensures var o := Observe(None, LookWhen(FIRST, 1), SampleParser(decode));
      !o.raised && o.cached == AfterFirst()
  {
    hide Consume, OneSaid;
    FirstIsConsumed(decode);
    assert FIRST[0..] == FIRST && [] + FIRST == FIRST;
  }

  lemma SecondLook(decode: P.Decoder)
    ensures var look := LookWhen(SECOND, 2);
      var o := Observe(Some(AfterFirst()), look, SampleParser(decode));
      o.raised && o.cached == AfterSecond() && InPlace(Some(AfterFirst()), look)
  {
    hide Consume, OneSaid, TwoSaid, Rechecked, FoundAnchor;
    var look := LookWhen(SECOND, 2);
    SecondRaises(decode);
    assert SECOND[3..] == [10, 2, 10, 5] && SECOND[..3] == FIRST && FIRST + [10, 2, 10, 5] == SECOND;
    ObserveFollowsTheFile(Some(AfterFirst()), look, SampleParser(decode));
  }

  lemma ThirdLook(decode: P.Decoder)
    ensures var o := Observe(Some(AfterSecond()), LookWhen(THIRD, 3), SampleParser(decode));
      !o.raised && o.cached == AfterThird()
  {
    hide Consume, TwoSaid, Rechecked, FoundAnchor;
    var look := LookWhen(THIRD, 3);
    ThirdJoinsTheStaleRecord(decode);
    assert THIRD[7..] == [10] && THIRD[..7] == SECOND && SECOND + [10] == THIRD;
    ObserveFollowsTheFile(Some(AfterSecond()), look, SampleParser(decode));
  }

  // ----- The run ------------------------------------------------------------------------

  const FILE := "stdout.jsonl"

  /** The file is appended to and looked at three times. */
  function ThreeLooks(): seq<Event> {
    [Append(FILE, FIRST), LookAt(FILE, 3, 1), Append(FILE, [10, 2, 10, 5]), LookAt(FILE, 7, 2), Append(FILE, [10]),
     LookAt(FILE, 8, 3)]
  }

  lemma OneMoreEvent(w: World, events: seq<Event>, n: nat, identities: string -> int, parser: Parser)
    requires n < |events|
    ensures Run(w, events[..n + 1], identities, parser)
         == Happen(Run(w, events[..n], identities, parser), events[n], identities, parser)
  {
    hide Happen;
    assert events[..n + 1][..n] == events[..n];
  }

  /** The file holds this content, and this reader is cached for it. */
  ghost predicate Stands(w: World, content: Bytes, reader: Option<Cached>) {
    w.Content(FILE) == content && w.cache.Get(FILE) == reader && CacheValid(w.cache)
  }

  /** One append and the look that follows it. */
  lemma Round(w: World, events: seq<Event>, n: nat, content: Bytes, bytes: Bytes, reader: Option<Cached>,
              modified: int, identities: string -> int, parser: Parser)
    requires n + 2 <= |events| && identities(FILE) == 0
    requires events[n] == Append(FILE, bytes) && events[n + 1] == LookAt(FILE, |content + bytes|, modified)
    requires Stands(Run(w, events[..n], identities, parser), content, reader)
    ensures Stands(Run(w, events[..n + 2], identities, parser), content + bytes,
                   After(reader, LookWhen(content + bytes, modified), parser))
  {
    hide Step, After, CacheValid, Run;
    OneMoreEvent(w, events, n, identities, parser);
    OneMoreEvent(w, events, n + 1, identities, parser);
    var appended := Run(w, events[..n + 1], identities, parser);
    StepKeepsTheBound(appended.cache, FILE, LookWhen(content + bytes, modified), parser);
  }

  const START := World(map[], EMPTY_CACHE)

  lemma RunToFirst(identities: string -> int, decode: P.Decoder)
    requires identities(FILE) == 0
    ensures Stands(Run(START, ThreeLooks()[..2], identities, SampleParser(decode)), FIRST, Some(AfterFirst()))
  {
    hide Observe, AfterFirst;
    var events, parser := ThreeLooks(), SampleParser(decode);
    assert events[..0] == [] && [] + FIRST == FIRST;
    FirstLook(decode);
    Round(START, events, 0, [], FIRST, None, 1, identities, parser);
  }

  lemma RunToSecond(identities: string -> int, decode: P.Decoder)
    requires identities(FILE) == 0
    requires Stands(Run(START, ThreeLooks()[..2], identities, SampleParser(decode)), FIRST, Some(AfterFirst()))
    ensures Stands(Run(START, ThreeLooks()[..4], identities, SampleParser(decode)), SECOND, Some(AfterSecond()))
  {
    hide Run, Stands, Observe, AfterFirst, AfterSecond, InPlace;
    assert FIRST + [10, 2, 10, 5] == SECOND;
    SecondLook(decode);
    Round(START, ThreeLooks(), 2, FIRST, [10, 2, 10, 5], Some(AfterFirst()), 2, identities, SampleParser(decode));
  }

  lemma RunToThird(identities: string -> int, decode: P.Decoder)
    requires identities(FILE) == 0
    requires Stands(Run(START, ThreeLooks()[..4], identities, SampleParser(decode)), SECOND, Some(AfterSecond()))
    ensures Stands(Run(START, ThreeLooks()[..6], identities, SampleParser(decode)), THIRD, Some(AfterThird()))
  {
    hide Run, Stands, Observe, AfterSecond, AfterThird, InPlace;
    assert SECOND + [10] == THIRD;
    ThirdLook(decode);
    Round(START, ThreeLooks(), 4, SECOND, [10], Some(AfterSecond()), 3, identities, SampleParser(decode));
  }

  lemma LastRecordIsComplete()
    ensures [5] in Accepted(THIRD)
  {
    assert THIRD[..7] == SECOND && SECOND[..6] == [1, 10, 4, 10, 2, 10];
    var records := Complete(SECOND);
    assert Split(SECOND) == Parts(records, [5]);
    assert Split(THIRD) == Parts(records + [[5]], []);
    KeptOfConcatenation(records, [[5]]);
    assert [[5]][1..] == [] && Kept([[5]]) == [[5]];
  }

  /** In this run the second look raises and the third does not: the whole file is read by then, and e,
      whose record is complete, is not in the text and never will be.  The reader is not the fold of
      its bytes. */
  lemma RaisedRecordsAreLost(identities: string -> int, decode: P.Decoder)
    requires identities(FILE) == 0
    ensures var parser := SampleParser(decode);
      var reader := Run(START, ThreeLooks(), identities, parser).cache.Get(FILE);
      && reader.Some? && reader.value.seen == THIRD
      && reader.value.fold.preview.Text() == [0x61, 0x0A, 0x0A, 0x64]
      && [5] in Accepted(THIRD) && SampleParse([5]) == Letter(0x65, 5)
      && !IsTheFold(reader.value, parser)
  {
    hide Run, CacheValid, StreamRaises, Consume, Observe, TwoSaid;
    var parser := SampleParser(decode);
    assert ThreeLooks()[..6] == ThreeLooks();
    RunToFirst(identities, decode);
    RunToSecond(identities, decode);
    RunToThird(identities, decode);
    LastRecordIsComplete();
    ThirdRaises(decode);
    FoldedUnlessRaising(THIRD, parser);
    TwoSaidText();
    assert [5][0] != [1][0] && [5][0] != [2][0] && [5][0] != [4][0];
  }

  lemma TwoSaidText()
    ensures TwoSaid().Text() == [0x61, 0x0A, 0x0A, 0x64]
  {
    assert TwoSaid().paragraphs[1..] == [Said(0x64, 4)];
  }

  lemma ThirdRaises(decode: P.Decoder)
    ensures StreamRaises(THIRD, SampleParser(decode))
  {
    hide StreamRaises, Consume, OneSaid, TwoSaid, Folded, Observe, Accepted;
    var parser := SampleParser(decode);
    FirstIsConsumed(decode);
    SecondRaises(decode);
    FoldedUnlessRaising(FIRST, parser);
    assert Folded(FIRST, parser) == Some(Fold([4], false, OneSaid())) by {
      FirstFolded(decode);
    }
    ConsumeFollowsTheStream(FIRST, [10, 2, 10, 5], parser);
    assert FIRST + [10, 2, 10, 5] == SECOND && SECOND <= THIRD;
    LongerStreamRaises(SECOND, THIRD, parser);
  }

  lemma FirstFolded(decode: P.Decoder)
    ensures Folded(FIRST, SampleParser(decode)) == Some(Fold([4], false, OneSaid()))
  {
    hide Consume, OneSaid;
    FirstIsConsumed(decode);
  }
}
