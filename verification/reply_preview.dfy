/** The bounded paragraph table behind a reply preview: what one provider event does to it.

    A record has already been parsed; `Event` keeps exactly what the preview looks at.  SHA-256
    of an item identity is modelled as an injective key. */
module ReplyPreview {
  import opened Wrappers
  import opened PythonText
  import opened ReplyString

  // ----- Events -------------------------------------------------------------------------

  datatype Channel = NoChannel | Commentary | Final | FinalAnswer | Unlisted

  datatype Role = NoRole | Assistant | OtherRole

  datatype Key = TerminalReply | Hashed(identity: Text)

  /** An item of a provider event; `text` and `id` are None unless they are strings. */
  datatype Item = Item(agentMessage: bool, phase: Channel, channel: Channel, role: Role,
                       text: Option<Text>, id: Option<Text>)
  {
    predicate Visible() {
      agentMessage && phase != Unlisted && channel != Unlisted && role != OtherRole && text.Some?
    }

    predicate IsFinal() {
      phase == Final || phase == FinalAnswer || channel == Final || channel == FinalAnswer
    }

    function Identity(): Key
      requires text.Some?
    {
      Hashed(if id.Some? then id.value else text.value)
    }
  }

  /** `Ignored` covers unparsable records, other event types and items that are no object; `Faulty`
      is a record whose type, phase, channel or role cannot be looked up in a set. */
  datatype Event = Ignored | TurnCompleted | ItemEvent(item: Item) | Faulty

  // ----- The answer inside an item text -------------------------------------------------

  datatype Token = StringToken(text: Text) | OtherToken

  ghost predicate Advances(decode: (Text, nat) -> Option<(Token, nat)>) {
    forall s: Text, c: nat | decode(s, c).Some? :: c < decode(s, c).value.1 <= |s|
  }

  /** `JSONDecoder.raw_decode`: the value that starts at a cursor and the cursor after it, or
      None where it raises. */
  type Decoder = f: (Text, nat) -> Option<(Token, nat)> | Advances(f) witness (s, c) => None

  function SkipSpaces(source: Text, cursor: nat): (next: nat)
    requires cursor <= |source|
    ensures cursor <= next <= |source|
    decreases |source| - cursor
  {
    if cursor < |source| && SpacePoint(source[cursor]) then SkipSpaces(source, cursor + 1) else cursor
  }

  function LeftStrip(source: Text): Text {
    source[SkipSpaces(source, 0)..]
  }

  function RightStrip(source: Text): Text {
    if source != [] && SpacePoint(source[|source| - 1]) then RightStrip(source[..|source| - 1]) else source
  }

  function Lower(source: Text): Text {
    seq(|source|, i requires 0 <= i < |source| =>
      if 0x41 <= source[i] <= 0x5A then source[i] + 0x20 else source[i])
  }

  const NEWLINE: CodePoint := 0x0A
  const COLON: CodePoint := 0x3A
  const COMMA: CodePoint := 0x2C
  const OPEN_BRACE: CodePoint := 0x7B
  const OPEN_BRACKET: CodePoint := 0x5B
  const FENCE: Text := [0x60, 0x60, 0x60]
  const JSON_FENCE: Text := [0x60, 0x60, 0x60, 0x6A, 0x73, 0x6F, 0x6E]
  const REPLY_KEY: Text := [0x72, 0x65, 0x70, 0x6C, 0x79]

  function FirstNewline(source: Text): (at: nat)
    ensures at <= |source|
    ensures at < |source| ==> source[at] == NEWLINE
  {
    if source == [] || source[0] == NEWLINE then 0 else 1 + FirstNewline(source[1..])
  }

  predicate StartsWithBrace(source: Text) {
    source != [] && source[0] == OPEN_BRACE
  }

  predicate StartsStructure(source: Text) {
    source != [] && (source[0] == OPEN_BRACE || source[0] == OPEN_BRACKET)
  }

  /** The text without its Markdown fence. */
  function Unfenced(text: Text): Text {
    var source := LeftStrip(text);
    if !(FENCE <= source) then source
    else
      var at := FirstNewline(source);
      var opening := RightStrip(LeftStrip(source[..at]));
      var body := if at < |source| then source[at + 1..] else [];
      if Lower(opening) == JSON_FENCE then
        if at < |source| then LeftStrip(body) else [OPEN_BRACE]
      else if opening == FENCE && StartsStructure(LeftStrip(body)) then LeftStrip(body)
      else source
  }

  /** Walks top-level properties from `cursor`: where the value of the first one named `reply` starts. */
  function ReplyStart(source: Text, cursor: nat, decode: Decoder): (start: Option<nat>)
    requires cursor <= |source|
    decreases |source| - cursor
  {
    var key := decode(source, SkipSpaces(source, cursor));
    if cursor == |source| || key.None? || key.value.0.OtherToken? then None
    else
      var colon := SkipSpaces(source, key.value.1);
      if colon == |source| || source[colon] != COLON then None
      else
        var start := SkipSpaces(source, colon + 1);
        if key.value.0.text == REPLY_KEY then Some(start)
        else
          var value := decode(source, start);
          if value.None? then None
          else
            var comma := SkipSpaces(source, value.value.1);
            if comma == |source| || source[comma] != COMMA then None
            else ReplyStart(source, comma + 1, decode)
  }

  function TopLevelReply(source: Text, decode: Decoder): (answer: Text)
    requires source != []
    ensures |answer| <= REPLY_MAX_LENGTH
  {
    var start := ReplyStart(source, 1, decode);
    if start.None? then [] else Prefix(source, start.value)
  }

  /** Decoding the top-level reply ends in a `ValueError`. */
  predicate TopLevelRaises(source: Text, decode: Decoder)
    requires source != []
  {
    var start := ReplyStart(source, 1, decode);
    start.Some? && PrefixRaises(source, start.value)
  }

  datatype Answer = Answer(structured: bool, text: Text)

  function AnswerOf(text: Text, decode: Decoder): (answer: Answer)
    ensures |answer.text| <= REPLY_MAX_LENGTH
  {
    var source := Unfenced(text);
    if !StartsStructure(source) then
      Answer(false, if |text| <= REPLY_MAX_LENGTH then text else text[..REPLY_MAX_LENGTH])
    else if !StartsWithBrace(source) then Answer(true, [])
    else Answer(true, TopLevelReply(source, decode))
  }

  /** `_answer_text` raises a `ValueError`. */
  predicate AnswerRaises(text: Text, decode: Decoder) {
    var source := Unfenced(text);
    StartsWithBrace(source) && TopLevelRaises(source, decode)
  }

  /** The loop of `_answer_text`. */
  method ReadTopLevelReply(source: Text, decode: Decoder) returns (answer: Text, raised: bool)
    requires StartsWithBrace(source)
    ensures raised == TopLevelRaises(source, decode)
    ensures !raised ==> answer == TopLevelReply(source, decode)
  {
    hide SkipSpaces, Prefix, PrefixRaises, SpacePoint;
    answer, raised := [], false;
    var cursor := 1;
    while cursor < |source|
      invariant cursor <= |source|
      invariant ReplyStart(source, cursor, decode) == ReplyStart(source, 1, decode)
      decreases |source| - cursor
    {
      var key := decode(source, SkipSpaces(source, cursor));
      if key.None? || key.value.0.OtherToken? {
        return;
      }
      cursor := SkipSpaces(source, key.value.1);
      if cursor == |source| || source[cursor] != COLON {
        return;
      }
      cursor := SkipSpaces(source, cursor + 1);
      if key.value.0.text == REPLY_KEY {
        answer, raised := StringPrefix(source, cursor);
        return;
      }
      var value := decode(source, cursor);
      if value.None? {
        return;
      }
      cursor := SkipSpaces(source, value.value.1);
      if cursor == |source| || source[cursor] != COMMA {
        return;
      }
      cursor := cursor + 1;
    }
  }

  // ----- The paragraph table ------------------------------------------------------------

  datatype Paragraph = Paragraph(key: Key, text: Text)

  /** A Python dictionary in insertion order. */
  type Table = seq<Paragraph>

  predicate DistinctKeys(t: Table) {
    forall i, j | 0 <= i < j < |t| :: t[i].key != t[j].key
  }

  function Lookup(t: Table, key: Key): (text: Option<Text>)
    ensures text.Some? ==> exists i | 0 <= i < |t| :: t[i] == Paragraph(key, text.value)
    ensures text.None? ==> forall i | 0 <= i < |t| :: t[i].key != key
  {
    if t == [] then None
    else if t[0].key == key then Some(t[0].text)
    else Lookup(t[1..], key)
  }

  function Put(t: Table, key: Key, text: Text): (t': Table)
    ensures DistinctKeys(t) ==> DistinctKeys(t')
    ensures forall q | q in t' :: q in t || q == Paragraph(key, text)
    ensures forall i | 0 <= i < |t'| :: t'[i].key == key || exists j | 0 <= j < |t| :: t[j].key == t'[i].key
  {
    if t == [] then [Paragraph(key, text)]
    else if t[0].key == key then [Paragraph(key, text)] + t[1..]
    else [t[0]] + Put(t[1..], key, text)
  }

  const SEPARATOR: Text := [NEWLINE, NEWLINE]

  function Joined(t: Table): Text {
    if t == [] then []
    else if |t| == 1 then t[0].text
    else t[0].text + SEPARATOR + Joined(t[1..])
  }

  function Used(t: Table): nat {
    if t == [] then 0 else |t[0].text| + Used(t[1..])
  }

  function Separators(t: Table): nat {
    if |t| <= 1 then 0 else (|t| - 1) * 2
  }

  function Clipped(text: Text, room: int): Text
    requires room > 0
  {
    if |text| <= room then text else text[..room]
  }

  /** Stores an answer in the room that is left; `previous` is the text it replaces. */
  function Store(t: Table, key: Key, previous: Option<Text>, answer: Text): Table {
    var used := Used(t) + Separators(t);
    var available := if previous.Some? then REPLY_MAX_LENGTH - used + |previous.value|
                     else REPLY_MAX_LENGTH - used - (if t == [] then 0 else 2);
    if available > 0 then Put(t, key, Clipped(answer, available)) else t
  }

  datatype Preview = Preview(paragraphs: Table, reply: Text)
  {
    function Text(): Text {
      Joined(paragraphs)
    }
  }

  const EMPTY_PREVIEW := Preview([], [])

  /** An answer that the preview looks at at all. */
  predicate Admitted(p: Preview, answer: Answer) {
    if answer.structured then answer.text != [] else p.reply == [] && !Blank(answer.text)
  }

  function AcceptAnswer(p: Preview, item: Item, answer: Answer): Preview
    requires item.text.Some? && Admitted(p, answer)
  {
    var table := if answer.structured && p.reply == [] then [] else p.paragraphs;
    var key := item.Identity();
    var previous := Lookup(table, key);
    if previous == Some(answer.text) then Preview(table, p.reply)
    else if !answer.structured then Preview(Store(table, key, previous, answer.text), p.reply)
    else if item.IsFinal() then Preview(Store([], key, None, answer.text), answer.text)
    else if previous.None? && Joined(table) != [] && answer.text <= Joined(table) then
      Preview(table, answer.text)
    else if previous.None? && Joined(table) != [] && Joined(table) <= answer.text then
      Preview(Store([], key, previous, answer.text), answer.text)
    else Preview(Store(table, key, previous, answer.text), answer.text)
  }

  /** What one event does to the preview. */
  function Accept(p: Preview, event: Event, decode: Decoder): Preview {
    match event
    case Ignored => p
    case Faulty => p
    case TurnCompleted =>
      if p.reply != [] then Preview([Paragraph(TerminalReply, p.reply)], p.reply) else p
    case ItemEvent(item) =>
      if !item.Visible() then p
      else
        var answer := AnswerOf(item.text.value, decode);
        if Admitted(p, answer) then AcceptAnswer(p, item, answer) else p
  }

  /** `accept` raises: for a failing lookup, a negative escape, or an identity that has no UTF-8. */
  predicate Raises(p: Preview, event: Event, decode: Decoder) {
    || event.Faulty?
    || (event.ItemEvent? && event.item.Visible()
        && (AnswerRaises(event.item.text.value, decode)
            || (Admitted(p, AnswerOf(event.item.text.value, decode))
                && HasSurrogate(event.item.Identity().identity))))
  }

  /** What `accept` leaves when it raises: the first structured answer has cleared the table by then. */
  function AfterRaise(p: Preview, event: Event, decode: Decoder): Preview
    requires Raises(p, event, decode)
  {
    if event.Faulty? || AnswerRaises(event.item.text.value, decode) then p
    else if AnswerOf(event.item.text.value, decode).structured && p.reply == [] then Preview([], p.reply)
    else p
  }

  predicate HasSurrogate(text: Text) {
    exists c | c in text :: Surrogate(c)
  }

  /** One of the events raises in its turn. */
  predicate SomeRaises(events: seq<Event>, decode: Decoder) {
    events != [] &&
    var before := events[..|events| - 1];
    SomeRaises(before, decode) || Raises(PreviewOf(before, decode), events[|events| - 1], decode)
  }

  function PreviewOf(events: seq<Event>, decode: Decoder): Preview {
    if events == [] then EMPTY_PREVIEW
    else Accept(PreviewOf(events[..|events| - 1], decode), events[|events| - 1], decode)
  }

  // ----- The bound ----------------------------------------------------------------------

  predicate WellFormed(p: Preview) {
    && DistinctKeys(p.paragraphs)
    && (forall q | q in p.paragraphs :: q.text != [])
    && |p.Text()| <= REPLY_MAX_LENGTH
    && |p.reply| <= REPLY_MAX_LENGTH
  }

  lemma {:induction false} JoinedLength(t: Table)
    ensures |Joined(t)| == Used(t) + Separators(t)
  {
    if |t| > 1 {
      JoinedLength(t[1..]);
    }
  }

  lemma {:induction false} UsedAfterPut(t: Table, key: Key, text: Text)
    ensures match Lookup(t, key)
      case None => Used(Put(t, key, text)) == Used(t) + |text| && |Put(t, key, text)| == |t| + 1
      case Some(was) => Used(Put(t, key, text)) == Used(t) - |was| + |text| && |Put(t, key, text)| == |t|
  {
    if t != [] {
      if t[0].key == key {
        assert Put(t, key, text)[1..] == t[1..];
      } else {
        UsedAfterPut(t[1..], key, text);
        assert Put(t, key, text)[1..] == Put(t[1..], key, text);
      }
    }
  }

  lemma StoreKeepsTheBound(t: Table, key: Key, answer: Text)
    requires DistinctKeys(t) && (forall q | q in t :: q.text != []) && |Joined(t)| <= REPLY_MAX_LENGTH
    requires answer != []
    ensures var t' := Store(t, key, Lookup(t, key), answer);
      DistinctKeys(t') && (forall q | q in t' :: q.text != []) && |Joined(t')| <= REPLY_MAX_LENGTH
  {
    JoinedLength(t);
    var t' := Store(t, key, Lookup(t, key), answer);
    JoinedLength(t');
    forall text { UsedAfterPut(t, key, text); }
  }

  lemma AcceptKeepsWellFormed(p: Preview, event: Event, decode: Decoder)
    requires WellFormed(p)
    ensures WellFormed(Accept(p, event, decode))
  {
    hide Store, Joined, AnswerOf;
    if event.TurnCompleted? {
      JoinedOne(TerminalReply, p.reply);
    } else if event.ItemEvent? && event.item.Visible() {
      var answer := AnswerOf(event.item.text.value, decode);
      if Admitted(p, answer) {
        JoinedNone();
        var key := event.item.Identity();
        if answer.text != [] {
          StoreKeepsTheBound([], key, answer.text);
          StoreKeepsTheBound(p.paragraphs, key, answer.text);
        }
      }
    }
  }

  lemma RaisingKeepsWellFormed(p: Preview, event: Event, decode: Decoder)
    requires WellFormed(p) && Raises(p, event, decode)
    ensures WellFormed(AfterRaise(p, event, decode))
  {
    hide AnswerOf, AnswerRaises, Joined;
    JoinedNone();
  }

  lemma JoinedNone()
    ensures Joined([]) == []
  {
  }

  lemma JoinedOne(key: Key, text: Text)
    ensures Joined([Paragraph(key, text)]) == text
  {
  }

  /** After any events the preview text, separators included, is within the cap, and no
      paragraph is empty. */
  lemma {:induction false} PreviewIsBounded(events: seq<Event>, decode: Decoder)
    ensures WellFormed(PreviewOf(events, decode))
  {
    if events != [] {
      PreviewIsBounded(events[..|events| - 1], decode);
      AcceptKeepsWellFormed(PreviewOf(events[..|events| - 1], decode), events[|events| - 1], decode);
    }
  }

  // ----- Which text the preview may show ------------------------------------------------

  /** The nonempty structured answer of a visible item, when the event carries one. */
  function StructuredAnswer(event: Event, decode: Decoder): Option<Text> {
    if event.ItemEvent? && event.item.Visible() then
      var answer := AnswerOf(event.item.text.value, decode);
      if answer.structured && answer.text != [] then Some(answer.text) else None
    else None
  }

  predicate StructuredSeen(events: seq<Event>, decode: Decoder) {
    exists e | e in events :: StructuredAnswer(e, decode).Some?
  }

  /** `text` is a prefix of a structured answer of one of the events. */
  ghost predicate FromStructured(text: Text, events: seq<Event>, decode: Decoder) {
    exists e | e in events :: StructuredAnswer(e, decode).Some? && text <= StructuredAnswer(e, decode).value
  }

  ghost predicate OnlyStructured(p: Preview, events: seq<Event>, decode: Decoder) {
    && FromStructured(p.reply, events, decode)
    && forall q | q in p.paragraphs :: FromStructured(q.text, events, decode)
  }

  lemma MoreEventsKeepOrigin(text: Text, events: seq<Event>, event: Event, decode: Decoder)
    ensures FromStructured(text, events, decode) ==> FromStructured(text, events + [event], decode)
  {
    hide StructuredAnswer;
    assert forall e | e in events :: e in events + [event];
  }

  /** Once a structured reply has been seen, every paragraph is a prefix of a structured answer:
      no unstructured text stays in the preview or enters it; before that the reply is empty. */
  lemma {:induction false} OnlyStructuredTextAfterAStructuredReply(events: seq<Event>, decode: Decoder)
    ensures var p := PreviewOf(events, decode);
      if StructuredSeen(events, decode) then p.reply != [] && OnlyStructured(p, events, decode)
      else p.reply == []
  {
    if events != [] {
      var before, event := events[..|events| - 1], events[|events| - 1];
      assert events == before + [event];
      OnlyStructuredTextAfterAStructuredReply(before, decode);
      AcceptKeepsOrigins(PreviewOf(before, decode), before, event, decode);
    }
  }

  lemma AcceptKeepsOrigins(p: Preview, before: seq<Event>, event: Event, decode: Decoder)
    requires if StructuredSeen(before, decode) then p.reply != [] && OnlyStructured(p, before, decode)
      else p.reply == []
    ensures var p' := Accept(p, event, decode);
      var events := before + [event];
      if StructuredSeen(events, decode) then p'.reply != [] && OnlyStructured(p', events, decode)
      else p'.reply == []
  {
    hide AnswerOf, Joined, FromStructured, StructuredSeen;
    var events := before + [event];
    var p' := Accept(p, event, decode);
    forall text { MoreEventsKeepOrigin(text, before, event, decode); }
    SeenWithOneMore(before, event, decode);
    assert event in events;
    var carried := StructuredAnswer(event, decode);
    if carried.Some? {
      forall text | text <= carried.value ensures FromStructured(text, events, decode) {
        PrefixOfCarriedAnswer(text, events, event, decode);
      }
    }
  }

  lemma SeenWithOneMore(before: seq<Event>, event: Event, decode: Decoder)
    ensures StructuredSeen(before + [event], decode)
       <==> StructuredSeen(before, decode) || StructuredAnswer(event, decode).Some?
  {
    hide StructuredAnswer;
    assert event in before + [event] && forall e | e in before :: e in before + [event];
  }

  lemma PrefixOfCarriedAnswer(text: Text, events: seq<Event>, event: Event, decode: Decoder)
    requires event in events && StructuredAnswer(event, decode).Some?
    requires text <= StructuredAnswer(event, decode).value
    ensures FromStructured(text, events, decode)
  {
  }

  // ----- What a completed turn leaves ---------------------------------------------------

  /** The item repeats a paragraph that is already in the table word for word while another
      reply came later: the event is skipped and the reply is not renewed. */
  predicate RepeatsOlderParagraph(p: Preview, event: Event, decode: Decoder) {
    && StructuredAnswer(event, decode).Some?
    && p.reply != []
    && p.reply != StructuredAnswer(event, decode).value
    && Lookup(p.paragraphs, event.item.Identity()) == StructuredAnswer(event, decode)
  }

  lemma {:induction false} ReplyWithoutStructuredAnswers(events: seq<Event>, later: seq<Event>, decode: Decoder)
    requires forall e | e in later :: StructuredAnswer(e, decode).None?
    ensures PreviewOf(events + later, decode).reply == PreviewOf(events, decode).reply
  {
    hide AnswerOf;
    if later == [] {
      assert events + later == events;
    } else {
      var shorter := later[..|later| - 1];
      ReplyWithoutStructuredAnswers(events, shorter, decode);
      assert (events + later)[..|events + later| - 1] == events + shorter;
      assert StructuredAnswer(later[|later| - 1], decode).None?;
    }
  }

  /** A completed turn leaves exactly the last structured reply if and only if that reply was
      not skipped as the repetition of an older paragraph when it arrived. */
  lemma CompletedTurnLeavesTheLastReply(events: seq<Event>, last: Event, later: seq<Event>, decode: Decoder)
    requires StructuredAnswer(last, decode).Some?
    requires forall e | e in later :: StructuredAnswer(e, decode).None?
    ensures var p := PreviewOf(events + [last] + later + [TurnCompleted], decode);
      && p.paragraphs == [Paragraph(TerminalReply, p.reply)]
      && p.Text() == p.reply != []
      && (p.Text() == StructuredAnswer(last, decode).value
          <==> !RepeatsOlderParagraph(PreviewOf(events, decode), last, decode))
      && (RepeatsOlderParagraph(PreviewOf(events, decode), last, decode)
          ==> p.Text() == PreviewOf(events, decode).reply)
  {
    hide AnswerOf;
    var before := PreviewOf(events, decode);
    assert (events + [last])[..|events|] == events;
    ReplyAfterStructured(before, last, decode);
    ReplyWithoutStructuredAnswers(events + [last], later, decode);
    var run := events + [last] + later;
    assert (run + [TurnCompleted])[..|run|] == run;
  }

  lemma ReplyAfterStructured(p: Preview, event: Event, decode: Decoder)
    requires StructuredAnswer(event, decode).Some?
    ensures var p' := Accept(p, event, decode);
      && p'.reply != []
      && p'.reply == (if RepeatsOlderParagraph(p, event, decode) then p.reply
                      else StructuredAnswer(event, decode).value)
  {
    hide AnswerOf, Store, Joined;
  }

  /** The item text {"reply":"x"} for one letter x, and a decoder that reads its key. */
  function OneLetterReply(letter: CodePoint): Text {
    [OPEN_BRACE, QUOTE, 0x72, 0x65, 0x70, 0x6C, 0x79, QUOTE, COLON, QUOTE, letter, QUOTE, 0x7D]
  }

  function ReadsReplyKey(source: Text, cursor: nat): Option<(Token, nat)> {
    if cursor == 1 && |source| >= 8 then Some((StringToken(REPLY_KEY), 8)) else None
  }

  lemma OneLetterPrefix(letter: CodePoint)
    requires 0x61 <= letter <= 0x7A
    ensures Prefix(OneLetterReply(letter), 9) == [letter]
  {
    hide HexNumber;
    var source := OneLetterReply(letter);
    assert NextPiece(source, 10) == Some(Raw(letter));
    assert NextPiece(source, 11) == None;
    NoPieceMore(source, 11, REPLY_MAX_LENGTH - 1);
    FirstPiece(source, 10, REPLY_MAX_LENGTH);
  }

  lemma OneLetterUnfenced(letter: CodePoint)
    ensures Unfenced(OneLetterReply(letter)) == OneLetterReply(letter)
  {
    var source := OneLetterReply(letter);
    assert SkipSpaces(source, 0) == 0 && source[0..] == source;
  }

  lemma OneLetterAnswer(letter: CodePoint, decode: Decoder)
    requires decode == ReadsReplyKey && 0x61 <= letter <= 0x7A
    ensures AnswerOf(OneLetterReply(letter), decode) == Answer(true, [letter])
  {
    hide Unfenced, Prefix;
    var source := OneLetterReply(letter);
    OneLetterUnfenced(letter);
    OneLetterPrefix(letter);
    assert SkipSpaces(source, 1) == 1 && SkipSpaces(source, 8) == 8 && SkipSpaces(source, 9) == 9;
    assert ReplyStart(source, 1, decode) == Some(9);
  }

  function Says(letter: CodePoint, id: CodePoint): Event {
    ItemEvent(Item(true, NoChannel, NoChannel, NoRole, Some(OneLetterReply(letter)), Some([id])))
  }

  /** The plain form of the promise fails: item 1 says "a", item 2 says "b", item 1 says "a"
      again, and the completed turn leaves "b". */
  lemma RepeatedReplyIsNotTheOneLeft(decode: Decoder)
    requires decode == ReadsReplyKey
    ensures var events := [Says(0x61, 1), Says(0x62, 2)];
      && StructuredAnswer(Says(0x61, 1), decode) == Some([0x61])
      && PreviewOf(events + [Says(0x61, 1)] + [] + [TurnCompleted], decode).Text() == [0x62]
  {
    hide AnswerOf, Accept, OneLetterReply;
    OneLetterAnswer(0x61, decode);
    OneLetterAnswer(0x62, decode);
    var a, b := Says(0x61, 1), Says(0x62, 2);
    var two := [Paragraph(Hashed([1]), [0x61]), Paragraph(Hashed([2]), [0x62])];
    assert [a][..0] == [] && [a, b][..1] == [a];
    FirstLetter(decode);
    SecondLetter(decode);
    assert PreviewOf([a], decode) == Accept(PreviewOf([], decode), a, decode);
    assert PreviewOf([a, b], decode) == Accept(PreviewOf([a], decode), b, decode);
    assert PreviewOf([a, b], decode) == Preview(two, [0x62]);
    assert [0x61][0] != [0x62][0];
    CompletedTurnLeavesTheLastReply([a, b], a, [], decode);
    ReplyAfterStructured(PreviewOf([a, b], decode), a, decode);
    assert [a, b] + [a] + [] == [a, b, a];
    assert [a, b, a][..2] == [a, b];
    assert ([a, b, a] + [TurnCompleted])[..3] == [a, b, a];
  }

  lemma FirstLetter(decode: Decoder)
    requires decode == ReadsReplyKey
    ensures Accept(EMPTY_PREVIEW, Says(0x61, 1), decode) == Preview([Paragraph(Hashed([1]), [0x61])], [0x61])
  {
    hide AnswerOf, OneLetterReply;
    OneLetterAnswer(0x61, decode);
    JoinedNone();
  }

  lemma SecondLetter(decode: Decoder)
    requires decode == ReadsReplyKey
    ensures Accept(Preview([Paragraph(Hashed([1]), [0x61])], [0x61]), Says(0x62, 2), decode)
         == Preview([Paragraph(Hashed([1]), [0x61]), Paragraph(Hashed([2]), [0x62])], [0x62])
  {
    hide AnswerOf, OneLetterReply, Joined;
    OneLetterAnswer(0x62, decode);
    var one := [Paragraph(Hashed([1]), [0x61])];
    JoinedOne(Hashed([1]), [0x61]);
    assert [0x61][0] != [0x62][0] && [1][0] != [2][0];
    assert one[1..] == [];
    assert Lookup(one, Hashed([2])) == None;
    assert Used(one) == 1;
    assert Put(one, Hashed([2]), [0x62]) == one + [Paragraph(Hashed([2]), [0x62])];
  }
}
