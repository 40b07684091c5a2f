/** What one item of a provider stream leaves of the preview, stated on the text that is shown. */
module ReplyEffects {
  import opened Wrappers
  import opened PythonText
  import opened ReplyString
  import opened ReplyPreview

  // ----- Items --------------------------------------------------------------------------

  /** An agent message on a public channel. */
  predicate IsPublic(item: Item) {
    && item.agentMessage && item.text.Some?
    && item.phase in {NoChannel, Commentary, Final, FinalAnswer}
    && item.channel in {NoChannel, Commentary, Final, FinalAnswer}
    && item.role in {NoRole, Assistant}
  }

  predicate SaysFinal(item: Item) {
    item.phase in {Final, FinalAnswer} || item.channel in {Final, FinalAnswer}
  }

  /** The identity under which an item keeps its paragraph. */
  function ParagraphKey(item: Item): Key
    requires item.text.Some?
  {
    match item.id
    case Some(id) => Hashed(id)
    case None => Hashed(item.text.value)
  }

  /** A structured answer counts if it has text; an unstructured one while there is no reply, if it is
      not blank. */
  predicate Counts(p: Preview, answer: Answer) {
    if answer.structured then answer.text != []
    else p.reply == [] && exists c | c in answer.text :: !SpacePoint(c)
  }

  // ----- The text -----------------------------------------------------------------------

  /** The room for a further paragraph of a text that is not empty. */
  function RoomAfter(text: Text): int {
    12000 - |text| - 2
  }

  /** The answer after the text, a blank line between them, clipped to the room left. */
  function WithMore(text: Text, answer: Text): Text {
    if text == [] then answer
    else if RoomAfter(text) <= 0 then text
    else text + [0x0A, 0x0A] + (if |answer| <= RoomAfter(text) then answer else answer[..RoomAfter(text)])
  }

  /** The text of a preview that the first structured answer clears. */
  function TextBefore(p: Preview, answer: Answer): Text {
    if answer.structured && p.reply == [] then [] else p.Text()
  }

  lemma {:induction false} JoinedWithOneMore(t: Table, q: Paragraph)
    ensures Joined(t + [q]) == if t == [] then q.text else Joined(t) + SEPARATOR + q.text
  {
    if |t| == 1 {
      assert (t + [q])[1..] == [q];
      assert Joined(t + [q]) == t[0].text + SEPARATOR + Joined([q]);
    } else if |t| > 1 {
      JoinedWithOneMore(t[1..], q);
      assert (t + [q])[1..] == t[1..] + [q];
      assert Joined(t) + SEPARATOR + q.text == t[0].text + SEPARATOR + (Joined(t[1..]) + SEPARATOR + q.text);
    }
  }

  lemma {:induction false} PutNew(t: Table, key: Key, text: Text)
    requires Lookup(t, key).None?
    ensures Put(t, key, text) == t + [Paragraph(key, text)]
  {
    if t != [] {
      PutNew(t[1..], key, text);
      assert t + [Paragraph(key, text)] == [t[0]] + (t[1..] + [Paragraph(key, text)]);
    }
  }

  lemma {:induction false} PutKnown(t: Table, key: Key, text: Text, i: nat)
    requires DistinctKeys(t) && i < |t| && t[i].key == key
    ensures Lookup(t, key) == Some(t[i].text) && Put(t, key, text) == t[i := Paragraph(key, text)]
  {
    if t[0].key == key {
      assert i == 0;
    } else {
      PutKnown(t[1..], key, text, i - 1);
    }
  }

  predicate NonemptyTexts(t: Table) {
    forall q | q in t :: q.text != []
  }

  lemma JoinedIsEmpty(t: Table)
    requires NonemptyTexts(t)
    ensures Joined(t) == [] <==> t == []
  {
  }

  /** The paragraphs after one more under a new identity, as far as there is room. */
  function PiecesWithMore(t: Table, key: Key, answer: Text): Table {
    var room := if t == [] then 12000 else RoomAfter(Joined(t));
    if room <= 0 then t else t + [Paragraph(key, if |answer| <= room then answer else answer[..room])]
  }

  lemma StoreNew(t: Table, key: Key, answer: Text)
    requires Lookup(t, key).None? && NonemptyTexts(t)
    ensures Store(t, key, None, answer) == PiecesWithMore(t, key, answer)
  {
    hide Joined, Lookup, Put, NonemptyTexts, Used;
    JoinedLength(t);
    JoinedIsEmpty(t);
    var room := if t == [] then 12000 else RoomAfter(Joined(t));
    if room > 0 {
      PutNew(t, key, if |answer| <= room then answer else answer[..room]);
    }
  }

  lemma TextWithMore(t: Table, key: Key, answer: Text)
    requires NonemptyTexts(t) && |answer| <= 12000
    ensures Joined(PiecesWithMore(t, key, answer)) == WithMore(Joined(t), answer)
  {
    hide Joined, NonemptyTexts;
    JoinedIsEmpty(t);
    var room := if t == [] then 12000 else RoomAfter(Joined(t));
    if room > 0 {
      JoinedWithOneMore(t, Paragraph(key, if |answer| <= room then answer else answer[..room]));
    }
  }

  /** The paragraphs of a preview that the first structured answer clears. */
  function PiecesBefore(p: Preview, answer: Answer): Table {
    if answer.structured && p.reply == [] then [] else p.paragraphs
  }

  /** The item has no paragraph yet, or those there are are cleared. */
  predicate IsNew(p: Preview, item: Item, answer: Answer)
    requires item.text.Some?
  {
    forall q | q in PiecesBefore(p, answer) :: q.key != ParagraphKey(item)
  }

  /** What a public item that counts leaves under an identity that is new: a final one becomes the whole
      text; so does one that extends the text; a prefix of it changes nothing; anything else, and every
      unstructured one, comes after the text. */
  lemma NewItemLeaves(p: Preview, item: Item, decode: Decoder)
    requires WellFormed(p) && IsPublic(item)
    requires var answer := AnswerOf(item.text.value, decode); Counts(p, answer) && IsNew(p, item, answer)
    ensures var answer := AnswerOf(item.text.value, decode);
      var was, after := TextBefore(p, answer), Accept(p, ItemEvent(item), decode);
      && after.reply == (if answer.structured then answer.text else p.reply)
      && after.Text() ==
         (if !answer.structured then WithMore(was, answer.text)
          else if SaysFinal(item) then answer.text
          else if answer.text <= was then was
          else if was <= answer.text then answer.text
          else WithMore(was, answer.text))
  {
    hide Accept, WellFormed, Joined, AnswerOf, WithMore, PiecesWithMore, PiecesBefore, TextBefore;
    var answer := AnswerOf(item.text.value, decode);
    NewItemPieces(p, item, decode);
    NewItemTexts(p, answer, ParagraphKey(item));
  }

  /** The same on the paragraphs with their identities. */
  lemma NewItemPieces(p: Preview, item: Item, decode: Decoder)
    requires WellFormed(p) && IsPublic(item)
    requires var answer := AnswerOf(item.text.value, decode); Counts(p, answer) && IsNew(p, item, answer)
    ensures var answer := AnswerOf(item.text.value, decode);
      var was, table, key := TextBefore(p, answer), PiecesBefore(p, answer), ParagraphKey(item);
      Accept(p, ItemEvent(item), decode) == Preview(
        if !answer.structured then PiecesWithMore(table, key, answer.text)
        else if SaysFinal(item) then [Paragraph(key, answer.text)]
        else if answer.text <= was then table
        else if was <= answer.text then [Paragraph(key, answer.text)]
        else PiecesWithMore(table, key, answer.text),
        if answer.structured then answer.text else p.reply)
  {
    hide AnswerOf, Store, Joined, Lookup, PiecesWithMore;
    var answer := AnswerOf(item.text.value, decode);
    var table, key := PiecesBefore(p, answer), ParagraphKey(item);
    JoinedNone();
    JoinedIsEmpty(table);
    assert Lookup(table, key).None?;
    StoreNew(table, key, answer.text);
    StoreNew([], key, answer.text);
    OnePiece(key, answer.text);
  }

  lemma OnePiece(key: Key, text: Text)
    requires |text| <= 12000
    ensures PiecesWithMore([], key, text) == [Paragraph(key, text)]
  {
  }

  lemma NewItemTexts(p: Preview, answer: Answer, key: Key)
    requires WellFormed(p) && |answer.text| <= 12000 && forall q | q in PiecesBefore(p, answer) :: q.key != key
    ensures var table := PiecesBefore(p, answer);
      && Joined(table) == TextBefore(p, answer)
      && Joined(PiecesWithMore(table, key, answer.text)) == WithMore(TextBefore(p, answer), answer.text)
      && Joined([Paragraph(key, answer.text)]) == answer.text
  {
    hide Joined, Lookup, PiecesWithMore, WithMore;
    JoinedNone();
    JoinedOne(key, answer.text);
    TextWithMore(PiecesBefore(p, answer), key, answer.text);
  }

  // ----- Items whose paragraph is there -------------------------------------------------

  /** The text before and after the paragraph at position i, separators included. */
  function Lead(t: Table, i: nat): Text
    requires i < |t|
  {
    if i == 0 then [] else Joined(t[..i]) + SEPARATOR
  }

  function Tail(t: Table, i: nat): Text
    requires i < |t|
  {
    if i == |t| - 1 then [] else SEPARATOR + Joined(t[i + 1..])
  }

  lemma {:induction false} JoinedAround(t: Table, i: nat)
    requires i < |t|
    ensures Joined(t) == Lead(t, i) + t[i].text + Tail(t, i)
  {
    hide Joined, Lead, Tail;
    if i == 0 {
      FirstAround(t);
    } else {
      JoinedAround(t[1..], i - 1);
      AroundLater(t, i);
      var head, lead, tail := t[0].text + SEPARATOR, Lead(t[1..], i - 1), Tail(t, i);
      assert head + (lead + t[i].text + tail) == head + lead + t[i].text + tail;
    }
  }

  lemma Grouped(a: Text, b: Text, c: Text)
    ensures a + b + c == a + (b + c)
  {
  }

  lemma JoinedStep(t: Table)
    requires t != []
    ensures Joined(t) == if |t| == 1 then t[0].text else t[0].text + SEPARATOR + Joined(t[1..])
  {
  }

  lemma FirstAround(t: Table)
    requires t != []
    ensures Joined(t) == Lead(t, 0) + t[0].text + Tail(t, 0)
  {
    hide Joined, SEPARATOR;
    JoinedStep(t);
    if |t| > 1 {
      Grouped(t[0].text, SEPARATOR, Joined(t[1..]));
    }
    assert [] + t[0].text == t[0].text;
  }

  lemma AroundLater(t: Table, i: nat)
    requires 0 < i < |t|
    ensures Joined(t) == t[0].text + SEPARATOR + Joined(t[1..])
    ensures Lead(t, i) == t[0].text + SEPARATOR + Lead(t[1..], i - 1) && Tail(t, i) == Tail(t[1..], i - 1)
  {
    hide Joined, SEPARATOR;
    JoinedStep(t);
    JoinedStep(t[..i]);
    assert t[1..][..i - 1] == t[..i][1..] && t[1..][i..] == t[i + 1..];
    if i > 1 {
      Grouped(t[0].text + SEPARATOR, Joined(t[..i][1..]), SEPARATOR);
    }
  }

  /** What a public item that counts leaves where its paragraph is there: the same answer again changes
      nothing; a final one becomes the whole text; any other takes the place of the paragraph, clipped
      to the room that leaves. */
  lemma KnownItemLeaves(p: Preview, item: Item, decode: Decoder, i: nat)
    requires WellFormed(p) && IsPublic(item) && i < |p.paragraphs| && p.paragraphs[i].key == ParagraphKey(item)
    requires var answer := AnswerOf(item.text.value, decode);
      Counts(p, answer) && (answer.structured ==> p.reply != [])
    ensures var answer, was := AnswerOf(item.text.value, decode), p.paragraphs[i].text;
      var after := Accept(p, ItemEvent(item), decode);
      var room := 12000 - (|p.Text()| - |was|);
      var piece := if |answer.text| <= room then answer.text else answer.text[..room];
      if answer.text == was then after == p
      else
        && after.reply == (if answer.structured then answer.text else p.reply)
        && (if answer.structured && SaysFinal(item) then
              after.Text() == answer.text && after.paragraphs == [Paragraph(ParagraphKey(item), answer.text)]
            else
              && after.paragraphs == p.paragraphs[i := Paragraph(ParagraphKey(item), piece)]
              && p.Text() == Lead(p.paragraphs, i) + was + Tail(p.paragraphs, i)
              && after.Text() == Lead(p.paragraphs, i) + piece + Tail(p.paragraphs, i))
  {
    hide AnswerOf, Joined, Lookup, Store;
    var answer, t, key := AnswerOf(item.text.value, decode), p.paragraphs, ParagraphKey(item);
    StoreKnown(t, key, answer.text, i);
    JoinedOne(key, answer.text);
    StoreOne(key, answer.text);
  }

  lemma StoreKnown(t: Table, key: Key, answer: Text, i: nat)
    requires DistinctKeys(t) && NonemptyTexts(t) && |Joined(t)| <= 12000 && i < |t| && t[i].key == key
    ensures var was := t[i].text;
      var room := 12000 - (|Joined(t)| - |was|);
      && Lookup(t, key) == Some(was) && 0 < room <= 12000
      && var piece := if |answer| <= room then answer else answer[..room];
      && Store(t, key, Some(was), answer) == t[i := Paragraph(key, piece)]
      && Joined(t) == Lead(t, i) + was + Tail(t, i)
      && Joined(t[i := Paragraph(key, piece)]) == Lead(t, i) + piece + Tail(t, i)
  {
    hide Joined, Lookup, Put, Used, Lead, Tail;
    JoinedLength(t);
    JoinedAround(t, i);
    assert t[i] in t;
    var room := 12000 - (|Joined(t)| - |t[i].text|);
    var piece := if |answer| <= room then answer else answer[..room];
    PutKnown(t, key, piece, i);
    ReplacedAround(t, i, Paragraph(key, piece));
  }

  lemma StoreOne(key: Key, answer: Text)
    requires |answer| <= 12000 && answer != []
    ensures Store([], key, None, answer) == [Paragraph(key, answer)]
  {
  }

  lemma ReplacedAround(t: Table, i: nat, q: Paragraph)
    requires i < |t|
    ensures Joined(t[i := q]) == Lead(t, i) + q.text + Tail(t, i)
  {
    JoinedAround(t[i := q], i);
    assert t[i := q][..i] == t[..i] && t[i := q][i + 1..] == t[i + 1..];
  }

  // ----- Everything else ----------------------------------------------------------------

  /** Every other record changes nothing, except that a completed turn leaves the reply alone. */
  lemma OthersChangeNothing(p: Preview, event: Event, decode: Decoder)
    requires event.ItemEvent? && IsPublic(event.item) ==> !Counts(p, AnswerOf(event.item.text.value, decode))
    ensures var after := Accept(p, event, decode);
      && after.reply == p.reply
      && after.Text() == if event.TurnCompleted? && p.reply != [] then p.reply else p.Text()
  {
    hide AnswerOf, Joined;
    JoinedOne(TerminalReply, p.reply);
  }

  /** A record raises exactly if it cannot be looked up, or is a public item whose reply ends in an escape
      that is refused, or one that counts under an identity that has no UTF-8; it then leaves the preview
      as it was, except that in the last case a first structured answer has cleared the paragraphs. */
  lemma RaisingLeaves(p: Preview, event: Event, decode: Decoder)
    ensures Raises(p, event, decode) <==>
      || event.Faulty?
      || (&& event.ItemEvent? && IsPublic(event.item)
          && var text := event.item.text.value;
          && (AnswerRaises(text, decode)
              || (Counts(p, AnswerOf(text, decode)) && exists c | c in IdentityText(event.item) :: Surrogate(c))))
    ensures Raises(p, event, decode) ==>
      var after := AfterRaise(p, event, decode);
      && after.reply == p.reply
      && after.paragraphs
         == if event.ItemEvent? && !AnswerRaises(event.item.text.value, decode)
               && AnswerOf(event.item.text.value, decode).structured && p.reply == []
            then [] else p.paragraphs
  {
    hide AnswerOf, AnswerRaises;
  }

  /** What the identity of an item is made of: its id, or else its text. */
  function IdentityText(item: Item): Text
    requires item.text.Some?
  {
    match item.id
    case Some(id) => id
    case None => item.text.value
  }
}
