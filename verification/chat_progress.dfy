/** The incremental reply reader: the mutable reader of one provider file and the cache of such
    readers.  Parsing a record and decoding JSON inside an item text are parameters. */
module ChatProgress {
  import opened Wrappers
  import opened ReplyRecords
  import opened ReplyFolds
  import opened ReplyCache
  import F = ReplyFolds
  import PythonText
  import RS = ReplyString
  import P = ReplyPreview

  class ReplyProgress {
    const parser: Parser
    var identity: int
    var offset: nat
    var observedSize: nat
    var modified: int
    var anchor: Bytes
    var partialRecord: Bytes
    var discardRecord: bool
    var paragraphs: P.Table
    var reply: RS.Text
    ghost var seen: Bytes

    /** Offset and anchor are those of the bytes read, whatever they did to the other fields. */
    ghost predicate Valid()
      reads this
    {
      offset == |seen| && anchor == Anchor(seen)
    }

    function Preview(): P.Preview
      reads this
    {
      P.Preview(paragraphs, reply)
    }

    function Folding(): Fold
      reads this
    {
      Fold(partialRecord, discardRecord, Preview())
    }

    ghost function View(): Cached
      reads this
    {
      Cached(identity, seen, observedSize, modified, Folding())
    }

    constructor (identity: int, parser: Parser)
      ensures Valid() && View() == FreshReader(identity) && this.parser == parser
    {
      this.identity, this.parser := identity, parser;
      offset, observedSize, modified := 0, 0, 0;
      anchor, partialRecord, discardRecord := [], [], false;
      paragraphs, reply, seen := [], [], [];
    }

    method Text() returns (text: RS.Text)
      ensures text == View().fold.preview.Text()
      ensures IsTheFold(View(), parser) ==> text == StreamPreview(View().seen, parser).Text()
    {
      FoldedUnlessRaising(View().seen, parser);
      text := P.Joined(paragraphs);
    }

    /** One record; the branches of `accept`, up to the one that raises. */
    method Accept(record: Bytes) returns (raised: bool)
      modifies this`paragraphs, this`reply
      ensures raised == P.Raises(old(Preview()), parser.parse(record), parser.decode)
      ensures Preview() == if raised then P.AfterRaise(old(Preview()), parser.parse(record), parser.decode)
                           else P.Accept(old(Preview()), parser.parse(record), parser.decode)
    {
      hide P.AnswerOf, P.AnswerRaises, P.HasSurrogate, P.Joined, PythonText.Blank, P.Put, P.Used, P.Lookup;
      raised := false;
      var event := parser.parse(record);
      if event.Faulty? {
        return true;
      }
      if event.Ignored? {
        return;
      }
      if event.TurnCompleted? {
        if reply != [] {
          paragraphs := [P.Paragraph(P.TerminalReply, reply)];
        }
        return;
      }
      var item := event.item;
      if !item.Visible() {
        return;
      }
      if P.AnswerRaises(item.text.value, parser.decode) {
        return true;
      }
      var answer := P.AnswerOf(item.text.value, parser.decode);
      if answer.structured {
        if answer.text == [] {
          return;
        }
        if reply == [] {
          paragraphs := [];
        }
      } else if reply != [] || PythonText.Blank(answer.text) {
        return;
      }
      var key := item.Identity();
      if P.HasSurrogate(key.identity) {
        return true;
      }
      var previous := P.Lookup(paragraphs, key);
      if previous == Some(answer.text) {
        return;
      }
      if answer.structured {
        reply := answer.text;
        var current := P.Joined(paragraphs);
        if item.IsFinal() {
          paragraphs := [];
          previous := None;
        } else if previous.None? && current != [] {
          if answer.text <= current {
            return;
          }
          if current <= answer.text {
            paragraphs := [];
          }
        }
      }
      var used := P.Used(paragraphs) + P.Separators(paragraphs);
      var available: int := RS.REPLY_MAX_LENGTH - used
        + (if previous.Some? then |previous.value| else if paragraphs == [] then 0 else -2);
      if available > 0 {
        paragraphs := P.Put(paragraphs, key, P.Clipped(answer.text, available));
      }
    }

    /** One chunk of the file. */
    method Consume(content: Bytes) returns (raised: bool)
      modifies this`partialRecord, this`discardRecord, this`paragraphs, this`reply
      ensures Consumed(Folding(), raised) == F.Consume(old(Folding()), content, parser)
    {
      hide Split, Kept, TakeRecords;
      raised := false;
      var rest := content;
      if discardRecord {
        var at := FindLineEnd(content);
        if at == |content| {
          NothingToTake(Preview(), parser);
          return;
        }
        rest := content[at + 1..];
        discardRecord := false;
      }
      var parts := Split(partialRecord + rest);
      raised := AcceptAll(parts.complete);
      if raised {
        return;
      }
      partialRecord := parts.tail;
      if |partialRecord| > READ_MAX_BYTES {
        partialRecord := [];
        discardRecord := true;
      }
    }

    /** Reads on within the budget and takes over what `fstat` reported, unless a record raises: by
        then only offset and anchor have moved. */
    method ReadNext(look: Look, budget: nat) returns (bytesRead: nat, raised: bool)
      requires Valid() && look.Opened?
      modifies this
      ensures Valid()
      ensures bytesRead == |NextBytes(old(View()), look, budget)|
      ensures var was := old(View());
        var read, next := NextBytes(was, look, budget), NextFold(was, look, budget, parser);
        && raised == next.raised
        && View() == if raised then was.(seen := was.seen + read, fold := next.fold)
                     else Cached(was.identity, was.seen + read, look.size, look.modified, next.fold)
    {
      hide F.Consume, ReadAt;
      bytesRead, raised := 0, false;
      if look.size > offset {
        var content := ReadAt(look.content, offset, budget);
        bytesRead := |content|;
        offset := offset + |content|;
        AnchorGrows(seen, content);
        anchor := LastBytes(anchor + content);
        seen := seen + content;
        raised := Consume(content);
        if raised {
          return;
        }
      } else {
        assert seen + [] == seen;
      }
      observedSize, modified := look.size, look.modified;
    }

    /** The loop over the finished records of a chunk. */
    method AcceptAll(records: seq<Bytes>) returns (raised: bool)
      modifies this`paragraphs, this`reply
      ensures Taken(Preview(), raised) == TakeRecords(old(Preview()), Kept(records), parser)
    {
      hide P.Accept, P.Raises, P.AfterRaise;
      ghost var whole := TakeRecords(Preview(), Kept(records), parser);
      assert records[0..] == records;
      for i := 0 to |records|
        invariant TakeRecords(Preview(), Kept(records[i..]), parser) == whole
      {
        KeptNext(records, i);
        if |records[i]| <= READ_MAX_BYTES {
          raised := Accept(records[i]);
          if raised {
            return;
          }
        }
      }
      assert records[|records|..] == [];
      raised := false;
    }
  }

  lemma NothingToTake(p: P.Preview, parser: Parser)
    ensures TakeRecords(p, [], parser) == Taken(p, false)
  {
  }

  lemma KeptNext(records: seq<Bytes>, i: nat)
    requires i < |records|
    ensures |records[i]| <= READ_MAX_BYTES ==>
      && Kept(records[i..]) == [records[i]] + Kept(records[i + 1..])
      && Kept(records[i..])[0] == records[i] && Kept(records[i..])[1..] == Kept(records[i + 1..])
    ensures |records[i]| > READ_MAX_BYTES ==> Kept(records[i..]) == Kept(records[i + 1..])
  {
    assert records[i..][0] == records[i] && records[i..][1..] == records[i + 1..];
  }

  /** The module's cache of readers. */
  class ReplyReader {
    const parser: Parser
    var readers: map<string, ReplyProgress>
    var order: seq<string>

    ghost predicate Owns(f: string)
      requires f in readers
      reads this, readers.Values
    {
      && readers[f].Valid() && readers[f].parser == parser && Sound(readers[f].View(), parser)
      && (forall g | g in readers && g != f :: readers[g] != readers[f])
    }

    ghost predicate Valid()
      reads this, readers.Values
    {
      CacheValid(View()) && forall f | f in readers :: Owns(f)
    }

    ghost function View(): Cache
      reads this, readers.Values
    {
      Cache(map f | f in readers :: readers[f].View(), order)
    }

    constructor (parser: Parser)
      ensures Valid() && View() == EMPTY_CACHE && this.parser == parser
    {
      this.parser := parser;
      readers, order := map[], [];
    }

    /** One observation.  The text is that of the reader it leaves, which is the preview of the bytes
        read so far unless a record among them raised; one that raises itself changes nothing but the
        reader that was cached for the file, if it went on with that one. */
    method ReadChatReply(file: string, look: Look) returns (text: RS.Text, bytesRead: nat, raised: bool)
      requires Valid()
      modifies this, readers.Values
      ensures Valid() && View() == Step(old(View()), file, look, parser)
      ensures fresh(readers.Values - old(readers.Values))
      ensures bytesRead <= READ_MAX_BYTES
      ensures raised <==> look.Opened? && Observe(old(View().Get(file)), look, parser).raised
      ensures look.Unreadable? ==> text == [] && file !in View().readers
      ensures look.Opened? && !raised ==> file in View().readers
      ensures look.Opened? && !raised ==>
        var reader := View().readers[file];
        && text == reader.fold.preview.Text()
        && (!StreamRaises(reader.seen, parser) ==> text == StreamPreview(reader.seen, parser).Text())
    {
      hide StreamRaises, Observe, Remember, CacheValid, ReplyProgress.Valid, ReplyProgress.View, P.Joined, InPlace,
        Sound, IsTheFold;
      if look.Unreadable? {
        Pop(file);
        return [], 0, false;
      }
      ghost var before, cached := View(), View().Get(file);
      ObserveKeepsSound(cached, look, parser);
      var state;
      state, bytesRead, raised := ReadOn(file, look);
      if raised {
        RaisedStep(before, View(), file, look, parser);
        return [], bytesRead, true;
      }
      text := state.Text();
      SoundText(state.View(), parser);
      SameElsewhere(before, View(), file, state.View());
      Keep(file, state);
    }

    /** Reading on in one file leaves the readers of the others as they were. */
    twostate predicate OthersKept(file: string, new state: ReplyProgress)
      reads this, readers.Values
    {
      && readers == old(readers)
      && forall g | g in readers && g != file ::
           Owns(g) && readers[g] != state && readers[g].View() == old(readers[g].View())
    }

    /** Reads on from a reader, or from a new one where its anchor is not found. */
    method ReadFrom(start: ReplyProgress, look: Look)
      returns (state: ReplyProgress, bytesRead: nat, raised: bool)
      requires start.Valid() && start.parser == parser && look.Opened? && start.View().identity == look.identity
      modifies start
      ensures Observed(state.View(), bytesRead, raised) == ReadFromStart(old(start.View()), look, parser)
      ensures state.Valid() && state.parser == parser && start.Valid()
      ensures if FoundAnchor(old(start.View()), look) == Rechecked(old(start.View()), look) then state == start
              else fresh(state) && start.View() == old(start.View())
    {
      hide FoundAnchor, Rechecked, NextBytes, NextFold, ReplyProgress.Valid, ReplyProgress.View;
      var found, budget;
      state, found, budget := CheckAnchor(start, look);
      var more;
      more, raised := state.ReadNext(look, budget);
      bytesRead := found + more;
    }

    /** The reader of the file, restarted where it must be, after its next bytes. */
    method ReadOn(file: string, look: Look) returns (state: ReplyProgress, bytesRead: nat, raised: bool)
      requires Valid() && look.Opened?
      modifies if file in readers then {readers[file]} else {}
      ensures var o := Observe(old(View().Get(file)), look, parser);
        o == Observed(state.View(), bytesRead, raised) && state.Valid() && state.parser == parser
      ensures if InPlace(old(View().Get(file)), look) then file in readers && state == readers[file] else fresh(state)
      ensures file in readers ==> Owns(file)
      ensures file in readers && state != readers[file] ==> readers[file].View() == old(readers[file].View())
      ensures OthersKept(file, state)
    {
      hide CacheValid, FoundAnchor, Rechecked, ReadFromStart, MustRestart, Sound;
      hide ReplyProgress.Valid, ReplyProgress.View;
      assert forall g | g in readers && g != file :: Owns(g) && (file in readers ==> readers[g] != readers[file]);
      ObserveKeepsSound(View().Get(file), look, parser);
      var start := StartReader(file, look);
      state, bytesRead, raised := ReadFrom(start, look);
    }

    /** `pop`. */
    method Pop(file: string)
      requires Valid()
      modifies this`readers, this`order
      ensures Valid() && View() == Step(old(View()), file, Unreadable, parser) && file !in View().readers
      ensures readers.Values <= old(readers.Values)
    {
      hide Observe, Remember, Without, CacheValid, Sound, ReplyProgress.Valid, ReplyProgress.View;
      StepKeepsTheBound(View(), file, Unreadable, parser);
      ghost var before := View();
      readers, order := readers - {file}, Without(order, file);
      assert View().readers == before.readers - {file};
    }

    /** Stores a reader as the most recent one and evicts the oldest. */
    method Keep(file: string, state: ReplyProgress)
      requires CacheValid(View()) && forall f | f in readers && f != file :: Owns(f) && readers[f] != state
      requires state.Valid() && state.parser == parser && Sound(state.View(), parser)
      modifies this`readers, this`order
      ensures Valid() && View() == Remember(old(View()), file, state.View())
      ensures file in readers && readers[file] == state && View().readers[file] == state.View()
      ensures readers.Values <= old(readers.Values) + {state}
    {
      hide CacheValid, Evict, Without, Sound, ReplyProgress.Valid, ReplyProgress.View;
      OrderedAreRead(View(), file);
      RememberKeepsTheBound(View(), file, state.View());
      ghost var before := View();
      readers, order := readers[file := state], Without(order, file) + [file];
      assert View().readers == before.readers[file := state.View()];
      ghost var kept := readers;
      assert forall f | f in kept :: Owns(f);
      EvictOldest();
      FewerAreOwned(kept);
    }

    /** Readers that were owned among more are owned. */
    lemma FewerAreOwned(kept: map<string, ReplyProgress>)
      requires forall f | f in readers :: f in kept && readers[f] == kept[f]
      requires forall f | f in kept ::
        && kept[f].Valid() && kept[f].parser == parser && Sound(kept[f].View(), parser)
        && (forall g | g in kept && g != f :: kept[g] != kept[f])
      ensures forall f | f in readers :: Owns(f)
    {
      hide Sound, ReplyProgress.Valid, ReplyProgress.View;
    }

    /** The cached reader of the file, or a new one where it must be restarted. */
    method StartReader(file: string, look: Look) returns (state: ReplyProgress)
      requires Valid() && look.Opened?
      ensures state.Valid() && state.parser == parser
      ensures state.View() == Start(View().Get(file), look)
      ensures if file in readers && !MustRestart(View().Get(file), look) then state == readers[file] else fresh(state)
    {
      hide Sound;
      if file in readers {
        state := readers[file];
        if state.identity == look.identity && state.offset <= look.size
           && (look.modified == state.modified || state.observedSize < look.size) {
          return;
        }
      }
      state := new ReplyProgress(look.identity, parser);
    }

    /** Reads the anchor again, unless the file looks untouched, and drops a reader whose
        anchor is not found. */
    method CheckAnchor(state: ReplyProgress, look: Look) returns (trusted: ReplyProgress, found: nat, budget: nat)
      requires state.Valid() && state.parser == parser && look.Opened?
      ensures trusted.Valid() && trusted.parser == parser
      ensures trusted.View() == Trusted(state.View(), look)
      ensures if FoundAnchor(state.View(), look) == Rechecked(state.View(), look) then trusted == state
              else fresh(trusted)
      ensures found == |FoundAnchor(state.View(), look)|
      ensures budget == READ_MAX_BYTES - |Rechecked(state.View(), look)|
    {
      hide Anchor, ReadAt, Rechecked, FoundAnchor, ChecksAnchor, Trusted, FreshReader;
      AnchorRule(state.View(), look);
      trusted, found, budget := state, 0, READ_MAX_BYTES;
      if state.anchor != [] && (look.modified != state.modified || look.size != state.observedSize) {
        var anchor := ReadAt(look.content, state.offset - |state.anchor|, |state.anchor|);
        found, budget := |anchor|, budget - |state.anchor|;
        if anchor != state.anchor {
          trusted := new ReplyProgress(look.identity, parser);
        }
      }
    }

    /** The eviction loop. */
    method EvictOldest()
      requires forall f | f in order :: f in readers
      modifies this`readers, this`order
      ensures View() == Evict(old(View()))
      ensures forall f | f in readers :: f in old(readers) && readers[f] == old(readers)[f]
    {
      while |order| > CACHE_MAX_FILES
        invariant Evict(View()) == Evict(old(View()))
        invariant forall f | f in readers :: f in old(readers) && readers[f] == old(readers)[f]
        decreases |order|
      {
        ghost var full := View();
        readers, order := readers - {order[0]}, order[1..];
        assert View().readers == full.readers - {full.order[0]};
      }
    }
  }

  /** A look that raised: the cache has changed at most at the reader it went on with. */
  lemma RaisedStep(before: Cache, after: Cache, file: string, look: Look, parser: Parser)
    requires look.Opened? && Observe(before.Get(file), look, parser).raised && CacheValid(before)
    requires before.order == after.order && before.readers.Keys == after.readers.Keys
    requires forall f | f in before.readers && f != file :: before.readers[f] == after.readers[f]
    requires var cached := before.Get(file);
      after.Get(file) == if InPlace(cached, look) then Some(Observe(cached, look, parser).cached) else cached
    ensures after == Step(before, file, look, parser) && CacheValid(after)
  {
    hide Observe, InPlace;
    StepKeepsTheBound(before, file, look, parser);
    var step := Step(before, file, look, parser);
    InPlaceIsCached(before.Get(file), look);
    assert after.readers == step.readers;
  }

  lemma InPlaceIsCached(cached: Option<Cached>, look: Look)
    requires look.Opened?
    ensures InPlace(cached, look) ==> cached.Some?
  {
  }

  lemma SoundText(c: Cached, parser: Parser)
    requires Sound(c, parser)
    ensures !StreamRaises(c.seen, parser) ==> c.fold.preview.Text() == StreamPreview(c.seen, parser).Text()
  {
    hide StreamRaises, Folded;
    FoldedUnlessRaising(c.seen, parser);
  }

  lemma OrderedAreRead(c: Cache, file: string)
    requires CacheValid(c)
    ensures forall f | f in Without(c.order, file) + [file] :: f == file || f in c.readers
  {
    hide Without;
  }

  lemma AnchorRule(c: Cached, look: Look)
    requires look.Opened?
    ensures var anchor := Anchor(c.seen);
      var checks := anchor != [] && (look.modified != c.modified || look.size != c.observedSize);
      && |anchor| <= |c.seen|
      && Rechecked(c, look) == (if checks then anchor else [])
      && FoundAnchor(c, look) == (if checks then ReadAt(look.content, |c.seen| - |anchor|, |anchor|) else [])
      && Trusted(c, look) == (if FoundAnchor(c, look) == Rechecked(c, look) then c else FreshReader(look.identity))
  {
    hide ReadAt;
  }

  lemma SameElsewhere(before: Cache, after: Cache, file: string, reader: Cached)
    requires before.order == after.order && before.readers.Keys == after.readers.Keys
    requires forall f | f in before.readers && f != file :: before.readers[f] == after.readers[f]
    ensures CacheValid(before) ==> CacheValid(after)
    ensures Remember(before, file, reader) == Remember(after, file, reader)
  {
    assert before.readers[file := reader] == after.readers[file := reader];
  }

  function LastBytes(bytes: Bytes): Bytes {
    if |bytes| <= ANCHOR_BYTES then bytes else bytes[|bytes| - ANCHOR_BYTES..]
  }

  lemma AnchorGrows(stream: Bytes, content: Bytes)
    ensures LastBytes(Anchor(stream) + content) == Anchor(stream + content)
  {
    var whole := stream + content;
    if |stream| <= ANCHOR_BYTES {
      assert Anchor(stream) == stream;
    } else {
      var kept := stream[|stream| - ANCHOR_BYTES..] + content;
      assert kept == whole[|stream| - ANCHOR_BYTES..];
      assert kept[|kept| - ANCHOR_BYTES..] == whole[|whole| - ANCHOR_BYTES..];
    }
  }
}
