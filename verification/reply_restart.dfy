/** Which looks go on from the cached offset and which start the file again, whatever the file has
    become meanwhile. */
module ReplyRestart {
  import opened Wrappers
  import opened ReplyRecords
  import opened ReplyFolds
  import opened ReplyCache

  /** The look reports another time or size than the last one. */
  predicate Touched(c: Cached, look: Look)
    requires look.Opened?
  {
    look.modified != c.modified || look.size != c.observedSize
  }

  /** How many of the last bytes are compared. */
  function AnchorLength(c: Cached): nat {
    if |c.seen| <= 128 then |c.seen| else 128
  }

  /** The last bytes that were read still stand before the offset. */
  predicate AnchorStands(c: Cached, content: Bytes) {
    var n := AnchorLength(c);
    |c.seen| <= |content| && content[|c.seen| - n..|c.seen|] == c.seen[|c.seen| - n..]
  }

  /** The file is the one that was read: the same one, not cut below the offset, not rewritten without
      growing, and with its last bytes unless it looks untouched. */
  predicate IsSameFile(c: Cached, look: Look)
    requires look.Opened?
  {
    && c.identity == look.identity
    && |c.seen| <= look.size
    && (look.modified == c.modified || c.observedSize < look.size)
    && (Touched(c, look) ==> c.seen == [] || AnchorStands(c, look.content))
  }

  /** The bytes from the offset on, as many as the file has and the budget allows. */
  function BytesFrom(content: Bytes, offset: nat, size: nat, budget: nat): Bytes {
    if size <= offset || |content| <= offset then []
    else if |content| - offset <= budget then content[offset..]
    else content[offset..offset + budget]
  }

  /** The anchor bytes that a look reads again. */
  function AnchorCost(cached: Option<Cached>, look: Look): nat
    requires look.Opened?
  {
    if cached.Some? && cached.value.identity == look.identity && |cached.value.seen| <= look.size
       && (look.modified == cached.value.modified || cached.value.observedSize < look.size)
       && Touched(cached.value, look)
    then AnchorLength(cached.value) else 0
  }

  /** Reading back before an offset finds these bytes exactly if they stand there. */
  lemma ReadBack(content: Bytes, anchor: Bytes, offset: nat)
    requires 0 < |anchor| <= offset
    ensures ReadAt(content, offset - |anchor|, |anchor|) == anchor
       <==> offset <= |content| && content[offset - |anchor|..offset] == anchor
  {
  }

  lemma AnchorFoundExactly(c: Cached, look: Look)
    requires look.Opened?
    ensures FoundAnchor(c, look) == Rechecked(c, look)
       <==> (Touched(c, look) ==> c.seen == [] || AnchorStands(c, look.content))
    ensures |Rechecked(c, look)| == if Touched(c, look) then AnchorLength(c) else 0
  {
    hide ReadAt;
    var anchor := Rechecked(c, look);
    if Touched(c, look) && c.seen != [] {
      assert anchor == c.seen[|c.seen| - AnchorLength(c)..];
      ReadBack(look.content, anchor, |c.seen|);
    }
  }

  /** A look reads on from the offset exactly if the file is the one that was read, and from the start
      otherwise, the next bytes within the budget; its reader has the identity of the look. */
  lemma LookContinuesExactly(cached: Option<Cached>, look: Look, parser: Parser)
    requires look.Opened?
    ensures var o := Observe(cached, look, parser);
      var budget := 512 * 1024 - AnchorCost(cached, look);
      && o.cached.identity == look.identity
      && (if cached.Some? && IsSameFile(cached.value, look) then
            var offset := |cached.value.seen|;
            o.cached.seen == cached.value.seen + BytesFrom(look.content, offset, look.size, budget)
          else o.cached.seen == BytesFrom(look.content, 0, look.size, budget))
      && (!o.raised ==> o.cached.observedSize == look.size && o.cached.modified == look.modified)
  {
    hide FoundAnchor, Rechecked, NextFold;
    if cached.Some? {
      AnchorFoundExactly(cached.value, look);
    }
    AnchorFoundExactly(FreshReader(look.identity), look);
  }
}
