/** What one observation of a provider file does to the cache of incremental readers, and what
    holds over every run.

    The offset of a cached reader is the number of bytes it has read (`seen`), its anchor their last
    128; its splitter and preview are what `consume` left.  A look that raises moves the offset all the
    same and leaves the rest of the cache alone.  The classes of `ChatProgress` are proved against
    this model. */
module ReplyCache {
  import opened Wrappers
  import opened Refs
  import opened ReplyRecords
  import opened ReplyFolds
  import P = ReplyPreview

  const CACHE_MAX_FILES: nat := 64
  const ANCHOR_BYTES: nat := 128

  datatype Cached = Cached(identity: int, seen: Bytes, observedSize: nat, modified: int, fold: Fold)

  /** One look at a file: its identity, size and modification time at `fstat`, and the content
      that the reads that follow find; or nothing, for a link or a failing call. */
  datatype Look = Unreadable | Opened(identity: int, size: nat, modified: int, content: Bytes)

  function Anchor(seen: Bytes): (anchor: Bytes)
    ensures |anchor| == if |seen| <= ANCHOR_BYTES then |seen| else ANCHOR_BYTES
    ensures anchor == seen[|seen| - |anchor|..]
  {
    if |seen| <= ANCHOR_BYTES then seen else seen[|seen| - ANCHOR_BYTES..]
  }

  /** `seek(at)` and `read(count)`. */
  function ReadAt(content: Bytes, at: nat, count: nat): (bytes: Bytes)
    ensures |bytes| <= count
    ensures at <= |content| ==> bytes <= content[at..]
  {
    if at >= |content| then []
    else if at + count <= |content| then content[at..at + count]
    else content[at..]
  }

  function FreshReader(identity: int): Cached {
    Cached(identity, [], 0, 0, NOTHING)
  }

  /** A new reader replaces a missing one, one of another file, and one whose file shrank or
      was touched without growing. */
  predicate MustRestart(cached: Option<Cached>, look: Look)
    requires look.Opened?
  {
    || cached.None?
    || cached.value.identity != look.identity
    || look.size < |cached.value.seen|
    || (look.modified != cached.value.modified && look.size <= cached.value.observedSize)
  }

  /** The anchor is compared unless the file looks untouched. */
  predicate ChecksAnchor(c: Cached, look: Look)
    requires look.Opened?
  {
    c.seen != [] && (look.modified != c.modified || look.size != c.observedSize)
  }

  function Start(cached: Option<Cached>, look: Look): (start: Cached)
    requires look.Opened?
    ensures start.identity == look.identity
  {
    if MustRestart(cached, look) then FreshReader(look.identity) else cached.value
  }

  /** The anchor bytes that are read again before going on. */
  function Rechecked(c: Cached, look: Look): (anchor: Bytes)
    requires look.Opened?
    ensures |anchor| <= ANCHOR_BYTES && |anchor| <= |c.seen|
  {
    if ChecksAnchor(c, look) then Anchor(c.seen) else []
  }

  function FoundAnchor(c: Cached, look: Look): (found: Bytes)
    requires look.Opened?
    ensures |found| <= |Rechecked(c, look)|
  {
    var anchor := Rechecked(c, look);
    if anchor == [] then [] else ReadAt(look.content, |c.seen| - |anchor|, |anchor|)
  }

  function Trusted(c: Cached, look: Look): (trusted: Cached)
    requires look.Opened?
    ensures c.identity == look.identity ==> trusted.identity == look.identity
  {
    if FoundAnchor(c, look) == Rechecked(c, look) then c else FreshReader(look.identity)
  }

  function NextBytes(c: Cached, look: Look, budget: nat): (bytes: Bytes)
    requires look.Opened?
    ensures |bytes| <= budget
  {
    if look.size > |c.seen| then ReadAt(look.content, |c.seen|, budget) else []
  }

  /** What `consume` does with those bytes; it is called only when the file is longer than the offset. */
  function NextFold(c: Cached, look: Look, budget: nat, parser: Parser): Consumed
    requires look.Opened?
  {
    if look.size > |c.seen| then Consume(c.fold, NextBytes(c, look, budget), parser) else Consumed(c.fold, false)
  }

  datatype Observed = Observed(cached: Cached, bytesRead: nat, raised: bool)

  /** Reading on from a reader of this file: after its anchor, or from the start of the file. */
  function ReadFromStart(start: Cached, look: Look, parser: Parser): (after: Observed)
    requires look.Opened?
    ensures after.bytesRead <= READ_MAX_BYTES
  {
    var trusted := Trusted(start, look);
    var budget := READ_MAX_BYTES - |Rechecked(start, look)|;
    var read, next := NextBytes(trusted, look, budget), NextFold(trusted, look, budget, parser);
    var seen := trusted.seen + read;
    Observed(if next.raised then trusted.(seen := seen, fold := next.fold)
             else Cached(look.identity, seen, look.size, look.modified, next.fold),
             |FoundAnchor(start, look)| + |read|, next.raised)
  }

  function Observe(cached: Option<Cached>, look: Look, parser: Parser): (after: Observed)
    requires look.Opened?
    ensures after.bytesRead <= READ_MAX_BYTES
  {
    ReadFromStart(Start(cached, look), look, parser)
  }

  /** The look goes on with the cached reader itself, not with a new one. */
  predicate InPlace(cached: Option<Cached>, look: Look)
    requires look.Opened?
  {
    && cached.Some? && !MustRestart(cached, look)
    && FoundAnchor(cached.value, look) == Rechecked(cached.value, look)
  }

  /** The cached reader of the file after a look.  One that raises stores nothing, but the reader that
      was cached is the one that it changed. */
  function After(cached: Option<Cached>, look: Look, parser: Parser): Option<Cached>
    requires look.Opened?
  {
    var o := Observe(cached, look, parser);
    if !o.raised || InPlace(cached, look) then Some(o.cached) else cached
  }

  // ----- The least-recently-used cache --------------------------------------------------

  /** Readers by file, and the files from least to most recently observed. */
  datatype Cache = Cache(readers: map<string, Cached>, order: seq<string>)
  {
    function Get(file: string): Option<Cached> {
      if file in readers then Some(readers[file]) else None
    }
  }

  const EMPTY_CACHE := Cache(map[], [])

  function Without(order: seq<string>, file: string): (rest: seq<string>)
    ensures forall f :: f in rest <==> f in order && f != file
    ensures |rest| <= |order|
    ensures file in order ==> |rest| < |order|
  {
    if order == [] then []
    else if order[0] == file then Without(order[1..], file)
    else [order[0]] + Without(order[1..], file)
  }

  function Forget(c: Cache, file: string): Cache {
    Cache(c.readers - {file}, Without(c.order, file))
  }

  function Evict(c: Cache): Cache
    decreases |c.order|
  {
    if |c.order| <= CACHE_MAX_FILES then c
    else Evict(Cache(c.readers - {c.order[0]}, c.order[1..]))
  }

  function Remember(c: Cache, file: string, reader: Cached): Cache {
    Evict(Cache(c.readers[file := reader], Without(c.order, file) + [file]))
  }

  function Step(c: Cache, file: string, look: Look, parser: Parser): Cache {
    if look.Unreadable? then Forget(c, file)
    else
      var o := Observe(c.Get(file), look, parser);
      if !o.raised then Remember(c, file, o.cached)
      else if InPlace(c.Get(file), look) then c.(readers := c.readers[file := o.cached])
      else c
  }

  ghost predicate CacheValid(c: Cache) {
    && Distinct(c.order)
    && |c.order| <= CACHE_MAX_FILES
    && (forall f :: f in c.order <==> f in c.readers)
  }

  lemma {:induction false} WithoutIsDistinct(order: seq<string>, file: string)
    requires Distinct(order)
    ensures Distinct(Without(order, file))
    ensures |order| <= |Without(order, file)| + 1
  {
    if order != [] {
      WithoutIsDistinct(order[1..], file);
      assert order[0] !in order[1..];
      if order[0] == file {
        WithoutAbsent(order[1..], file);
      }
    }
  }

  lemma {:induction false} WithoutAbsent(order: seq<string>, file: string)
    requires file !in order
    ensures Without(order, file) == order
  {
    if order != [] {
      WithoutAbsent(order[1..], file);
    }
  }

  lemma {:induction false} RememberKeepsTheBound(c: Cache, file: string, reader: Cached)
    requires CacheValid(c)
    ensures var c' := Remember(c, file, reader);
      && CacheValid(c')
      && file in c'.readers && c'.readers[file] == reader
      && (forall f | f in c'.readers && f != file :: f in c.readers && c'.readers[f] == c.readers[f])
  {
    hide Without;
    WithoutIsDistinct(c.order, file);
    var kept := Without(c.order, file);
    var full := Cache(c.readers[file := reader], kept + [file]);
    assert Distinct(full.order);
    if |full.order| > CACHE_MAX_FILES {
      assert full.order[0] == kept[0];
      EvictOne(full);
    }
  }

  lemma EvictOne(full: Cache)
    requires |full.order| == CACHE_MAX_FILES + 1 && Distinct(full.order)
    requires forall f :: f in full.order <==> f in full.readers
    ensures Evict(full) == Cache(full.readers - {full.order[0]}, full.order[1..])
    ensures CacheValid(Evict(full))
  {
    var evicted := Cache(full.readers - {full.order[0]}, full.order[1..]);
    assert Evict(evicted) == evicted;
    assert full.order == [full.order[0]] + full.order[1..];
  }

  lemma ReplacingKeepsTheBound(c: Cache, file: string, reader: Cached)
    requires CacheValid(c) && file in c.readers
    ensures CacheValid(c.(readers := c.readers[file := reader]))
  {
  }

  lemma ForgettingKeepsTheBound(c: Cache, file: string)
    requires CacheValid(c)
    ensures CacheValid(Forget(c, file))
  {
    WithoutIsDistinct(c.order, file);
  }

  lemma StepKeepsTheBound(c: Cache, file: string, look: Look, parser: Parser)
    requires CacheValid(c)
    ensures var c' := Step(c, file, look, parser);
      && CacheValid(c')
      && (look.Opened? ==> c'.Get(file) == After(c.Get(file), look, parser))
      && (forall f | f in c'.readers && f != file :: f in c.readers && c'.readers[f] == c.readers[f])
  {
    hide Observe, Remember, CacheValid, Without, MustRestart, FoundAnchor, Rechecked;
    if look.Unreadable? {
      ForgettingKeepsTheBound(c, file);
    } else {
      var reader := Observe(c.Get(file), look, parser).cached;
      RememberKeepsTheBound(c, file, reader);
      if file in c.readers {
        ReplacingKeepsTheBound(c, file, reader);
      }
    }
  }

  // ----- Append-only files --------------------------------------------------------------

  /** What happens around the cache: a file grows, or it is looked at.  `size` and `modified`
      are what `fstat` reported; the file may have grown further before it was read. */
  datatype Event =
    | Append(file: string, bytes: Bytes)
    | LookAt(file: string, size: nat, modified: int)
    | Fails(file: string)

  datatype World = World(files: map<string, Bytes>, cache: Cache)
  {
    function Content(file: string): Bytes {
      if file in files then files[file] else []
    }
  }

  /** Identities stay fixed, since files are only appended to. */
  function Happen(w: World, event: Event, identities: string -> int, parser: Parser): World {
    match event
    case Append(file, bytes) => w.(files := w.files[file := w.Content(file) + bytes])
    case LookAt(file, size, modified) =>
      w.(cache := Step(w.cache, file, Opened(identities(file), size, modified, w.Content(file)), parser))
    case Fails(file) => w.(cache := Step(w.cache, file, Unreadable, parser))
  }

  function Run(w: World, events: seq<Event>, identities: string -> int, parser: Parser): World {
    if events == [] then w
    else Happen(Run(w, events[..|events| - 1], identities, parser), events[|events| - 1], identities, parser)
  }

  /** The reader is the fold of the bytes it has read. */
  predicate IsTheFold(c: Cached, parser: Parser) {
    Folded(c.seen, parser) == Some(c.fold)
  }

  /** The reader is the fold of its bytes exactly when no record among them raises; its preview is
      bounded in any case. */
  ghost predicate Sound(c: Cached, parser: Parser) {
    && (IsTheFold(c, parser) <==> !StreamRaises(c.seen, parser))
    && P.WellFormed(c.fold.preview)
  }

  /** Every cached reader has read exactly file[..offset]. */
  ghost predicate ReadersFollowFiles(w: World, parser: Parser) {
    forall f | f in w.cache.readers :: w.cache.readers[f].seen <= w.Content(f) && Sound(w.cache.readers[f], parser)
  }

  /** The anchor of what was read is always found again in a file that was only appended to. */
  lemma AnchorIsFound(seen: Bytes, content: Bytes)
    requires seen <= content
    ensures ReadAt(content, |seen| - |Anchor(seen)|, |Anchor(seen)|) == Anchor(seen)
  {
  }

  /** A reader whose bytes the file still begins with is trusted. */
  lemma FollowerIsTrusted(c: Cached, look: Look)
    requires look.Opened? && c.seen <= look.content
    ensures Trusted(c, look) == c
  {
    hide Anchor, ReadAt;
    AnchorIsFound(c.seen, look.content);
  }

  lemma ReadingFollowsTheFile(c: Cached, look: Look, budget: nat)
    requires look.Opened? && c.seen <= look.content
    ensures c.seen + NextBytes(c, look, budget) <= look.content
  {
    hide ReadAt;
  }

  /** The fold after the next bytes is that of all bytes read, exactly when none of them raises. */
  lemma NextFoldIsSound(c: Cached, look: Look, budget: nat, parser: Parser)
    requires look.Opened? && Sound(c, parser)
    ensures var seen, next := c.seen + NextBytes(c, look, budget), NextFold(c, look, budget, parser);
      && (Folded(seen, parser) == Some(next.fold) <==> !StreamRaises(seen, parser))
      && P.WellFormed(next.fold.preview)
      && (!StreamRaises(c.seen, parser) ==> next.raised == StreamRaises(seen, parser))
  {
    hide StreamRaises, Folded, ReadAt, P.WellFormed, Advance, TakeRecords;
    var bytes := NextBytes(c, look, budget);
    var seen := c.seen + bytes;
    FoldedUnlessRaising(c.seen, parser);
    FoldedUnlessRaising(seen, parser);
    TakingKeepsTheBound(c.fold.preview, Advance(c.fold.partial, c.fold.discard, bytes).records, parser);
    if look.size <= |c.seen| {
      assert seen == c.seen;
    } else if StreamRaises(c.seen, parser) {
      LongerStreamRaises(c.seen, seen, parser);
    } else {
      ConsumeFollowsTheStream(c.seen, bytes, parser);
    }
  }

  lemma FreshIsSound(identity: int, parser: Parser)
    ensures Sound(FreshReader(identity), parser) && !StreamRaises([], parser)
  {
    hide Consume;
    FoldedUnlessRaising([], parser);
    P.PreviewIsBounded([], parser.decode);
    assert FoldOf([], parser) == NOTHING;
  }

  /** A look leaves a sound reader, and raises exactly when a record of its bytes does, unless one of
      those read before had raised already. */
  lemma ObserveKeepsSound(cached: Option<Cached>, look: Look, parser: Parser)
    requires look.Opened? && (cached.Some? ==> Sound(cached.value, parser))
    ensures var o := Observe(cached, look, parser);
      && Sound(o.cached, parser)
      && (!StreamRaises(Trusted(Start(cached, look), look).seen, parser) ==>
            o.raised == StreamRaises(o.cached.seen, parser))
  {
    hide StreamRaises, Folded, NextBytes, NextFold, Rechecked, FoundAnchor, P.WellFormed;
    FreshIsSound(look.identity, parser);
    var start := Start(cached, look);
    NextFoldIsSound(Trusted(start, look), look, READ_MAX_BYTES - |Rechecked(start, look)|, parser);
  }

  /** A look at a file that was only appended to goes on in place, from the offset. */
  lemma ObserveFollowsTheFile(cached: Option<Cached>, look: Look, parser: Parser)
    requires look.Opened?
    requires cached.Some? ==> cached.value.seen <= look.content
    ensures var o := Observe(cached, look, parser);
      && o.cached.seen <= look.content
      && Trusted(Start(cached, look), look) == Start(cached, look)
      && Start(cached, look).seen <= o.cached.seen
      && (InPlace(cached, look) <==> cached.Some? && !MustRestart(cached, look))
  {
    hide NextBytes, NextFold, Rechecked, FoundAnchor, ChecksAnchor;
    var start := Start(cached, look);
    FollowerIsTrusted(start, look);
    ReadingFollowsTheFile(start, look, READ_MAX_BYTES - |Rechecked(start, look)|);
  }

  /** Over every interleaving of appends, looks, failures and evictions, starting from an empty cache,
      raising looks included: at most 64 readers are kept, each has read exactly file[..offset], and it
      is the fold of `consume` over those bytes if and only if no record among them raises. */
  lemma {:induction false} EveryRunFollowsTheFiles(files: map<string, Bytes>, events: seq<Event>,
                                                   identities: string -> int, parser: Parser)
    ensures var w := Run(World(files, EMPTY_CACHE), events, identities, parser);
      && CacheValid(w.cache) && |w.cache.order| <= CACHE_MAX_FILES && ReadersFollowFiles(w, parser)
      && forall f | f in w.cache.readers && !StreamRaises(w.Content(f), parser) ::
           IsTheFold(w.cache.readers[f], parser)
  {
    hide StreamRaises, IsTheFold, Happen, Sound;
    if events != [] {
      var before := events[..|events| - 1];
      EveryRunFollowsTheFiles(files, before, identities, parser);
      HappenFollowsTheFiles(Run(World(files, EMPTY_CACHE), before, identities, parser), events[|events| - 1],
                            identities, parser);
    }
    var w := Run(World(files, EMPTY_CACHE), events, identities, parser);
    forall f | f in w.cache.readers && !StreamRaises(w.Content(f), parser)
      ensures IsTheFold(w.cache.readers[f], parser)
    {
      SoundBeforeRaising(w.cache.readers[f], w.Content(f), parser);
    }
  }

  /** Before a file that does not raise, a sound reader is the fold of what it has read. */
  lemma SoundBeforeRaising(c: Cached, content: Bytes, parser: Parser)
    requires Sound(c, parser) && c.seen <= content && !StreamRaises(content, parser)
    ensures !StreamRaises(c.seen, parser) && IsTheFold(c, parser)
  {
    hide StreamRaises, IsTheFold;
    if StreamRaises(c.seen, parser) {
      LongerStreamRaises(c.seen, content, parser);
    }
  }

  lemma HappenFollowsTheFiles(w: World, event: Event, identities: string -> int, parser: Parser)
    requires ReadersFollowFiles(w, parser) && CacheValid(w.cache)
    ensures var after := Happen(w, event, identities, parser);
      ReadersFollowFiles(after, parser) && CacheValid(after.cache)
  {
    hide Observe, Step, InPlace, Sound;
    if event.LookAt? {
      var look := Opened(identities(event.file), event.size, event.modified, w.Content(event.file));
      var cached := w.cache.Get(event.file);
      ObserveFollowsTheFile(cached, look, parser);
      ObserveKeepsSound(cached, look, parser);
      StepKeepsTheBound(w.cache, event.file, look, parser);
    } else if event.Fails? {
      ForgettingKeepsTheRest(w.cache, event.file, parser);
    }
  }

  lemma ForgettingKeepsTheRest(c: Cache, file: string, parser: Parser)
    requires CacheValid(c)
    ensures var c' := Step(c, file, Unreadable, parser);
      && CacheValid(c') && file !in c'.readers
      && (forall f | f in c'.readers :: f in c.readers && c'.readers[f] == c.readers[f])
  {
    StepKeepsTheBound(c, file, Unreadable, parser);
  }

  // ----- Catching up --------------------------------------------------------------------

  /** `count` consecutive looks at a file that does not change meanwhile. */
  function Repeated(cached: Option<Cached>, look: Look, count: nat, parser: Parser): Option<Cached>
    requires look.Opened?
  {
    if count == 0 then cached else After(Repeated(cached, look, count - 1, parser), look, parser)
  }

  ghost predicate UpToDate(c: Cached, look: Look)
    requires look.Opened?
  {
    c.identity == look.identity && c.observedSize == look.size && c.modified == look.modified
  }

  /** Once a file stands still, every look reads the next 512 KiB, also one that raises: the distance
      to the end strictly decreases until it is zero. */
  lemma NextLookReadsOn(c: Cached, look: Look, parser: Parser)
    requires look.Opened? && look.size == |look.content| && UpToDate(c, look) && c.seen <= look.content
    ensures var o := Observe(Some(c), look, parser);
      && After(Some(c), look, parser) == Some(o.cached)
      && UpToDate(o.cached, look) && o.cached.seen <= look.content
      && |o.cached.seen|
         == (if |c.seen| + READ_MAX_BYTES <= look.size then |c.seen| + READ_MAX_BYTES else look.size)
  {
    hide Consume;
  }

  /** The reader has read the whole file and is its fold. */
  predicate HasRead(cached: Option<Cached>, content: Bytes, parser: Parser) {
    cached.Some? && cached.value.seen == content && IsTheFold(cached.value, parser)
  }

  /** Looks at a file without raising records do not raise. */
  lemma LookDoesNotRaise(cached: Option<Cached>, look: Look, parser: Parser)
    requires look.Opened? && !StreamRaises(look.content, parser)
    requires cached.Some? ==> cached.value.seen <= look.content && Sound(cached.value, parser)
    ensures var o := Observe(cached, look, parser);
      && !o.raised && After(cached, look, parser) == Some(o.cached)
      && o.cached.seen <= look.content && Sound(o.cached, parser) && IsTheFold(o.cached, parser)
      && UpToDate(o.cached, look)
  {
    hide StreamRaises, IsTheFold, Sound, Start, Trusted, NextBytes, NextFold, Rechecked, FoundAnchor, InPlace;
    var o := Observe(cached, look, parser);
    ObserveFollowsTheFile(cached, look, parser);
    ObserveKeepsSound(cached, look, parser);
    SoundBeforeRaising(o.cached, look.content, parser);
    if StreamRaises(Start(cached, look).seen, parser) {
      LongerStreamRaises(Start(cached, look).seen, o.cached.seen, parser);
    }
  }

  lemma {:induction false} RepeatedLooksReadOn(cached: Option<Cached>, look: Look, count: nat, parser: Parser)
    requires look.Opened? && look.size == |look.content| && !StreamRaises(look.content, parser)
    requires cached.Some? ==> cached.value.seen <= look.content && Sound(cached.value, parser)
    requires count > 0
    ensures var after := Repeated(cached, look, count, parser);
      && after.Some? && UpToDate(after.value, look) && after.value.seen <= look.content
      && Sound(after.value, parser) && IsTheFold(after.value, parser)
      && (|after.value.seen| < look.size ==> |after.value.seen| >= (count - 1) * READ_MAX_BYTES)
      && ((count - 1) * READ_MAX_BYTES >= look.size ==> after.value.seen == look.content)
  {
    hide StreamRaises, IsTheFold, Sound, Observe, After;
    if count == 1 {
      assert Repeated(cached, look, 0, parser) == cached;
      LookDoesNotRaise(cached, look, parser);
    } else {
      RepeatedLooksReadOn(cached, look, count - 1, parser);
      var before := Repeated(cached, look, count - 1, parser);
      NextLookReadsOn(before.value, look, parser);
      LookDoesNotRaise(before, look, parser);
    }
  }

  /** From any cached state of the file, or none (new, reset or evicted), repeated looks at an
      unchanged file reach its end, with the fold of the whole file, exactly when none of its records
      raises. */
  lemma RepeatedLooksReachTheEnd(cached: Option<Cached>, look: Look, count: nat, parser: Parser)
    requires look.Opened? && look.size == |look.content|
    requires cached.Some? ==> cached.value.seen <= look.content && Sound(cached.value, parser)
    requires count > 0 && (count - 1) * READ_MAX_BYTES >= look.size
    ensures HasRead(Repeated(cached, look, count, parser), look.content, parser)
       <==> !StreamRaises(look.content, parser)
  {
    hide StreamRaises, Repeated;
    FoldedUnlessRaising(look.content, parser);
    if !StreamRaises(look.content, parser) {
      RepeatedLooksReadOn(cached, look, count, parser);
    }
  }

  // ----- Catching up in a run -----------------------------------------------------------

  /** A look at a file that stands still with this content. */
  function LookAtRest(identity: int, content: Bytes, modified: int): Look {
    Opened(identity, |content|, modified, content)
  }

  /** The event does not append to the file; no look at it fails or reports another size. */
  predicate LeavesAlone(event: Event, file: string, size: nat, modified: int) {
    match event
    case Append(f, _) => f != file
    case LookAt(f, s, m) => f == file ==> s == size && m == modified
    case Fails(f) => f != file
  }

  predicate StandsStill(events: seq<Event>, file: string, size: nat, modified: int) {
    forall e | e in events :: LeavesAlone(e, file, size, modified)
  }

  function Looks(events: seq<Event>, file: string): nat {
    if events == [] then 0
    else
      var last := events[|events| - 1];
      Looks(events[..|events| - 1], file) + (if last.LookAt? && last.file == file then 1 else 0)
  }

  /** The other files looked at since the last look at this one. */
  function Others(events: seq<Event>, file: string): set<string> {
    if events == [] then {}
    else
      var before, last := Others(events[..|events| - 1], file), events[|events| - 1];
      if !last.LookAt? then before else if last.file == file then {} else before + {last.file}
  }

  /** Fewer than 64 other files are looked at between two looks at this one, and after the last. */
  predicate KeptInUse(events: seq<Event>, file: string) {
    events != [] ==>
      && KeptInUse(events[..|events| - 1], file)
      && (Looks(events, file) > 0 ==> |Others(events, file)| < CACHE_MAX_FILES)
  }

  lemma WithoutStep(first: string, rest: seq<string>, file: string)
    ensures Without([first] + rest, file) == (if first == file then [] else [first]) + Without(rest, file)
  {
    assert ([first] + rest)[1..] == rest;
  }

  lemma {:induction false} WithoutOfConcatenation(a: seq<string>, b: seq<string>, file: string)
    ensures Without(a + b, file) == Without(a, file) + Without(b, file)
  {
    if a == [] {
      assert a + b == b;
    } else {
      var rest := a[1..];
      assert a == [a[0]] + rest && a + b == [a[0]] + (rest + b);
      WithoutOfConcatenation(rest, b, file);
      hide Without;
      WithoutStep(a[0], rest, file);
      WithoutStep(a[0], rest + b, file);
    }
  }

  /** The files more recent than `file` are among `others`. */
  ghost predicate RecentBut(order: seq<string>, file: string, others: set<string>) {
    exists older, newer ::
      order == older + [file] + newer && (forall f | f in newer :: f in others)
  }

  lemma RecentIsKept(c: Cache, file: string, others: set<string>)
    requires CacheValid(c) && RecentBut(c.order, file, others)
    ensures file in c.readers
  {
  }

  /** Storing a reader drops the oldest one beyond 64; `file` is not it. */
  lemma FullCacheKeepsRecent(full: Cache, older: seq<string>, file: string, newer: seq<string>, others: set<string>)
    requires full.order == older + [file] + newer && (forall f | f in newer :: f in others)
    requires Distinct(full.order) && |others| < CACHE_MAX_FILES
    requires |full.order| <= CACHE_MAX_FILES + 1 && (forall f :: f in full.order <==> f in full.readers)
    ensures RecentBut(Evict(full).order, file, others)
  {
    if |full.order| > CACHE_MAX_FILES {
      hide Evict, CacheValid;
      EvictOne(full);
      if older == [] {
        assert newer == full.order[1..];
        DistinctFits(newer, others);
        assert false;
      } else {
        assert full.order[1..] == older[1..] + [file] + newer;
      }
    }
  }

  lemma OlderFilesAreEvicted(c: Cache, file: string, other: string, others: set<string>, reader: Cached)
    requires CacheValid(c) && other != file && RecentBut(c.order, file, others)
    requires |others + {other}| < CACHE_MAX_FILES
    ensures RecentBut(Remember(c, other, reader).order, file, others + {other})
  {
    hide Without, Evict, RecentBut;
    ForgottenStaysRecent(c, file, other, others);
    WithoutIsDistinct(c.order, other);
    var full := Cache(c.readers[other := reader], Without(c.order, other) + [other]);
    var older, newer := RecentSplit(Without(c.order, other), file, others);
    assert full.order == older + [file] + (newer + [other]);
    FullCacheKeepsRecent(full, older, file, newer + [other], others + {other});
  }

  lemma RecentSplit(order: seq<string>, file: string, others: set<string>)
    returns (older: seq<string>, newer: seq<string>)
    requires RecentBut(order, file, others)
    ensures order == older + [file] + newer && (forall f | f in newer :: f in others)
  {
    older, newer :| order == older + [file] + newer && (forall f | f in newer :: f in others);
  }

  lemma ForgottenStaysRecent(c: Cache, file: string, other: string, others: set<string>)
    requires other != file && RecentBut(c.order, file, others)
    ensures RecentBut(Forget(c, other).order, file, others)
  {
    var older, newer :| c.order == older + [file] + newer && (forall f | f in newer :: f in others);
    WithoutOfConcatenation(older + [file], newer, other);
    WithoutOfConcatenation(older, [file], other);
    assert Forget(c, other).order == Without(older, other) + [file] + Without(newer, other);
  }

  lemma RememberedIsRecent(c: Cache, file: string, reader: Cached)
    requires CacheValid(c)
    ensures RecentBut(Remember(c, file, reader).order, file, {})
  {
    WithoutIsDistinct(c.order, file);
    var full := Cache(c.readers[file := reader], Without(c.order, file) + [file]);
    assert full.order == Without(c.order, file) + [file] + [];
    if |full.order| > CACHE_MAX_FILES {
      EvictOne(full);
      assert full.order[1..] == full.order[1..|full.order| - 1] + [file] + [];
    }
  }

  /** What a run from `start` keeps of the reader of a file that stands still: it is what its
      looks made of the reader at the start, or of none. */
  ghost predicate Follows(start: Option<Cached>, events: seq<Event>, c: Cache, file: string, look: Look,
                          parser: Parser)
    requires look.Opened?
  {
    var n := Looks(events, file);
    && (c.Get(file) == Repeated(start, look, n, parser) || c.Get(file) == Repeated(None, look, n, parser))
    && (n > 0 ==> RecentBut(c.order, file, Others(events, file)))
  }

  lemma LookFollows(start: Option<Cached>, before: seq<Event>, event: Event, c: Cache, file: string, look: Look,
                    parser: Parser)
    requires CacheValid(c) && look.Opened? && Follows(start, before, c, file, look, parser)
    requires !StreamRaises(look.content, parser)
    requires file in c.readers ==> c.readers[file].seen <= look.content && Sound(c.readers[file], parser)
    requires event == LookAt(file, look.size, look.modified)
    ensures Follows(start, before + [event], Step(c, file, look, parser), file, look, parser)
  {
    hide Observe, Remember, CacheValid, RecentBut, Sound, IsTheFold, StreamRaises, InPlace;
    var events := before + [event];
    assert events[..|before|] == before;
    LookDoesNotRaise(c.Get(file), look, parser);
    var reader := Observe(c.Get(file), look, parser).cached;
    RememberKeepsTheBound(c, file, reader);
    RememberedIsRecent(c, file, reader);
  }

  lemma MoreOthers(order: seq<string>, file: string, others: set<string>, more: set<string>)
    requires RecentBut(order, file, others) && others <= more
    ensures RecentBut(order, file, more)
  {
    var older, newer := RecentSplit(order, file, others);
  }

  /** A look at another file: the order changes only when it does not raise. */
  lemma OtherStepIsRecent(c: Cache, file: string, other: string, look: Look, others: set<string>, parser: Parser)
    requires CacheValid(c) && look.Opened? && other != file && RecentBut(c.order, file, others)
    requires |others + {other}| < CACHE_MAX_FILES
    ensures RecentBut(Step(c, other, look, parser).order, file, others + {other})
  {
    hide Observe, Remember, CacheValid, RecentBut, InPlace;
    MoreOthers(c.order, file, others, others + {other});
    OlderFilesAreEvicted(c, file, other, others, Observe(c.Get(other), look, parser).cached);
  }

  lemma OtherEventFollows(start: Option<Cached>, before: seq<Event>, event: Event, w: World, file: string,
                          look: Look, identities: string -> int, parser: Parser)
    requires CacheValid(w.cache) && look.Opened? && Follows(start, before, w.cache, file, look, parser)
    requires !event.Append? ==> event.file != file
    requires KeptInUse(before + [event], file)
    ensures Follows(start, before + [event], Happen(w, event, identities, parser).cache, file, look, parser)
  {
    hide Step, RecentBut, CacheValid;
    var events := before + [event];
    assert events[..|before|] == before;
    if event.Fails? {
      StepKeepsTheBound(w.cache, event.file, Unreadable, parser);
      if Looks(before, file) > 0 {
        ForgottenStepIsRecent(w.cache, file, event.file, Others(before, file), parser);
        RecentIsKept(Step(w.cache, event.file, Unreadable, parser), file, Others(before, file));
      }
    } else if event.LookAt? {
      var other := Opened(identities(event.file), event.size, event.modified, w.Content(event.file));
      StepKeepsTheBound(w.cache, event.file, other, parser);
      if Looks(before, file) > 0 {
        OtherStepIsRecent(w.cache, file, event.file, other, Others(before, file), parser);
        RecentIsKept(Step(w.cache, event.file, other, parser), file, Others(events, file));
      }
    }
  }

  lemma ForgottenStepIsRecent(c: Cache, file: string, other: string, others: set<string>, parser: Parser)
    requires other != file && RecentBut(c.order, file, others)
    ensures RecentBut(Step(c, other, Unreadable, parser).order, file, others)
  {
    hide RecentBut, Forget;
    ForgottenStaysRecent(c, file, other, others);
  }

  lemma HappenFollows(start: Option<Cached>, before: seq<Event>, event: Event, w: World, file: string,
                      modified: int, identities: string -> int, parser: Parser)
    requires CacheValid(w.cache) && ReadersFollowFiles(w, parser)
    requires StandsStill([event], file, |w.Content(file)|, modified) && KeptInUse(before + [event], file)
    requires !StreamRaises(w.Content(file), parser)
    requires var look := LookAtRest(identities(file), w.Content(file), modified);
      Follows(start, before, w.cache, file, look, parser)
    ensures var after := Happen(w, event, identities, parser);
      && after.Content(file) == w.Content(file)
      && Follows(start, before + [event], after.cache, file,
                 LookAtRest(identities(file), w.Content(file), modified), parser)
  {
    hide Follows, KeptInUse, CacheValid, Step, Sound, StreamRaises;
    assert event in [event];
    var look := LookAtRest(identities(file), w.Content(file), modified);
    if event.LookAt? && event.file == file {
      LookFollows(start, before, event, w.cache, file, look, parser);
    } else {
      OtherEventFollows(start, before, event, w, file, look, identities, parser);
    }
  }

  lemma StandsStillParts(before: seq<Event>, event: Event, file: string, size: nat, modified: int)
    requires StandsStill(before + [event], file, size, modified)
    ensures StandsStill(before, file, size, modified) && StandsStill([event], file, size, modified)
  {
    hide LeavesAlone;
    assert event in before + [event];
    forall e | e in before ensures e in before + [event] {
    }
  }

  lemma {:induction false} RunFollows(w: World, events: seq<Event>, identities: string -> int, file: string,
                                      modified: int, parser: Parser)
    requires CacheValid(w.cache) && ReadersFollowFiles(w, parser)
    requires StandsStill(events, file, |w.Content(file)|, modified) && KeptInUse(events, file)
    requires !StreamRaises(w.Content(file), parser)
    ensures var after := Run(w, events, identities, parser);
      && CacheValid(after.cache) && ReadersFollowFiles(after, parser) && after.Content(file) == w.Content(file)
      && Follows(w.cache.Get(file), events, after.cache, file,
                 LookAtRest(identities(file), w.Content(file), modified), parser)
  {
    hide CacheValid, ReadersFollowFiles, Happen, StreamRaises;
    if events != [] {
      var before, event := events[..|events| - 1], events[|events| - 1];
      assert events == before + [event];
      StandsStillParts(before, event, file, |w.Content(file)|, modified);
      hide StandsStill;
      RunFollows(w, before, identities, file, modified, parser);
      hide Follows, KeptInUse;
      var middle := Run(w, before, identities, parser);
      HappenFollowsTheFiles(middle, event, identities, parser);
      HappenFollows(w.cache.Get(file), before, event, middle, file, modified, identities, parser);
    }
  }

  lemma RunReadsOn(w: World, events: seq<Event>, identities: string -> int, file: string, modified: int, parser: Parser)
    requires CacheValid(w.cache) && ReadersFollowFiles(w, parser)
    requires StandsStill(events, file, |w.Content(file)|, modified) && KeptInUse(events, file)
    requires Looks(events, file) > 0 && !StreamRaises(w.Content(file), parser)
    ensures var reader, content := Run(w, events, identities, parser).cache.Get(file), w.Content(file);
      && reader.Some? && reader.value.seen <= content && IsTheFold(reader.value, parser)
      && (reader.value.seen != content ==> |reader.value.seen| >= (Looks(events, file) - 1) * READ_MAX_BYTES)
      && ((Looks(events, file) - 1) * READ_MAX_BYTES >= |content| ==> reader.value.seen == content)
  {
    hide Run, CacheValid, Repeated, Looks, StandsStill, KeptInUse, Sound, IsTheFold, StreamRaises;
    var look := LookAtRest(identities(file), w.Content(file), modified);
    RunFollows(w, events, identities, file, modified, parser);
    RepeatedLooksReadOn(w.cache.Get(file), look, Looks(events, file), parser);
    RepeatedLooksReadOn(None, look, Looks(events, file), parser);
  }

  /** In every run, whatever is looked at, raises, is forgotten or appended to in between: a file that
      stands still, looked at again before 64 other files were, is read on by 512 KiB at each look as
      long as none of its records raises; and after enough looks its reader is the fold of the whole
      file if and only if none does. */
  lemma EveryRunReachesTheEnd(w: World, events: seq<Event>, identities: string -> int, file: string, modified: int,
                              parser: Parser)
    requires CacheValid(w.cache) && ReadersFollowFiles(w, parser)
    requires StandsStill(events, file, |w.Content(file)|, modified) && KeptInUse(events, file)
    requires Looks(events, file) > 0
    ensures var reader, content := Run(w, events, identities, parser).cache.Get(file), w.Content(file);
      && (!StreamRaises(content, parser) ==>
            && reader.Some? && reader.value.seen <= content && IsTheFold(reader.value, parser)
            && (reader.value.seen != content ==>
                  |reader.value.seen| >= (Looks(events, file) - 1) * READ_MAX_BYTES))
      && ((Looks(events, file) - 1) * READ_MAX_BYTES >= |content| ==>
            (HasRead(reader, content, parser) <==> !StreamRaises(content, parser)))
  {
    hide Run, CacheValid, ReadersFollowFiles, Looks, StandsStill, KeptInUse, StreamRaises;
    FoldedUnlessRaising(w.Content(file), parser);
    if !StreamRaises(w.Content(file), parser) {
      RunReadsOn(w, events, identities, file, modified, parser);
    }
  }

  // ----- Records that raise -------------------------------------------------------------

  /** A file without a cached reader whose first bytes raise stays without one at every later look,
      however it grows. */
  lemma UncachedFileRaisesAgain(look: Look, later: Look, parser: Parser)
    requires look.Opened? && later.Opened? && look.size <= later.size && look.content <= later.content
    requires Observe(None, look, parser).raised
    ensures Observe(None, later, parser).raised && After(None, later, parser) == None
  {
    hide StreamRaises, Sound, NextFold;
    ObserveKeepsSound(None, look, parser);
    ObserveKeepsSound(None, later, parser);
    FreshIsSound(look.identity, parser);
    var seen, more := Observe(None, look, parser).cached.seen, Observe(None, later, parser).cached.seen;
    assert seen <= more by {
      FirstBytesGrow(look, later, parser);
    }
    LongerStreamRaises(seen, more, parser);
  }

  lemma FirstBytesGrow(look: Look, later: Look, parser: Parser)
    requires look.Opened? && later.Opened? && look.size <= later.size && look.content <= later.content
    ensures Observe(None, look, parser).cached.seen <= Observe(None, later, parser).cached.seen
  {
    hide NextFold;
    if look.size > 0 {
      assert ReadAt(look.content, 0, READ_MAX_BYTES) <= ReadAt(later.content, 0, READ_MAX_BYTES);
    }
  }
}
