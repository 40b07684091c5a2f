/** What every run of download turns leaves in the receipt directory. */
module SessionChain {
  import opened Wrappers
  import opened PythonText
  import opened Refs
  import opened Decimals
  import opened SessionReceipts

  /** The first number whose file name is longer than the others. */
  const NAMES_END := 100_000_000

  lemma NamesEnd()
    ensures Power10(NAME_WIDTH) == NAMES_END
  {
    assert Power10(4) == 10_000;
    assert Power10(6) == 1_000_000;
  }

  // ---- File names

  lemma NamesAreOrdered(a: nat, b: nat)
    requires a < b < NAMES_END
    ensures Before(Name(a), Name(b))
  {
    NamesEnd();
    PaddedLength(a, NAME_WIDTH);
    PaddedLength(b, NAME_WIDTH);
    PaddedIsMonotone(a, b, NAME_WIDTH);
    var x, y := Padded(a, NAME_WIDTH), Padded(b, NAME_WIDTH);
    BeforeWithTails(x, y, Points(".json"), Points(".json"));
    BeforeAfterPrefix(Points("turn-"), x + Points(".json"), y + Points(".json"));
    assert Name(a) == Points("turn-") + (x + Points(".json"));
    assert Name(b) == Points("turn-") + (y + Points(".json"));
  }

  /** The name after the last of eight digits sorts before names of smaller numbers. */
  lemma NineDigitsSortEarly()
    ensures Before(Name(NAMES_END), Name(NAMES_END / 10 + 1))
  {
    hide Before, Padded, Power10;
    NamesEnd();
    var tenth := NAMES_END / 10;
    var x, y := Padded(tenth, NAME_WIDTH), Padded(tenth + 1, NAME_WIDTH);
    PaddedLength(tenth, NAME_WIDTH);
    PaddedLength(tenth + 1, NAME_WIDTH);
    PaddedIsMonotone(tenth, tenth + 1, NAME_WIDTH);
    LastDigitApart(x);
    var suffix := Points(".json");
    BeforeWithTails(x, y, [ZERO] + suffix, suffix);
    BeforeAfterPrefix(Points("turn-"), x + ([ZERO] + suffix), y + suffix);
    assert Name(NAMES_END) == Points("turn-") + (x + ([ZERO] + suffix));
    assert Name(tenth + 1) == Points("turn-") + (y + suffix);
  }

  lemma LastDigitApart(x: Str)
    requires x == Padded(NAMES_END / 10, NAME_WIDTH)
    ensures Padded(NAMES_END, NAME_WIDTH) == x + [ZERO]
  {
    assert Power10(7) == NAMES_END / 10 by {
      NamesEnd();
    }
    WidthDoesNotMatter(NAMES_END / 10, NAME_WIDTH - 1);
  }

  /** Numbers with enough digits look the same in a smaller width. */
  lemma {:induction false} WidthDoesNotMatter(n: nat, width: nat)
    requires n >= Power10(width)
    ensures Padded(n, width) == Padded(n, width + 1)
    decreases width
  {
    if width > 0 {
      WidthDoesNotMatter(n / 10, width - 1);
    }
  }

  lemma NamesAreDistinct(a: nat, b: nat)
    requires Name(a) == Name(b)
    ensures a == b
  {
    var x, y := Padded(a, NAME_WIDTH), Padded(b, NAME_WIDTH);
    assert |x| == |y|;
    assert x == Name(a)[5..5 + |x|] && y == Name(b)[5..5 + |y|];
    PaddedIsReadBack(a, NAME_WIDTH);
    PaddedIsReadBack(b, NAME_WIDTH);
  }

  // ---- The directory of a chain

  /** The files of receipts that were written one after the other. */
  ghost function FilesOf(chain: seq<Receipt>): Directory {
    if chain == [] then map[] else FilesOf(chain[..|chain| - 1])[Name(|chain|) := chain[|chain| - 1]]
  }

  lemma {:induction false} FileAt(chain: seq<Receipt>, i: nat)
    requires i < |chain|
    ensures Name(i + 1) in FilesOf(chain) && FilesOf(chain)[Name(i + 1)] == chain[i]
  {
    hide Name;
    var n := |chain|;
    if i < n - 1 {
      FileAt(chain[..n - 1], i);
      if Name(i + 1) == Name(n) {
        NamesAreDistinct(i + 1, n);
      }
    }
  }

  lemma {:induction false} FileIsNamed(chain: seq<Receipt>, name: Str) returns (i: nat)
    requires name in FilesOf(chain)
    ensures i < |chain| && name == Name(i + 1) && FilesOf(chain)[name] == chain[i]
  {
    hide Name;
    var n := |chain|;
    if name == Name(n) {
      i := n - 1;
    } else {
      i := FileIsNamed(chain[..n - 1], name);
    }
  }

  lemma NextFile(chain: seq<Receipt>, r: Receipt)
    ensures FilesOf(chain + [r]) == FilesOf(chain)[Name(|chain| + 1) := r]
  {
    hide Name;
    assert (chain + [r])[..|chain|] == chain;
  }

  ghost function NamesOf(n: nat): seq<Str> {
    seq(n, i requires 0 <= i < n => Name(i + 1))
  }

  lemma NamesAreAscending(n: nat)
    requires n < NAMES_END
    ensures Ascending(NamesOf(n))
  {
    hide Name, Before;
    var names := NamesOf(n);
    forall i, j | 0 <= i < j < |names| ensures Before(names[i], names[j]) {
      NamesAreOrdered(i + 1, j + 1);
    }
  }

  lemma NamesAreTheFiles(chain: seq<Receipt>)
    ensures Elements(NamesOf(|chain|)) == FilesOf(chain).Keys
  {
    hide Name, FilesOf;
    var names, keys := NamesOf(|chain|), FilesOf(chain).Keys;
    forall name | name in keys ensures name in Elements(names) {
      var i := FileIsNamed(chain, name);
      assert names[i] == name;
    }
    forall name | name in Elements(names) ensures name in keys {
      var i :| 0 <= i < |names| && names[i] == name;
      FileAt(chain, i);
    }
  }

  lemma NamesOfChain(chain: seq<Receipt>)
    requires |chain| < NAMES_END
    ensures SortedRefs(FilesOf(chain).Keys) == NamesOf(|chain|)
  {
    hide FilesOf, SortedRefs, NamesOf, Ascending, Elements;
    NamesAreAscending(|chain|);
    NamesAreTheFiles(chain);
    SortedIsUnique(NamesOf(|chain|), SortedRefs(FilesOf(chain).Keys));
  }

  lemma ListingOfChain(chain: seq<Receipt>)
    requires |chain| < NAMES_END
    ensures Listing(FilesOf(chain)) == chain
  {
    hide Name, FilesOf, SortedRefs;
    NamesOfChain(chain);
    forall i | 0 <= i < |chain| ensures Listing(FilesOf(chain))[i] == chain[i] {
      FileAt(chain, i);
      assert SortedRefs(FilesOf(chain).Keys)[i] == Name(i + 1);
    }
  }

  lemma ListedName(files: Directory, k: nat)
    requires k < |SortedRefs(files.Keys)|
    ensures SortedRefs(files.Keys)[k] in files && Listing(files)[k] == files[SortedRefs(files.Keys)[k]]
  {
    hide SortedRefs;
    assert SortedRefs(files.Keys)[k] in Elements(SortedRefs(files.Keys));
  }

  lemma NameIsListed(files: Directory, name: Str) returns (k: nat)
    requires name in files
    ensures k < |SortedRefs(files.Keys)| && SortedRefs(files.Keys)[k] == name
  {
    hide SortedRefs;
    var names := SortedRefs(files.Keys);
    assert name in Elements(names);
    k :| k < |names| && names[k] == name;
  }

  ghost predicate Numbered(chain: seq<Receipt>) {
    forall i | 0 <= i < |chain| :: chain[i].generation == i + 1
  }

  /** In an accepted listing the file at position k is the one named after k + 1. */
  lemma NameAtPosition(chain: seq<Receipt>, session: string, hash: CheckpointHash, k: nat)
    requires Numbered(chain) && IsChain(Listing(FilesOf(chain)), session, hash)
    requires k < |SortedRefs(FilesOf(chain).Keys)|
    ensures SortedRefs(FilesOf(chain).Keys)[k] == Name(k + 1)
  {
    hide Name, FilesOf, SortedRefs, Listing;
    var files := FilesOf(chain);
    ListedName(files, k);
    var i := FileIsNamed(chain, SortedRefs(files.Keys)[k]);
    assert Fits(Listing(files), k, session, hash);
  }

  lemma NineDigitsBreakTheListing(chain: seq<Receipt>, session: string, hash: CheckpointHash)
    requires Numbered(chain) && |chain| >= NAMES_END
    ensures !IsChain(Listing(FilesOf(chain)), session, hash)
  {
    hide Name, Before, FilesOf, SortedRefs, Listing, IsChain;
    var files := FilesOf(chain);
    var names := SortedRefs(files.Keys);
    if IsChain(Listing(files), session, hash) {
      FileAt(chain, NAMES_END - 1);
      var k := NameIsListed(files, Name(NAMES_END));
      NameAtPosition(chain, session, hash, k);
      NamesAreDistinct(k + 1, NAMES_END);
      var early := NAMES_END / 10;
      NameAtPosition(chain, session, hash, early);
      assert Before(names[early], names[k]);
      NineDigitsSortEarly();
      BeforeIsTransitive(names[k], names[early], names[k]);
      BeforeIsStrict(names[k]);
    }
  }

  /** A chain is read back from its files exactly while the numbers fit in eight digits. */
  lemma ReadBackWhileNamesSort(chain: seq<Receipt>, session: string, hash: CheckpointHash)
    requires IsChain(chain, session, hash)
    ensures Receipts(FilesOf(chain), session, hash) == if |chain| < NAMES_END then Some(chain) else None
  {
    hide Listing, FilesOf;
    if |chain| < NAMES_END {
      ListingOfChain(chain);
    } else {
      forall i: nat | i < |chain| ensures chain[i].generation == i + 1 {
        assert Fits(chain, i, session, hash);
      }
      NineDigitsBreakTheListing(chain, session, hash);
    }
  }

  // ---- Runs

  ghost predicate DistinctJobs(chain: seq<Receipt>) {
    forall i, j | 0 <= i < j < |chain| :: chain[i].job != chain[j].job
  }

  /** A chain whose last receipt may name an empty native session. */
  ghost predicate Grown(chain: seq<Receipt>, session: string, hash: CheckpointHash) {
    chain != [] ==>
      && IsChain(chain[..|chain| - 1], session, hash)
      && Continues(chain, |chain| - 1, session, hash)
  }

  /** The native session of the last receipt can be resumed. */
  predicate EndsUsable(chain: seq<Receipt>) {
    chain != [] ==> chain[|chain| - 1].native != ""
  }

  /** The directory holds exactly the files of these receipts. */
  ghost predicate Holds(s: State, session: string, hash: CheckpointHash, chain: seq<Receipt>) {
    && s.files == FilesOf(chain) && Grown(chain, session, hash) && DistinctJobs(chain)
    && |chain| <= NAMES_END
  }

  /** The entry continues the chain as `_work` builds it. */
  predicate WellMade(e: Entry, hash: CheckpointHash) {
    match e.replacement
    case None => true
    case Some(replacement) =>
      && e.previous.Some? && Some(e.native) != e.previous
      && ProvesUnavailable(replacement.checkpoint, e.previous)
      && e.job == ReplacementJob(replacement.job, replacement.checkpoint, hash)
  }

  lemma OneMoreFits(chain: seq<Receipt>, session: string, hash: CheckpointHash, r: Receipt)
    requires IsChain(chain, session, hash)
    ensures IsChain(chain + [r], session, hash) <==> Fits(chain + [r], |chain|, session, hash)
    ensures Grown(chain + [r], session, hash) <==> Continues(chain + [r], |chain|, session, hash)
  {
    assert (chain + [r])[..|chain|] == chain;
    forall i: nat | i < |chain| ensures Fits(chain + [r], i, session, hash) {
      assert Fits(chain, i, session, hash);
    }
  }

  /** An entry that is appended leaves a readable directory exactly when its native reference is not
      empty and its number fits in the name. */
  lemma AppendedIsReadable(chain: seq<Receipt>, session: string, hash: CheckpointHash, e: Entry)
    requires IsChain(chain, session, hash) && WellMade(e, hash)
    requires var o := Append(FilesOf(chain), session, hash, e); o.accepted && o.files != FilesOf(chain)
    ensures Receipts(Append(FilesOf(chain), session, hash, e).files, session, hash).Some?
       <==> e.native != "" && |chain| + 1 < NAMES_END
    ensures var more := chain + [e.At(session, |chain| + 1)];
      && Append(FilesOf(chain), session, hash, e).files == FilesOf(more)
      && Grown(more, session, hash) && (IsChain(more, session, hash) <==> e.native != "")
  {
    hide Name, Receipts, FilesOf, ProvesUnavailable, ReplacementJob;
    ReadBackWhileNamesSort(chain, session, hash);
    var r := e.At(session, |chain| + 1);
    var more := chain + [r];
    NextFile(chain, r);
    OneMoreFits(chain, session, hash, r);
    if e.native != "" {
      ReadBackWhileNamesSort(more, session, hash);
    } else {
      EmptyNativeIsRefused(chain, session, hash, r);
    }
  }

  /** A receipt with an empty native session makes the directory unreadable. */
  lemma EmptyNativeIsRefused(chain: seq<Receipt>, session: string, hash: CheckpointHash, r: Receipt)
    requires r.native == ""
    ensures Receipts(FilesOf(chain + [r]), session, hash).None?
  {
    hide Name, FilesOf, SortedRefs, Listing;
    var more := chain + [r];
    var files := FilesOf(more);
    FileAt(more, |chain|);
    var k := NameIsListed(files, Name(|chain| + 1));
    ListedName(files, k);
    if IsChain(Listing(files), session, hash) {
      NativesAreSet(Listing(files), session, hash);
    }
  }

  /** Receipts as they were written are a chain exactly when the last one can be resumed, and read
      back exactly when also their numbers fit in the names. */
  lemma GrownIsReadBack(chain: seq<Receipt>, session: string, hash: CheckpointHash)
    requires Grown(chain, session, hash)
    ensures IsChain(chain, session, hash) <==> EndsUsable(chain)
    ensures Receipts(FilesOf(chain), session, hash)
         == if EndsUsable(chain) && |chain| < NAMES_END then Some(chain) else None
  {
    hide Receipts, FilesOf, Continues;
    if chain == [] {
      EmptyIsAChain(session, hash);
      ReadBackWhileNamesSort(chain, session, hash);
    } else {
      var before, r := chain[..|chain| - 1], chain[|chain| - 1];
      assert chain == before + [r];
      OneMoreFits(before, session, hash, r);
      if r.native != "" {
        ReadBackWhileNamesSort(chain, session, hash);
      } else {
        EmptyNativeIsRefused(before, session, hash, r);
      }
    }
  }

  lemma EmptyIsAChain(session: string, hash: CheckpointHash)
    ensures IsChain([], session, hash) && DistinctJobs([])
  {
  }

  lemma NativesAreSet(receipts: seq<Receipt>, session: string, hash: CheckpointHash)
    requires IsChain(receipts, session, hash)
    ensures forall i | 0 <= i < |receipts| :: receipts[i].native != ""
  {
    forall i: nat | i < |receipts| ensures receipts[i].native != "" {
      assert Fits(receipts, i, session, hash);
    }
  }

  predicate OneMore(chain: seq<Receipt>, more: seq<Receipt>) {
    |more| == |chain| + 1 && chain <= more
  }

  /** A provider turn of the call answered with this native session. */
  predicate Reports(turn: Turn, native: string) {
    || (turn.first.Answered? && turn.first.native == Some(native))
    || (turn.second.Answered? && turn.second.native == Some(native))
  }

  /** Every native session of the receipts was reported in one of the turns. */
  ghost predicate AllReported(chain: seq<Receipt>, turns: seq<Turn>) {
    forall r | r in chain :: exists turn | turn in turns :: Reports(turn, r.native)
  }

  /** Recording keeps the chain, extending it by at most one receipt. */
  lemma RecordKeepsChain(s: State, session: string, hash: CheckpointHash, chain: seq<Receipt>,
                         native: Option<string>, e: Entry) returns (more: seq<Receipt>)
    requires Holds(s, session, hash, chain)
    requires native.Some? && !(e.replacement.Some? && native == e.previous) ==>
      WellMade(e.(native := native.value), hash)
    ensures Holds(Record(s, session, hash, native, e).state, session, hash, more)
    ensures more == chain || (OneMore(chain, more) && native == Some(more[|chain|].native))
  {
    hide Receipts, FilesOf, ProvesUnavailable, ReplacementJob;
    more := chain;
    if native.Some? && !(e.replacement.Some? && native == e.previous) {
      var entry := e.(native := native.value);
      var appended := Append(s.files, session, hash, entry);
      if appended.accepted && appended.files != s.files {
        GrownIsReadBack(chain, session, hash);
        AppendedIsReadable(chain, session, hash, entry);
        more := chain + [entry.At(session, |chain| + 1)];
      } else {
        AppendWithoutChange(s.files, session, hash, entry);
      }
    }
  }

  lemma AppendWithoutChange(files: Directory, session: string, hash: CheckpointHash, e: Entry)
    ensures !Append(files, session, hash, e).accepted ==> Append(files, session, hash, e).files == files
  {
    hide Receipts, Name;
  }

  lemma ReplaceKeepsChain(s: State, session: string, hash: CheckpointHash, chain: seq<Receipt>,
                          previous: Option<string>, turn: Turn) returns (more: seq<Receipt>)
    requires Holds(s, session, hash, chain) && AllowsReplacement(turn.first, previous)
    ensures Holds(Replace(s, session, hash, previous, turn).state, session, hash, more)
    ensures more == chain || (OneMore(chain, more) && Reports(turn, more[|chain|].native))
  {
    hide Record, FilesOf, IsChain, DistinctJobs;
    more := chain;
    var checkpoint := turn.first.checkpoint.value;
    var job := ReplacementJob(turn.job, checkpoint, hash);
    if turn.second.Answered? {
      var begun := s.(invocations := Begun(s.invocations, job, None));
      more := RecordKeepsChain(begun, session, hash, chain, turn.second.native,
        Entry("", previous, job, turn.phase, Some(Replacement(turn.job, checkpoint))));
    }
  }

  /** One turn, fresh, replayed or replaced, keeps the chain and adds at most one receipt to it, of a
      native session that it reported. */
  lemma WorkKeepsChain(s: State, session: string, hash: CheckpointHash, chain: seq<Receipt>, turn: Turn)
    returns (more: seq<Receipt>)
    requires Holds(s, session, hash, chain)
    ensures Holds(Work(s, session, hash, turn).state, session, hash, more)
    ensures more == chain || (OneMore(chain, more) && Reports(turn, more[|chain|].native))
  {
    hide Record, Replace, Receipts, FilesOf, IsChain, DistinctJobs, AllowsReplacement;
    more := chain;
    var read := Receipts(s.files, session, hash);
    if read.Some? {
      var previous := PreviousOf(s, read.value, turn.job);
      var begun := if turn.begun || turn.first.Answered?
                   then s.(invocations := Begun(s.invocations, turn.job, previous)) else s;
      if turn.first.Answered? {
        more := RecordKeepsChain(begun, session, hash, chain, turn.first.native,
          Entry("", previous, turn.job, turn.phase, None));
      } else if AllowsReplacement(turn.first, previous) {
        more := ReplaceKeepsChain(begun, session, hash, chain, previous, turn);
      }
    }
  }

  lemma ReportedInMore(chain: seq<Receipt>, more: seq<Receipt>, before: seq<Turn>, turn: Turn)
    requires AllReported(chain, before)
    requires more == chain || (OneMore(chain, more) && Reports(turn, more[|chain|].native))
    ensures AllReported(more, before + [turn])
  {
    hide Reports;
    var turns := before + [turn];
    assert turn in turns && forall t | t in before :: t in turns;
    forall r | r in more ensures exists t | t in turns :: Reports(t, r.native) {
      if r !in chain {
        assert r == more[|chain|];
      }
    }
  }

  /** Every run of turns from an empty directory, whatever the providers report, leaves the files of
      receipts numbered without gaps, each resuming the native session before it except at a
      replacement, no job twice, every native session one that a turn reported.  The reader returns
      them exactly when the last native reference is not empty and the numbers fit in the file names. */
  lemma {:induction false} EveryRunLeavesAChain(session: string, hash: CheckpointHash, turns: seq<Turn>)
    returns (chain: seq<Receipt>)
    ensures var s := Run(State(map[], map[]), session, hash, turns);
      && Holds(s, session, hash, chain) && |chain| <= |turns| && AllReported(chain, turns)
      && Receipts(s.files, session, hash) == (if EndsUsable(chain) && |chain| < NAMES_END then Some(chain) else None)
  {
    hide Work, Receipts, IsChain, DistinctJobs, Continues, EndsUsable, AllReported, Reports;
    var start := State(map[], map[]);
    if turns == [] {
      chain := [];
      EmptyIsAChain(session, hash);
      NothingIsReported();
    } else {
      var before, last := turns[..|turns| - 1], turns[|turns| - 1];
      var shorter := EveryRunLeavesAChain(session, hash, before);
      chain := WorkKeepsChain(Run(start, session, hash, before), session, hash, shorter, last);
      assert turns == before + [last];
      ReportedInMore(shorter, chain, before, last);
    }
    GrownIsReadBack(chain, session, hash);
  }

  lemma NothingIsReported()
    ensures AllReported([], [])
  {
  }

  /** No provider turn reports an empty native session. */
  ghost predicate ReportsAreNonempty(turns: seq<Turn>) {
    forall turn | turn in turns :: !Reports(turn, "")
  }

  /** As long as no turn reports an empty native session and there are fewer than 10^8 turns, the reader
      accepts what every run leaves and returns the whole chain. */
  lemma EveryRunIsReadBack(session: string, hash: CheckpointHash, turns: seq<Turn>) returns (chain: seq<Receipt>)
    requires ReportsAreNonempty(turns) && |turns| < NAMES_END
    ensures var s := Run(State(map[], map[]), session, hash, turns);
      && Receipts(s.files, session, hash) == Some(chain)
      && Holds(s, session, hash, chain) && IsChain(chain, session, hash) && AllReported(chain, turns)
  {
    hide Run, Receipts, Grown, Reports;
    chain := EveryRunLeavesAChain(session, hash, turns);
    if chain != [] {
      assert chain[|chain| - 1] in chain;
    }
    GrownIsReadBack(chain, session, hash);
  }

  /** Once a provider reported an empty native session, or the names ran out, no turn is accepted and
      none changes the receipts. */
  lemma UnreadableStaysSo(s: State, session: string, hash: CheckpointHash, chain: seq<Receipt>, turn: Turn)
    requires Holds(s, session, hash, chain) && !(EndsUsable(chain) && |chain| < NAMES_END)
    ensures Work(s, session, hash, turn) == Worked(s, false)
  {
    hide Receipts, Grown, EndsUsable;
    GrownIsReadBack(chain, session, hash);
  }

  /** Appending a recorded entry again, however much later, writes nothing; it is accepted as long as
      the directory can be read. */
  lemma AppendedAgainChangesNothing(s: State, session: string, hash: CheckpointHash, chain: seq<Receipt>, i: nat)
    requires Holds(s, session, hash, chain) && i < |chain|
    ensures var r := chain[i];
      Append(s.files, session, hash, Entry(r.native, r.previous, r.job, r.phase, r.replacement))
        == Appended(s.files, EndsUsable(chain) && |chain| < NAMES_END)
  {
    hide Receipts, FilesOf, Grown, EndsUsable;
    GrownIsReadBack(chain, session, hash);
    var j := IndexOfJob(chain, chain[i].job);
    assert i == j;
  }

  /** A recorded job with any other content is refused and writes nothing. */
  lemma ConflictingAppendIsRefused(s: State, session: string, hash: CheckpointHash, chain: seq<Receipt>, i: nat,
                                   e: Entry)
    requires Holds(s, session, hash, chain) && i < |chain|
    requires e.job == chain[i].job && !e.RecordedBy(chain[i])
    ensures Append(s.files, session, hash, e) == Appended(s.files, false)
  {
    hide Receipts, FilesOf, Grown, EndsUsable;
    GrownIsReadBack(chain, session, hash);
    var j := IndexOfJob(chain, chain[i].job);
    assert i == j;
  }

  // ---- Native sessions

  predicate Replaced(chain: seq<Receipt>, j: nat, native: string) {
    j < |chain| && chain[j].previous == Some(native) && chain[j].replacement.Some?
    && ProvesUnavailable(chain[j].replacement.value.checkpoint, Some(native))
  }

  /** The native session changes from one receipt to the next exactly at a replacement. */
  lemma NativeChangesAtReplacements(chain: seq<Receipt>, session: string, hash: CheckpointHash, i: nat)
    requires IsChain(chain, session, hash) && i + 1 < |chain|
    ensures chain[i + 1].native != chain[i].native <==> Replaced(chain, i + 1, chain[i].native)
  {
    assert Fits(chain, i + 1, session, hash);
  }

  /** A native session that was used and is not the latest one was proved unavailable later on. */
  lemma {:induction false} LeftSessionsAreProvedGone(chain: seq<Receipt>, session: string, hash: CheckpointHash, i: nat)
    returns (j: nat)
    requires IsChain(chain, session, hash) && i < |chain|
    requires chain[i].native != chain[|chain| - 1].native
    ensures i < j < |chain| && Replaced(chain, j, chain[i].native)
    decreases |chain| - i
  {
    NativeChangesAtReplacements(chain, session, hash, i);
    if chain[i + 1].native != chain[i].native {
      j := i + 1;
    } else {
      j := LeftSessionsAreProvedGone(chain, session, hash, i + 1);
    }
  }

  /** The retired sessions of a chain are those it used and left, each proved unavailable; the
      session that the next turn resumes is never among them. */
  lemma RetiredSessionsAreGone(chain: seq<Receipt>, session: string, hash: CheckpointHash)
    requires IsChain(chain, session, hash)
    ensures forall native | native in Retired(chain) :: exists j :: Replaced(chain, j, native)
    ensures Latest(chain).Some? ==> Latest(chain).value !in Retired(chain)
    ensures forall i | 0 <= i < |chain| :: chain[i].native in Retired(chain) || Some(chain[i].native) == Latest(chain)
  {
    hide IsChain, ProvesUnavailable;
    forall native | native in Retired(chain)
      ensures exists j :: Replaced(chain, j, native)
    {
      var i: nat :| i < |Natives(chain)| && Natives(chain)[i] == native;
      var j := LeftSessionsAreProvedGone(chain, session, hash, i);
      assert Replaced(chain, j, native);
    }
    forall i | 0 <= i < |chain|
      ensures chain[i].native in Retired(chain) || Some(chain[i].native) == Latest(chain)
    {
      assert Natives(chain)[i] in Elements(Natives(chain));
    }
  }
}
