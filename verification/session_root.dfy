/** The download session with its receipt files and sealed invocations as mutable state, proved
    against the functions of `SessionReceipts`. */
module SessionRoot {
  import opened Wrappers
  import opened Refs
  import opened SessionReceipts
  import R = SessionReceipts

  /** One receipt after those before it; the condition of the reader's loop. */
  predicate FitsAfter(before: seq<Receipt>, r: Receipt, session: string, hash: CheckpointHash) {
    Fits(before + [r], |before|, session, hash)
  }

  class AcquisitionSession {
    const session: string
    const hash: CheckpointHash
    var files: Directory
    var invocations: map<string, Option<string>>

    function View(): State
      reads this
    {
      State(files, invocations)
    }

    constructor (session: string, hash: CheckpointHash)
      ensures View() == State(map[], map[]) && this.session == session && this.hash == hash
    {
      this.session, this.hash, files, invocations := session, hash, map[], map[];
    }

    method SessionReceipts() returns (receipts: Option<seq<Receipt>>)
      ensures receipts == Receipts(files, session, hash)
    {
      hide Fits;
      var names := Sort(files.Keys);
      SortedIsUnique(names, SortedRefs(files.Keys));
      ghost var listing := Listing(files);
      var read := [];
      for i := 0 to |names|
        invariant read == listing[..i] && IsChain(listing[..i], session, hash)
      {
        assert names[i] in Elements(names);
        var receipt := files[names[i]];
        if !FitsAfter(read, receipt, session, hash) {
          FirstMisfit(listing, i, session, hash);
          return None;
        }
        FitsOneMore(listing, i, session, hash);
        read := read + [receipt];
      }
      assert listing[..|names|] == listing;
      receipts := Some(read);
    }

    method LatestNativeSessionRef() returns (readable: bool, latest: Option<string>)
      ensures readable == Receipts(files, session, hash).Some?
      ensures readable ==> latest == Latest(Receipts(files, session, hash).value)
    {
      var receipts := SessionReceipts();
      readable, latest := receipts.Some?, None;
      if receipts.Some? && receipts.value != [] {
        latest := Some(receipts.value[|receipts.value| - 1].native);
      }
    }

    method RetiredNativeSessions() returns (retired: Option<set<string>>)
      ensures retired.Some? <==> Receipts(files, session, hash).Some?
      ensures retired.Some? ==> retired.value == Retired(Receipts(files, session, hash).value)
    {
      hide Receipts;
      var read := SessionReceipts();
      if read.None? {
        return None;
      }
      var receipts := read.value;
      if receipts == [] {
        return Some({});
      }
      var natives := {};
      for i := 0 to |receipts|
        invariant natives == Elements(Natives(receipts)[..i])
      {
        assert Natives(receipts)[..i + 1] == Natives(receipts)[..i] + [receipts[i].native];
        natives := natives + {receipts[i].native};
      }
      assert Natives(receipts)[..|receipts|] == Natives(receipts);
      retired := Some(natives - {receipts[|receipts| - 1].native});
    }

    method AppendSessionReceipt(e: Entry) returns (accepted: bool)
      modifies this`files
      ensures Appended(files, accepted) == Append(old(files), session, hash, e)
    {
      hide Receipts, Name;
      var read := SessionReceipts();
      if read.None? {
        return false;
      }
      var existing := read.value;
      var i := IndexOfJob(existing, e.job);
      if i < |existing| {
        return e.RecordedBy(existing[i]);
      }
      var latest := if existing == [] then None else Some(existing[|existing| - 1].native);
      if e.previous != latest || (e.replacement.None? && latest.Some? && Some(e.native) != latest) {
        return false;
      }
      var generation := |existing| + 1;
      files := files[Name(generation) := e.At(session, generation)];
      accepted := true;
    }

    /** The invocation of a job is sealed once and keeps the native session it was given. */
    method Seal(job: string, previous: Option<string>)
      modifies this`invocations
      ensures invocations == Begun(old(invocations), job, previous)
    {
      if job !in invocations {
        invocations := invocations[job := previous];
      }
    }

    /** One turn; the outcomes of the provider are those of the argument. */
    method Work(turn: Turn) returns (accepted: bool)
      modifies this
      ensures Worked(View(), accepted) == R.Work(old(View()), session, hash, turn)
    {
      hide Receipts, ProvesUnavailable, Append, ReplacementJob, Begun;
      var readable, previous := LatestNativeSessionRef();
      if !readable {
        return false;
      }
      if turn.job in invocations {
        previous := invocations[turn.job];
      }
      if turn.begun || turn.first.Answered? {
        Seal(turn.job, previous);
      }
      var job, native, replacement := turn.job, None, None;
      match turn.first {
        case Answered(answer) =>
          native := answer;
        case Unavailable(_, _) =>
          if !AllowsReplacement(turn.first, previous) {
            return false;
          }
          var checkpoint := turn.first.checkpoint.value;
          replacement := Some(Replacement(job, checkpoint));
          job := ReplacementJob(job, checkpoint, hash);
          if turn.second.Unavailable? {
            return false;
          }
          Seal(job, None);
          native := turn.second.native;
      }
      if native.None? || (replacement.Some? && native == previous) {
        return false;
      }
      accepted := AppendSessionReceipt(Entry(native.value, previous, job, turn.phase, replacement));
    }
  }

  lemma FirstMisfit(listing: seq<Receipt>, i: nat, session: string, hash: CheckpointHash)
    requires i < |listing| && !FitsAfter(listing[..i], listing[i], session, hash)
    ensures !IsChain(listing, session, hash)
  {
    assert listing[..i] + [listing[i]] == listing[..i + 1];
    assert Fits(listing[..i + 1], i, session, hash) == Fits(listing, i, session, hash);
  }

  lemma FitsOneMore(listing: seq<Receipt>, i: nat, session: string, hash: CheckpointHash)
    requires i < |listing| && FitsAfter(listing[..i], listing[i], session, hash)
    requires IsChain(listing[..i], session, hash)
    ensures IsChain(listing[..i + 1], session, hash) && listing[..i + 1] == listing[..i] + [listing[i]]
  {
    assert listing[..i + 1] == listing[..i] + [listing[i]];
    var more := listing[..i + 1];
    forall k: nat | k < |more| ensures Fits(more, k, session, hash) {
      if k < i {
        assert Fits(listing[..i], k, session, hash);
      }
    }
  }
}
