/** Exactly which turns of a download session are accepted and which receipt each adds. */
module SessionProgress {
  import opened Wrappers
  import opened SessionReceipts
  import opened SessionChain

  /** The native session of the last receipt. */
  function LastNative(chain: seq<Receipt>): Option<string> {
    if chain == [] then None else Some(chain[|chain| - 1].native)
  }

  /** The native session that a call of the job resumes: the one it was begun with, else the last. */
  predicate Resumes(s: State, chain: seq<Receipt>, job: string, previous: Option<string>) {
    previous == if job in s.invocations then s.invocations[job] else LastNative(chain)
  }

  /** The first provider turn proved that the native session is gone. */
  predicate ProvedGone(turn: Turn, previous: Option<string>, proof: Checkpoint) {
    && turn.first == Unavailable("codex_native_session_unavailable", Some(proof))
    && proof.schema == "meta-research/provider-native-session-unavailable/v1"
    && previous.Some? && proof.native == previous && proof.errorCode == -32600
  }

  /** The receipt that the call may claim: of its job, or of a replacement of it in another native
      session. */
  ghost predicate Claims(turn: Turn, session: string, hash: CheckpointHash, previous: Option<string>, n: nat,
                         r: Receipt)
  {
    && r.session == session && r.generation == n && r.previous == previous && r.phase == turn.phase
    && (|| (turn.first == Answered(Some(r.native)) && r.job == turn.job && r.replacement == None)
        || (exists proof :: ProvedGone(turn, previous, proof) && Replaces(turn, hash, previous, proof, r)))
  }

  predicate Replaces(turn: Turn, hash: CheckpointHash, previous: Option<string>, proof: Checkpoint, r: Receipt) {
    && turn.second == Answered(Some(r.native)) && Some(r.native) != previous
    && r.job == turn.job + ":replacement:" + hash(proof)
    && r.replacement == Some(Replacement(turn.job, proof))
  }

  /** The receipt is new and continues the chain; without a replacement it stays in its native session. */
  ghost predicate Extends(chain: seq<Receipt>, r: Receipt) {
    && (forall k | 0 <= k < |chain| :: chain[k].job != r.job)
    && r.previous == LastNative(chain)
    && (r.replacement.None? && chain != [] ==> Some(r.native) == LastNative(chain))
  }

  /** The chain holds this very receipt, in its place. */
  ghost predicate Repeats(chain: seq<Receipt>, r: Receipt) {
    exists i | 0 <= i < |chain| :: chain[i] == r.(generation := i + 1)
  }

  ghost predicate Usable(s: State, session: string, hash: CheckpointHash, chain: seq<Receipt>) {
    Holds(s, session, hash, chain) && EndsUsable(chain) && |chain| < NAMES_END
  }

  lemma UsableIsRead(s: State, session: string, hash: CheckpointHash, chain: seq<Receipt>)
    requires Usable(s, session, hash, chain)
    ensures Receipts(s.files, session, hash) == Some(chain) && Latest(chain) == LastNative(chain)
    ensures forall i | 0 <= i < |chain| :: chain[i].session == session && chain[i].generation == i + 1
  {
    hide Receipts, FilesOf, Continues;
    GrownIsReadBack(chain, session, hash);
    forall i: nat | i < |chain| ensures chain[i].session == session && chain[i].generation == i + 1 {
      assert Fits(chain, i, session, hash);
      Placed(chain, i, session, hash);
    }
  }

  lemma Placed(chain: seq<Receipt>, i: nat, session: string, hash: CheckpointHash)
    requires i < |chain| && Continues(chain, i, session, hash)
    ensures chain[i].session == session && chain[i].generation == i + 1
  {
  }

  lemma RepeatsByJob(chain: seq<Receipt>, session: string, e: Entry, i: nat)
    requires DistinctJobs(chain) && i < |chain| && chain[i].job == e.job
    requires forall k | 0 <= k < |chain| :: chain[k].session == session && chain[k].generation == k + 1
    ensures e.RecordedBy(chain[i]) <==> Repeats(chain, e.At(session, |chain| + 1))
  {
    var r := e.At(session, |chain| + 1);
    if e.RecordedBy(chain[i]) {
      assert chain[i] == r.(generation := i + 1);
    }
  }

  /** An entry is accepted exactly if it extends or repeats the chain, and leaves it extended or as it is. */
  lemma AppendIsExact(s: State, session: string, hash: CheckpointHash, chain: seq<Receipt>, e: Entry)
    requires Usable(s, session, hash, chain) && WellMade(e, hash)
    ensures var r := e.At(session, |chain| + 1);
      var o := Append(s.files, session, hash, e);
      && (o.accepted <==> Extends(chain, r) || Repeats(chain, r))
      && (if Extends(chain, r) then Holds(State(o.files, s.invocations), session, hash, chain + [r])
          else o.files == s.files)
  {
    hide Receipts, FilesOf, Grown, WellMade, Name;
    UsableIsRead(s, session, hash, chain);
    var r := e.At(session, |chain| + 1);
    var i := IndexOfJob(chain, e.job);
    if i < |chain| {
      RepeatsByJob(chain, session, e, i);
    } else {
      NothingRepeats(chain, r);
      if Extends(chain, r) {
        NextFile(chain, r);
        ExtendedHolds(s, session, hash, chain, e);
      }
    }
  }

  lemma NothingRepeats(chain: seq<Receipt>, r: Receipt)
    requires forall k | 0 <= k < |chain| :: chain[k].job != r.job
    ensures !Repeats(chain, r)
  {
  }

  lemma ExtendedHolds(s: State, session: string, hash: CheckpointHash, chain: seq<Receipt>, e: Entry)
    requires Usable(s, session, hash, chain) && WellMade(e, hash)
    requires Extends(chain, e.At(session, |chain| + 1))
    ensures var more := chain + [e.At(session, |chain| + 1)];
      Holds(State(FilesOf(more), s.invocations), session, hash, more)
  {
    hide FilesOf, IsChain, ProvesUnavailable, ReplacementJob;
    var r := e.At(session, |chain| + 1);
    GrownIsReadBack(chain, session, hash);
    OneMoreFits(chain, session, hash, r);
  }

  /** What the turn does to the receipts, for the one receipt that it may claim. */
  ghost predicate Exact(s: State, session: string, hash: CheckpointHash, chain: seq<Receipt>, worked: Worked,
                        claimed: Option<Receipt>)
  {
    && (worked.accepted <==> claimed.Some? && (Extends(chain, claimed.value) || Repeats(chain, claimed.value)))
    && (if claimed.Some? && Extends(chain, claimed.value)
        then Holds(worked.state, session, hash, chain + [claimed.value]) else worked.state.files == s.files)
  }

  lemma RecordIsExact(s: State, session: string, hash: CheckpointHash, chain: seq<Receipt>, native: Option<string>,
                      e: Entry)
    requires Usable(s, session, hash, chain)
    requires native.Some? && (e.replacement.Some? ==> native != e.previous) ==>
      WellMade(e.(native := native.value), hash)
    ensures Exact(s, session, hash, chain, Record(s, session, hash, native, e),
                  if native.None? || (e.replacement.Some? && native == e.previous) then None
                  else Some(e.(native := native.value).At(session, |chain| + 1)))
  {
    hide Usable, WellMade, Append, Extends, Repeats, Holds;
    if native.Some? && (e.replacement.Some? ==> native != e.previous) {
      AppendIsExact(s, session, hash, chain, e.(native := native.value));
      HoldsByFiles(s, Append(s.files, session, hash, e.(native := native.value)).files, session, hash,
                   chain + [e.(native := native.value).At(session, |chain| + 1)]);
    }
  }

  lemma HoldsByFiles(s: State, files: Directory, session: string, hash: CheckpointHash, chain: seq<Receipt>)
    ensures Holds(State(files, s.invocations), session, hash, chain)
       <==> Holds(s.(files := files), session, hash, chain)
  {
    assert State(files, s.invocations) == s.(files := files);
  }

  lemma UsableByFiles(s: State, t: State, session: string, hash: CheckpointHash, chain: seq<Receipt>)
    requires s.files == t.files && Usable(s, session, hash, chain)
    ensures Usable(t, session, hash, chain)
  {
  }

  /** The receipt that a turn claims, if it claims one. */
  ghost function Claimed(turn: Turn, session: string, hash: CheckpointHash, previous: Option<string>, n: nat)
    : (claimed: Option<Receipt>)
    ensures forall r :: Claims(turn, session, hash, previous, n, r) <==> claimed == Some(r)
  {
    if turn.first.Answered? then
      if turn.first.native.None? then None
      else Some(Receipt(session, n, turn.first.native.value, previous, turn.job, turn.phase, None))
    else if turn.first.checkpoint.Some? && ProvedGone(turn, previous, turn.first.checkpoint.value)
            && turn.second.Answered? && turn.second.native.Some? && turn.second.native != previous then
      var proof := turn.first.checkpoint.value;
      Some(Receipt(session, n, turn.second.native.value, previous, turn.job + ":replacement:" + hash(proof),
                   turn.phase, Some(Replacement(turn.job, proof))))
    else None
  }

  lemma WorkIsExact(s: State, session: string, hash: CheckpointHash, chain: seq<Receipt>, turn: Turn,
                    previous: Option<string>)
    requires Usable(s, session, hash, chain) && Resumes(s, chain, turn.job, previous)
    ensures Exact(s, session, hash, chain, Work(s, session, hash, turn),
                  Claimed(turn, session, hash, previous, |chain| + 1))
  {
    hide Usable, Record, Replace, Receipts, Exact, Claims;
    UsableIsRead(s, session, hash, chain);
    var begun := if turn.begun || turn.first.Answered?
                 then s.(invocations := Begun(s.invocations, turn.job, previous)) else s;
    UsableByFiles(s, begun, session, hash, chain);
    var n := |chain| + 1;
    var claimed := Claimed(turn, session, hash, previous, n);
    if turn.first.Answered? {
      var e := Entry("", previous, turn.job, turn.phase, None);
      RecordIsExact(begun, session, hash, chain, turn.first.native, e);
      ExactByFiles(s, begun, session, hash, chain, Record(begun, session, hash, turn.first.native, e), claimed);
    } else if AllowsReplacement(turn.first, previous) {
      ReplaceIsExact(begun, session, hash, chain, turn, previous);
      ExactByFiles(s, begun, session, hash, chain, Replace(begun, session, hash, previous, turn), claimed);
    } else {
      RefusedIsExact(s, begun, session, hash, chain);
    }
  }

  lemma ExactByFiles(s: State, t: State, session: string, hash: CheckpointHash, chain: seq<Receipt>, worked: Worked,
                     claimed: Option<Receipt>)
    requires s.files == t.files && Exact(t, session, hash, chain, worked, claimed)
    ensures Exact(s, session, hash, chain, worked, claimed)
  {
    hide Extends, Repeats, Holds;
  }

  lemma RefusedIsExact(s: State, t: State, session: string, hash: CheckpointHash, chain: seq<Receipt>)
    requires s.files == t.files
    ensures Exact(s, session, hash, chain, Worked(t, false), None)
  {
  }

  lemma ReplaceIsExact(s: State, session: string, hash: CheckpointHash, chain: seq<Receipt>, turn: Turn,
                       previous: Option<string>)
    requires Usable(s, session, hash, chain) && AllowsReplacement(turn.first, previous)
    ensures Exact(s, session, hash, chain, Replace(s, session, hash, previous, turn),
                  Claimed(turn, session, hash, previous, |chain| + 1))
  {
    hide Usable, Record, Exact, Claims;
    var proof := turn.first.checkpoint.value;
    var job := ReplacementJob(turn.job, proof, hash);
    if turn.second.Unavailable? {
      RefusedIsExact(s, s, session, hash, chain);
    } else {
      var begun := s.(invocations := Begun(s.invocations, job, None));
      var e := Entry("", previous, job, turn.phase, Some(Replacement(turn.job, proof)));
      UsableByFiles(s, begun, session, hash, chain);
      RecordIsExact(begun, session, hash, chain, turn.second.native, e);
      ExactByFiles(s, begun, session, hash, chain, Record(begun, session, hash, turn.second.native, e),
                   Claimed(turn, session, hash, previous, |chain| + 1));
    }
  }

  /** A turn on a readable chain is accepted exactly if it claims a receipt that extends or repeats the
      chain; it adds exactly that receipt in the first case and changes no file otherwise. */
  lemma TurnIsExact(s: State, session: string, hash: CheckpointHash, chain: seq<Receipt>, turn: Turn,
                    previous: Option<string>)
    requires Usable(s, session, hash, chain) && Resumes(s, chain, turn.job, previous)
    ensures var worked := Work(s, session, hash, turn);
      var n := |chain| + 1;
      && (worked.accepted <==>
            exists r :: Claims(turn, session, hash, previous, n, r) && (Extends(chain, r) || Repeats(chain, r)))
      && (forall r | Claims(turn, session, hash, previous, n, r) && Extends(chain, r) ::
            Holds(worked.state, session, hash, chain + [r]))
      && ((forall r | Claims(turn, session, hash, previous, n, r) :: !Extends(chain, r)) ==>
            worked.state.files == s.files)
  {
    hide Usable, Work, Extends, Repeats, Holds, Claims;
    WorkIsExact(s, session, hash, chain, turn, previous);
    var claimed := Claimed(turn, session, hash, previous, |chain| + 1);
    assert claimed.Some? ==> Claims(turn, session, hash, previous, |chain| + 1, claimed.value);
  }

  /** A job that is not in the chain and was not begun: a plain answer is recorded exactly if it comes
      from the native session of the chain, or there is none yet. */
  lemma OrdinaryTurnIsRecorded(s: State, session: string, hash: CheckpointHash, chain: seq<Receipt>, turn: Turn,
                               native: string)
    requires Usable(s, session, hash, chain)
    requires turn.job !in s.invocations && forall k | 0 <= k < |chain| :: chain[k].job != turn.job
    requires turn.first == Answered(Some(native))
    ensures var worked := Work(s, session, hash, turn);
      var r := Receipt(session, |chain| + 1, native, LastNative(chain), turn.job, turn.phase, None);
      && (worked.accepted <==> chain == [] || native == chain[|chain| - 1].native)
      && (worked.accepted <==> Holds(worked.state, session, hash, chain + [r]))
      && (!worked.accepted ==> worked.state.files == s.files)
  {
    hide Usable, Work;
    var previous := LastNative(chain);
    var r := Receipt(session, |chain| + 1, native, previous, turn.job, turn.phase, None);
    var n := |chain| + 1;
    TurnIsExact(s, session, hash, chain, turn, previous);
    assert Claims(turn, session, hash, previous, n, r);
    assert forall q | Claims(turn, session, hash, previous, n, q) :: q == r;
    NothingRepeats(chain, r);
    if !Work(s, session, hash, turn).accepted {
      HeldFilesDiffer(s, Work(s, session, hash, turn).state, session, hash, chain, r);
    }
  }

  lemma HeldFilesDiffer(s: State, t: State, session: string, hash: CheckpointHash, chain: seq<Receipt>, r: Receipt)
    requires Usable(s, session, hash, chain) && t.files == s.files
    ensures !Holds(t, session, hash, chain + [r])
  {
    hide Name, Grown;
    assert Name(|chain| + 1) in FilesOf(chain + [r]) by {
      FileAt(chain + [r], |chain|);
    }
    if Name(|chain| + 1) in FilesOf(chain) {
      var i := FileIsNamed(chain, Name(|chain| + 1));
      NamesAreDistinct(i + 1, |chain| + 1);
    }
  }

  /** A turn seals its own job with the native session it resumes, unless it never began, and a
      replacement job that was answered without one; what is sealed stays. */
  lemma TurnSealsItsJobs(s: State, session: string, hash: CheckpointHash, chain: seq<Receipt>, turn: Turn,
                         previous: Option<string>)
    requires Usable(s, session, hash, chain) && Resumes(s, chain, turn.job, previous)
    ensures var after := Work(s, session, hash, turn).state.invocations;
      && (forall job | job in s.invocations :: job in after && after[job] == s.invocations[job])
      && (turn.job in after <==> turn.job in s.invocations || turn.begun || turn.first.Answered?)
      && (turn.job in after ==> after[turn.job] == previous)
      && (forall job | job in after && job !in s.invocations && job != turn.job ::
            && after[job] == None
            && exists proof :: SealsReplacement(turn, hash, previous, proof, job))
      && (forall proof, job | SealsReplacement(turn, hash, previous, proof, job) :: job in after)
  {
    hide Usable, Receipts, Append;
    UsableIsRead(s, session, hash, chain);
    if AllowsReplacement(turn.first, previous) && turn.second.Answered? {
      var proof := turn.first.checkpoint.value;
      var job := ReplacementJob(turn.job, proof, hash);
      assert SealsReplacement(turn, hash, previous, proof, job);
      assert |job| > |turn.job|;
    }
  }

  ghost predicate SealsReplacement(turn: Turn, hash: CheckpointHash, previous: Option<string>, proof: Checkpoint,
                                   job: string)
  {
    ProvedGone(turn, previous, proof) && turn.second.Answered? && job == turn.job + ":replacement:" + hash(proof)
  }
}
