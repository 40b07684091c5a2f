/** The receipts of a download session: one file per turn, appended, read back in the order of the
    file names and checked as a chain.  The hash of a checkpoint is a parameter; the outcome of a
    provider turn is an input. */
module SessionReceipts {
  import opened Wrappers
  import opened PythonText
  import opened Refs
  import opened Decimals

  const UNAVAILABLE_SCHEMA := "meta-research/provider-native-session-unavailable/v1"
  const UNAVAILABLE_CODE := "codex_native_session_unavailable"
  const NO_ROLLOUT := -32600
  const NAME_WIDTH := 8

  datatype Checkpoint = Checkpoint(schema: string, native: Option<string>, errorCode: int, rest: string)

  type CheckpointHash = Checkpoint -> string

  datatype Replacement = Replacement(job: string, checkpoint: Checkpoint)

  datatype Receipt = Receipt(
    session: string, generation: nat, native: string, previous: Option<string>,
    job: string, phase: string, replacement: Option<Replacement>)

  type Directory = map<Str, Receipt>

  function Name(generation: nat): Str {
    Points("turn-") + Padded(generation, NAME_WIDTH) + Points(".json")
  }

  function ReplacementJob(job: string, checkpoint: Checkpoint, hash: CheckpointHash): string {
    job + ":replacement:" + hash(checkpoint)
  }

  /** The checkpoint proves that the native session is gone and the turn never started. */
  predicate ProvesUnavailable(checkpoint: Checkpoint, native: Option<string>) {
    && checkpoint.schema == UNAVAILABLE_SCHEMA && checkpoint.native == native
    && checkpoint.errorCode == NO_ROLLOUT
  }

  /** The receipt at position i continues those before it. */
  predicate Continues(receipts: seq<Receipt>, i: nat, session: string, hash: CheckpointHash)
    requires i < |receipts|
  {
    var r := receipts[i];
    && r.session == session && r.generation == i + 1
    && r.previous == (if i == 0 then None else Some(receipts[i - 1].native))
    && match r.replacement
       case None => i > 0 ==> Some(r.native) == r.previous
       case Some(replacement) =>
         && i > 0 && Some(r.native) != r.previous
         && ProvesUnavailable(replacement.checkpoint, r.previous)
         && r.job == ReplacementJob(replacement.job, replacement.checkpoint, hash)
  }

  /** What the reader demands of the receipt at position i, after those before it. */
  predicate Fits(receipts: seq<Receipt>, i: nat, session: string, hash: CheckpointHash)
    requires i < |receipts|
  {
    receipts[i].native != "" && Continues(receipts, i, session, hash)
  }

  ghost predicate IsChain(receipts: seq<Receipt>, session: string, hash: CheckpointHash) {
    forall i: nat | i < |receipts| :: Fits(receipts, i, session, hash)
  }

  /** The files in the order of their names. */
  ghost function Listing(files: Directory): (receipts: seq<Receipt>)
    ensures |receipts| == |SortedRefs(files.Keys)|
  {
    var names := SortedRefs(files.Keys);
    seq(|names|, i requires 0 <= i < |names| =>
      assert names[i] in Elements(names); files[names[i]])
  }

  /** `_session_receipts`; None is the `AcquisitionUnavailable` it raises. */
  ghost function Receipts(files: Directory, session: string, hash: CheckpointHash): Option<seq<Receipt>> {
    if IsChain(Listing(files), session, hash) then Some(Listing(files)) else None
  }

  function Latest(receipts: seq<Receipt>): Option<string> {
    if receipts == [] then None else Some(receipts[|receipts| - 1].native)
  }

  function IndexOfJob(receipts: seq<Receipt>, job: string): (i: nat)
    ensures i <= |receipts| && (forall j | 0 <= j < i :: receipts[j].job != job)
    ensures i < |receipts| ==> receipts[i].job == job
  {
    if receipts == [] then 0
    else if receipts[0].job == job then 0
    else
      var i := 1 + IndexOfJob(receipts[1..], job);
      assert forall j | 0 < j < i :: receipts[j] == receipts[1..][j - 1];
      i
  }

  /** What a call of `_append_session_receipt` is about. */
  datatype Entry = Entry(native: string, previous: Option<string>, job: string, phase: string,
                         replacement: Option<Replacement>)
  {
    predicate RecordedBy(r: Receipt) {
      r.native == native && r.previous == previous && r.phase == phase && r.replacement == replacement
    }

    function At(session: string, generation: nat): Receipt {
      Receipt(session, generation, native, previous, job, phase, replacement)
    }
  }

  datatype Appended = Appended(files: Directory, accepted: bool)

  ghost function Append(files: Directory, session: string, hash: CheckpointHash, e: Entry): Appended {
    match Receipts(files, session, hash)
    case None => Appended(files, false)
    case Some(existing) =>
      var i := IndexOfJob(existing, e.job);
      if i < |existing| then Appended(files, e.RecordedBy(existing[i]))
      else
        var latest := Latest(existing);
        if e.previous != latest || (e.replacement.None? && latest.Some? && Some(e.native) != latest) then
          Appended(files, false)
        else
          var generation := |existing| + 1;
          Appended(files[Name(generation) := e.At(session, generation)], true)
  }

  // ---- Turns

  datatype Outcome = Answered(native: Option<string>) | Unavailable(code: string, checkpoint: Option<Checkpoint>)

  /** One call of `_work`: what it asks for and what its one or two provider turns report.  `begun`
      says whether a first turn that failed had sealed its invocation. */
  datatype Turn = Turn(job: string, phase: string, begun: bool, first: Outcome, second: Outcome)

  /** The receipts of a session and the sealed native input of every job begun. */
  datatype State = State(files: Directory, invocations: map<string, Option<string>>)

  datatype Worked = Worked(state: State, accepted: bool)

  function Begun(invocations: map<string, Option<string>>, job: string,
                 previous: Option<string>): map<string, Option<string>>
  {
    if job in invocations then invocations else invocations[job := previous]
  }

  /** The proof in a failed turn that allows a replacement session. */
  predicate AllowsReplacement(outcome: Outcome, previous: Option<string>) {
    && outcome.Unavailable? && outcome.code == UNAVAILABLE_CODE && previous.Some?
    && outcome.checkpoint.Some? && ProvesUnavailable(outcome.checkpoint.value, previous)
  }

  /** The last part of `_work`: a usable native session is recorded. */
  ghost function Record(s: State, session: string, hash: CheckpointHash, native: Option<string>, e: Entry): Worked {
    if native.None? || (e.replacement.Some? && native == e.previous) then Worked(s, false)
    else
      var appended := Append(s.files, session, hash, e.(native := native.value));
      Worked(s.(files := appended.files), appended.accepted)
  }

  /** The native session a job resumes: the sealed one of a replay, the latest one otherwise. */
  function PreviousOf(s: State, receipts: seq<Receipt>, job: string): Option<string> {
    if job in s.invocations then s.invocations[job] else Latest(receipts)
  }

  ghost function Replace(s: State, session: string, hash: CheckpointHash, previous: Option<string>, turn: Turn): Worked
    requires AllowsReplacement(turn.first, previous)
  {
    var checkpoint := turn.first.checkpoint.value;
    var job := ReplacementJob(turn.job, checkpoint, hash);
    if turn.second.Unavailable? then Worked(s, false)
    else
      Record(s.(invocations := Begun(s.invocations, job, None)), session, hash, turn.second.native,
             Entry("", previous, job, turn.phase, Some(Replacement(turn.job, checkpoint))))
  }

  ghost function Work(s: State, session: string, hash: CheckpointHash, turn: Turn): Worked {
    match Receipts(s.files, session, hash)
    case None => Worked(s, false)
    case Some(receipts) =>
      var previous := PreviousOf(s, receipts, turn.job);
      var begun := if turn.begun || turn.first.Answered?
                   then s.(invocations := Begun(s.invocations, turn.job, previous)) else s;
      if turn.first.Answered? then
        Record(begun, session, hash, turn.first.native, Entry("", previous, turn.job, turn.phase, None))
      else if AllowsReplacement(turn.first, previous) then Replace(begun, session, hash, previous, turn)
      else Worked(begun, false)
  }

  ghost function Run(s: State, session: string, hash: CheckpointHash, turns: seq<Turn>): State {
    if turns == [] then s
    else Work(Run(s, session, hash, turns[..|turns| - 1]), session, hash, turns[|turns| - 1]).state
  }

  /** `retired_native_sessions` */
  ghost function Retired(receipts: seq<Receipt>): set<string> {
    if receipts == [] then {}
    else Elements(Natives(receipts)) - {receipts[|receipts| - 1].native}
  }

  function Natives(receipts: seq<Receipt>): seq<string> {
    seq(|receipts|, i requires 0 <= i < |receipts| => receipts[i].native)
  }
}
