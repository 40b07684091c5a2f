/** Exactly what each line does to the children, stated on the rows by their keys: which row it adds,
    binds or changes, to which status, and that all other children stay as they are. */
module ChildProgress {
  import opened Wrappers
  import opened ChildEvents
  import opened ChildSessions

  // ----- Names and statuses -------------------------------------------------------------

  predicate Usable(value: Option<string>) {
    value.Some? && 1 <= |value.value| <= 256
  }

  /** The status that a reported word stands for; any other word, and none, stands for unknown. */
  predicate StandsFor(word: Option<string>, status: Status) {
    var among := (words: set<string>) => word.Some? && word.value in words;
    if among({"completed", "succeeded"}) then status == Completed
    else if among({"errored", "failed"}) then status == Failed
    else if among({"cancelled", "canceled", "interrupted", "shutdown", "stopped", "killed"}) then status == Cancelled
    else if among({"running", "in_progress"}) then status == Running
    else if among({"pending", "starting"}) then status == Starting
    else status == Unknown
  }

  predicate IsFinished(status: Status) {
    status in {Completed, Failed, Cancelled}
  }

  // ----- Tables by key ------------------------------------------------------------------

  /** All children but those under these keys are as they were. */
  ghost predicate SameChildren(t: Table, u: Table, but: set<string>)
    requires t.Wf() && u.Wf()
  {
    forall k | k !in but :: (k in u.children <==> k in t.children) && (k in t.children ==> u.Child(k) == t.Child(k))
  }

  ghost predicate SameFlags(t: Table, u: Table) {
    u.native == t.native && u.limited == t.limited && u.executing == t.executing && u.knownLoaded == t.knownLoaded
  }

  ghost predicate HasChild(t: Table, k: string, row: Row) {
    t.Wf() && k in t.children && t.Child(k) == row
  }

  // ----- One event ----------------------------------------------------------------------

  /** One launching block: a usable tool that was not requested before becomes a starting child under
      its request key, unless the table is full. */
  ghost predicate LaunchesOne(scope: Scope, native: string, t: Table, tool: Option<string>, u: Table) {
    && t.Wf() && u.Wf()
    && (if !Usable(tool) || tool.value in t.requests then u == t
        else if |t.children| >= 256 then u == t.(limited := true)
        else
          var key := "request:" + tool.value;
          && HasChild(u, key, Row(OfRequest(scope.parent, scope.provider, scope.operation, tool.value), scope.parent,
                                  native, None, scope.provider, scope.operation, Starting, scope.updatedAt))
          && u.requests == t.requests[tool.value := u.children[key]]
          && SameChildren(t, u, {key}) && SameFlags(t, u))
  }

  /** The task is bound to the row that is already under its name, or to the requested one. */
  ghost predicate BindsTask(scope: Scope, t: Table, task: string, tool: string, o: Outcome)
    requires t.Wf() && tool in t.requests
  {
    var row := if task in t.children then t.Child(task) else t.Requested(tool);
    if row.native.Some? && row.native.value != task then o.Refused?
    else
      && o.Going? && o.table.Wf()
      && HasChild(o.table, task, row.(native := Some(task), status := Running, operation := scope.operation,
                                      updatedAt := scope.updatedAt))
      && (task != "request:" + tool ==> "request:" + tool !in o.table.children)
      && SameChildren(t, o.table, {task, "request:" + tool}) && SameFlags(t, o.table)
      && o.table.requests == t.requests[tool := o.table.children[task]]
  }

  /** The child under this key changes to this row, and nothing else does. */
  ghost predicate OnlyBecomes(t: Table, k: string, row: Row, u: Table) {
    t.Wf() && u.Wf() && HasChild(u, k, row) && SameChildren(t, u, {k}) && SameFlags(t, u) && u.requests == t.requests
  }

  /** The status after an event of the task: progress means running, a report counts once. */
  ghost predicate TaskStatus(e: Event, was: Status, status: Status)
    requires e.TaskEvent?
  {
    match e.subtype
    case TaskStarted => status == was
    case TaskProgress => status == if IsFinished(was) then was else Running
    case _ => exists word :: StandsFor(e.status, word)
                && status == if IsFinished(word) && !IsFinished(was) then word else was
  }

  ghost predicate TaskMeans(scope: Scope, t: Table, e: Event, o: Outcome)
    requires t.Wf() && e.TaskEvent?
  {
    if e.subtype.TaskStarted? && Usable(e.task) && Usable(e.tool) && e.tool.value in t.requests
       && e.localAgentAtDepthOne
    then BindsTask(scope, t, e.task.value, e.tool.value, o)
    else if !Usable(e.task) || e.task.value !in t.children then o == Going(t)
    else
      var row := t.Child(e.task.value);
      && o.Going?
      && exists status ::
        && TaskStatus(e, row.status, status)
        && OnlyBecomes(t, e.task.value, row.(status := status, operation := scope.operation,
                                             updatedAt := scope.updatedAt), o.table)
  }

  /** One receiver of a collaboration call: a spawned one that is new becomes a child unless the table is
      full; a child whose state is reported takes that status, unless it is finished and the call does
      not restart it. */
  ghost predicate ReceivesOne(scope: Scope, native: string, e: Event, t: Table, receiver: Option<string>, u: Table)
    requires e.CollabCall?
  {
    && t.Wf() && u.Wf()
    && (if !Usable(receiver) || receiver.value == native then u == t
        else
          var child := receiver.value;
          if child !in t.children then
            if !e.call.SpawnAgent? then u == t
            else if |t.children| >= 256 then u == t.(limited := true)
            else exists status ::
              && (if child in e.states then StandsFor(e.states[child], status) else status == Unknown)
              && OnlyBecomes(t, child, Row(OfNative(scope.parent, Codex, child), scope.parent, native, Some(child),
                                           Codex, scope.operation, status, scope.updatedAt), u)
          else
            var row := t.Child(child);
            if child !in e.states || e.call.OtherTool?
               || (IsFinished(row.status) && !e.call.SendInput? && !e.call.ResumeAgent?)
            then u == t
            else exists status ::
              && StandsFor(e.states[child], status)
              && OnlyBecomes(t, child, row.(status := status, operation := scope.operation,
                                            updatedAt := scope.updatedAt), u))
  }

  /** The tables on the way from t to u, one step for each of n things. */
  ghost predicate Chain(tables: seq<Table>, t: Table, u: Table, n: nat) {
    |tables| == n + 1 && tables[0] == t && tables[n] == u
  }

  ghost predicate LaunchesAll(scope: Scope, native: string, t: Table, tools: seq<Option<string>>, u: Table) {
    exists tables :: Chain(tables, t, u, |tools|)
      && forall i | 0 <= i < |tools| :: LaunchesOne(scope, native, tables[i], tools[i], tables[i + 1])
  }

  ghost predicate ReceivesFirst(scope: Scope, native: string, e: Event, t: Table, u: Table, n: nat)
    requires e.CollabCall? && n <= |e.receivers|
  {
    exists tables :: Chain(tables, t, u, n)
      && forall i | 0 <= i < n :: ReceivesOne(scope, native, e, tables[i], e.receivers[i], tables[i + 1])
  }

  /** Only the first 256 receivers are looked at; more of them cut the reading short. */
  ghost predicate ReceivesAll(scope: Scope, native: string, e: Event, t: Table, u: Table)
    requires e.CollabCall?
  {
    if |e.receivers| <= 256 then ReceivesFirst(scope, native, e, t, u, |e.receivers|)
    else ReceivesFirst(scope, native, e, t.(limited := true), u, 256)
  }

  /** An event while the native session is known and the known children are loaded. */
  ghost predicate EventMeans(scope: Scope, t: Table, native: string, e: Event, o: Outcome)
    requires t.Wf()
  {
    match e
    case RootStart(_) => o == Going(t)
    case OtherEvent => o == Going(t)
    case Launches(actor, tools) =>
      if scope.provider.Codex? || actor != Some(native) then o == Going(t)
      else o.Going? && LaunchesAll(scope, native, t, tools, o.table)
    case TaskEvent(actor, _, _, _, _, _) =>
      if scope.provider.Codex? || actor != Some(native) then o == Going(t) else TaskMeans(scope, t, e, o)
    case RunResult(actor) =>
      o == Going(if scope.provider.Codex? || actor != Some(native) then t else t.(executing := false))
    case CollabCall(actor, _, _, _) =>
      if scope.provider.Claude? || actor != Some(native) then o == Going(t)
      else o.Going? && ReceivesAll(scope, native, e, t, o.table)
    case TurnEnded(actor) =>
      o == Going(if scope.provider.Claude? || (actor.Some? && actor.value != native) then t
                 else t.(executing := false))
  }

  // ----- The known children -------------------------------------------------------------

  /** The i-th known row is a child of the native session under this key. */
  ghost predicate KnownUnder(scope: Scope, native: string, i: nat, k: string)
    requires i < |scope.known|
  {
    var row := scope.known[i];
    row.parent == scope.parent && row.provider == scope.provider && row.parentNative == native && row.native == Some(k)
  }

  /** The child under this key is the last known one of that name. */
  ghost predicate LastKnown(scope: Scope, native: string, n: nat, k: string, row: Row)
    requires n <= |scope.known|
  {
    exists i: nat | i < n :: KnownUnder(scope, native, i, k) && row == scope.known[i]
                      && forall j | i < j < n :: !KnownUnder(scope, native, j, k)
  }

  /** The children are the first n known ones of the native session, by their names. */
  ghost predicate KnownChildren(scope: Scope, native: string, n: nat, u: Table)
    requires n <= |scope.known|
  {
    && u.Wf()
    && (forall k :: k in u.children <==> exists i: nat | i < n :: KnownUnder(scope, native, i, k))
    && (forall k | k in u.children :: LastKnown(scope, native, n, k, u.Child(k)))
  }

  /** The known children are loaded, once. */
  ghost predicate Loads(scope: Scope, native: string, t: Table, u: Table) {
    if t.knownLoaded then u == t
    else
      && KnownChildren(scope, native, |scope.known|, u)
      && u.requests == map[] && u.knownLoaded
      && u.native == t.native && u.limited == t.limited && u.executing == t.executing
  }

  /** A root start binds the native session or refuses another one; without a native session nothing
      happens; the first event with one loads the known children before it counts. */
  ghost predicate StepMeans(scope: Scope, t: Table, e: Event, o: Outcome)
    requires t.Wf()
  {
    if e.RootStart? && (!Usable(e.observed) || (t.native.Some? && t.native != e.observed)) then o.Refused?
    else
      var native := if e.RootStart? then e.observed else t.native;
      if native.None? then o == Going(t)
      else exists u: Table ::
        Loads(scope, native.value, t.(native := native), u) && u.Wf() && EventMeans(scope, u, native.value, e, o)
  }

  // ----- The proofs ---------------------------------------------------------------------

  lemma StatusStandsFor(word: Option<string>)
    ensures forall status :: StandsFor(word, status) <==> status == StatusOf(word)
  {
  }

  lemma LaunchedMeans(scope: Scope, t: Table, native: string, id: Option<string>)
    requires t.Wf()
    ensures LaunchesOne(scope, native, t, id, Launched(scope, t, native, id))
  {
    var u := Launched(scope, t, native, id);
    if Usable(id) && id.value !in t.requests && |t.children| < 256 {
      var key := "request:" + id.value;
      assert u.Child(key) == RequestRow(scope, native, id.value);
    }
  }

  /** Rows are under one key each, so changing one row changes one child. */
  lemma ChangedRowMeans(t: Table, k: string, row: Row)
    requires Sound(t) && k in t.children
    ensures OnlyBecomes(t, k, row, t.(rows := t.rows[t.children[k] := row]))
  {
    forall j | j in t.children && j != k ensures t.children[j] != t.children[k] {
      assert Placed(t, j) && Placed(t, k);
    }
  }

  lemma AddedRowMeans(t: Table, k: string, row: Row)
    requires t.Wf() && k !in t.children
    ensures OnlyBecomes(t, k, row, Added(t, k, row))
  {
  }

  lemma ReceivedMeans(scope: Scope, t: Table, native: string, e: Event, receiver: Option<string>)
    requires Sound(t) && t.native == Some(native) && t.knownLoaded && e.CollabCall?
    ensures ReceivesOne(scope, native, e, t, receiver, Received(scope, t, native, e, receiver))
  {
    hide Placed, Pending, StatusOf, StandsFor, OnlyBecomes;
    if Usable(receiver) && receiver.value != native {
      var child := receiver.value;
      StatusStandsFor(if child in e.states then e.states[child] else None);
      if child in t.children {
        KnownReceiverMeans(scope, t, native, e, receiver);
      } else if e.call.SpawnAgent? && |t.children| < 256 {
        SpawnedReceiverMeans(scope, t, native, e, receiver);
      }
    }
  }

  lemma KnownReceiverMeans(scope: Scope, t: Table, native: string, e: Event, receiver: Option<string>)
    requires Sound(t) && e.CollabCall?
    requires Usable(receiver) && receiver.value != native && receiver.value in t.children
    ensures ReceivesOne(scope, native, e, t, receiver, Received(scope, t, native, e, receiver))
  {
    hide Placed, Pending, StatusOf, StandsFor, OnlyBecomes;
    var child := receiver.value;
    var row, u := t.Child(child), Received(scope, t, native, e, receiver);
    assert t.rows[t.children[child] := row] == t.rows;
    if child in e.states {
      StatusStandsFor(e.states[child]);
      ChangedRowMeans(t, child, row.(status := StatusOf(e.states[child]), operation := scope.operation,
                                     updatedAt := scope.updatedAt));
    }
  }

  lemma SpawnedReceiverMeans(scope: Scope, t: Table, native: string, e: Event, receiver: Option<string>)
    requires Sound(t) && t.native == Some(native) && t.knownLoaded && e.CollabCall? && e.call.SpawnAgent?
    requires Usable(receiver) && receiver.value != native && receiver.value !in t.children && |t.children| < 256
    ensures ReceivesOne(scope, native, e, t, receiver, Received(scope, t, native, e, receiver))
  {
    hide Placed, Pending, StatusOf, StandsFor, OnlyBecomes;
    var child := receiver.value;
    var u := Received(scope, t, native, e, receiver);
    var spawned := SpawnedRow(scope, native, child);
    var row := if child in e.states then spawned.(status := StatusOf(e.states[child])) else spawned;
    StatusStandsFor(if child in e.states then e.states[child] else None);
    AddedRowMeans(t, child, row);
    assert u == Added(t, child, row) by {
      assert Added(t, child, spawned).rows[|t.rows| := row] == t.rows + [row];
    }
  }

  lemma ReportedMeans(e: Event, was: Status)
    requires e.TaskEvent?
    ensures TaskStatus(e, was, Reported(was, e))
  {
    hide StandsFor, StatusOf;
    StatusStandsFor(e.status);
    assert StandsFor(e.status, StatusOf(e.status));
  }

  lemma UpdatedMeans(scope: Scope, t: Table, e: Event)
    requires Sound(t) && e.TaskEvent?
    ensures TaskMeans(scope, t, e, Updated(scope, t, e))
  {
    hide Placed, Pending, TaskStatus, Reported, OnlyBecomes, BindsTask, Bound;
    if Binds(t, e) {
      BoundMeans(scope, t, e.task.value, e.tool.value);
    } else if Usable(e.task) && e.task.value in t.children {
      var row := t.Child(e.task.value);
      ReportedMeans(e, row.status);
      ChangedRowMeans(t, e.task.value, row.(status := Reported(row.status, e), operation := scope.operation,
                                            updatedAt := scope.updatedAt));
    }
  }

  lemma BoundMeans(scope: Scope, t: Table, task: string, tool: string)
    requires Sound(t) && tool in t.requests
    ensures BindsTask(scope, t, task, tool, Bound(scope, t, task, tool))
  {
    hide OneNative;
    var r, o := BoundTo(t, task, tool), Bound(scope, t, task, tool);
    if o.Going? {
      assert Pending(t, tool);
      forall k | k in t.children && k !in {task, RequestKey(tool)} ensures t.children[k] != r {
        assert Placed(t, k);
        if task in t.children {
          assert Placed(t, task);
        }
      }
    }
  }

  lemma {:induction false} AllLaunchedMeans(scope: Scope, t: Table, native: string, tools: seq<Option<string>>)
    requires t.Wf()
    ensures LaunchesAll(scope, native, t, tools, AllLaunched(scope, t, native, tools, |tools|))
  {
    hide Launched, LaunchesOne;
    var tables := seq(|tools| + 1, i requires 0 <= i <= |tools| => AllLaunched(scope, t, native, tools, i));
    forall i | 0 <= i < |tools| ensures LaunchesOne(scope, native, tables[i], tools[i], tables[i + 1]) {
      LaunchedMeans(scope, tables[i], native, tools[i]);
    }
    assert Chain(tables, t, AllLaunched(scope, t, native, tools, |tools|), |tools|);
  }

  lemma AllReceivedMeans(scope: Scope, t: Table, native: string, e: Event)
    requires t.Wf() && Sound(t) && t.native == Some(native) && t.knownLoaded && e.CollabCall?
    ensures var wide := t.(limited := t.limited || |e.receivers| > MAX_CHILDREN);
      ReceivesAll(scope, native, e, t, AllReceived(scope, wide, native, e, Least(|e.receivers|, MAX_CHILDREN)))
  {
    hide Sound, AllReceived, ReceivesFirst;
    LimitedKeepsSound(t);
    if |e.receivers| <= 256 {
      assert t.(limited := t.limited || |e.receivers| > MAX_CHILDREN) == t;
      FirstReceivedMeans(scope, t, native, e, |e.receivers|);
    } else {
      assert t.(limited := t.limited || |e.receivers| > MAX_CHILDREN) == t.(limited := true);
      FirstReceivedMeans(scope, t.(limited := true), native, e, 256);
    }
  }

  lemma FirstReceivedMeans(scope: Scope, t: Table, native: string, e: Event, n: nat)
    requires t.Wf() && Sound(t) && t.native == Some(native) && t.knownLoaded && e.CollabCall? && n <= |e.receivers|
    ensures ReceivesFirst(scope, native, e, t, AllReceived(scope, t, native, e, n), n)
  {
    hide Received, ReceivesOne, Sound, AllReceived;
    var tables := seq(n + 1, i requires 0 <= i <= n => AllReceived(scope, t, native, e, i));
    forall i | 0 <= i < n ensures ReceivesOne(scope, native, e, tables[i], e.receivers[i], tables[i + 1]) {
      NextReceiverMeans(scope, t, native, e, i);
    }
    NoReceivers(scope, t, native, e);
    assert Chain(tables, t, AllReceived(scope, t, native, e, n), n);
  }

  lemma NoReceivers(scope: Scope, t: Table, native: string, e: Event)
    requires t.Wf() && e.CollabCall?
    ensures AllReceived(scope, t, native, e, 0) == t
  {
  }

  lemma NextReceiverMeans(scope: Scope, t: Table, native: string, e: Event, i: nat)
    requires t.Wf() && Sound(t) && t.native == Some(native) && t.knownLoaded && e.CollabCall? && i < |e.receivers|
    ensures ReceivesOne(scope, native, e, AllReceived(scope, t, native, e, i), e.receivers[i],
                        AllReceived(scope, t, native, e, i + 1))
  {
    hide Received, ReceivesOne, Sound;
    AllReceivedKeepsSound(scope, t, native, e, i);
    ReceivedMeans(scope, AllReceived(scope, t, native, e, i), native, e, e.receivers[i]);
  }

  lemma AppliedMeans(scope: Scope, t: Table, native: string, e: Event)
    requires t.Wf() && Sound(t) && t.native == Some(native) && t.knownLoaded
    ensures EventMeans(scope, t, native, e, Applied(scope, t, native, e))
  {
    hide Placed, Pending, OneNative, Sound, LaunchesAll, ReceivesAll, TaskMeans, AllLaunched, AllReceived, Updated;
    match e
    case Launches(_, tools) =>
      AllLaunchedMeans(scope, t, native, tools);
    case TaskEvent(_, _, _, _, _, _) =>
      UpdatedMeans(scope, t, e);
    case CollabCall(_, _, _, _) =>
      AllReceivedMeans(scope, t, native, e);
    case _ =>
  }

  lemma LastKnownAfter(scope: Scope, native: string, n: nat, k: string, row: Row)
    requires 0 < n <= |scope.known|
    ensures KnownUnder(scope, native, n - 1, k) ==> LastKnown(scope, native, n, k, scope.known[n - 1])
    ensures !KnownUnder(scope, native, n - 1, k) && LastKnown(scope, native, n - 1, k, row) ==>
      LastKnown(scope, native, n, k, row)
  {
    hide KnownUnder;
  }

  lemma UnderAfter(scope: Scope, native: string, n: nat, k: string)
    requires 0 < n <= |scope.known|
    ensures (exists i: nat | i < n :: KnownUnder(scope, native, i, k))
       <==> KnownUnder(scope, native, n - 1, k) || exists i: nat | i < n - 1 :: KnownUnder(scope, native, i, k)
  {
    hide KnownUnder;
  }

  /** The next known row, after those before it. */
  lemma OneMoreKnown(scope: Scope, before: Table, native: string, n: nat)
    requires 0 < n <= |scope.known| && KnownChildren(scope, native, n - 1, before)
    ensures var row := scope.known[n - 1];
      KnownChildren(scope, native, n, if Belongs(scope, row, native) then Added(before, row.native.value, row)
                                      else before)
  {
    hide LastKnown, KnownUnder;
    var row := scope.known[n - 1];
    var u := if Belongs(scope, row, native) then Added(before, row.native.value, row) else before;
    forall k ensures k in u.children <==> exists i: nat | i < n :: KnownUnder(scope, native, i, k) {
      UnderAfter(scope, native, n, k);
      BelongsUnder(scope, native, n - 1, k);
    }
    forall k | k in u.children ensures LastKnown(scope, native, n, k, u.Child(k)) {
      LastKnownAfter(scope, native, n, k, u.Child(k));
      BelongsUnder(scope, native, n - 1, k);
      assert !KnownUnder(scope, native, n - 1, k) ==> u.Child(k) == before.Child(k);
    }
  }

  lemma BelongsUnder(scope: Scope, native: string, i: nat, k: string)
    requires i < |scope.known|
    ensures KnownUnder(scope, native, i, k)
       <==> Belongs(scope, scope.known[i], native) && scope.known[i].native.value == k
  {
  }

  lemma {:induction false} KnownLoadedMeans(scope: Scope, t: Table, native: string, n: nat)
    requires t.Wf() && t.children == map[] && n <= |scope.known|
    ensures KnownChildren(scope, native, n, KnownLoaded(scope, t, native, n))
  {
    hide KnownUnder, LastKnown;
    if n > 0 {
      hide KnownChildren;
      KnownLoadedMeans(scope, t, native, n - 1);
      OneMoreKnown(scope, KnownLoaded(scope, t, native, n - 1), native, n);
    }
  }

  /** Every event does to the children exactly what it should, on every table that a stream leaves. */
  lemma StepIsExact(scope: Scope, t: Table, e: Event)
    requires Sound(t)
    ensures StepMeans(scope, t, e, Step(scope, t, e))
  {
    hide Placed, Pending, Applied, EventMeans, KnownChildren, KnownLoaded, OneNative;
    var identified := Identified(t, e);
    if identified.Going? {
      IdentifiedKeepsSound(t, e);
      var u := identified.table;
      if u.native.Some? {
        var native := u.native.value;
        var ready := Ready(scope, u, native);
        ReadyMeans(scope, u, native);
        AppliedMeans(scope, ready, native, e);
        assert u == t.(native := u.native);
      }
    }
  }

  lemma ReadyMeans(scope: Scope, t: Table, native: string)
    requires Sound(t) && t.native == Some(native)
    ensures var u := Ready(scope, t, native);
      Loads(scope, native, t, u) && Sound(u) && u.native == Some(native) && u.knownLoaded
  {
    hide Placed, Pending, KnownChildren, KnownLoaded;
    if !t.knownLoaded {
      KnownLoadedMeans(scope, t, native, |scope.known|);
      KnownLoadedKeepsSound(scope, t, native, |scope.known|);
      KnownLoadedKeepsRest(scope, t, native, |scope.known|);
      LoadedChildren(scope, native, KnownLoaded(scope, t, native, |scope.known|));
    }
  }

  lemma LoadedChildren(scope: Scope, native: string, t: Table)
    requires KnownChildren(scope, native, |scope.known|, t)
    ensures KnownChildren(scope, native, |scope.known|, t.(knownLoaded := true))
  {
    hide LastKnown;
    assert forall k | k in t.children :: t.Child(k) == t.(knownLoaded := true).Child(k);
  }

  // ----- The whole reading --------------------------------------------------------------

  function TotalLength(lines: seq<Line>): nat {
    if lines == [] then 0 else lines[0].length + TotalLength(lines[1..])
  }

  /** The i-th line ends the reading: too long, past the total limit, unfinished, or no object. */
  predicate EndsReading(lines: seq<Line>, i: nat, before: nat)
    requires i < |lines|
  {
    || lines[i].length > 1024 * 1024
    || before + TotalLength(lines[..i + 1]) > 64 * 1024 * 1024
    || !lines[i].ended || lines[i].event.None?
  }

  /** The i-th line is read and is an event of this outcome. */
  ghost predicate LineMeans(scope: Scope, t: Table, lines: seq<Line>, i: nat, before: nat, o: Outcome)
    requires i < |lines| && t.Wf()
  {
    !EndsReading(lines, i, before) && StepMeans(scope, t, lines[i].event.value, o)
  }

  /** The reading goes from table to table, one line each, up to the end, to the first line that ends it
      or to a refused root start. */
  ghost predicate ReadsThrough(scope: Scope, tables: seq<Table>, lines: seq<Line>, before: nat, o: Outcome) {
    && 0 < |tables| <= |lines| + 1
    && var n := |tables| - 1;
    && (forall i | 0 <= i <= n :: tables[i].Wf())
    && (forall i | 0 <= i < n :: LineMeans(scope, tables[i], lines, i, before, Going(tables[i + 1])))
    && (if n == |lines| then o == Going(tables[n])
        else if EndsReading(lines, n, before) then o == Going(tables[n].(limited := true))
        else o == Refused && LineMeans(scope, tables[n], lines, n, before, Refused))
  }

  lemma {:induction false} ReadingSteps(scope: Scope, t: Table, lines: seq<Line>, before: nat)
      returns (tables: seq<Table>)
    requires t.Wf() && Sound(t)
    ensures ReadsThrough(scope, tables, lines, before, ReadLines(scope, t, lines, before)) && tables[0] == t
    decreases |lines|
  {
    hide Sound, Step, StepMeans;
    tables := [t];
    if lines != [] {
      FirstLineEnds(lines, before);
      if !Stops(lines[0], before) {
        var e := lines[0].event.value;
        StepIsExact(scope, t, e);
        StepKeepsSound(scope, t, e);
        var o := Step(scope, t, e);
        if o.Going? {
          SoundIsWf(o.table);
          var later := ReadingSteps(scope, o.table, lines[1..], before + lines[0].length);
          OneLineMore(scope, t, later, lines, before, ReadLines(scope, t, lines, before));
          tables := [t] + later;
        }
      }
    }
  }

  lemma SoundIsWf(t: Table)
    requires Sound(t)
    ensures t.Wf()
  {
  }

  lemma OneLineMore(scope: Scope, t: Table, later: seq<Table>, lines: seq<Line>, before: nat, o: Outcome)
    requires t.Wf() && lines != [] && !EndsReading(lines, 0, before)
    requires ReadsThrough(scope, later, lines[1..], before + lines[0].length, o)
    requires StepMeans(scope, t, lines[0].event.value, Going(later[0]))
    ensures ReadsThrough(scope, [t] + later, lines, before, o)
  {
    hide StepMeans;
    var tables, rest := [t] + later, lines[1..];
    var n := |later| - 1;
    forall i | 0 <= i < n + 1 ensures LineMeans(scope, tables[i], lines, i, before, Going(tables[i + 1])) {
      if i > 0 {
        assert LineMeans(scope, later[i - 1], rest, i - 1, before + lines[0].length, Going(later[i]));
        LaterLine(scope, later[i - 1], lines, i - 1, before, Going(later[i]));
      }
    }
    if n < |rest| {
      LaterLine(scope, later[n], lines, n, before, Refused);
    }
  }

  lemma FirstLineEnds(lines: seq<Line>, before: nat)
    requires lines != []
    ensures EndsReading(lines, 0, before) <==> Stops(lines[0], before)
  {
    assert lines[..1] == [lines[0]] && lines[..1][1..] == [];
    assert TotalLength(lines[..1]) == lines[0].length + TotalLength(lines[..1][1..]);
  }

  lemma LaterLine(scope: Scope, t: Table, lines: seq<Line>, i: nat, before: nat, o: Outcome)
    requires i + 1 < |lines| && t.Wf()
    ensures EndsReading(lines[1..], i, before + lines[0].length) <==> EndsReading(lines, i + 1, before)
    ensures LineMeans(scope, t, lines[1..], i, before + lines[0].length, o)
       <==> LineMeans(scope, t, lines, i + 1, before, o)
  {
    hide StepMeans;
    assert lines[..i + 2][1..] == lines[1..][..i + 1];
    assert TotalLength(lines[..i + 2]) == lines[0].length + TotalLength(lines[1..][..i + 1]);
  }

  /** What a returned child says: nothing after a cut reading; its status otherwise, unless it is not
      finished and no process is left. */
  ghost predicate IsSettled(left: Table, row: Row, returned: Row) {
    returned == row.(status := if left.limited then Unknown
                               else if IsFinished(row.status) || left.executing then row.status
                               else Unknown)
  }

  /** The reading of any lines: from the empty table through what every line means, and then the last
      pass over each child. */
  lemma ReadingIsExact(scope: Scope, expected: Option<string>, executing: bool, lines: seq<Line>)
      returns (tables: seq<Table>, left: Outcome)
    ensures ReadsThrough(scope, tables, lines, 0, left)
    ensures tables[0].children == map[] && tables[0].requests == map[] && !tables[0].knownLoaded
    ensures tables[0].native == expected && tables[0].executing == executing && !tables[0].limited
    ensures var o := Reading(scope, expected, executing, lines);
      && (o.Refused? <==> left.Refused?)
      && (o.Going? ==>
            && left.table.Wf() && o.table.limited == left.table.limited
            && o.table.children.Keys == left.table.children.Keys
            && forall k | k in o.table.children :: IsSettled(left.table, left.table.Child(k), o.table.Child(k)))
  {
    hide ReadLines, ReadsThrough, Finished;
    var start := EmptyTable(expected, executing);
    EmptyIsSound(expected, executing);
    tables := ReadingSteps(scope, start, lines, 0);
    left := ReadLines(scope, start, lines, 0);
    if left.Going? {
      FinishedOnlySettles(left.table);
    }
  }

  lemma EmptyIsSound(expected: Option<string>, executing: bool)
    ensures Sound(EmptyTable(expected, executing))
  {
  }
}
