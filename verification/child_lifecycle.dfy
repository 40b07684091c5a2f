/** When a finished child moves again, how large the table gets, and what the last pass returns. */
module ChildLifecycle {
  import opened Wrappers
  import opened ChildEvents
  import opened ChildSessions

  // ---- Finished rows

  /** The receiver of a collaboration call is the child in row i. */
  ghost predicate Addressed(t: Table, e: Event, n: nat, i: nat)
    requires t.Wf() && e.CollabCall? && n <= |e.receivers|
  {
    exists j: nat {:trigger e.receivers[j]} | j < n ::
      IsChildIn(t, e.receivers[j], i)
  }

  /** The two ways a finished row is set going again: a task bound to it, or a restarting call. */
  ghost predicate Restarted(scope: Scope, t: Table, e: Event, i: nat)
    requires t.Wf()
  {
    if scope.provider.Claude? then
      Binds(t, e) && i == BoundTo(t, Ref(e.task).value, Ref(e.tool).value)
    else
      e.CollabCall? && Restarts(e.call) && Addressed(t, e, Least(|e.receivers|, MAX_CHILDREN), i)
  }

  ghost predicate SameStatus(t: Table, u: Table, i: nat) {
    i < |t.rows| && i < |u.rows| && u.rows[i].status == t.rows[i].status
  }

  predicate IsChildIn(t: Table, receiver: Option<string>, i: nat) {
    Ref(receiver).Some? && Ref(receiver).value in t.children && t.children[Ref(receiver).value] == i
  }

  lemma AddressedByOneMore(t: Table, e: Event, n: nat, i: nat)
    requires t.Wf() && e.CollabCall? && 0 < n <= |e.receivers|
    ensures Addressed(t, e, n, i) <==> Addressed(t, e, n - 1, i) || IsChildIn(t, e.receivers[n - 1], i)
  {
  }

  lemma OneReceiverLeavesFinished(scope: Scope, t: Table, native: string, e: Event, receiver: Option<string>, i: nat)
    requires t.Wf() && e.CollabCall? && i < |t.rows| && t.rows[i].status.Terminal()
    requires !(Restarts(e.call) && IsChildIn(t, receiver, i))
    ensures SameStatus(t, Received(scope, t, native, e, receiver), i)
    ensures Restarts(e.call) ==> Received(scope, t, native, e, receiver).children == t.children
  {
    hide Answered;
  }

  lemma {:induction false} ReceiversLeaveFinished(scope: Scope, t: Table, native: string, e: Event, n: nat, i: nat)
    requires t.Wf() && e.CollabCall? && n <= |e.receivers| && i < |t.rows| && t.rows[i].status.Terminal()
    requires !(Restarts(e.call) && Addressed(t, e, n, i))
    ensures SameStatus(t, AllReceived(scope, t, native, e, n), i)
    ensures Restarts(e.call) ==> AllReceived(scope, t, native, e, n).children == t.children
  {
    hide Received, Addressed;
    if n > 0 {
      AddressedByOneMore(t, e, n, i);
      ReceiversLeaveFinished(scope, t, native, e, n - 1, i);
      OneReceiverLeavesFinished(scope, AllReceived(scope, t, native, e, n - 1), native, e, e.receivers[n - 1], i);
    }
  }

  /** Within the event loop a finished row keeps its status unless a task is bound to it or a
      `send_input` or `resume_agent` call addresses it. */
  lemma OnlyARestartLeavesFinished(scope: Scope, t: Table, e: Event, i: nat)
    requires Sound(t) && Step(scope, t, e).Going?
    requires i < |t.rows| && t.rows[i].status.Terminal() && !Restarted(scope, t, e, i)
    ensures SameStatus(t, Step(scope, t, e).table, i)
  {
    hide Placed, Pending, StatusOf, AllLaunched, AllReceived, KnownLoaded, Addressed;
    var native := t.native.value;
    assert Some(t.rows[i].parentNative) == t.native;
    var ready := Ready(scope, t, native);
    assert ready == t;
    match e
    case Launches(_, tools) =>
      AllLaunchedKeepsRest(scope, t, native, tools, |tools|);
    case CollabCall(_, _, receivers, _) =>
      var wide := t.(limited := t.limited || |receivers| > MAX_CHILDREN);
      if scope.provider.Codex? {
        AddressedIgnoresLimit(t, wide, e, Least(|receivers|, MAX_CHILDREN), i);
        ReceiversLeaveFinished(scope, wide, native, e, Least(|receivers|, MAX_CHILDREN), i);
      }
    case _ =>
  }

  lemma AddressedIgnoresLimit(t: Table, u: Table, e: Event, n: nat, i: nat)
    requires t.Wf() && u.Wf() && t.children == u.children && e.CollabCall? && n <= |e.receivers|
    ensures Addressed(t, e, n, i) == Addressed(u, e, n, i)
  {
  }

  predicate CanRestart(e: Event) {
    (e.TaskEvent? && e.subtype.TaskStarted?) || (e.CollabCall? && Restarts(e.call))
  }

  /** Over any stretch of lines without a restarting event finished rows stay finished. */
  lemma {:induction false} FinishedStaysFinished(scope: Scope, t: Table, lines: seq<Line>, readBytes: nat, i: nat)
    requires Sound(t) && ReadLines(scope, t, lines, readBytes).Going?
    requires i < |t.rows| && t.rows[i].status.Terminal()
    requires forall line | line in lines && line.event.Some? :: !CanRestart(line.event.value)
    ensures SameStatus(t, ReadLines(scope, t, lines, readBytes).table, i)
    decreases |lines|
  {
    hide Placed, Pending, OneNative, Step;
    if lines != [] && !Stops(lines[0], readBytes) {
      var e := lines[0].event.value;
      assert !CanRestart(lines[0].event.value);
      StepKeepsSound(scope, t, e);
      OnlyARestartLeavesFinished(scope, t, e, i);
      FinishedStaysFinished(scope, Step(scope, t, e).table, lines[1..], readBytes + lines[0].length, i);
    }
  }

  /** The last pass: a cut reading says nothing about any child, and once the process is gone no
      child looks alive; otherwise every status is the one the events left. */
  lemma NoChildLooksAlive(scope: Scope, expected: Option<string>, executing: bool, lines: seq<Line>)
    requires Reading(scope, expected, executing, lines).Going?
    ensures var t := Reading(scope, expected, executing, lines).table;
      var left := ReadLines(scope, EmptyTable(expected, executing), lines, 0).table;
      && t.children == left.children
      && (forall k | k in t.children && t.limited :: t.Child(k).status.Unknown?)
      && (forall k | k in t.children && !t.executing :: !t.Child(k).status.Starting? && !t.Child(k).status.Running?)
      && (forall k | k in t.children && !t.limited && (t.executing || left.Child(k).status.Terminal()) ::
          t.Child(k) == left.Child(k))
  {
    hide ReadLines, Finished;
    FinishedOnlySettles(ReadLines(scope, EmptyTable(expected, executing), lines, 0).table);
  }

  // ---- The size of the table

  lemma InsertedSize<V>(m: map<string, V>, k: string, v: V)
    ensures |m[k := v]| == |m| + (if k in m then 0 else 1)
  {
    assert m[k := v].Keys == m.Keys + {k};
    assert |m| == |m.Keys| && |m[k := v]| == |m[k := v].Keys|;
  }

  lemma RemovedSize<V>(m: map<string, V>, k: string)
    ensures |m - {k}| == |m| - (if k in m then 1 else 0)
  {
    assert (m - {k}).Keys == m.Keys - {k};
    assert |m| == |m.Keys| && |m - {k}| == |(m - {k}).Keys|;
  }

  function Most(a: nat, b: nat): nat {
    if a >= b then a else b
  }

  lemma LaunchedSize(scope: Scope, t: Table, native: string, id: Option<string>)
    requires t.Wf()
    ensures |Launched(scope, t, native, id).children| <= Most(MAX_CHILDREN, |t.children|)
  {
    hide RequestKey;
    if Ref(id).Some? {
      InsertedSize(t.children, RequestKey(Ref(id).value), |t.rows|);
    }
  }

  lemma {:induction false} AllLaunchedSize(scope: Scope, t: Table, native: string, tools: seq<Option<string>>, n: nat)
    requires t.Wf() && n <= |tools|
    ensures |AllLaunched(scope, t, native, tools, n).children| <= Most(MAX_CHILDREN, |t.children|)
  {
    hide Launched;
    if n > 0 {
      AllLaunchedSize(scope, t, native, tools, n - 1);
      LaunchedSize(scope, AllLaunched(scope, t, native, tools, n - 1), native, tools[n - 1]);
    }
  }

  lemma ReceivedSize(scope: Scope, t: Table, native: string, e: Event, receiver: Option<string>)
    requires t.Wf() && e.CollabCall?
    ensures |Received(scope, t, native, e, receiver).children| <= Most(MAX_CHILDREN, |t.children|)
  {
    hide Answered;
    if Ref(receiver).Some? {
      InsertedSize(t.children, Ref(receiver).value, |t.rows|);
    }
  }

  lemma {:induction false} AllReceivedSize(scope: Scope, t: Table, native: string, e: Event, n: nat)
    requires t.Wf() && e.CollabCall? && n <= |e.receivers|
    ensures |AllReceived(scope, t, native, e, n).children| <= Most(MAX_CHILDREN, |t.children|)
  {
    hide Received;
    if n > 0 {
      AllReceivedSize(scope, t, native, e, n - 1);
      ReceivedSize(scope, AllReceived(scope, t, native, e, n - 1), native, e, e.receivers[n - 1]);
    }
  }

  lemma {:induction false} KnownLoadedSize(scope: Scope, t: Table, native: string, n: nat)
    requires t.Wf() && n <= |scope.known|
    ensures |KnownLoaded(scope, t, native, n).children| <= |t.children| + n
  {
    if n > 0 {
      KnownLoadedSize(scope, t, native, n - 1);
      var before, row := KnownLoaded(scope, t, native, n - 1), scope.known[n - 1];
      if row.native.Some? {
        InsertedSize(before.children, row.native.value, |before.rows|);
      }
    }
  }

  /** The event brings back a row that is in neither place of a full table. */
  predicate BringsBack(scope: Scope, t: Table, e: Event) {
    && scope.provider.Claude? && Binds(t, e) && e.actor == t.native
    && Ref(e.task).value !in t.children && RequestKey(Ref(e.tool).value) !in t.children
  }

  lemma BoundSize(scope: Scope, t: Table, task: string, tool: string)
    requires t.Wf() && tool in t.requests && Bound(scope, t, task, tool).Going?
    ensures var u := Bound(scope, t, task, tool).table;
      || |u.children| <= |t.children|
      || (|u.children| == |t.children| + 1 && task !in t.children && RequestKey(tool) !in t.children)
    ensures task !in t.children && RequestKey(tool) !in t.children ==>
      |Bound(scope, t, task, tool).table.children| == |t.children| + 1
  {
    hide RequestKey;
    RemovedSize(t.children, RequestKey(tool));
    InsertedSize(t.children - {RequestKey(tool)}, task, BoundTo(t, task, tool));
  }

  /** Exactly when one event makes the table larger than both its limit and what it was. */
  lemma OnlyBringingBackOutgrows(scope: Scope, t: Table, e: Event)
    requires t.Wf() && t.knownLoaded && t.native.Some? && Step(scope, t, e).Going?
    ensures |Step(scope, t, e).table.children| > Most(MAX_CHILDREN, |t.children|)
       <==> BringsBack(scope, t, e) && |t.children| >= MAX_CHILDREN
  {
    hide StatusOf, Reported, AllLaunched, AllReceived, Bound, RequestKey;
    var native := t.native.value;
    match e
    case Launches(_, tools) =>
      AllLaunchedSize(scope, t, native, tools, |tools|);
    case CollabCall(_, _, receivers, _) =>
      var wide := t.(limited := t.limited || |receivers| > MAX_CHILDREN);
      AllReceivedSize(scope, wide, native, e, Least(|receivers|, MAX_CHILDREN));
    case TaskEvent(_, _, _, _, _, _) =>
      if Binds(t, e) && scope.provider.Claude? && e.actor == t.native {
        BoundSize(scope, t, Ref(e.task).value, Ref(e.tool).value);
      }
    case _ =>
  }

  /** Bringing a row back adds exactly that row. */
  lemma BringingBackAddsOne(scope: Scope, t: Table, e: Event)
    requires t.Wf() && t.knownLoaded && t.native.Some? && Step(scope, t, e).Going? && BringsBack(scope, t, e)
    ensures |Step(scope, t, e).table.children| == |t.children| + 1
  {
    hide StatusOf, Reported, Bound, RequestKey;
    BoundSize(scope, t, Ref(e.task).value, Ref(e.tool).value);
  }

  /** What the table may hold: its limit, or all known children where there are more. */
  function Allowed(scope: Scope): nat {
    Most(MAX_CHILDREN, |scope.known|)
  }

  /** The tables that a reading goes through, the first one included. */
  ghost function TablesOn(scope: Scope, t: Table, lines: seq<Line>, readBytes: nat): (tables: seq<Table>)
    requires t.Wf()
    ensures 0 < |tables| <= |lines| + 1 && tables[0] == t && forall i | 0 <= i < |tables| :: tables[i].Wf()
    ensures forall i | 0 <= i < |tables| - 1 :: lines[i].event.Some?
    decreases |lines|
  {
    if lines == [] || Stops(lines[0], readBytes) || Step(scope, t, lines[0].event.value).Refused? then [t]
    else
      var rest := TablesOn(scope, Step(scope, t, lines[0].event.value).table, lines[1..], readBytes + lines[0].length);
      assert forall i | 0 <= i < |rest| - 1 :: lines[i + 1] == lines[1..][i];
      [t] + rest
  }

  /** Some table of the reading holds more rows than it may. */
  ghost predicate Outgrows(scope: Scope, t: Table, lines: seq<Line>, readBytes: nat)
    requires t.Wf()
  {
    exists table | table in TablesOn(scope, t, lines, readBytes) :: |table.children| > Allowed(scope)
  }

  /** At its i-th event the reading brings back a row into a table that is full. */
  ghost predicate FillsOver(scope: Scope, t: Table, lines: seq<Line>, readBytes: nat, i: nat)
    requires t.Wf()
  {
    var tables := TablesOn(scope, t, lines, readBytes);
    i + 1 < |tables| && |tables[i].children| >= Allowed(scope) && BringsBack(scope, tables[i], lines[i].event.value)
  }

  /** The tables of a reading are those of the fold: what it returns has the rows of the last one. */
  lemma {:induction false} LastTableIsRead(scope: Scope, t: Table, lines: seq<Line>, readBytes: nat)
    requires t.Wf() && ReadLines(scope, t, lines, readBytes).Going?
    ensures var tables := TablesOn(scope, t, lines, readBytes);
      ReadLines(scope, t, lines, readBytes).table.children == tables[|tables| - 1].children
    decreases |lines|
  {
    hide Step;
    if lines != [] && !Stops(lines[0], readBytes) {
      LastTableIsRead(scope, Step(scope, t, lines[0].event.value).table, lines[1..], readBytes + lines[0].length);
    }
  }

  /** One step from an allowed table. */
  lemma StepOutgrows(scope: Scope, t: Table, e: Event)
    requires Sound(t) && Step(scope, t, e).Going? && |t.children| <= Allowed(scope)
    ensures |Step(scope, t, e).table.children| > Allowed(scope)
       <==> BringsBack(scope, t, e) && |t.children| >= Allowed(scope)
  {
    hide Placed, Pending, Step, RequestKey;
    if t.knownLoaded && t.native.Some? {
      OnlyBringingBackOutgrows(scope, t, e);
      if BringsBack(scope, t, e) {
        BringingBackAddsOne(scope, t, e);
      }
    } else {
      FirstStepIsAllowed(scope, t, e);
      NothingIsRequested(t);
    }
  }

  lemma RowsNameTheNative(t: Table)
    requires OneNative(t)
    ensures t.rows != [] ==> t.native.Some?
    ensures !t.knownLoaded ==> t.requests == map[]
  {
    if t.rows != [] {
      assert Some(t.rows[0].parentNative) == t.native;
    }
  }

  lemma NothingIsRequested(t: Table)
    requires Sound(t) && (!t.knownLoaded || t.native.None?)
    ensures t.requests == map[]
  {
    hide Placed, Pending, OneNative;
    RowsNameTheNative(t);
  }

  lemma FirstStepIsAllowed(scope: Scope, t: Table, e: Event)
    requires Sound(t) && Step(scope, t, e).Going? && |t.children| <= Allowed(scope)
    requires !t.knownLoaded || t.native.None?
    ensures |Step(scope, t, e).table.children| <= Allowed(scope)
  {
    hide Placed, Pending, Applied, KnownLoaded, RequestKey;
    IdentifiedKeepsSound(t, e);
    var u := Identified(t, e).table;
    if u.native.Some? {
      var native := u.native.value;
      KnownLoadedSize(scope, u, native, |scope.known|);
      KnownLoadedKeepsRest(scope, u, native, |scope.known|);
      var ready := Ready(scope, u, native);
      ReadyStep(scope, ready, native, e);
    }
  }

  /** In a loaded table an event of the native session keeps the bound unless it brings a row back. */
  lemma ReadyStep(scope: Scope, t: Table, native: string, e: Event)
    requires t.Wf() && t.native == Some(native) && t.knownLoaded && Applied(scope, t, native, e).Going?
    requires |t.children| <= Allowed(scope) && (t.requests == map[] || e.RootStart?)
    ensures |Applied(scope, t, native, e).table.children| <= Allowed(scope)
  {
    hide Applied, RequestKey;
    if e.RootStart? {
      RootStartChangesNothing(scope, t, native, e);
    } else {
      AppliedIsTheStep(scope, t, native, e);
      OnlyBringingBackOutgrows(scope, t, e);
    }
  }

  lemma RootStartChangesNothing(scope: Scope, t: Table, native: string, e: Event)
    requires t.Wf() && e.RootStart?
    ensures Applied(scope, t, native, e) == Going(t)
  {
  }

  lemma AppliedIsTheStep(scope: Scope, t: Table, native: string, e: Event)
    requires t.Wf() && t.native == Some(native) && t.knownLoaded && !e.RootStart?
    ensures Step(scope, t, e) == Applied(scope, t, native, e)
  {
    hide Applied;
  }

  /** Over every stream the table outgrows what it may hold at some point if and only if some event
      brings back a row into a table that is full. */
  lemma {:induction false} StreamOutgrowsExactly(scope: Scope, t: Table, lines: seq<Line>, readBytes: nat)
    requires Sound(t) && |t.children| <= Allowed(scope)
    ensures Outgrows(scope, t, lines, readBytes) <==> exists i :: FillsOver(scope, t, lines, readBytes, i)
    decreases |lines|
  {
    hide Placed, Pending, OneNative, Step, BringsBack;
    var tables := TablesOn(scope, t, lines, readBytes);
    if |tables| > 1 {
      var e, rest := lines[0].event.value, lines[1..];
      var u, bytes := Step(scope, t, e).table, readBytes + lines[0].length;
      var later := TablesOn(scope, u, rest, bytes);
      assert tables == [t] + later;
      StepKeepsSound(scope, t, e);
      StepOutgrows(scope, t, e);
      if |u.children| > Allowed(scope) {
        assert u in tables && FillsOver(scope, t, lines, readBytes, 0);
      } else {
        StreamOutgrowsExactly(scope, u, rest, bytes);
        LaterFillsOver(scope, t, lines, readBytes, u, rest, bytes);
      }
    }
  }

  /** When the first event keeps the bound, only a later one can break it. */
  lemma LaterFillsOver(scope: Scope, t: Table, lines: seq<Line>, readBytes: nat, u: Table, rest: seq<Line>, bytes: nat)
    requires t.Wf() && u.Wf() && lines != [] && rest == lines[1..]
    requires TablesOn(scope, t, lines, readBytes) == [t] + TablesOn(scope, u, rest, bytes)
    requires !FillsOver(scope, t, lines, readBytes, 0) && |t.children| <= Allowed(scope)
    ensures Outgrows(scope, t, lines, readBytes) <==> Outgrows(scope, u, rest, bytes)
    ensures (exists i :: FillsOver(scope, t, lines, readBytes, i)) <==> exists i :: FillsOver(scope, u, rest, bytes, i)
  {
    hide TablesOn, FillsOver;
    forall i: nat ensures FillsOver(scope, t, lines, readBytes, i + 1) == FillsOver(scope, u, rest, bytes, i) {
      FillsOverOneLater(scope, t, lines, readBytes, u, rest, bytes, i);
    }
    if i: nat :| FillsOver(scope, t, lines, readBytes, i) {
      assert FillsOver(scope, u, rest, bytes, i - 1);
    }
    if i: nat :| FillsOver(scope, u, rest, bytes, i) {
      assert FillsOver(scope, t, lines, readBytes, i + 1);
    }
  }

  lemma FillsOverOneLater(scope: Scope, t: Table, lines: seq<Line>, readBytes: nat, u: Table, rest: seq<Line>,
                          bytes: nat, i: nat)
    requires t.Wf() && u.Wf() && lines != [] && rest == lines[1..]
    requires TablesOn(scope, t, lines, readBytes) == [t] + TablesOn(scope, u, rest, bytes)
    ensures FillsOver(scope, t, lines, readBytes, i + 1) == FillsOver(scope, u, rest, bytes, i)
  {
    hide TablesOn, BringsBack;
    var tables, later := TablesOn(scope, t, lines, readBytes), TablesOn(scope, u, rest, bytes);
    if i + 1 < |later| {
      assert tables[i + 1] == later[i] && lines[i + 1] == rest[i];
    }
  }

  /** What a reading returns are the rows of its last table. */
  lemma ReadingHasTheLastRows(scope: Scope, expected: Option<string>, executing: bool, lines: seq<Line>)
    requires Reading(scope, expected, executing, lines).Going?
    ensures var empty := EmptyTable(expected, executing);
      var tables := TablesOn(scope, empty, lines, 0);
      var returned := Reading(scope, expected, executing, lines).table.children;
      && returned == tables[|tables| - 1].children
      && (|returned| > Allowed(scope) ==> Outgrows(scope, empty, lines, 0))
  {
    hide ReadLines, Settled, TablesOn, EmptyTable, Allowed;
    LastTableIsRead(scope, EmptyTable(expected, executing), lines, 0);
  }

  /** The same from the empty table that every reading starts with; so a reading returns too many rows
      only if some event did that. */
  lemma TableOutgrowsExactly(scope: Scope, expected: Option<string>, executing: bool, lines: seq<Line>)
    ensures Outgrows(scope, EmptyTable(expected, executing), lines, 0)
       <==> exists i :: FillsOver(scope, EmptyTable(expected, executing), lines, 0, i)
    ensures var o := Reading(scope, expected, executing, lines);
      o.Going? && |o.table.children| > Allowed(scope) ==>
        exists i :: FillsOver(scope, EmptyTable(expected, executing), lines, 0, i)
  {
    hide Outgrows, FillsOver, Reading, Allowed;
    StreamOutgrowsExactly(scope, EmptyTable(expected, executing), lines, 0);
    if Reading(scope, expected, executing, lines).Going? {
      ReadingHasTheLastRows(scope, expected, executing, lines);
    }
  }

  /** A reference that reads like the key of a request. */
  predicate LikeRequestKey(ref: string) {
    "request:" <= ref
  }

  predicate PlainTask(e: Event) {
    e.TaskEvent? && e.task.Some? ==> !LikeRequestKey(e.task.value)
  }

  /** Every started task is in the table under a reference that is no request key. */
  ghost predicate Started(t: Table, q: string)
    requires t.Wf() && q in t.requests
  {
    var row := t.Requested(q);
    row.native.Some? ==>
      && !LikeRequestKey(row.native.value) && row.native.value in t.children
      && t.children[row.native.value] == t.requests[q]
  }

  ghost predicate AllStarted(t: Table)
    requires t.Wf()
  {
    forall q | q in t.requests :: Started(t, q)
  }

  lemma StartedAsBefore(t: Table, u: Table, q: string)
    requires t.Wf() && u.Wf() && q in t.requests && q in u.requests && Started(t, q)
    requires t.requests[q] == u.requests[q] && t.Requested(q).native == u.Requested(q).native
    requires forall k | k in t.children && !LikeRequestKey(k) :: k in u.children && u.children[k] == t.children[k]
    ensures Started(u, q)
  {
  }

  lemma {:induction false} LaunchedKeepsStarted(scope: Scope, t: Table, native: string, tools: seq<Option<string>>,
                                                n: nat)
    requires t.Wf() && AllStarted(t) && n <= |tools|
    ensures AllStarted(AllLaunched(scope, t, native, tools, n))
  {
    hide Started, AllLaunched;
    if n > 0 {
      LaunchedKeepsStarted(scope, t, native, tools, n - 1);
      LaunchKeepsStarted(scope, AllLaunched(scope, t, native, tools, n - 1), native, tools[n - 1]);
    }
    AllLaunchedUnfolds(scope, t, native, tools, n);
  }

  lemma AllLaunchedUnfolds(scope: Scope, t: Table, native: string, tools: seq<Option<string>>, n: nat)
    requires t.Wf() && n <= |tools|
    ensures AllLaunched(scope, t, native, tools, n)
         == if n == 0 then t else Launched(scope, AllLaunched(scope, t, native, tools, n - 1), native, tools[n - 1])
  {
  }

  lemma LaunchKeepsStarted(scope: Scope, t: Table, native: string, id: Option<string>)
    requires t.Wf() && AllStarted(t)
    ensures AllStarted(Launched(scope, t, native, id))
  {
    hide Started;
    var u := Launched(scope, t, native, id);
    forall q | q in u.requests ensures Started(u, q) {
      if q in t.requests {
        StartedAsBefore(t, u, q);
      } else {
        NewRequestIsNotStarted(scope, t, native, q);
      }
    }
  }

  lemma NewRequestIsNotStarted(scope: Scope, t: Table, native: string, tool: string)
    requires t.Wf() && tool !in t.requests
    ensures var u := Added(t, RequestKey(tool), RequestRow(scope, native, tool));
      Started(u.(requests := t.requests[tool := |t.rows|]), tool)
  {
  }

  lemma BoundKeepsStarted(scope: Scope, t: Table, task: string, tool: string)
    requires t.Wf() && AllStarted(t) && tool in t.requests && !LikeRequestKey(task)
    requires Bound(scope, t, task, tool).Going?
    ensures AllStarted(Bound(scope, t, task, tool).table)
  {
    var r, u := BoundTo(t, task, tool), Bound(scope, t, task, tool).table;
    forall q | q in u.requests ensures Started(u, q) {
      if q != tool {
        assert Started(t, q);
      }
    }
  }

  lemma SpawnedKeepsStarted(scope: Scope, t: Table, native: string, child: string)
    requires t.Wf() && AllStarted(t)
    ensures child !in t.children ==> AllStarted(Added(t, child, SpawnedRow(scope, native, child)))
  {
    hide Started;
    if child !in t.children {
      var u := Added(t, child, SpawnedRow(scope, native, child));
      forall q | q in u.requests ensures Started(u, q) {
        StartedInLargerTable(t, u, q);
      }
    }
  }

  lemma StartedInLargerTable(t: Table, u: Table, q: string)
    requires t.Wf() && u.Wf() && q in t.requests && q in u.requests && Started(t, q)
    requires t.requests[q] == u.requests[q] && t.rows <= u.rows
    requires forall k | k in t.children :: k in u.children && u.children[k] == t.children[k]
    ensures Started(u, q)
  {
  }

  lemma ReceivedKeepsStarted(scope: Scope, t: Table, native: string, e: Event, receiver: Option<string>)
    requires t.Wf() && AllStarted(t) && e.CollabCall?
    ensures AllStarted(Received(scope, t, native, e, receiver))
  {
    hide AllStarted, Answered;
    var ref := Ref(receiver);
    if ref.Some? && ref.value != native {
      var child := ref.value;
      SpawnedKeepsStarted(scope, t, native, child);
      StartedIgnores(t, t.(limited := true));
      var spawns := e.call.SpawnAgent? && child !in t.children;
      var u := if spawns then Added(t, child, SpawnedRow(scope, native, child)) else t;
      if child in u.children {
        var r := u.children[child];
        RetouchedKeepsStarted(u, r, Answered(scope, u.rows[r], e, child));
      }
    }
  }

  lemma {:induction false} AllReceivedKeepsStarted(scope: Scope, t: Table, native: string, e: Event, n: nat)
    requires t.Wf() && AllStarted(t) && e.CollabCall? && n <= |e.receivers|
    ensures AllStarted(AllReceived(scope, t, native, e, n))
  {
    hide Started, Received;
    if n > 0 {
      AllReceivedKeepsStarted(scope, t, native, e, n - 1);
      ReceivedKeepsStarted(scope, AllReceived(scope, t, native, e, n - 1), native, e, e.receivers[n - 1]);
    }
  }

  ghost predicate WithinBound(scope: Scope, t: Table)
    requires t.Wf()
  {
    AllStarted(t) && |t.children| <= Most(MAX_CHILDREN, |scope.known|)
  }

  lemma RetouchedKeepsStarted(t: Table, r: nat, row: Row)
    requires t.Wf() && AllStarted(t) && r < |t.rows| && row.native == t.rows[r].native
    ensures AllStarted(t.(rows := t.rows[r := row]))
  {
    hide Started;
    var u := t.(rows := t.rows[r := row]);
    forall q | q in u.requests ensures Started(u, q) {
      StartedAsBefore(t, u, q);
    }
  }

  lemma UpdatedKeepsBound(scope: Scope, t: Table, e: Event)
    requires Sound(t) && WithinBound(scope, t) && e.TaskEvent? && PlainTask(e) && Updated(scope, t, e).Going?
    ensures WithinBound(scope, Updated(scope, t, e).table)
  {
    hide StatusOf, Reported, Bound;
    if Binds(t, e) {
      var task, tool := Ref(e.task).value, Ref(e.tool).value;
      BoundKeepsStarted(scope, t, task, tool);
      BoundSize(scope, t, task, tool);
      if task !in t.children && RequestKey(tool) !in t.children {
        StartedRowIsInTheTable(scope, t, task, tool);
      }
    } else if Ref(e.task).Some? && Ref(e.task).value in t.children {
      var r := t.children[Ref(e.task).value];
      RetouchedKeepsStarted(t, r, t.rows[r].(status := Reported(t.rows[r].status, e)).Touched(scope));
    }
  }

  lemma StartedRowIsInTheTable(scope: Scope, t: Table, task: string, tool: string)
    requires Sound(t) && AllStarted(t) && tool in t.requests && Bound(scope, t, task, tool).Going?
    ensures task in t.children || RequestKey(tool) in t.children
  {
    assert Pending(t, tool) && Started(t, tool);
  }

  lemma StartedIgnores(t: Table, u: Table)
    requires t.Wf() && u.Wf() && AllStarted(t)
    requires u.children == t.children && u.requests == t.requests && u.rows == t.rows
    ensures AllStarted(u)
  {
    forall q | q in u.requests ensures Started(u, q) {
      assert Started(t, q);
    }
  }

  lemma StepKeepsBound(scope: Scope, t: Table, e: Event)
    requires Sound(t) && WithinBound(scope, t) && PlainTask(e) && Step(scope, t, e).Going?
    ensures WithinBound(scope, Step(scope, t, e).table)
  {
    hide Placed, Pending, Started, Applied;
    var u := Identified(t, e).table;
    IdentifiedKeepsSound(t, e);
    StartedIgnores(t, u);
    if u.native.Some? {
      var native := u.native.value;
      if !u.knownLoaded {
        KnownLoadedSize(scope, u, native, |scope.known|);
        KnownLoadedKeepsRest(scope, u, native, |scope.known|);
        KnownLoadedKeepsSound(scope, u, native, |scope.known|);
      }
      AppliedKeepsBound(scope, Ready(scope, u, native), native, e);
    }
  }

  lemma AppliedKeepsBound(scope: Scope, t: Table, native: string, e: Event)
    requires Sound(t) && WithinBound(scope, t) && PlainTask(e) && t.native == Some(native) && t.knownLoaded
    requires Applied(scope, t, native, e).Going?
    ensures WithinBound(scope, Applied(scope, t, native, e).table)
  {
    hide Placed, Pending, Started, Updated, AllLaunched, AllReceived;
    match e
    case Launches(_, tools) =>
      LaunchedKeepsStarted(scope, t, native, tools, |tools|);
      AllLaunchedSize(scope, t, native, tools, |tools|);
    case CollabCall(_, _, receivers, _) =>
      var wide := t.(limited := t.limited || |receivers| > MAX_CHILDREN);
      StartedIgnores(t, wide);
      AllReceivedKeepsStarted(scope, wide, native, e, Least(|receivers|, MAX_CHILDREN));
      AllReceivedSize(scope, wide, native, e, Least(|receivers|, MAX_CHILDREN));
    case TaskEvent(_, _, _, _, _, _) =>
      if Applied(scope, t, native, e) == Updated(scope, t, e) {
        UpdatedKeepsBound(scope, t, e);
      }
    case _ =>
      StartedIgnores(t, t.(executing := false));
  }

  /** When no task reference reads like a request key, every stream keeps the table within its limit
      or the number of known children, whichever is larger. */
  lemma {:induction false} PlainTasksKeepTheBound(scope: Scope, t: Table, lines: seq<Line>, readBytes: nat)
    requires Sound(t) && WithinBound(scope, t) && ReadLines(scope, t, lines, readBytes).Going?
    requires forall line | line in lines && line.event.Some? :: PlainTask(line.event.value)
    ensures |ReadLines(scope, t, lines, readBytes).table.children| <= Most(MAX_CHILDREN, |scope.known|)
    decreases |lines|
  {
    hide Placed, Pending, OneNative, Step, AllStarted;
    if lines != [] && !Stops(lines[0], readBytes) {
      var e := lines[0].event.value;
      assert PlainTask(lines[0].event.value);
      StepKeepsSound(scope, t, e);
      StepKeepsBound(scope, t, e);
      PlainTasksKeepTheBound(scope, Step(scope, t, e).table, lines[1..], readBytes + lines[0].length);
    }
  }

  /** What a reading returns holds at most max(256, known) rows when no task reference reads like a
      request key. */
  lemma PlainReadingKeepsTheBound(scope: Scope, expected: Option<string>, executing: bool, lines: seq<Line>)
    requires forall line | line in lines && line.event.Some? :: PlainTask(line.event.value)
    requires Reading(scope, expected, executing, lines).Going?
    ensures |Reading(scope, expected, executing, lines).table.children| <= Most(MAX_CHILDREN, |scope.known|)
  {
    hide ReadLines, Settled;
    PlainTasksKeepTheBound(scope, EmptyTable(expected, executing), lines, 0);
  }

  // ---- A stream that outgrows the table

  function Letters(n: nat): (s: string)
    ensures |s| == n && forall c | c in s :: c == 'k'
  {
    if n == 0 then "" else Letters(n - 1) + "k"
  }

  /** n known children with distinct references of one letter each. */
  function KnownChildren(n: nat): (known: seq<Row>)
    ensures |known| == n
    ensures forall i | 0 <= i < n :: known[i].native == Some(Letters(i + 1)) && known[i].provider.Claude?
    ensures forall i | 0 <= i < n :: known[i].parent == "root" && known[i].parentNative == "n"
  {
    if n == 0 then []
    else
      KnownChildren(n - 1)
      + [Row(OfNative("root", Claude, Letters(n)), "root", "n", Some(Letters(n)), Claude, "before", Completed, 0)]
  }

  ghost predicate OnlyLetters(children: map<string, nat>) {
    forall k | k in children :: 0 < |k| && k[0] == 'k'
  }

  lemma {:induction false} KnownChildrenFill(scope: Scope, t: Table, n: nat)
    requires t.Wf() && t.children == map[] && n <= |scope.known|
    requires scope.known == KnownChildren(|scope.known|) && scope.provider.Claude? && scope.parent == "root"
    ensures var u := KnownLoaded(scope, t, "n", n); |u.children| == n && OnlyLetters(u.children)
    ensures forall k | k in KnownLoaded(scope, t, "n", n).children :: |k| <= n
  {
    if n > 0 {
      KnownChildrenFill(scope, t, n - 1);
      var before := KnownLoaded(scope, t, "n", n - 1);
      InsertedSize(before.children, Letters(n), |before.rows|);
      assert Belongs(scope, scope.known[n - 1], "n");
      var k := Letters(n);
      assert k[0] in k;
    }
  }

  /** Two requests, the task of the first one taking the key of the second one as its reference. */
  function OverfullEvents(): seq<Event> {
    var actor := Some("n");
    [ Launches(actor, [Some("t")]),
      TaskEvent(actor, TaskStarted, Some("request:u"), Some("t"), true, None),
      Launches(actor, [Some("u")]),
      TaskEvent(actor, TaskStarted, Some("z"), Some("u"), true, None),
      Launches(actor, [Some("v")]),
      TaskEvent(actor, TaskStarted, Some("request:u"), Some("t"), true, None) ]
  }

  function AsLine(e: Event): Line {
    Line(100, true, Some(e))
  }

  function AsLines(events: seq<Event>): seq<Line> {
    seq(|events|, i requires 0 <= i < |events| => AsLine(events[i]))
  }

  /** The tables that the events lead through, one by one. */
  ghost predicate LeadsThrough(scope: Scope, tables: seq<Table>, events: seq<Event>) {
    && |tables| == |events| + 1
    && (forall i | 0 <= i < |tables| :: tables[i].Wf())
    && (forall i: nat | i < |events| :: Step(scope, tables[i], events[i]) == Going(tables[i + 1]))
  }

  lemma {:induction false} LinesLeadThrough(scope: Scope, tables: seq<Table>, events: seq<Event>, readBytes: nat)
    requires LeadsThrough(scope, tables, events) && readBytes + 100 * |events| <= MAX_BYTES
    ensures ReadLines(scope, tables[0], AsLines(events), readBytes) == Going(tables[|events|])
    decreases |events|
  {
    hide Step;
    if events != [] {
      var lines := AsLines(events);
      assert lines[1..] == AsLines(events[1..]) && lines[0] == AsLine(events[0]);
      LinesLeadThrough(scope, tables[1..], events[1..], readBytes + 100);
    }
  }

  lemma LaunchSteps(scope: Scope, t: Table, tool: string) returns (u: Table)
    requires t.Wf() && scope.provider.Claude? && t.native == Some("n") && t.knownLoaded
    requires |t.children| < MAX_CHILDREN && 0 < |tool| <= MAX_REF && tool !in t.requests
    ensures u.Wf() && Step(scope, t, Launches(Some("n"), [Some(tool)])) == Going(u)
    ensures u.native == t.native && u.knownLoaded
    ensures |u.rows| == |t.rows| + 1 && t.rows < u.rows && u.rows[|t.rows|].native.None?
    ensures u.children == t.children[RequestKey(tool) := |t.rows|] && u.requests == t.requests[tool := |t.rows|]
  {
    hide RequestKey;
    var tools := [Some(tool)];
    assert AllLaunched(scope, t, "n", tools, 0) == t;
    u := Launched(scope, t, "n", tools[0]);
    assert AllLaunched(scope, t, "n", tools, 1) == u;
  }

  lemma StartSteps(scope: Scope, t: Table, task: string, tool: string) returns (u: Table)
    requires t.Wf() && scope.provider.Claude? && t.native == Some("n") && t.knownLoaded && tool in t.requests
    requires 0 < |tool| <= MAX_REF && 0 < |task| <= MAX_REF
    requires var row := t.rows[BoundTo(t, task, tool)]; row.native.None? || row.native == Some(task)
    ensures u.Wf() && Step(scope, t, TaskEvent(Some("n"), TaskStarted, Some(task), Some(tool), true, None)) == Going(u)
    ensures u.native == t.native && u.knownLoaded && |u.rows| == |t.rows|
    ensures var r := BoundTo(t, task, tool);
      && u.rows[r].native == Some(task) && (forall i | 0 <= i < |t.rows| && i != r :: u.rows[i] == t.rows[i])
      && u.children == (t.children - {RequestKey(tool)})[task := r] && u.requests == t.requests[tool := r]
  {
    hide RequestKey;
    u := Bound(scope, t, task, tool).table;
  }

  lemma KeysDiffer()
    ensures RequestKey("u") == "request:u" && RequestKey("t") != RequestKey("u")
    ensures RequestKey("v") != RequestKey("u") && RequestKey("v") != RequestKey("t")
    ensures RequestKey("t")[0] == RequestKey("u")[0] == RequestKey("v")[0] == 'r'
  {
    assert RequestKey("u")[8] == 'u' && RequestKey("t")[8] == 't' && RequestKey("v")[8] == 'v';
  }

  /** Launching the first request and binding its task to the key of the second. */
  lemma FirstTaskTakesTheKey(scope: Scope, t: Table) returns (one: Table, two: Table)
    requires t.Wf() && scope.provider.Claude? && t.native == Some("n") && t.knownLoaded
    requires t.requests == map[] && |t.children| == 254 && OnlyLetters(t.children)
    ensures LeadsThrough(scope, [t, one, two], OverfullEvents()[..2])
    ensures var r := |t.rows|;
      && two.native == Some("n") && two.knownLoaded && |two.rows| == r + 1 && two.rows[r].native == Some("request:u")
      && two.children == t.children["request:u" := r] && two.requests == map["t" := r]
  {
    hide Step, RequestKey;
    LettersAreNoKeys(t);
    KeysDiffer();
    var r := |t.rows|;
    InsertedSize(t.children, RequestKey("t"), r);
    one := LaunchSteps(scope, t, "t");
    two := StartSteps(scope, one, "request:u", "t");
    assert two.children == t.children["request:u" := r];
    var tables, events := [t, one, two], OverfullEvents()[..2];
    assert forall i: nat | i < 2 :: Step(scope, tables[i], events[i]) == Going(tables[i + 1]);
  }

  /** Then the same for the second request: the row of the first one is in neither place. */
  lemma FirstTaskIsLost(scope: Scope, t: Table) returns (tables: seq<Table>)
    requires t.Wf() && scope.provider.Claude? && t.native == Some("n") && t.knownLoaded
    requires t.requests == map[] && |t.children| == 254 && OnlyLetters(t.children)
    ensures LeadsThrough(scope, tables, OverfullEvents()[..4]) && tables[0] == t
    ensures var u, r := tables[4], |t.rows|;
      && u.native == Some("n") && u.knownLoaded && |u.rows| == r + 2 && u.rows[r].native == Some("request:u")
      && u.children == t.children["z" := r + 1] && u.requests == map["t" := r, "u" := r + 1]
  {
    hide Step, RequestKey, OnlyLetters;
    LettersAreNoKeys(t);
    KeysDiffer();
    var r := |t.rows|;
    var one, two := FirstTaskTakesTheKey(scope, t);
    InsertedSize(t.children, "request:u", r);
    var three := LaunchSteps(scope, two, "u");
    assert three.children == t.children["request:u" := r + 1];
    var four := StartSteps(scope, three, "z", "u");
    assert four.children == t.children["z" := r + 1];
    assert four.requests == map["t" := r, "u" := r + 1];
    tables := [t, one, two, three, four];
    FourSteps(scope, tables);
  }

  lemma FourSteps(scope: Scope, tables: seq<Table>)
    requires |tables| == 5 && (forall i | 0 <= i < 5 :: tables[i].Wf())
    requires LeadsThrough(scope, [tables[0], tables[1], tables[2]], OverfullEvents()[..2])
    requires Step(scope, tables[2], OverfullEvents()[2]) == Going(tables[3])
    requires Step(scope, tables[3], OverfullEvents()[3]) == Going(tables[4])
    ensures LeadsThrough(scope, tables, OverfullEvents()[..4])
  {
    hide Step;
    var events := OverfullEvents();
    var first := [tables[0], tables[1], tables[2]];
    assert Step(scope, first[0], events[..2][0]) == Going(first[1]);
    assert Step(scope, first[1], events[..2][1]) == Going(first[2]);
    assert forall i: nat | i < 4 :: Step(scope, tables[i], events[..4][i]) == Going(tables[i + 1]);
  }

  /** Its task starting again brings the row back into the full table. */
  lemma FirstTaskComesBack(scope: Scope, t: Table, r: nat) returns (tables: seq<Table>)
    requires t.Wf() && scope.provider.Claude? && t.native == Some("n") && t.knownLoaded && |t.children| == 255
    requires r < |t.rows| && t.rows[r].native == Some("request:u") && t.requests == map["t" := r, "u" := r + 1]
    requires RequestKey("t") !in t.children && RequestKey("u") !in t.children && RequestKey("v") !in t.children
    ensures LeadsThrough(scope, tables, OverfullEvents()[4..]) && tables[0] == t
    ensures |tables[2].children| == 257
  {
    hide Step, RequestKey;
    KeysDiffer();
    InsertedSize(t.children, RequestKey("v"), |t.rows|);
    var one := LaunchSteps(scope, t, "v");
    InsertedSize(one.children, "request:u", r);
    var two := StartSteps(scope, one, "request:u", "t");
    assert two.children == one.children["request:u" := r];
    tables := [t, one, two];
    var events := OverfullEvents()[4..];
    assert forall i: nat | i < 2 :: Step(scope, tables[i], events[i]) == Going(tables[i + 1]);
  }

  /** The bound on the table does not hold for every stream: after 254 known children this one
      leaves 257. */
  lemma TableCanOutgrowItsBound(scope: Scope)
    requires |scope.known| == 254 && scope.known == KnownChildren(|scope.known|)
    requires scope.provider.Claude? && scope.parent == "root"
    ensures var o := ReadLines(scope, EmptyTable(Some("n"), true), AsLines(OverfullEvents()), 0);
      o.Going? && |o.table.children| == 257
  {
    hide KnownLoaded, OnlyLetters, LeadsThrough, ReadLines, RequestKey, AsLines, Step;
    var start := EmptyTable(Some("n"), true);
    var loaded := Ready(scope, start, "n");
    KnownChildrenFill(scope, start, |scope.known|);
    KnownLoadedKeepsRest(scope, start, "n", |scope.known|);
    LoadedLeadsOn(scope, start, loaded);
  }

  lemma LoadedLeadsOn(scope: Scope, start: Table, loaded: Table)
    requires scope.provider.Claude? && start.Wf() && start.native == Some("n") && loaded == Ready(scope, start, "n")
    requires loaded.Wf() && loaded.native == Some("n") && loaded.knownLoaded
    requires loaded.requests == map[] && |loaded.children| == 254 && OnlyLetters(loaded.children)
    ensures var o := ReadLines(scope, start, AsLines(OverfullEvents()), 0);
      o.Going? && |o.table.children| == 257
  {
    hide OnlyLetters, ReadLines, RequestKey, AsLines, Step, Ready;
    var events := OverfullEvents();
    var lost := FirstTaskIsLost(scope, loaded);
    InsertedSize(loaded.children, "z", |loaded.rows| + 1);
    LettersAreNoKeys(loaded);
    var back := FirstTaskComesBack(scope, lost[4], |loaded.rows|);
    var tables := [start] + lost[1..] + back[1..];
    FirstStepLoads(scope, start, events[0]);
    Joined(scope, start, lost, back, events);
    LinesLeadThrough(scope, tables, events, 0);
  }

  lemma LettersAreNoKeys(t: Table)
    requires OnlyLetters(t.children)
    ensures "z" !in t.children && RequestKey("t") !in t.children && RequestKey("u") !in t.children
    ensures RequestKey("v") !in t.children && RequestKey("t") != "z" && RequestKey("u") != "z" && RequestKey("v") != "z"
  {
    KeysDiffer();
  }

  lemma FirstStepLoads(scope: Scope, t: Table, e: Event)
    requires t.Wf() && t.native == Some("n") && !e.RootStart?
    ensures Step(scope, t, e) == Step(scope, Ready(scope, t, "n"), e)
  {
    hide KnownLoaded, Applied;
    KnownLoadedKeepsRest(scope, t, "n", |scope.known|);
  }

  lemma Joined(scope: Scope, start: Table, lost: seq<Table>, back: seq<Table>, events: seq<Event>)
    requires |events| == 6 && LeadsThrough(scope, lost, events[..4]) && LeadsThrough(scope, back, events[4..])
    requires start.Wf() && back[0] == lost[4] && Step(scope, start, events[0]) == Step(scope, lost[0], events[0])
    ensures LeadsThrough(scope, [start] + lost[1..] + back[1..], events)
  {
    hide Step;
    var tables := [start] + lost[1..] + back[1..];
    forall i: nat | i < |events|
      ensures Step(scope, tables[i], events[i]) == Going(tables[i + 1])
    {
      if i < 4 {
        assert events[..4][i] == events[i];
        assert i > 0 ==> tables[i] == lost[i];
      } else {
        assert events[4..][i - 4] == events[i] && tables[i] == back[i - 4] && tables[i + 1] == back[i - 3];
      }
    }
  }
}
