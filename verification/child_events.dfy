/** The child session table as a fold over provider events.  Rows are mutable and shared between the
    two tables, so the state keeps them in one list and the tables hold positions in it.  Parsing a
    line and hashing a session reference (an injective constructor here) are parameters. */
module ChildEvents {
  import opened Wrappers

  const MAX_BYTES := 64 * 1024 * 1024
  const MAX_LINE := 1024 * 1024
  const MAX_CHILDREN := 256
  const MAX_REF := 256

  datatype Provider = Claude | Codex

  datatype Status = Unknown | Starting | Running | Completed | Failed | Cancelled
  {
    predicate Terminal() {
      Completed? || Failed? || Cancelled?
    }
  }

  function StatusOf(value: Option<string>): Status {
    match value
    case None => Unknown
    case Some(s) =>
      if s in {"completed", "succeeded"} then Completed
      else if s in {"errored", "failed"} then Failed
      else if s in {"cancelled", "canceled", "interrupted", "shutdown", "stopped", "killed"} then Cancelled
      else if s in {"running", "in_progress"} then Running
      else if s in {"pending", "starting"} then Starting
      else Unknown
  }

  /** A usable identifier: a text of 1 to 256 characters. */
  function Ref(value: Option<string>): Option<string> {
    if value.Some? && 0 < |value.value| <= MAX_REF then value else None
  }

  datatype SessionRef =
    | OfNative(parent: string, provider: Provider, native: string)
    | OfRequest(parent: string, provider: Provider, operation: string, request: string)

  datatype Row = Row(
    session: SessionRef,
    parent: string,
    parentNative: string,
    native: Option<string>,
    provider: Provider,
    operation: string,
    status: Status,
    updatedAt: int
  )
  {
    function Touched(scope: Scope): Row {
      this.(operation := scope.operation, updatedAt := scope.updatedAt)
    }
  }

  datatype Scope = Scope(
    parent: string, operation: string, provider: Provider, updatedAt: int, known: seq<Row>)

  datatype Subtype = TaskStarted | TaskProgress | TaskNotification | TaskUpdated

  datatype Tool = SpawnAgent | Wait | CloseAgent | SendInput | ResumeAgent | OtherTool

  /** What a parsed line is to the reader.  `actor` is the session the event names. */
  datatype Event =
    | RootStart(observed: Option<string>)
    | Launches(actor: Option<string>, tools: seq<Option<string>>)
    | TaskEvent(actor: Option<string>, subtype: Subtype, task: Option<string>, tool: Option<string>,
                localAgentAtDepthOne: bool, status: Option<string>)
    | RunResult(actor: Option<string>)
    | CollabCall(actor: Option<string>, call: Tool, receivers: seq<Option<string>>,
                 states: map<string, Option<string>>)
    | TurnEnded(actor: Option<string>)
    | OtherEvent
  {
    predicate ForClaude() {
      Launches? || TaskEvent? || RunResult?
    }
  }

  datatype Line = Line(length: nat, ended: bool, event: Option<Event>)

  datatype Table = Table(
    rows: seq<Row>,
    children: map<string, nat>,
    requests: map<string, nat>,
    native: Option<string>,
    limited: bool,
    executing: bool,
    knownLoaded: bool
  )
  {
    ghost predicate Wf() {
      && (forall k | k in children :: children[k] < |rows|)
      && (forall t | t in requests :: requests[t] < |rows|)
    }

    function Child(k: string): Row
      requires Wf() && k in children
    {
      rows[children[k]]
    }

    function Requested(t: string): Row
      requires Wf() && t in requests
    {
      rows[requests[t]]
    }
  }

  /** Going on with a table, or the `ValueError` for an inconsistent native identity. */
  datatype Outcome = Going(table: Table) | Refused
  {
    ghost predicate Wf() {
      Going? ==> table.Wf()
    }
  }

  function RequestKey(tool: string): string {
    "request:" + tool
  }

  function EmptyTable(expected: Option<string>, executing: bool): (t: Table)
    ensures t.Wf()
  {
    Table([], map[], map[], expected, false, executing, false)
  }

  /** `children[key] = row`, for a row that is new. */
  function Added(t: Table, key: string, row: Row): (u: Table)
    requires t.Wf()
    ensures u.Wf()
  {
    t.(rows := t.rows + [row], children := t.children[key := |t.rows|])
  }

  predicate Belongs(scope: Scope, row: Row, native: string) {
    row.parent == scope.parent && row.provider == scope.provider && row.parentNative == native && row.native.Some?
  }

  /** The rows known from earlier turns, the first n of them. */
  function KnownLoaded(scope: Scope, t: Table, native: string, n: nat): (u: Table)
    requires t.Wf() && n <= |scope.known|
    ensures u.Wf()
  {
    if n == 0 then t
    else
      var before := KnownLoaded(scope, t, native, n - 1);
      var row := scope.known[n - 1];
      if Belongs(scope, row, native) then Added(before, row.native.value, row) else before
  }

  function RequestRow(scope: Scope, native: string, tool: string): Row {
    Row(OfRequest(scope.parent, scope.provider, scope.operation, tool), scope.parent, native, None,
        scope.provider, scope.operation, Starting, scope.updatedAt)
  }

  function SpawnedRow(scope: Scope, native: string, child: string): Row {
    Row(OfNative(scope.parent, Codex, child), scope.parent, native, Some(child), Codex,
        scope.operation, Unknown, scope.updatedAt)
  }

  /** One `tool_use` block that launches an agent. */
  function Launched(scope: Scope, t: Table, native: string, id: Option<string>): (u: Table)
    requires t.Wf()
    ensures u.Wf()
  {
    var tool := Ref(id);
    if tool.None? || tool.value in t.requests then t
    else if |t.children| >= MAX_CHILDREN then t.(limited := true)
    else
      var u := Added(t, RequestKey(tool.value), RequestRow(scope, native, tool.value));
      u.(requests := t.requests[tool.value := |t.rows|])
  }

  function AllLaunched(scope: Scope, t: Table, native: string, tools: seq<Option<string>>, n: nat): (u: Table)
    requires t.Wf() && n <= |tools|
    ensures u.Wf()
  {
    if n == 0 then t else Launched(scope, AllLaunched(scope, t, native, tools, n - 1), native, tools[n - 1])
  }

  /** The row that a started task is bound to. */
  function BoundTo(t: Table, task: string, tool: string): (r: nat)
    requires t.Wf() && tool in t.requests
    ensures r < |t.rows|
  {
    if task in t.children then t.children[task] else t.requests[tool]
  }

  /** A task that started: its row gets the native reference and moves to that key. */
  function Bound(scope: Scope, t: Table, task: string, tool: string): (o: Outcome)
    requires t.Wf() && tool in t.requests
    ensures o.Wf()
  {
    var r := BoundTo(t, task, tool);
    var row := t.rows[r];
    if row.native.Some? && row.native.value != task then Refused
    else
      Going(t.(
        rows := t.rows[r := row.(native := Some(task), status := Running).Touched(scope)],
        children := (t.children - {RequestKey(tool)})[task := r],
        requests := t.requests[tool := r]))
  }

  /** The status of a row that a task event is about. */
  function Reported(status: Status, e: Event): Status
    requires e.TaskEvent?
  {
    match e.subtype
    case TaskStarted => status
    case TaskProgress => if status.Terminal() then status else Running
    case _ =>
      var reported := StatusOf(e.status);
      if reported.Terminal() && !status.Terminal() then reported else status
  }

  /** The event binds a task to a requested row. */
  predicate Binds(t: Table, e: Event) {
    && e.TaskEvent? && e.subtype.TaskStarted? && Ref(e.task).Some?
    && Ref(e.tool).Some? && Ref(e.tool).value in t.requests && e.localAgentAtDepthOne
  }

  function Updated(scope: Scope, t: Table, e: Event): (o: Outcome)
    requires t.Wf() && e.TaskEvent?
    ensures o.Wf()
  {
    var task := Ref(e.task);
    if Binds(t, e) then Bound(scope, t, task.value, Ref(e.tool).value)
    else if task.None? || task.value !in t.children then Going(t)
    else
      var r := t.children[task.value];
      var row := t.rows[r];
      Going(t.(rows := t.rows[r := row.(status := Reported(row.status, e)).Touched(scope)]))
  }

  predicate Restarts(call: Tool) {
    call.SendInput? || call.ResumeAgent?
  }

  /** The row of one receiver of a collaboration call, after the call. */
  function Answered(scope: Scope, row: Row, e: Event, child: string): (answered: Row)
    requires e.CollabCall?
    ensures answered.native == row.native && answered.session == row.session
    ensures answered.parentNative == row.parentNative
    ensures row.status.Terminal() && !Restarts(e.call) ==> answered == row
  {
    if child !in e.states || e.call.OtherTool? then row
    else if row.status.Terminal() && !Restarts(e.call) then row
    else row.(status := StatusOf(e.states[child])).Touched(scope)
  }

  function Received(scope: Scope, t: Table, native: string, e: Event, receiver: Option<string>): (u: Table)
    requires t.Wf() && e.CollabCall?
    ensures u.Wf()
  {
    var ref := Ref(receiver);
    if ref.None? || ref.value == native then t
    else
      var child := ref.value;
      var spawns := e.call.SpawnAgent? && child !in t.children;
      if spawns && |t.children| >= MAX_CHILDREN then t.(limited := true)
      else
        var u := if spawns then Added(t, child, SpawnedRow(scope, native, child)) else t;
        if child !in u.children then u
        else
          var r := u.children[child];
          u.(rows := u.rows[r := Answered(scope, u.rows[r], e, child)])
  }

  function AllReceived(scope: Scope, t: Table, native: string, e: Event, n: nat): (u: Table)
    requires t.Wf() && e.CollabCall? && n <= |e.receivers|
    ensures u.Wf()
  {
    if n == 0 then t else Received(scope, AllReceived(scope, t, native, e, n - 1), native, e, e.receivers[n - 1])
  }

  function Least(a: nat, b: nat): nat {
    if a <= b then a else b
  }

  /** An event of the bound native session. */
  function Applied(scope: Scope, t: Table, native: string, e: Event): (o: Outcome)
    requires t.Wf()
    ensures o.Wf()
  {
    if e.RootStart? || e.OtherEvent? || e.ForClaude() != scope.provider.Claude? then Going(t)
    else if e.TurnEnded? then
      Going(if e.actor.None? || e.actor.value == native then t.(executing := false) else t)
    else if e.actor != Some(native) then Going(t)
    else match e
      case Launches(_, tools) => Going(AllLaunched(scope, t, native, tools, |tools|))
      case TaskEvent(_, _, _, _, _, _) => Updated(scope, t, e)
      case RunResult(_) => Going(t.(executing := false))
      case CollabCall(_, _, receivers, _) =>
        var wide := t.(limited := t.limited || |receivers| > MAX_CHILDREN);
        Going(AllReceived(scope, wide, native, e, Least(|receivers|, MAX_CHILDREN)))
  }

  /** The known rows are loaded once, when the native session is first known. */
  function Ready(scope: Scope, t: Table, native: string): (u: Table)
    requires t.Wf()
    ensures u.Wf()
  {
    if t.knownLoaded then t
    else KnownLoaded(scope, t, native, |scope.known|).(knownLoaded := true)
  }

  /** The native session after the event, or the refusal of an inconsistent root start. */
  function Identified(t: Table, e: Event): (o: Outcome)
    requires t.Wf()
    ensures o.Wf()
  {
    if !e.RootStart? then Going(t)
    else
      var observed := Ref(e.observed);
      if observed.None? || (t.native.Some? && observed != t.native) then Refused
      else Going(t.(native := observed))
  }

  function Step(scope: Scope, t: Table, e: Event): (o: Outcome)
    requires t.Wf()
    ensures o.Wf()
  {
    var identified := Identified(t, e);
    if identified.Refused? || identified.table.native.None? then identified
    else
      var native := identified.table.native.value;
      Applied(scope, Ready(scope, identified.table, native), native, e)
  }

  /** A line that ends the reading: too long, past the total limit, unfinished or not an object. */
  predicate Stops(line: Line, readBytes: nat) {
    line.length > MAX_LINE || readBytes + line.length > MAX_BYTES || !line.ended || line.event.None?
  }

  function ReadLines(scope: Scope, t: Table, lines: seq<Line>, readBytes: nat): (o: Outcome)
    requires t.Wf()
    ensures o.Wf()
    decreases |lines|
  {
    if lines == [] then Going(t)
    else if Stops(lines[0], readBytes) then Going(t.(limited := true))
    else
      match Step(scope, t, lines[0].event.value)
      case Refused => Refused
      case Going(u) => ReadLines(scope, u, lines[1..], readBytes + lines[0].length)
  }

  /** What a returned row says when the reading was cut short or the process is gone. */
  function Settled(t: Table, status: Status): Status {
    if t.limited || (!status.Terminal() && !t.executing) then Unknown else status
  }

  /** `read_child_sessions`: every row that is a child gets its final status. */
  ghost function Finished(t: Table): (u: Table)
    requires t.Wf()
    ensures u.Wf()
  {
    t.(rows := seq(|t.rows|, i requires 0 <= i < |t.rows| =>
      if i in t.children.Values then t.rows[i].(status := Settled(t, t.rows[i].status)) else t.rows[i]))
  }

  ghost function Reading(scope: Scope, expected: Option<string>, executing: bool, lines: seq<Line>): (o: Outcome)
    ensures o.Wf()
  {
    match ReadLines(scope, EmptyTable(expected, executing), lines, 0)
    case Refused => Refused
    case Going(t) => Going(Finished(t))
  }
}
