/** The reader with its mutable rows, which the child table and the request table share.  Every
    method is proved against the table of `ChildEvents`. */
module ChildReading {
  import opened Wrappers
  import opened ChildEvents

  class ChildRow {
    const session: SessionRef
    const parent: string
    const parentNative: string
    const provider: Provider
    var native: Option<string>
    var operation: string
    var status: Status
    var updatedAt: int

    constructor (row: Row)
      ensures Value() == row
    {
      session, parent, parentNative, provider := row.session, row.parent, row.parentNative, row.provider;
      native, operation, status, updatedAt := row.native, row.operation, row.status, row.updatedAt;
    }

    function Value(): Row
      reads this
    {
      Row(session, parent, parentNative, native, provider, operation, status, updatedAt)
    }
  }

  ghost predicate HoldsRows(rows: seq<ChildRow>, values: seq<Row>, repr: set<ChildRow>)
    reads repr
  {
    && |rows| == |values| && (forall i | 0 <= i < |rows| :: rows[i] in repr && rows[i].Value() == values[i])
    && (forall i, j | 0 <= i < j < |rows| :: rows[i] != rows[j])
  }

  /** A table of rows is the table of their positions. */
  ghost predicate Holds(table: map<string, ChildRow>, ids: map<string, nat>, rows: seq<ChildRow>) {
    table.Keys == ids.Keys && forall k | k in table :: ids[k] < |rows| && table[k] == rows[ids[k]]
  }

  lemma HoldsPut(table: map<string, ChildRow>, ids: map<string, nat>, rows: seq<ChildRow>, k: string, r: nat)
    requires Holds(table, ids, rows) && r < |rows|
    ensures Holds(table[k := rows[r]], ids[k := r], rows)
  {
  }

  lemma HoldsRemoved(table: map<string, ChildRow>, ids: map<string, nat>, rows: seq<ChildRow>, k: string)
    requires Holds(table, ids, rows)
    ensures Holds(table - {k}, ids - {k}, rows)
  {
    assert (table - {k}).Keys == (ids - {k}).Keys;
  }

  lemma HoldsInMore(table: map<string, ChildRow>, ids: map<string, nat>, rows: seq<ChildRow>, row: ChildRow)
    requires Holds(table, ids, rows)
    ensures Holds(table, ids, rows + [row])
  {
  }

  lemma HoldsNewRow(rows: seq<ChildRow>, values: seq<Row>, repr: set<ChildRow>, row: ChildRow, value: Row)
    requires HoldsRows(rows, values, repr) && row !in repr && row.Value() == value
    ensures HoldsRows(rows + [row], values + [value], repr + {row})
  {
  }

  class ChildReader {
    const scope: Scope
    var children: map<string, ChildRow>
    var requests: map<string, ChildRow>
    var native: Option<string>
    var limited: bool
    var executing: bool
    var knownLoaded: bool
    ghost var view: Table
    ghost var rows: seq<ChildRow>
    ghost var repr: set<ChildRow>

    ghost predicate Valid()
      reads this, repr
    {
      && view.Wf() && HoldsRows(rows, view.rows, repr)
      && Holds(children, view.children, rows) && Holds(requests, view.requests, rows)
      && native == view.native && limited == view.limited && executing == view.executing
      && knownLoaded == view.knownLoaded
    }

    constructor (scope: Scope, expected: Option<string>, executing: bool)
      ensures Valid() && fresh(repr)
      ensures this.scope == scope && view == EmptyTable(expected, executing)
    {
      this.scope, this.executing, native := scope, executing, expected;
      children, requests, limited, knownLoaded := map[], map[], false, false;
      view, rows, repr := EmptyTable(expected, executing), [], {};
    }

    /** `children[key] = dict(row)` */
    method AddChild(key: string, value: Row) returns (row: ChildRow)
      requires Valid()
      modifies this`children, this`view, this`rows, this`repr
      ensures Valid() && fresh(repr - old(repr)) && fresh(row)
      ensures view == Added(old(view), key, value) && rows == old(rows) + [row]
    {
      hide Holds, HoldsRows;
      row := new ChildRow(value);
      HoldsInMore(children, view.children, rows, row);
      HoldsInMore(requests, view.requests, rows, row);
      HoldsNewRow(rows, view.rows, repr, row, value);
      HoldsPut(children, view.children, rows + [row], key, |rows|);
      children := children[key := row];
      view, rows, repr := Added(view, key, value), rows + [row], repr + {row};
    }

    method Limit()
      requires Valid()
      modifies this`limited, this`view
      ensures Valid() && view == old(view).(limited := true)
    {
      hide HoldsRows, Holds;
      limited, view := true, view.(limited := true);
    }

    method LoadKnown(native: string)
      requires Valid()
      modifies this`children, this`view, this`rows, this`repr
      ensures Valid() && fresh(repr - old(repr))
      ensures view == KnownLoaded(scope, old(view), native, |scope.known|)
    {
      hide HoldsRows, Holds;
      for n := 0 to |scope.known|
        invariant Valid() && fresh(repr - old(repr))
        invariant view == KnownLoaded(scope, old(view), native, n)
      {
        var row := scope.known[n];
        if Belongs(scope, row, native) {
          var _ := AddChild(row.native.value, row);
        }
      }
    }

    /** The blocks of one assistant message. */
    method Launch(native: string, tools: seq<Option<string>>)
      requires Valid()
      modifies this`children, this`requests, this`limited, this`view, this`rows, this`repr
      ensures Valid() && fresh(repr - old(repr))
      ensures view == AllLaunched(scope, old(view), native, tools, |tools|)
    {
      hide Launched, HoldsRows, Holds;
      for n := 0 to |tools|
        invariant Valid() && fresh(repr - old(repr))
        invariant view == AllLaunched(scope, old(view), native, tools, n)
      {
        LaunchOne(native, tools[n]);
      }
    }

    method PutRequest(tool: string, row: ChildRow, ghost r: nat)
      requires Valid() && r < |rows| && row == rows[r]
      modifies this`requests, this`view
      ensures Valid() && view == old(view).(requests := old(view).requests[tool := r])
    {
      hide HoldsRows, Holds;
      SameShape();
      HoldsPut(requests, view.requests, rows, tool, r);
      requests := requests[tool := row];
      view := view.(requests := view.requests[tool := r]);
    }

    /** `children.pop(request key)`, then `children[task] = row` */
    method MoveChild(key: string, task: string, row: ChildRow, ghost r: nat)
      requires Valid() && r < |rows| && row == rows[r]
      modifies this`children, this`view
      ensures Valid() && view == old(view).(children := (old(view).children - {key})[task := r])
    {
      hide HoldsRows, Holds;
      SameShape();
      HoldsRemoved(children, view.children, rows, key);
      HoldsPut(children - {key}, view.children - {key}, rows, task, r);
      children := (children - {key})[task := row];
      view := view.(children := (view.children - {key})[task := r]);
    }

    lemma SameShape()
      requires Valid()
      ensures |rows| == |view.rows| && children.Keys == view.children.Keys && requests.Keys == view.requests.Keys
      ensures |children| == |view.children|
    {
      SameSize(children, view.children);
    }

    method LaunchOne(native: string, id: Option<string>)
      requires Valid()
      modifies this`children, this`requests, this`limited, this`view, this`rows, this`repr
      ensures Valid() && fresh(repr - old(repr))
      ensures view == Launched(scope, old(view), native, id)
    {
      hide HoldsRows, Holds, RequestKey;
      SameShape();
      var tool := Ref(id);
      if tool.None? || tool.value in requests {
        return;
      }
      if |children| >= MAX_CHILDREN {
        Limit();
        return;
      }
      var row := AddChild(RequestKey(tool.value), RequestRow(scope, native, tool.value));
      SameShape();
      PutRequest(tool.value, row, |view.rows| - 1);
    }

    /** Writes the fields of one row that events change. */
    method SetRow(row: ChildRow, ghost r: nat, native: Option<string>, status: Status)
      requires Valid() && r < |rows| && row == rows[r]
      modifies this`view, row
      ensures Valid()
      ensures var changed := old(view).rows[r].(native := native, status := status).Touched(scope);
        view == old(view).(rows := old(view).rows[r := changed])
    {
      row.native, row.status := native, status;
      row.operation, row.updatedAt := scope.operation, scope.updatedAt;
      view := view.(rows := view.rows[r := row.Value()]);
    }

    /** A task event; refused when the row already has another native reference. */
    method Update(e: Event) returns (accepted: bool)
      requires Valid() && e.TaskEvent?
      modifies this`children, this`requests, this`view, repr
      ensures accepted == Updated(scope, old(view), e).Going?
      ensures accepted ==> Valid() && view == Updated(scope, old(view), e).table
    {
      hide Reported, Bound;
      var task, tool := Ref(e.task), Ref(e.tool);
      if e.subtype.TaskStarted? && task.Some? && tool.Some? && tool.value in requests && e.localAgentAtDepthOne {
        accepted := Bind(task.value, tool.value);
        return;
      }
      accepted := true;
      if task.None? || task.value !in children {
        return;
      }
      var row := children[task.value];
      SetRow(row, view.children[task.value], row.native, Reported(row.status, e));
    }

    lemma RowOf(task: string, tool: string)
      requires Valid() && tool in requests
      ensures tool in view.requests && (task in children <==> task in view.children)
      ensures var row := if task in children then children[task] else requests[tool];
        row in repr && row == rows[BoundTo(view, task, tool)] && row.Value() == view.rows[BoundTo(view, task, tool)]
    {
    }

    method Bind(task: string, tool: string) returns (accepted: bool)
      requires Valid() && tool in requests
      modifies this`children, this`requests, this`view, repr
      ensures accepted == Bound(scope, old(view), task, tool).Going?
      ensures accepted ==> Valid() && view == Bound(scope, old(view), task, tool).table
    {
      hide RequestKey, HoldsRows, Holds;
      RowOf(task, tool);
      SameShape();
      var row := if task in children then children[task] else requests[tool];
      if row.native.Some? && row.native.value != task {
        return false;
      }
      accepted := true;
      ghost var r := BoundTo(view, task, tool);
      SetRow(row, r, Some(task), Running);
      MoveChild(RequestKey(tool), task, row, r);
      PutRequest(tool, row, r);
    }

    /** The receivers of one completed collaboration call. */
    method Collaborate(native: string, e: Event)
      requires Valid() && e.CollabCall?
      modifies this`children, this`limited, this`view, this`rows, this`repr, repr
      ensures Valid() && fresh(repr - old(repr))
      ensures var wide := old(view).(limited := old(view).limited || |e.receivers| > MAX_CHILDREN);
        view == AllReceived(scope, wide, native, e, Least(|e.receivers|, MAX_CHILDREN))
    {
      hide Received, HoldsRows;
      if |e.receivers| > MAX_CHILDREN {
        Limit();
      }
      ghost var wide := view;
      for n := 0 to Least(|e.receivers|, MAX_CHILDREN)
        invariant Valid() && fresh(repr - old(repr))
        invariant view == AllReceived(scope, wide, native, e, n)
      {
        Receive(native, e, e.receivers[n]);
      }
    }

    method Receive(native: string, e: Event, receiver: Option<string>)
      requires Valid() && e.CollabCall?
      modifies this`children, this`limited, this`view, this`rows, this`repr, repr
      ensures Valid() && fresh(repr - old(repr))
      ensures view == Received(scope, old(view), native, e, receiver)
    {
      hide HoldsRows, Answered;
      SameShape();
      var ref := Ref(receiver);
      if ref.None? || ref.value == native {
        return;
      }
      var child := ref.value;
      if e.call.SpawnAgent? && child !in children {
        if |children| >= MAX_CHILDREN {
          Limit();
          return;
        }
        var _ := AddChild(child, SpawnedRow(scope, native, child));
      }
      if child in children {
        AnswerRow(e, child);
      }
    }

    method AnswerRow(e: Event, child: string)
      requires Valid() && e.CollabCall? && child in children
      modifies this`view, repr
      ensures Valid()
      ensures var r := old(view).children[child];
        view == old(view).(rows := old(view).rows[r := Answered(scope, old(view).rows[r], e, child)])
    {
      hide StatusOf;
      var row := children[child];
      ghost var r := view.children[child];
      if child in e.states && !e.call.OtherTool? && (!row.status.Terminal() || Restarts(e.call)) {
        SetRow(row, r, row.native, StatusOf(e.states[child]));
      } else {
        assert view.rows[r := view.rows[r]] == view.rows;
      }
    }

    /** One event: the body of the loop over the lines. */
    method Observe(e: Event) returns (accepted: bool)
      requires Valid()
      modifies this, repr
      ensures accepted == Step(scope, old(view), e).Going?
      ensures fresh(repr - old(repr))
      ensures accepted ==> Valid() && view == Step(scope, old(view), e).table
    {
      hide HoldsRows, Holds, Applied, Ready;
      if e.RootStart? {
        var observed := Ref(e.observed);
        if observed.None? || (native.Some? && observed != native) {
          return false;
        }
        SetNative(observed);
      }
      if native.None? {
        return true;
      }
      MakeReady();
      accepted := Apply(e);
    }

    method SetNative(observed: Option<string>)
      requires Valid()
      modifies this`native, this`view
      ensures Valid() && view == old(view).(native := observed)
    {
      hide HoldsRows, Holds;
      native, view := observed, view.(native := observed);
    }

    method MakeReady()
      requires Valid() && native.Some?
      modifies this`children, this`knownLoaded, this`view, this`rows, this`repr
      ensures Valid() && fresh(repr - old(repr))
      ensures view == Ready(scope, old(view), native.value)
    {
      hide KnownLoaded, HoldsRows, Holds;
      if !knownLoaded {
        LoadKnown(native.value);
        knownLoaded, view := true, view.(knownLoaded := true);
      }
    }

    method EndTurn()
      requires Valid()
      modifies this`executing, this`view
      ensures Valid() && view == old(view).(executing := false)
    {
      hide HoldsRows, Holds;
      executing, view := false, view.(executing := false);
    }

    method Apply(e: Event) returns (accepted: bool)
      requires Valid() && native.Some?
      modifies this, repr
      ensures accepted == Applied(scope, old(view), old(native).value, e).Going?
      ensures fresh(repr - old(repr))
      ensures accepted ==> Valid() && view == Applied(scope, old(view), old(native).value, e).table
    {
      hide HoldsRows, Holds, Updated, AllLaunched, AllReceived;
      accepted := true;
      if e.RootStart? || e.OtherEvent? || e.ForClaude() != scope.provider.Claude? {
        return;
      }
      if e.TurnEnded? {
        if e.actor.None? || e.actor == native {
          EndTurn();
        }
        return;
      }
      if e.actor != native {
        return;
      }
      match e
      case Launches(_, tools) =>
        Launch(native.value, tools);
      case TaskEvent(_, _, _, _, _, _) =>
        accepted := Update(e);
      case RunResult(_) =>
        EndTurn();
      case CollabCall(_, _, _, _) =>
        Collaborate(native.value, e);
    }

    /** The loop over the lines of the file. */
    method Read(lines: seq<Line>) returns (accepted: bool)
      requires Valid()
      modifies this, repr
      ensures fresh(repr - old(repr))
      ensures accepted == ReadLines(scope, old(view), lines, 0).Going?
      ensures accepted ==> Valid() && view == ReadLines(scope, old(view), lines, 0).table
    {
      hide Step, HoldsRows, Holds;
      var readBytes: nat, i := 0, 0;
      ghost var whole := ReadLines(scope, view, lines, 0);
      assert lines[0..] == lines;
      while i < |lines|
        invariant 0 <= i <= |lines| && Valid() && fresh(repr - old(repr))
        invariant ReadLines(scope, view, lines[i..], readBytes) == whole
      {
        var line := lines[i];
        assert lines[i..][0] == line && lines[i..][1..] == lines[i + 1..];
        readBytes := readBytes + line.length;
        if line.length > MAX_LINE || readBytes > MAX_BYTES || !line.ended || line.event.None? {
          Limit();
          return true;
        }
        var ok := Observe(line.event.value);
        if !ok {
          return false;
        }
        i := i + 1;
      }
      accepted := true;
    }

    /** The rows that are children and were visited are settled, the others as they were. */
    ghost predicate SettledBut(was: Table, left: set<ChildRow>)
      reads this, repr
    {
      && |rows| == |was.rows|
      && (forall i | 0 <= i < |rows| ::
          rows[i] in repr && rows[i].Value() == (if rows[i] in children.Values && rows[i] !in left
           then was.rows[i].(status := Settled(was, was.rows[i].status)) else was.rows[i]))
    }

    method SettleRow(row: ChildRow, ghost was: Table, ghost left: set<ChildRow>)
      requires SettledBut(was, left) && row in left && row in children.Values
      requires limited == was.limited && executing == was.executing
      modifies row
      ensures SettledBut(was, left - {row})
    {
      if limited || (!row.status.Terminal() && !executing) {
        row.status := Unknown;
      }
    }

    /** The last pass over the rows that are children. */
    method Finish()
      requires Valid()
      modifies this`view, repr
      ensures Valid() && view == Finished(old(view))
    {
      hide Finished, Holds, HoldsRows, SettledBut;
      ghost var was := view;
      RowsAreOwned();
      SettleAll(was);
      SettleView(was);
    }

    method SettleAll(ghost was: Table)
      requires SettledBut(was, children.Values) && children.Values <= repr
      requires limited == was.limited && executing == was.executing
      modifies repr
      ensures SettledBut(was, {})
    {
      hide SettledBut;
      var left := children.Values;
      while left != {}
        invariant left <= children.Values && SettledBut(was, left)
        decreases |left|
      {
        var child :| child in left;
        SettleRow(child, was, left);
        left := left - {child};
      }
    }

    /** Takes over in the view what the pass did to the rows. */
    ghost method SettleView(was: Table)
      requires was.Wf() && view == was && SettledBut(was, {})
      requires Holds(children, was.children, rows) && Holds(requests, was.requests, rows)
      requires forall i, j | 0 <= i < j < |rows| :: rows[i] != rows[j]
      requires native == was.native && limited == was.limited
      requires executing == was.executing && knownLoaded == was.knownLoaded
      modifies this`view
      ensures Valid() && view == Finished(was)
    {
      hide Finished, SettledBut, HoldsRows, Holds;
      FinishedShape(was);
      SettledRows(was);
      view := Finished(view);
    }

    lemma FinishedShape(was: Table)
      requires was.Wf()
      ensures var u := Finished(was); u == was.(rows := u.rows)
    {
    }

    lemma SettledRows(was: Table)
      requires was.Wf() && view == was && SettledBut(was, {}) && Holds(children, was.children, rows)
      requires forall i, j | 0 <= i < j < |rows| :: rows[i] != rows[j]
      ensures HoldsRows(rows, Finished(was).rows, repr)
    {
      SameValues();
    }

    lemma RowsAreOwned()
      requires Valid()
      ensures children.Values <= repr && SettledBut(view, children.Values)
      ensures forall i, j | 0 <= i < j < |rows| :: rows[i] != rows[j]
    {
    }

    /** A row is a child exactly when its position is a value of the child table. */
    lemma SameValues()
      requires Holds(children, view.children, rows)
      requires forall i, j | 0 <= i < j < |rows| :: rows[i] != rows[j]
      ensures forall i | 0 <= i < |rows| :: rows[i] in children.Values <==> i in view.children.Values
    {
      forall i | 0 <= i < |rows|
        ensures rows[i] in children.Values <==> i in view.children.Values
      {
        if rows[i] in children.Values {
          var k :| k in children && children[k] == rows[i];
          assert view.children[k] == i;
        }
        if i in view.children.Values {
          var k :| k in view.children && view.children[k] == i;
          assert children[k] == rows[i];
        }
      }
    }
  }

  lemma SameSize<A, B>(a: map<string, A>, b: map<string, B>)
    requires a.Keys == b.Keys
    ensures |a| == |b|
  {
    assert |a| == |a.Keys| && |b| == |b.Keys|;
  }

  /** `read_child_sessions`: the rows are those of the table that the events and the last pass
      leave; nothing is returned when a root start names another native session. */
  method ReadChildSessions(scope: Scope, expected: Option<string>, executing: bool, lines: seq<Line>)
      returns (reader: ChildReader, accepted: bool)
    ensures accepted == Reading(scope, expected, executing, lines).Going?
    ensures accepted ==> reader.Valid() && reader.view == Reading(scope, expected, executing, lines).table
  {
    hide ReadLines, Finished;
    reader := new ChildReader(scope, expected, executing);
    accepted := reader.Read(lines);
    if accepted {
      reader.Finish();
    }
  }
}
