/** What every stream of provider events leaves in the child session table: where rows are stored,
    when a finished row moves again, what the last pass returns. */
module ChildSessions {
  import opened Wrappers
  import opened ChildEvents

  // ---- Where a row is stored

  /** A child is stored under its native reference, or under its request key while it has none. */
  ghost predicate Placed(t: Table, k: string)
    requires t.Wf() && k in t.children
  {
    var row := t.Child(k);
    match row.native
    case Some(native) => native == k
    case None =>
      && row.session.OfRequest? && k == RequestKey(row.session.request)
      && row.session.request in t.requests && t.requests[row.session.request] == t.children[k]
  }

  /** A request whose task has not started is the child under its request key. */
  ghost predicate Pending(t: Table, q: string)
    requires t.Wf() && q in t.requests
  {
    var row := t.Requested(q);
    row.native.None? ==>
      && row.session.OfRequest? && row.session.request == q
      && RequestKey(q) in t.children && t.children[RequestKey(q)] == t.requests[q]
  }

  /** Rows belong to the one native session; before it is known there are none. */
  ghost predicate OneNative(t: Table) {
    && (forall i | 0 <= i < |t.rows| :: Some(t.rows[i].parentNative) == t.native)
    && (!t.knownLoaded ==> t.rows == [] && t.children == map[] && t.requests == map[])
  }

  ghost predicate Sound(t: Table) {
    && t.Wf()
    && (forall k | k in t.children :: Placed(t, k))
    && (forall q | q in t.requests :: Pending(t, q))
    && OneNative(t)
  }

  ghost predicate SoundOutcome(o: Outcome) {
    o.Going? ==> Sound(o.table)
  }

  lemma RequestKeyIsInjective(a: string, b: string)
    requires RequestKey(a) == RequestKey(b)
    ensures a == b
  {
    assert RequestKey(a)[|"request:"|..] == a;
    assert RequestKey(b)[|"request:"|..] == b;
  }

  /** A row that is still at its keys is still placed there. */
  lemma PlacedAsBefore(t: Table, u: Table, k: string)
    requires t.Wf() && u.Wf() && k in t.children && k in u.children && Placed(t, k)
    requires t.children[k] == u.children[k] && t.rows <= u.rows
    requires forall q | q in t.requests :: q in u.requests && u.requests[q] == t.requests[q]
    ensures Placed(u, k)
  {
    assert t.Child(k) == u.Child(k);
  }

  lemma PendingAsBefore(t: Table, u: Table, q: string)
    requires t.Wf() && u.Wf() && q in t.requests && q in u.requests && Pending(t, q)
    requires t.requests[q] == u.requests[q] && t.rows <= u.rows
    requires RequestKey(q) in t.children ==>
      RequestKey(q) in u.children && u.children[RequestKey(q)] == t.children[RequestKey(q)]
    ensures Pending(u, q)
  {
    assert t.Requested(q) == u.Requested(q);
  }

  lemma NewIsPlaced(t: Table, k: string, row: Row)
    requires t.Wf() && row.native == Some(k)
    ensures Placed(Added(t, k, row), k)
  {
    assert Added(t, k, row).Child(k) == row;
  }

  lemma RequestIsPlaced(scope: Scope, t: Table, native: string, tool: string)
    requires t.Wf() && tool !in t.requests
    ensures var row := RequestRow(scope, native, tool);
      var u := Added(t, RequestKey(tool), row).(requests := t.requests[tool := |t.rows|]);
      Placed(u, RequestKey(tool)) && Pending(u, tool)
  {
    hide RequestKey;
    var u := Added(t, RequestKey(tool), RequestRow(scope, native, tool)).(requests := t.requests[tool := |t.rows|]);
    assert u.Child(RequestKey(tool)) == RequestRow(scope, native, tool);
    assert u.Requested(tool) == RequestRow(scope, native, tool);
  }

  lemma KnownLoadedKeepsSound(scope: Scope, t: Table, native: string, n: nat)
    requires Sound(t) && t.native == Some(native) && t.requests == map[] && n <= |scope.known|
    ensures var u := KnownLoaded(scope, t, native, n).(knownLoaded := true);
      Sound(u) && u.native == t.native && u.requests == map[]
  {
    if n > 0 {
      KnownLoadedKeepsSound(scope, t, native, n - 1);
      var before := KnownLoaded(scope, t, native, n - 1).(knownLoaded := true);
      var u := KnownLoaded(scope, t, native, n).(knownLoaded := true);
      KnownAddedKeepsSound(scope, before, native, scope.known[n - 1]);
      assert u == before || u == Added(before, scope.known[n - 1].native.value, scope.known[n - 1]);
    } else {
      forall k | k in t.children ensures Placed(t.(knownLoaded := true), k) {
        assert Placed(t, k);
      }
    }
  }

  lemma KnownAddedKeepsSound(scope: Scope, t: Table, native: string, row: Row)
    requires Sound(t) && t.native == Some(native) && t.requests == map[] && t.knownLoaded
    ensures Belongs(scope, row, native) ==> Sound(Added(t, row.native.value, row))
  {
    hide Placed, Pending;
    if Belongs(scope, row, native) {
      var u := Added(t, row.native.value, row);
      forall k | k in u.children ensures Placed(u, k) {
        if k == row.native.value {
          NewIsPlaced(t, k, row);
        } else {
          PlacedAsBefore(t, u, k);
        }
      }
    }
  }

  lemma LaunchedKeepsSound(scope: Scope, t: Table, native: string, id: Option<string>)
    requires Sound(t) && t.native == Some(native) && t.knownLoaded
    ensures var u := Launched(scope, t, native, id); Sound(u) && u.native == t.native && u.knownLoaded
  {
    hide Placed, Pending;
    var tool := Ref(id);
    if tool.Some? && tool.value !in t.requests {
      if |t.children| >= MAX_CHILDREN {
        LimitedKeepsSound(t);
      } else {
        RequestedKeepsSound(scope, t, native, tool.value);
      }
    }
  }

  lemma RequestedKeepsSound(scope: Scope, t: Table, native: string, tool: string)
    requires Sound(t) && t.native == Some(native) && t.knownLoaded && tool !in t.requests
    ensures var row := RequestRow(scope, native, tool);
      Sound(Added(t, RequestKey(tool), row).(requests := t.requests[tool := |t.rows|]))
  {
    hide Placed, Pending, RequestKey;
    var key := RequestKey(tool);
    var u := Added(t, key, RequestRow(scope, native, tool)).(requests := t.requests[tool := |t.rows|]);
    forall k | k in u.children ensures Placed(u, k) {
      if k == key {
        RequestIsPlaced(scope, t, native, tool);
      } else {
        PlacedAsBefore(t, u, k);
      }
    }
    forall q | q in u.requests ensures Pending(u, q) {
      if q == tool {
        RequestIsPlaced(scope, t, native, tool);
      } else {
        if RequestKey(q) == key {
          RequestKeyIsInjective(q, tool);
        }
        PendingAsBefore(t, u, q);
      }
    }
  }

  lemma AllLaunchedKeepsSound(scope: Scope, t: Table, native: string, tools: seq<Option<string>>, n: nat)
    requires Sound(t) && t.native == Some(native) && t.knownLoaded && n <= |tools|
    ensures var u := AllLaunched(scope, t, native, tools, n); Sound(u) && u.native == t.native && u.knownLoaded
  {
    hide Placed, Pending, OneNative, Launched;
    if n > 0 {
      AllLaunchedKeepsSound(scope, t, native, tools, n - 1);
      LaunchedKeepsSound(scope, AllLaunched(scope, t, native, tools, n - 1), native, tools[n - 1]);
    }
  }

  lemma BoundKeepsSound(scope: Scope, t: Table, task: string, tool: string)
    requires Sound(t) && tool in t.requests && t.knownLoaded
    ensures var o := Bound(scope, t, task, tool); SoundOutcome(o) && (o.Going? ==>
      o.table.native == t.native && o.table.knownLoaded)
  {
    var o := Bound(scope, t, task, tool);
    if o.Going? {
      var r, u := BoundTo(t, task, tool), o.table;
      assert Pending(t, tool);
      assert task in t.children ==> Placed(t, task);
      forall k | k in u.children ensures Placed(u, k) {
        if k != task {
          assert Placed(t, k);
          assert t.children[k] != r;
        }
      }
      forall q | q in u.requests ensures Pending(u, q) {
        if q != tool {
          assert Pending(t, q);
          if u.Requested(q).native.None? && RequestKey(q) == RequestKey(tool) {
            RequestKeyIsInjective(q, tool);
          }
        }
      }
    }
  }

  /** Changing the status of a row, when or by whom, moves nothing. */
  lemma RetouchedKeepsSound(t: Table, r: nat, row: Row)
    requires Sound(t) && r < |t.rows|
    requires row.native == t.rows[r].native && row.session == t.rows[r].session
    requires row.parentNative == t.rows[r].parentNative
    ensures Sound(t.(rows := t.rows[r := row]))
  {
    var u := t.(rows := t.rows[r := row]);
    forall k | k in u.children ensures Placed(u, k) {
      assert Placed(t, k);
    }
    forall q | q in u.requests ensures Pending(u, q) {
      assert Pending(t, q);
    }
  }

  lemma SpawnedKeepsSound(scope: Scope, t: Table, native: string, child: string)
    requires Sound(t) && t.native == Some(native) && t.knownLoaded && child !in t.children
    ensures Sound(Added(t, child, SpawnedRow(scope, native, child)))
  {
    var u := Added(t, child, SpawnedRow(scope, native, child));
    forall k | k in u.children ensures Placed(u, k) {
      if k in t.children {
        assert Placed(t, k);
      }
    }
    forall q | q in u.requests ensures Pending(u, q) {
      assert Pending(t, q);
    }
  }

  lemma ReceivedKeepsSound(scope: Scope, t: Table, native: string, e: Event, receiver: Option<string>)
    requires Sound(t) && t.native == Some(native) && t.knownLoaded && e.CollabCall?
    ensures var u := Received(scope, t, native, e, receiver); Sound(u) && u.native == t.native && u.knownLoaded
  {
    hide Placed, Pending, StatusOf;
    var ref := Ref(receiver);
    if ref.Some? && ref.value != native {
      var child := ref.value;
      var spawns := e.call.SpawnAgent? && child !in t.children;
      if !(spawns && |t.children| >= MAX_CHILDREN) {
        if spawns {
          SpawnedKeepsSound(scope, t, native, child);
        }
        var u := if spawns then Added(t, child, SpawnedRow(scope, native, child)) else t;
        if child in u.children {
          var r := u.children[child];
          RetouchedKeepsSound(u, r, Answered(scope, u.rows[r], e, child));
        }
      } else {
        LimitedKeepsSound(t);
      }
    }
  }

  lemma LimitedKeepsSound(t: Table)
    requires Sound(t)
    ensures Sound(t.(limited := true)) && Sound(t.(executing := false))
  {
    forall u | u == t.(limited := true) || u == t.(executing := false)
      ensures Sound(u)
    {
      forall k | k in u.children ensures Placed(u, k) {
        assert Placed(t, k);
      }
      forall q | q in u.requests ensures Pending(u, q) {
        assert Pending(t, q);
      }
    }
  }

  lemma AllReceivedKeepsSound(scope: Scope, t: Table, native: string, e: Event, n: nat)
    requires Sound(t) && t.native == Some(native) && t.knownLoaded && e.CollabCall? && n <= |e.receivers|
    ensures var u := AllReceived(scope, t, native, e, n); Sound(u) && u.native == t.native && u.knownLoaded
  {
    hide Placed, Pending, OneNative, Received;
    if n > 0 {
      AllReceivedKeepsSound(scope, t, native, e, n - 1);
      ReceivedKeepsSound(scope, AllReceived(scope, t, native, e, n - 1), native, e, e.receivers[n - 1]);
    }
  }

  lemma AppliedKeepsSound(scope: Scope, t: Table, native: string, e: Event)
    requires Sound(t) && t.native == Some(native) && t.knownLoaded
    ensures SoundOutcome(Applied(scope, t, native, e))
  {
    hide Placed, Pending, StatusOf, OneNative, Sound, Bound, AllLaunched, AllReceived, Reported;
    LimitedKeepsSound(t);
    match e
    case Launches(_, tools) =>
      AllLaunchedKeepsSound(scope, t, native, tools, |tools|);
    case TaskEvent(_, _, _, _, _, _) =>
      UpdatedKeepsSound(scope, t, e);
    case CollabCall(_, _, receivers, _) =>
      var wide := t.(limited := t.limited || |receivers| > MAX_CHILDREN);
      assert wide == t || wide == t.(limited := true);
      AllReceivedKeepsSound(scope, wide, native, e, Least(|receivers|, MAX_CHILDREN));
    case _ =>
  }

  lemma UpdatedKeepsSound(scope: Scope, t: Table, e: Event)
    requires Sound(t) && t.knownLoaded && e.TaskEvent?
    ensures SoundOutcome(Updated(scope, t, e))
  {
    hide Placed, Pending, StatusOf, OneNative, Bound;
    if Binds(t, e) {
      BoundKeepsSound(scope, t, Ref(e.task).value, Ref(e.tool).value);
    } else if Ref(e.task).Some? && Ref(e.task).value in t.children {
      var r := t.children[Ref(e.task).value];
      RetouchedKeepsSound(t, r, t.rows[r].(status := Reported(t.rows[r].status, e)).Touched(scope));
    }
  }

  lemma StepKeepsSound(scope: Scope, t: Table, e: Event)
    requires Sound(t)
    ensures SoundOutcome(Step(scope, t, e))
  {
    hide Placed, Pending, Applied;
    var identified := Identified(t, e);
    if identified.Going? {
      IdentifiedKeepsSound(t, e);
      if identified.table.native.Some? {
        var native := identified.table.native.value;
        if !identified.table.knownLoaded {
          KnownLoadedKeepsSound(scope, identified.table, native, |scope.known|);
        }
        AppliedKeepsSound(scope, Ready(scope, identified.table, native), native, e);
      }
    }
  }

  lemma IdentifiedKeepsSound(t: Table, e: Event)
    requires Sound(t) && Identified(t, e).Going?
    ensures Sound(Identified(t, e).table)
  {
    var u := Identified(t, e).table;
    forall k | k in u.children ensures Placed(u, k) {
      assert Placed(t, k);
    }
    forall q | q in u.requests ensures Pending(u, q) {
      assert Pending(t, q);
    }
    assert forall i | 0 <= i < |u.rows| :: Some(t.rows[i].parentNative) == t.native;
  }

  lemma {:induction false} ReadingKeepsSound(scope: Scope, t: Table, lines: seq<Line>, readBytes: nat)
    requires Sound(t)
    ensures SoundOutcome(ReadLines(scope, t, lines, readBytes))
    decreases |lines|
  {
    hide Placed, Pending, OneNative, Step;
    if lines != [] {
      LimitedKeepsSound(t);
      if !Stops(lines[0], readBytes) {
        var o := Step(scope, t, lines[0].event.value);
        StepKeepsSound(scope, t, lines[0].event.value);
        if o.Going? {
          ReadingKeepsSound(scope, o.table, lines[1..], readBytes + lines[0].length);
        }
      }
    }
  }

  lemma FinishedKeepsSound(t: Table)
    requires Sound(t)
    ensures Sound(Finished(t))
  {
    var u := Finished(t);
    forall k | k in u.children ensures Placed(u, k) {
      assert Placed(t, k);
    }
    forall q | q in u.requests ensures Pending(u, q) {
      assert Pending(t, q);
    }
  }

  /** Every stream stores each child under exactly one key, its native reference or the key of its
      pending request, and all children belong to the one native session. */
  lemma EachChildHasOneKey(scope: Scope, expected: Option<string>, executing: bool, lines: seq<Line>)
    requires Reading(scope, expected, executing, lines).Going?
    ensures var t := Reading(scope, expected, executing, lines).table;
      && (forall k | k in t.children :: Placed(t, k))
      && (forall q | q in t.requests :: Pending(t, q))
      && (forall j, k | j in t.children && k in t.children && j != k :: t.children[j] != t.children[k])
      && (forall k | k in t.children :: Some(t.Child(k).parentNative) == t.native)
      && (expected.Some? ==> t.native == expected)
  {
    hide ReadLines, Finished;
    var start := EmptyTable(expected, executing);
    ReadingKeepsSound(scope, start, lines, 0);
    ReadingKeepsNative(scope, start, lines, 0);
    var o := ReadLines(scope, start, lines, 0);
    FinishedKeepsSound(o.table);
    var t := Finished(o.table);
    forall j, k | j in t.children && k in t.children && j != k
      ensures t.children[j] != t.children[k]
    {
      assert Placed(t, j) && Placed(t, k);
    }
    assert t.native == o.table.native by {
      FinishedOnlySettles(o.table);
    }
  }

  lemma FinishedOnlySettles(t: Table)
    requires t.Wf()
    ensures Finished(t).native == t.native && Finished(t).children == t.children && |Finished(t).rows| == |t.rows|
    ensures Finished(t).limited == t.limited && Finished(t).executing == t.executing
    ensures forall k | k in t.children :: Finished(t).Child(k) == t.Child(k).(status := Settled(t, t.Child(k).status))
  {
    forall k | k in t.children
      ensures Finished(t).Child(k) == t.Child(k).(status := Settled(t, t.Child(k).status))
    {
      assert t.children[k] in t.children.Values;
    }
  }

  // ---- The native session

  lemma KnownLoadedKeepsRest(scope: Scope, t: Table, native: string, n: nat)
    requires t.Wf() && n <= |scope.known|
    ensures var u := KnownLoaded(scope, t, native, n);
      && u.native == t.native && u.requests == t.requests && t.rows <= u.rows
      && u.limited == t.limited && u.executing == t.executing && u.knownLoaded == t.knownLoaded
  {
    if n > 0 {
      KnownLoadedKeepsRest(scope, t, native, n - 1);
    }
  }

  lemma AllLaunchedKeepsRest(scope: Scope, t: Table, native: string, tools: seq<Option<string>>, n: nat)
    requires t.Wf() && n <= |tools|
    ensures var u := AllLaunched(scope, t, native, tools, n);
      && u.native == t.native && t.rows <= u.rows && u.executing == t.executing
      && u.knownLoaded == t.knownLoaded
  {
    if n > 0 {
      AllLaunchedKeepsRest(scope, t, native, tools, n - 1);
    }
  }

  lemma AllReceivedKeepsNative(scope: Scope, t: Table, native: string, e: Event, n: nat)
    requires t.Wf() && e.CollabCall? && n <= |e.receivers|
    ensures var u := AllReceived(scope, t, native, e, n);
      && u.native == t.native && u.requests == t.requests && u.executing == t.executing
      && u.knownLoaded == t.knownLoaded
  {
    hide Answered;
    if n > 0 {
      AllReceivedKeepsNative(scope, t, native, e, n - 1);
    }
  }

  lemma StepKeepsNative(scope: Scope, t: Table, e: Event)
    requires t.Wf() && t.native.Some? && Step(scope, t, e).Going?
    ensures Step(scope, t, e).table.native == t.native
  {
    hide StatusOf, Reported, AllLaunched, AllReceived, KnownLoaded;
    var native := t.native.value;
    KnownLoadedKeepsRest(scope, t, native, |scope.known|);
    var ready := Ready(scope, t, native);
    match e
    case Launches(_, tools) =>
      AllLaunchedKeepsRest(scope, ready, native, tools, |tools|);
    case CollabCall(_, _, receivers, _) =>
      var wide := ready.(limited := ready.limited || |receivers| > MAX_CHILDREN);
      AllReceivedKeepsNative(scope, wide, native, e, Least(|receivers|, MAX_CHILDREN));
    case _ =>
  }

  lemma {:induction false} ReadingKeepsNative(scope: Scope, t: Table, lines: seq<Line>, readBytes: nat)
    requires t.Wf() && ReadLines(scope, t, lines, readBytes).Going?
    ensures t.native.Some? ==> ReadLines(scope, t, lines, readBytes).table.native == t.native
    decreases |lines|
  {
    hide Step;
    if lines != [] && !Stops(lines[0], readBytes) {
      if t.native.Some? {
        StepKeepsNative(scope, t, lines[0].event.value);
      }
      var u := Step(scope, t, lines[0].event.value).table;
      ReadingKeepsNative(scope, u, lines[1..], readBytes + lines[0].length);
    }
  }
}
