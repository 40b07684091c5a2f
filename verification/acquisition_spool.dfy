/** The acquisition adapter as it runs: it steps through durable files, may die before any
    durable effect, and is proved to perform exactly the effects of the model. */
module AcquisitionSpool {
  import opened Wrappers
  import opened AcquisitionResults
  import opened AcquisitionAttempts
  import opened AcquisitionSafety
  import opened AcquisitionProgress

  class ProviderSpool {
    var disk: Disk
    ghost var launches: seq<Launched>
    /** Durable effects that the process still performs before it dies. */
    var fuse: nat

    constructor (disk: Disk, fuse: nat)
      ensures View() == State(disk, []) && this.fuse == fuse
    {
      this.disk, this.fuse := disk, fuse;
      launches := [];
    }

    ghost function View(): State
      reads this
    {
      State(disk, launches)
    }

    /** From `before`, with `steps` effects to live, the process performed the effects of `a` as
        far as it lived, and returned the result of `a` exactly if it lived through them all. */
    ghost predicate Performed(before: State, steps: nat, a: Attempted, result: Option<ItemResult>)
      reads this
    {
      && View() == PerformAll(before, FirstSteps(a.effects, steps))
      && fuse == steps - |FirstSteps(a.effects, steps)|
      && result == if |a.effects| <= steps then Some(a.result) else None
    }

    /** One effect was performed and then all of `rest`, as far as the process lived. */
    lemma AfterFirst(before: State, steps: nat, e: Effect, rest: Attempted, result: Option<ItemResult>)
      requires steps > 0 && Performed(Perform(before, e), steps - 1, rest, result)
      ensures Performed(before, steps, Attempted([e] + rest.effects, rest.result), result)
    {
      FirstThenRest(before, e, rest.effects, steps);
    }

    lemma DeadAtOnce(before: State, a: Attempted)
      requires View() == before && fuse == 0 && a.effects != []
      ensures Performed(before, 0, a, None)
    {
      NoEffects(before);
    }

    lemma NothingToDo(before: State, steps: nat, result: ItemResult)
      requires View() == before && fuse == steps
      ensures Performed(before, steps, Attempted([], result), Some(result))
    {
      NoEffects(before);
    }

    /** `_write_private_json`: an atomic replacement, or death before it. */
    method WritePrivateJson(file: File, document: Document) returns (alive: bool)
      modifies this
      ensures alive == (old(fuse) > 0)
      ensures if alive then View() == Perform(old(View()), Write(file, document)) && fuse == old(fuse) - 1
              else View() == old(View()) && fuse == 0
    {
      alive := fuse > 0;
      if alive {
        disk, fuse := disk[file := document], fuse - 1;
      }
    }

    /** Starting the provider process. */
    method StartProvider(route: string, generation: nat) returns (alive: bool)
      modifies this
      ensures alive == (old(fuse) > 0)
      ensures if alive then View() == Perform(old(View()), Launch(route, generation)) && fuse == old(fuse) - 1
              else View() == old(View()) && fuse == 0
    {
      alive := fuse > 0;
      if alive {
        launches, fuse := launches + [Launched(route, generation)], fuse - 1;
      }
    }

    method ReconcileAttemptState(c: Call, p: Plan, generation: nat, document: Document)
      returns (result: Option<ItemResult>)
      modifies this
      ensures Performed(old(View()), old(fuse), ReconcileAttempt(c, p, generation, document), result)
    {
      hide MapNatureResult, Settled, AsDict, Performed;
      ghost var before, steps := View(), fuse;
      var id := CursorOf(c, p).At(generation);
      if !Matches(document, id) {
        NothingToDo(before, steps, ReconciliationItem(c.paperId));
        return Some(ReconciliationItem(c.paperId));
      }
      if document.status == TERMINAL {
        NothingToDo(before, steps, Settled(document, id).GetOr(ReconciliationItem(c.paperId)));
        return Some(Settled(document, id).GetOr(ReconciliationItem(c.paperId)));
      }
      var row := c.env.manifest(p.route, generation);
      if document.status != RUNNING || row.None? {
        NothingToDo(before, steps, ReconciliationItem(c.paperId));
        return Some(ReconciliationItem(c.paperId));
      }
      var r := MapNatureResult(c.paperId, row.value, c.env.files);
      result := StoreTerminal(AttemptFile(p.route, generation), id, r);
    }

    /** The terminal record of an attempt. */
    method StoreTerminal(file: File, id: AttemptIdentity, r: ItemResult) returns (result: Option<ItemResult>)
      modifies this
      ensures Performed(old(View()), old(fuse), Attempted([Write(file, TerminalDocument(id, r))], r), result)
    {
      hide Performed;
      ghost var before, steps := View(), fuse;
      ghost var e := Write(file, TerminalDocument(id, r));
      var alive := WritePrivateJson(file, TerminalDocument(id, r));
      if !alive {
        DeadAtOnce(before, Attempted([e], r));
        return None;
      }
      result := Some(r);
      NothingToDo(Perform(before, e), steps - 1, r);
      AfterFirst(before, steps, e, Attempted([], r), result);
      assert [e] + [] == [e];
    }

    /** The launch and, when its answer can be trusted, the terminal record. */
    method LaunchClaimed(c: Call, p: Plan, generation: nat) returns (result: Option<ItemResult>)
      modifies this
      ensures var a := LaunchAttempt(c, p, generation);
        Performed(old(View()), old(fuse), Attempted(a.effects[1..], a.result), result)
    {
      hide MapNatureResult, AsDict, Performed;
      ghost var before, steps, a := View(), fuse, LaunchAttempt(c, p, generation);
      ghost var launch := Launch(p.route, generation);
      assert a.effects[1..] == [launch] + a.effects[2..];
      var alive := StartProvider(p.route, generation);
      if !alive {
        DeadAtOnce(before, Attempted(a.effects[1..], a.result));
        return None;
      }
      var row := c.env.provider(p.route, generation);
      if row.None? {
        result := Some(ReconciliationItem(c.paperId));
        NothingToDo(Perform(before, launch), steps - 1, a.result);
        assert a.effects[2..] == [];
      } else {
        var r := MapNatureResult(c.paperId, row.value, c.env.files);
        result := StoreTerminal(AttemptFile(p.route, generation), CursorOf(c, p).At(generation), r);
        assert a.effects[2..]
          == [Write(AttemptFile(p.route, generation), TerminalDocument(CursorOf(c, p).At(generation), r))];
      }
      AfterFirst(before, steps, launch, Attempted(a.effects[2..], a.result), result);
    }

    /** The claim, the launch and the terminal record. */
    method ClaimAndLaunch(c: Call, p: Plan, generation: nat) returns (result: Option<ItemResult>)
      modifies this
      ensures Performed(old(View()), old(fuse), LaunchAttempt(c, p, generation), result)
    {
      hide MapNatureResult, AsDict, Performed;
      ghost var before, steps, a := View(), fuse, LaunchAttempt(c, p, generation);
      var claim := Write(AttemptFile(p.route, generation), RunningDocument(CursorOf(c, p).At(generation)));
      assert a.effects == [claim] + a.effects[1..];
      var alive := WritePrivateJson(claim.file, claim.document);
      if !alive {
        DeadAtOnce(before, a);
        return None;
      }
      result := LaunchClaimed(c, p, generation);
      AfterFirst(before, steps, claim, Attempted(a.effects[1..], a.result), result);
    }

    /** `_legacy_route_generation` */
    method LegacyRouteGeneration(c: Call, p: Plan) returns (found: nat)
      ensures found == LegacyGeneration(disk, c, p, 1)
    {
      hide WaitingDocument;
      for generation := 1 to LEGACY_GENERATIONS + 1
        invariant LegacyGeneration(disk, c, p, generation) == LegacyGeneration(disk, c, p, 1)
      {
        var document := Read(disk, AttemptFile(p.route, generation));
        if document.None? || !c.retry || !WaitingDocument(document.value, CursorOf(c, p).At(generation)) {
          return generation;
        }
      }
      found := LEGACY_GENERATIONS + 1;
    }

    /** The part of an attempt after its generation is known. */
    method ContinueAt(c: Call, p: Plan, generation: nat) returns (result: Option<ItemResult>)
      modifies this
      ensures Performed(old(View()), old(fuse), AttemptAt(old(disk), c, p, generation), result)
    {
      hide LaunchAttempt, ReconcileAttempt, Settled;
      NoEffects(View());
      var id := CursorOf(c, p).At(generation);
      var document := Read(disk, AttemptFile(p.route, generation));
      if document.None? {
        result := ClaimAndLaunch(c, p, generation);
        return;
      }
      if !Matches(document.value, id) {
        return Some(ReconciliationItem(c.paperId));
      }
      if document.value.status != TERMINAL {
        result := ReconcileAttemptState(c, p, generation, document.value);
        return;
      }
      var settled := Settled(document.value, id);
      if settled.None? {
        return Some(ReconciliationItem(c.paperId));
      }
      if settled.value.status != WAITING_USER || !c.retry {
        return settled;
      }
      result := MoveOn(c, p, generation + 1);
    }

    /** Moves the cursor to the next generation and claims or reconciles it. */
    method MoveOn(c: Call, p: Plan, generation: nat) returns (result: Option<ItemResult>)
      modifies this
      ensures Performed(old(View()), old(fuse), NextGeneration(old(disk), c, p, generation), result)
    {
      hide LaunchAttempt, ReconcileAttempt;
      ghost var before, steps, a := View(), fuse, NextGeneration(disk, c, p, generation);
      var step := Write(CursorFile(p.route), CursorDocument(CursorOf(c, p), Number(generation)));
      FirstThenRest(before, step, a.effects[1..], steps);
      var alive := WritePrivateJson(step.file, step.document);
      if !alive {
        return None;
      }
      var document := Read(disk, AttemptFile(p.route, generation));
      if document.None? {
        result := ClaimAndLaunch(c, p, generation);
      } else {
        result := ReconcileAttemptState(c, p, generation, document.value);
      }
    }

    method ExecuteResumableAttempt(c: Call, p: Plan) returns (result: Option<ItemResult>)
      modifies this
      ensures Performed(old(View()), old(fuse), Attempt(old(disk), c, p), result)
      ensures result.Some? ==>
        forall n | WorksAt(old(disk), c, p, n) :: Progressed(old(View()), c, p, n, View(), result.value)
    {
      hide AttemptAt, LegacyGeneration, WorksAt, Progressed, ForeignCursor;
      AttemptProgresses(View(), c, p);
      ghost var before, steps, a := View(), fuse, Attempt(disk, c, p);
      var document := Read(disk, CursorFile(p.route));
      var generation;
      if document.None? {
        generation := LegacyRouteGeneration(c, p);
        var step := Write(CursorFile(p.route), CursorDocument(CursorOf(c, p), Number(generation)));
        FirstThenRest(before, step, a.effects[1..], steps);
        AttemptSeesItsFile(disk, c, p, generation, step);
        var alive := WritePrivateJson(step.file, step.document);
        if !alive {
          return None;
        }
      } else if !document.value.CursorDocument? || document.value.cursor != CursorOf(c, p)
                || !document.value.generation.Number? || document.value.generation.n < 1 {
        NoEffects(before);
        return Some(ReconciliationItem(c.paperId));
      } else {
        generation := document.value.generation.n;
      }
      result := ContinueAt(c, p, generation);
    }

    /** `_acquire_paper` */
    method AcquireOnePaper(c: Call, plans: seq<Plan>) returns (result: Option<ItemResult>)
      modifies this
      ensures Performed(old(View()), old(fuse), AcquirePaper(old(disk), c, plans), result)
    {
      hide Attempt, TryRoutes, ExhaustedItem, PerformAll, RunSoFar;
      NoEffects(View());
      if plans == [] {
        return Some(MissingItem(c.paperId, "provided_material_missing", false));
      }
      ghost var start, steps, whole := View(), fuse, TryRoutes(disk, c, plans);
      ghost var done: seq<Effect> := [];
      var lastMissing: Option<ItemResult> := None;
      NothingRun(disk, c, plans);
      for i := 0 to |plans|
        invariant |done| <= steps && fuse == steps - |done| && View() == PerformAll(start, done)
        invariant RunSoFar(whole, done, disk, c, plans[i..], lastMissing)
      {
        assert plans[i..][0] == plans[i] && plans[i..][1..] == plans[i + 1..];
        ghost var first := Attempt(disk, c, plans[i]);
        OneMoreRoute(whole, start, done, steps, c, plans[i..], lastMissing);
        result := ExecuteResumableAttempt(c, plans[i]);
        if result.None? {
          return;
        }
        done := done + first.effects;
        if Stops(result.value) {
          return;
        }
        lastMissing := result;
      }
      AllRun(whole, done, disk, c, lastMissing);
      result := Some(ExhaustedItem(c.paperId, c.sessionMode, lastMissing.value));
    }
  }

  /** The whole attempt is what was done and then the routes that are left. */
  ghost predicate RunSoFar(whole: Attempted, done: seq<Effect>, disk: Disk, c: Call, rest: seq<Plan>,
                           last: Option<ItemResult>)
  {
    if rest == [] then last.Some? && whole == Attempted(done, ExhaustedItem(c.paperId, c.sessionMode, last.value))
    else whole == Attempted(done + TryRoutes(disk, c, rest).effects, TryRoutes(disk, c, rest).result)
  }

  lemma NothingRun(disk: Disk, c: Call, plans: seq<Plan>)
    requires plans != []
    ensures RunSoFar(TryRoutes(disk, c, plans), [], disk, c, plans[0..], None)
  {
    hide TryRoutes;
    assert plans[0..] == plans && [] + TryRoutes(disk, c, plans).effects == TryRoutes(disk, c, plans).effects;
  }

  lemma AllRun(whole: Attempted, done: seq<Effect>, disk: Disk, c: Call, last: Option<ItemResult>)
    requires RunSoFar(whole, done, disk, c, [], last)
    ensures last.Some? && whole == Attempted(done, ExhaustedItem(c.paperId, c.sessionMode, last.value))
  {
  }

  /** The next route of the whole attempt: its effects come next, and where the process dies in them
      it dies there in the whole. */
  lemma OneMoreRoute(whole: Attempted, start: State, done: seq<Effect>, steps: nat, c: Call, rest: seq<Plan>,
                     last: Option<ItemResult>)
    requires |done| <= steps && rest != [] && RunSoFar(whole, done, PerformAll(start, done).disk, c, rest, last)
    ensures var now := PerformAll(start, done);
      var first := Attempt(now.disk, c, rest[0]);
      && PerformAll(start, done + first.effects) == PerformAll(now, first.effects)
      && (steps < |done| + |first.effects| ==>
            && |whole.effects| > steps
            && PerformAll(start, FirstSteps(whole.effects, steps))
               == PerformAll(now, FirstSteps(first.effects, steps - |done|))
            && |FirstSteps(whole.effects, steps)| == |done| + |FirstSteps(first.effects, steps - |done|)|)
      && (if Stops(first.result) then whole == Attempted(done + first.effects, first.result)
          else
            RunSoFar(whole, done + first.effects, PerformAll(now, first.effects).disk, c, rest[1..],
                     Some(first.result)))
  {
    hide Attempt, TryRoutes, ExhaustedItem, PerformAll;
    var now := PerformAll(start, done);
    var first, all := Attempt(now.disk, c, rest[0]), TryRoutes(now.disk, c, rest);
    RoutesUnfold(now.disk, c, rest);
    DiskDoesNotSeeLaunches(now, first.effects);
    var more := all.effects[|first.effects|..];
    assert all.effects == first.effects + more;
    RouteInRun(start, done, first.effects, more, steps);
    assert done + (first.effects + more) == done + first.effects + more;
    assert Stops(first.result) ==> more == [];
  }

  lemma RoutesUnfold(disk: Disk, c: Call, plans: seq<Plan>)
    requires plans != []
    ensures var first := Attempt(disk, c, plans[0]);
      var all := TryRoutes(disk, c, plans);
      && first.effects <= all.effects
      && (Stops(first.result) ==> all == first)
      && (!Stops(first.result) && |plans| == 1 ==>
            all == Attempted(first.effects, ExhaustedItem(c.paperId, c.sessionMode, first.result)))
      && (!Stops(first.result) && |plans| > 1 ==>
            var rest := TryRoutes(PerformAll(State(disk, []), first.effects).disk, c, plans[1..]);
            all == Attempted(first.effects + rest.effects, rest.result))
  {
    hide Attempt, ExhaustedItem;
  }

  /** One route inside a run of effects: where the process dies in it, it dies there in the run. */
  lemma RouteInRun(start: State, done: seq<Effect>, first: seq<Effect>, more: seq<Effect>, steps: nat)
    requires |done| <= steps
    ensures var all := done + (first + more);
      && PerformAll(start, done + first) == PerformAll(PerformAll(start, done), first)
      && (steps < |done| + |first| ==>
            && |all| > steps
            && PerformAll(start, FirstSteps(all, steps))
               == PerformAll(PerformAll(start, done), FirstSteps(first, steps - |done|))
            && |FirstSteps(all, steps)| == |done| + |FirstSteps(first, steps - |done|)|)
  {
    StepsOfBoth(done, first + more, steps);
    StepsOfBoth(first, more, steps - |done|);
    PerformBoth(start, done, first);
    PerformBoth(start, done, FirstSteps(first, steps - |done|));
  }
}
