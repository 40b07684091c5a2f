/** The routes of one paper over every run that starts from an empty directory with a fixed
    request and plan list: routes are taken strictly in order, and a finished paper stays
    finished. */
module AcquisitionRoutes {
  import opened Wrappers
  import opened AcquisitionResults
  import opened AcquisitionAttempts
  import opened AcquisitionSafety

  /** What stays fixed over the run; whether a call may retry, and what the provider and the
      file system answer, varies from call to call. */
  datatype Job = Job(requestId: string, paperId: string, sessionMode: string, plans: seq<Plan>)
  {
    function Cursor(p: Plan): CursorIdentity {
      CursorIdentity(requestId, paperId, p.route, p.argv)
    }

    predicate Of(c: Call) {
      c.requestId == requestId && c.paperId == paperId && c.sessionMode == sessionMode
    }

    predicate DistinctRoutes() {
      forall i, j | 0 <= i < j < |plans| :: plans[i].route != plans[j].route
    }
  }

  // ----- One route ----------------------------------------------------------------------

  ghost predicate Untouched(disk: Disk, route: string) {
    CursorFile(route) !in disk && forall g :: AttemptFile(route, g) !in disk
  }

  /** The route is at generation n: all earlier ones ended waiting, later ones do not exist. */
  ghost predicate RouteAt(disk: Disk, id: CursorIdentity, n: nat) {
    && CursorAt(disk, id, n)
    && WaitedBelow(disk, id, n)
    && (forall g: nat | g == 0 || g > n :: AttemptFile(id.route, g) !in disk)
    && (AttemptFile(id.route, n) in disk ==>
          || disk[AttemptFile(id.route, n)] == RunningDocument(id.At(n))
          || Settled(disk[AttemptFile(id.route, n)], id.At(n)).Some?)
  }

  ghost predicate RouteShape(disk: Disk, id: CursorIdentity) {
    Untouched(disk, id.route) || exists n: nat :: RouteAt(disk, id, n)
  }

  predicate StoredAt(disk: Disk, id: AttemptIdentity, r: ItemResult) {
    var file := AttemptFile(id.route, id.generation);
    file in disk && Settled(disk[file], id) == Some(r)
  }

  /** The current generation of the route is terminal with this result. */
  ghost predicate RouteSettled(disk: Disk, id: CursorIdentity, r: ItemResult) {
    exists n: nat :: RouteAt(disk, id, n) && StoredAt(disk, id.At(n), r)
  }

  ghost predicate RouteMissing(disk: Disk, id: CursorIdentity) {
    exists r :: RouteSettled(disk, id, r) && r.status == MISSING
  }

  /** The route is started and its current generation has no terminal record. */
  ghost predicate Unfinished(disk: Disk, id: CursorIdentity) {
    !Untouched(disk, id.route) && !exists r :: RouteSettled(disk, id, r)
  }

  function RouteOf(file: File): string {
    file.route
  }

  predicate OnlyRoute(e: Effect, route: string) {
    if e.Write? then RouteOf(e.file) == route else e.route == route
  }

  /** The effects that keep the shape of a route. */
  ghost predicate Tidy(disk: Disk, id: CursorIdentity, e: Effect) {
    && OnlyRoute(e, id.route)
    && match e
       case Launch(_, _) => true
       case Write(CursorFile(_), document) =>
         || (Untouched(disk, id.route) && document == CursorDocument(id, Number(1)))
         || (exists n: nat ::
             RouteAt(disk, id, n) && WaitingAt(disk, id.At(n)) && document == CursorDocument(id, Number(n + 1)))
       case Write(AttemptFile(_, n), document) =>
         && RouteAt(disk, id, n)
         && (document == RunningDocument(id.At(n)) || Settled(document, id.At(n)).Some?)
         && (AttemptFile(id.route, n) in disk ==> disk[AttemptFile(id.route, n)] == RunningDocument(id.At(n)))
  }

  ghost predicate AllTidy(s: State, id: CursorIdentity, effects: seq<Effect>)
    decreases |effects|
  {
    effects != [] ==> Tidy(s.disk, id, effects[0]) && AllTidy(Perform(s, effects[0]), id, effects[1..])
  }

  lemma TidyKeepsShape(s: State, id: CursorIdentity, e: Effect)
    requires Tidy(s.disk, id, e) && RouteShape(s.disk, id)
    ensures RouteShape(Perform(s, e).disk, id)
  {
    hide Settled;
    var disk := Perform(s, e).disk;
    if e.Launch? {
    } else if e.file.CursorFile? {
      if Untouched(s.disk, id.route) {
        assert RouteAt(disk, id, 1);
      } else {
        var n: nat :| RouteAt(s.disk, id, n) && WaitingAt(s.disk, id.At(n))
                      && e.document == CursorDocument(id, Number(n + 1));
        forall g | 1 <= g < n + 1 ensures WaitingAt(disk, id.At(g)) {
          assert WaitingAt(s.disk, id.At(g));
        }
        assert RouteAt(disk, id, n + 1);
      }
    } else {
      var n := e.file.generation;
      forall g | 1 <= g < n ensures WaitingAt(disk, id.At(g)) {
        assert WaitingAt(s.disk, id.At(g));
      }
      assert RouteAt(disk, id, n);
    }
  }

  lemma TidyTouchesNothingElse(s: State, id: CursorIdentity, e: Effect, other: CursorIdentity)
    requires OnlyRoute(e, id.route) && other.route != id.route
    ensures var s' := Perform(s, e);
      && (Untouched(s.disk, other.route) ==> Untouched(s'.disk, other.route))
      && (forall n: nat | RouteAt(s.disk, other, n) :: RouteAt(s'.disk, other, n))
      && (forall r | RouteSettled(s.disk, other, r) :: RouteSettled(s'.disk, other, r))
  {
    hide Settled;
    var s' := Perform(s, e);
    forall n: nat | RouteAt(s.disk, other, n) ensures RouteAt(s'.disk, other, n) {
      forall g | 1 <= g < n ensures WaitingAt(s'.disk, other.At(g)) {
        assert WaitingAt(s.disk, other.At(g));
      }
    }
  }

  // ----- An attempt keeps its route tidy ------------------------------------------------

  lemma NothingIsTidy(s: State, id: CursorIdentity)
    ensures AllTidy(s, id, [])
  {
  }

  lemma StepThenTidy(s: State, id: CursorIdentity, e: Effect, rest: seq<Effect>)
    requires Tidy(s.disk, id, e) && AllTidy(Perform(s, e), id, rest)
    ensures AllTidy(s, id, [e] + rest)
    ensures PerformAll(s, [e] + rest) == PerformAll(Perform(s, e), rest)
  {
    assert ([e] + rest)[1..] == rest;
  }

  /** What an attempt leaves when it is not interrupted. */
  ghost predicate Reported(disk: Disk, id: CursorIdentity, r: ItemResult) {
    r.status != WAITING_USER ==> RouteSettled(disk, id, r) && (r.status == OBTAINED || r.status == MISSING)
  }

  ghost predicate GoodAttempt(s: State, id: CursorIdentity, a: Attempted) {
    AllTidy(s, id, a.effects) && Reported(PerformAll(s, a.effects).disk, id, a.result)
  }

  lemma StoredDocument(id: AttemptIdentity, r: ItemResult)
    requires ValidResult(r) && r.paperId == id.paperId
    ensures Settled(TerminalDocument(id, r), id) == Some(r)
  {
    hide AsDict, ValidResult;
    StoredResultIsReadBack(r);
  }

  lemma TerminalWriteIsGood(s: State, id: CursorIdentity, n: nat, r: ItemResult)
    requires RouteAt(s.disk, id, n) && ValidResult(r) && r.paperId == id.paperId
    requires Read(s.disk, AttemptFile(id.route, n)) == Some(RunningDocument(id.At(n)))
    ensures GoodAttempt(s, id, Attempted([Write(AttemptFile(id.route, n), TerminalDocument(id.At(n), r))], r))
  {
    hide Settled, AsDict, ValidFailure, ValidProof;
    var e := Write(AttemptFile(id.route, n), TerminalDocument(id.At(n), r));
    StoredDocument(id.At(n), r);
    var s' := Perform(s, e);
    assert [e][1..] == [];
    assert PerformAll(s, [e]) == s';
    assert RouteAt(s'.disk, id, n) by {
      forall g | 1 <= g < n ensures WaitingAt(s'.disk, id.At(g)) {
        assert WaitingAt(s.disk, id.At(g));
      }
    }
    assert StoredAt(s'.disk, id.At(n), r);
    assert RouteSettled(s'.disk, id, r);
    NothingIsTidy(s', id);
    StepThenTidy(s, id, e, []);
    assert [e] + [] == [e];
  }

  lemma LaunchIsGood(s: State, c: Call, p: Plan, n: nat)
    requires RouteAt(s.disk, CursorOf(c, p), n) && AttemptFile(p.route, n) !in s.disk
    ensures GoodAttempt(s, CursorOf(c, p), LaunchAttempt(c, p, n))
  {
    hide MapNatureResult, Settled, TerminalDocument, Reported, AllTidy;
    var id := CursorOf(c, p);
    var a := LaunchAttempt(c, p, n);
    var claim, launch := a.effects[0], a.effects[1];
    var s1 := Perform(s, claim);
    var s2 := Perform(s1, launch);
    assert RouteAt(s2.disk, id, n) by {
      forall g | 1 <= g < n ensures WaitingAt(s1.disk, id.At(g)) {
        assert WaitingAt(s.disk, id.At(g));
      }
    }
    var rest := a.effects[2..];
    if rest == [] {
      NothingIsTidy(s2, id);
      ReconciliationIsWaiting(c.paperId, s2.disk, id);
      assert PerformAll(s2, rest) == s2;
    } else {
      assert rest == [a.effects[2]];
      TerminalWriteIsGood(s2, id, n, a.result);
    }
    assert a.effects[1..] == [launch] + rest && a.effects == [claim] + a.effects[1..];
    StepThenTidy(s1, id, launch, rest);
    StepThenTidy(s, id, claim, a.effects[1..]);
  }

  lemma ReconciliationIsWaiting(paperId: string, disk: Disk, id: CursorIdentity)
    ensures Reported(disk, id, ReconciliationItem(paperId))
  {
  }

  lemma NothingIsGood(s: State, c: Call, id: CursorIdentity)
    ensures GoodAttempt(s, id, Nothing(c))
  {
    ReconciliationIsWaiting(c.paperId, PerformAll(s, []).disk, id);
  }

  lemma SettledIsGood(s: State, id: CursorIdentity, n: nat, r: ItemResult)
    requires RouteAt(s.disk, id, n) && StoredAt(s.disk, id.At(n), r)
    ensures GoodAttempt(s, id, Attempted([], r))
  {
    hide ValidFailure, ValidProof, PlainText;
  }

  lemma ReconcileIsGood(s: State, c: Call, p: Plan, n: nat)
    requires RouteAt(s.disk, CursorOf(c, p), n) && AttemptFile(p.route, n) in s.disk
    ensures GoodAttempt(s, CursorOf(c, p), ReconcileAttempt(c, p, n, s.disk[AttemptFile(p.route, n)]))
  {
    hide MapNatureResult, Settled, TerminalDocument, GoodAttempt;
    var id := CursorOf(c, p);
    var document := s.disk[AttemptFile(p.route, n)];
    NothingIsGood(s, c, id);
    var settled := Settled(document, id.At(n));
    if settled.Some? {
      SettledIsTerminal(document, id.At(n));
      SettledIsGood(s, id, n, settled.value);
    } else if document == RunningDocument(id.At(n)) && c.env.manifest(p.route, n).Some? {
      TerminalWriteIsGood(s, id, n, MapNatureResult(c.paperId, c.env.manifest(p.route, n).value, c.env.files));
    }
  }

  lemma NextGenerationIsGood(s: State, c: Call, p: Plan, n: nat)
    requires RouteAt(s.disk, CursorOf(c, p), n) && WaitingAt(s.disk, CursorOf(c, p).At(n))
    ensures GoodAttempt(s, CursorOf(c, p), NextGeneration(s.disk, c, p, n + 1))
  {
    hide LaunchAttempt, ReconcileAttempt, WaitingAt, AllTidy, Reported;
    var id := CursorOf(c, p);
    var step := Write(CursorFile(p.route), CursorDocument(id, Number(n + 1)));
    var s1 := Perform(s, step);
    assert Tidy(s.disk, id, step);
    forall g | 1 <= g < n + 1 ensures WaitingAt(s1.disk, id.At(g)) {
      assert WaitingAt(s.disk, id.At(g));
      WaitingElsewhere(s.disk, s1.disk, id.At(g));
    }
    assert RouteAt(s1.disk, id, n + 1);
    LaunchIsGood(s1, c, p, n + 1);
    StepThenTidy(s, id, step, LaunchAttempt(c, p, n + 1).effects);
  }

  lemma WaitingElsewhere(disk: Disk, disk': Disk, id: AttemptIdentity)
    requires WaitingAt(disk, id)
    requires Read(disk, AttemptFile(id.route, id.generation)) == Read(disk', AttemptFile(id.route, id.generation))
    ensures WaitingAt(disk', id)
  {
  }

  lemma AttemptAtIsGood(s: State, c: Call, p: Plan, n: nat)
    requires RouteAt(s.disk, CursorOf(c, p), n)
    ensures GoodAttempt(s, CursorOf(c, p), AttemptAt(s.disk, c, p, n))
  {
    hide LaunchAttempt, ReconcileAttempt, GoodAttempt, WaitedBelow, Settled;
    var id := CursorOf(c, p);
    var file := AttemptFile(p.route, n);
    NothingIsGood(s, c, id);
    if file !in s.disk {
      LaunchIsGood(s, c, p, n);
    } else if s.disk[file] == RunningDocument(id.At(n)) {
      ReconcileIsGood(s, c, p, n);
    } else {
      SettledIsTerminal(s.disk[file], id.At(n));
      var r := Settled(s.disk[file], id.At(n)).value;
      if r.status != WAITING_USER || !c.retry {
        SettledIsGood(s, id, n, r);
      } else {
        NextGenerationIsGood(s, c, p, n);
      }
    }
  }

  lemma AttemptIsGood(s: State, c: Call, p: Plan)
    requires RouteShape(s.disk, CursorOf(c, p))
    ensures GoodAttempt(s, CursorOf(c, p), Attempt(s.disk, c, p))
  {
    hide AttemptAt, AllTidy, Reported, Settled;
    var id := CursorOf(c, p);
    if Untouched(s.disk, p.route) {
      assert LegacyGeneration(s.disk, c, p, 1) == 1;
      var step := Write(CursorFile(p.route), CursorDocument(id, Number(1)));
      var s1 := Perform(s, step);
      assert RouteAt(s1.disk, id, 1);
      AttemptAtIsGood(s1, c, p, 1);
      AttemptSeesItsFile(s.disk, c, p, 1, step);
      StepThenTidy(s, id, step, AttemptAt(s.disk, c, p, 1).effects);
    } else {
      var n: nat :| RouteAt(s.disk, id, n);
      AttemptAtIsGood(s, c, p, n);
    }
  }

  /** A settled route that needs no user answers from its record: nothing is launched or
      written, whatever the call. */
  lemma SettledRouteAnswers(disk: Disk, c: Call, p: Plan, r: ItemResult)
    requires RouteSettled(disk, CursorOf(c, p), r) && r.status != WAITING_USER
    ensures Attempt(disk, c, p) == Attempted([], r)
  {
    hide Settled, WaitedBelow;
    var id := CursorOf(c, p);
    var n: nat :| RouteAt(disk, id, n) && StoredAt(disk, id.At(n), r);
    SettledIsTerminal(disk[AttemptFile(p.route, n)], id.At(n));
  }

  // ----- All routes ---------------------------------------------------------------------

  /** A later route is touched only if every earlier one is terminal with a missing result. */
  ghost predicate InOrder(disk: Disk, job: Job) {
    && (forall i | 0 <= i < |job.plans| :: RouteShape(disk, job.Cursor(job.plans[i])))
    && (forall i, j | 0 <= i < j < |job.plans| && !Untouched(disk, job.plans[j].route) ::
          RouteMissing(disk, job.Cursor(job.plans[i])))
  }

  /** Routes before k are missing, routes after k are untouched. */
  ghost predicate WorkingOn(disk: Disk, job: Job, k: nat) {
    && k < |job.plans|
    && RouteShape(disk, job.Cursor(job.plans[k]))
    && (forall i | 0 <= i < k :: RouteMissing(disk, job.Cursor(job.plans[i])))
    && (forall j | k < j < |job.plans| :: Untouched(disk, job.plans[j].route))
  }

  lemma MissingHasShape(disk: Disk, id: CursorIdentity)
    requires RouteMissing(disk, id)
    ensures RouteShape(disk, id)
  {
    var r :| RouteSettled(disk, id, r) && r.status == MISSING;
    var n: nat :| RouteAt(disk, id, n) && StoredAt(disk, id.At(n), r);
  }

  lemma WorkingIsInOrder(disk: Disk, job: Job, k: nat)
    requires WorkingOn(disk, job, k)
    ensures InOrder(disk, job)
  {
    hide RouteMissing, RouteShape, Untouched;
    forall i | 0 <= i < |job.plans| ensures RouteShape(disk, job.Cursor(job.plans[i])) {
      if i < k {
        MissingHasShape(disk, job.Cursor(job.plans[i]));
      } else if i > k {
        UntouchedHasShape(disk, job.Cursor(job.plans[i]));
      }
    }
  }

  lemma UntouchedHasShape(disk: Disk, id: CursorIdentity)
    requires Untouched(disk, id.route)
    ensures RouteShape(disk, id)
  {
  }

  lemma TidyKeepsWorking(s: State, job: Job, k: nat, e: Effect)
    requires job.DistinctRoutes() && WorkingOn(s.disk, job, k) && Tidy(s.disk, job.Cursor(job.plans[k]), e)
    ensures WorkingOn(Perform(s, e).disk, job, k)
  {
    hide RouteShape, Untouched, RouteSettled, RouteAt;
    var id := job.Cursor(job.plans[k]);
    var s' := Perform(s, e);
    TidyKeepsShape(s, id, e);
    forall i | 0 <= i < |job.plans| && i != k
      ensures i < k ==> RouteMissing(s'.disk, job.Cursor(job.plans[i]))
      ensures i > k ==> Untouched(s'.disk, job.plans[i].route)
    {
      TidyTouchesNothingElse(s, id, e, job.Cursor(job.plans[i]));
    }
  }

  lemma {:induction false} TidyPrefixKeepsWorking(s: State, job: Job, k: nat, effects: seq<Effect>, steps: nat)
    requires job.DistinctRoutes() && WorkingOn(s.disk, job, k) && AllTidy(s, job.Cursor(job.plans[k]), effects)
    ensures WorkingOn(PerformAll(s, FirstSteps(effects, steps)).disk, job, k)
    decreases |effects|
  {
    hide WorkingOn, Tidy;
    var done := FirstSteps(effects, steps);
    if done != [] {
      TidyKeepsWorking(s, job, k, effects[0]);
      TidyPrefixKeepsWorking(Perform(s, effects[0]), job, k, effects[1..], steps - 1);
      assert done[1..] == FirstSteps(effects[1..], steps - 1);
    }
  }

  ghost predicate MissingBefore(disk: Disk, job: Job, k: nat) {
    forall i | 0 <= i < k && i < |job.plans| :: RouteMissing(disk, job.Cursor(job.plans[i]))
  }

  /** The effects of trying the routes from k on keep the order, wherever they are cut off. */
  lemma {:induction false} RoutesKeepOrder(s: State, job: Job, c: Call, k: nat, steps: nat)
    requires job.DistinctRoutes() && job.Of(c) && InOrder(s.disk, job)
    requires k < |job.plans| && MissingBefore(s.disk, job, k)
    ensures var disk := PerformAll(s, FirstSteps(TryRoutes(s.disk, c, job.plans[k..]).effects, steps)).disk;
      InOrder(disk, job) && MissingBefore(disk, job, k)
    decreases |job.plans| - k
  {
    hide Attempt, RouteMissing, RouteShape, PerformAll, FirstSteps, AllTidy, Untouched, RouteSettled;
    var plan, plans := job.plans[k], job.plans[k..];
    assert plans[0] == plan && (|plans| > 1 ==> plans[1..] == job.plans[k + 1..]);
    var first := Attempt(s.disk, c, plan);
    if j :| k < j < |job.plans| && !Untouched(s.disk, job.plans[j].route) {
      MissingRouteAnswers(s.disk, c, plan);
      NoEffects(s);
      NoEffects(State(s.disk, []));
      RoutesKeepOrder(s, job, c, k + 1, steps);
      var rest := TryRoutes(s.disk, c, job.plans[k + 1..]).effects;
      assert [] + rest == rest;
    } else {
      AttemptIsGood(s, c, plan);
      TidyPrefixKeepsWorking(s, job, k, first.effects, steps);
      WorkingIsInOrder(PerformAll(s, FirstSteps(first.effects, steps)).disk, job, k);
      if !Stops(first.result) && |plans| > 1 {
        var s1 := PerformAll(s, first.effects);
        DiskDoesNotSeeLaunches(s, first.effects);
        var rest := TryRoutes(s1.disk, c, job.plans[k + 1..]).effects;
        StepsOfBoth(first.effects, rest, steps);
        if steps > |first.effects| {
          WorkedRouteIsMissing(s, job, c, k);
          RoutesKeepOrder(s1, job, c, k + 1, steps - |first.effects|);
          PerformBoth(s, first.effects, FirstSteps(rest, steps - |first.effects|));
        }
      }
    }
  }

  lemma MissingRouteAnswers(disk: Disk, c: Call, p: Plan)
    requires RouteMissing(disk, CursorOf(c, p))
    ensures exists r ::
      RouteSettled(disk, CursorOf(c, p), r) && r.status == MISSING && Attempt(disk, c, p) == Attempted([], r)
  {
    hide Attempt, RouteSettled;
    var r :| RouteSettled(disk, CursorOf(c, p), r) && r.status == MISSING;
    SettledRouteAnswers(disk, c, p, r);
  }

  /** After an attempt that lets the loop go on, its route is missing. */
  lemma WorkedRouteIsMissing(s: State, job: Job, c: Call, k: nat)
    requires job.DistinctRoutes() && job.Of(c) && WorkingOn(s.disk, job, k)
    requires !Stops(Attempt(s.disk, c, job.plans[k]).result)
    ensures var first := Attempt(s.disk, c, job.plans[k]);
      var disk := PerformAll(s, first.effects).disk;
      && InOrder(disk, job) && MissingBefore(disk, job, k + 1)
      && RouteSettled(disk, job.Cursor(job.plans[k]), first.result) && first.result.status == MISSING
  {
    hide Attempt, RouteShape, PerformAll, AllTidy, Untouched, RouteSettled;
    var first := Attempt(s.disk, c, job.plans[k]);
    AttemptIsGood(s, c, job.plans[k]);
    TidyPrefixKeepsWorking(s, job, k, first.effects, |first.effects|);
    WorkingIsInOrder(PerformAll(s, first.effects).disk, job, k);
  }

  // ----- Finished papers ----------------------------------------------------------------

  /** From route k on, calls are answered with this result. */
  ghost predicate PaperSettled(disk: Disk, job: Job, k: nat, result: ItemResult)
    decreases |job.plans| - k
  {
    && k < |job.plans|
    && (|| SettlesPaper(disk, job, k, result)
        || (RouteMissing(disk, job.Cursor(job.plans[k])) && PaperSettled(disk, job, k + 1, result)))
  }

  /** Route k is obtained, or it is the last one and missing. */
  ghost predicate SettlesPaper(disk: Disk, job: Job, k: nat, result: ItemResult)
    requires k < |job.plans|
  {
    exists r :: RouteSettled(disk, job.Cursor(job.plans[k]), r)
      && ((r.status == OBTAINED && result == r)
          || (k == |job.plans| - 1 && r.status == MISSING && result == ExhaustedItem(job.paperId, job.sessionMode, r)))
  }

  lemma {:induction false} SettledPaperAnswers(disk: Disk, job: Job, c: Call, k: nat, result: ItemResult)
    requires job.Of(c) && PaperSettled(disk, job, k, result)
    ensures TryRoutes(disk, c, job.plans[k..]) == Attempted([], result)
    decreases |job.plans| - k
  {
    hide Attempt, RouteMissing, ExhaustedItem, RouteSettled;
    var plan, plans := job.plans[k], job.plans[k..];
    assert plans[0] == plan && (|plans| > 1 ==> plans[1..] == job.plans[k + 1..]);
    NoEffects(State(disk, []));
    if SettlesPaper(disk, job, k, result) {
      var r :| RouteSettled(disk, job.Cursor(plan), r)
        && ((r.status == OBTAINED && result == r)
            || (k == |job.plans| - 1 && r.status == MISSING
                && result == ExhaustedItem(job.paperId, job.sessionMode, r)));
      SettledRouteAnswers(disk, c, plan, r);
    } else {
      MissingRouteAnswers(disk, c, plan);
      SettledPaperAnswers(disk, job, c, k + 1, result);
    }
  }

  lemma {:induction false} FinishedCallSettlesPaper(s: State, job: Job, c: Call, k: nat)
    requires job.DistinctRoutes() && job.Of(c) && InOrder(s.disk, job)
    requires k < |job.plans| && MissingBefore(s.disk, job, k)
    requires TryRoutes(s.disk, c, job.plans[k..]).result.status != WAITING_USER
    ensures var a := TryRoutes(s.disk, c, job.plans[k..]);
      PaperSettled(PerformAll(s, a.effects).disk, job, k, a.result)
    decreases |job.plans| - k
  {
    hide Attempt, RouteShape, PerformAll, AllTidy, Untouched, RouteSettled, ExhaustedItem;
    var plan, plans := job.plans[k], job.plans[k..];
    assert plans[0] == plan && (|plans| > 1 ==> plans[1..] == job.plans[k + 1..]);
    var first := Attempt(s.disk, c, plan);
    if j :| k < j < |job.plans| && !Untouched(s.disk, job.plans[j].route) {
      MissingRouteAnswers(s.disk, c, plan);
      NoEffects(State(s.disk, []));
      FinishedCallSettlesPaper(s, job, c, k + 1);
      var rest := TryRoutes(s.disk, c, job.plans[k + 1..]).effects;
      RoutesKeepOrder(s, job, c, k + 1, |rest|);
      assert [] + rest == rest;
    } else if Stops(first.result) {
      AttemptIsGood(s, c, plan);
    } else {
      WorkedRouteIsMissing(s, job, c, k);
      if |plans| > 1 {
        var s1 := PerformAll(s, first.effects);
        DiskDoesNotSeeLaunches(s, first.effects);
        FinishedCallSettlesPaper(s1, job, c, k + 1);
        var rest := TryRoutes(s1.disk, c, job.plans[k + 1..]).effects;
        RoutesKeepOrder(s1, job, c, k + 1, |rest|);
        PerformBoth(s, first.effects, rest);
      }
    }
  }

  // ----- Runs of one job ----------------------------------------------------------------

  const NOTHING_YET := State(map[], [])

  ghost predicate ForJob(turns: seq<Turn>, job: Job) {
    forall t | t in turns :: job.Of(t.call) && t.plans == job.plans
  }

  /** In every state that a run from an empty directory reaches, crashes included, a later
      route has a cursor or an operation file only if every earlier route is terminal missing. */
  lemma {:induction false} EveryRunTakesRoutesInOrder(job: Job, turns: seq<Turn>)
    requires job.DistinctRoutes() && ForJob(turns, job)
    ensures InOrder(Run(NOTHING_YET, turns).disk, job)
  {
    hide InOrder, TryRoutes, MissingBefore;
    if turns == [] {
      EmptyIsInOrder(job);
    } else {
      EveryRunTakesRoutesInOrder(job, turns[..|turns| - 1]);
      TurnKeepsOrder(Run(NOTHING_YET, turns[..|turns| - 1]), job, turns[|turns| - 1]);
    }
  }

  lemma EmptyIsInOrder(job: Job)
    ensures InOrder(map[], job)
  {
  }

  lemma TurnKeepsOrder(s: State, job: Job, t: Turn)
    requires job.DistinctRoutes() && job.Of(t.call) && t.plans == job.plans && InOrder(s.disk, job)
    ensures InOrder(TakeTurn(s, t).disk, job)
  {
    hide InOrder, TryRoutes;
    if t.plans == [] {
      NoEffects(s);
    } else {
      assert job.plans[0..] == job.plans;
      RoutesKeepOrder(s, job, t.call, 0, t.steps);
    }
  }

  /** So at most one route of a paper is ever unfinished. */
  lemma AtMostOneRouteIsUnfinished(job: Job, turns: seq<Turn>, i: nat, j: nat)
    requires job.DistinctRoutes() && ForJob(turns, job)
    requires i < |job.plans| && j < |job.plans|
    requires Unfinished(Run(NOTHING_YET, turns).disk, job.Cursor(job.plans[i]))
    requires Unfinished(Run(NOTHING_YET, turns).disk, job.Cursor(job.plans[j]))
    ensures i == j
  {
    hide Run, RouteShape, RouteSettled;
    EveryRunTakesRoutesInOrder(job, turns);
  }

  /** Once an uninterrupted call returned an obtained or finally missing result, every later
      call, acquire or reconcile and whatever the provider would say, returns that result and
      leaves the disk and the launches as they are. */
  lemma {:induction false} FinishedPaperStaysFinished(job: Job, before: seq<Turn>, last: Turn, later: seq<Turn>,
                                                      next: Call)
    requires job.DistinctRoutes() && ForJob(before, job) && ForJob([last], job) && ForJob(later, job) && job.Of(next)
    requires var a := AcquirePaper(Run(NOTHING_YET, before).disk, last.call, last.plans);
      last.steps >= |a.effects| && a.result.status != WAITING_USER
    ensures var s := Run(NOTHING_YET, before);
      var result := AcquirePaper(s.disk, last.call, last.plans).result;
      var finished := TakeTurn(s, last);
      && Run(finished, later) == finished
      && AcquirePaper(finished.disk, next, job.plans) == Attempted([], result)
    decreases |later|
  {
    hide TryRoutes, InOrder, PaperSettled;
    var s := Run(NOTHING_YET, before);
    var finished := TakeTurn(s, last);
    assert last in [last];
    if job.plans != [] {
      assert job.plans[0..] == job.plans;
      EveryRunTakesRoutesInOrder(job, before);
      FinishedCallSettlesPaper(s, job, last.call, 0);
      SettledPaperAnswers(finished.disk, job, next, 0, AcquirePaper(s.disk, last.call, last.plans).result);
    } else {
      NoEffects(s);
    }
    if later != [] {
      var earlier, t := later[..|later| - 1], later[|later| - 1];
      FinishedPaperStaysFinished(job, before, last, earlier, t.call);
      NoEffects(finished);
    }
  }
}
