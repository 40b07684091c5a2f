/** Safety of the download protocol over every run: any calls, any plans, any provider, and a
    crash allowed between any two durable effects. */
module AcquisitionSafety {
  import opened Wrappers
  import opened Refs
  import opened AcquisitionResults
  import opened AcquisitionAttempts

  // ----- What makes one effect safe -----------------------------------------------------

  /** The file of the identity is there and is terminal with a waiting result. */
  predicate WaitingAt(disk: Disk, id: AttemptIdentity) {
    var file := AttemptFile(id.route, id.generation);
    file in disk && WaitingDocument(disk[file], id)
  }

  /** All generations below `generation` ended waiting for the user. */
  predicate WaitedBelow(disk: Disk, id: CursorIdentity, generation: nat) {
    forall g | 1 <= g < generation :: WaitingAt(disk, id.At(g))
  }

  predicate CursorAt(disk: Disk, id: CursorIdentity, generation: nat) {
    generation >= 1
    && Read(disk, CursorFile(id.route)) == Some(CursorDocument(id, Number(generation)))
  }

  /** The four kinds of durable effects and the states they may be performed in; without
      `retry` a cursor is only ever created. */
  ghost predicate Safe(s: State, e: Effect, retry: bool) {
    match e
    case Write(CursorFile(route), document) =>
      && document.CursorDocument? && document.cursor.route == route
      && document.generation.Number? && document.generation.n >= 1
      && WaitedBelow(s.disk, document.cursor, document.generation.n)
      && (CursorFile(route) !in s.disk
          || (retry && document.generation.n >= 2 && CursorAt(s.disk, document.cursor, document.generation.n - 1)))
    case Write(AttemptFile(route, generation), document) =>
      && document.AttemptDocument?
      && document.attempt.route == route && document.attempt.generation == generation
      && (if AttemptFile(route, generation) !in s.disk
          then document.status == RUNNING
          else && Matches(s.disk[AttemptFile(route, generation)], document.attempt)
               && s.disk[AttemptFile(route, generation)].status == RUNNING
               && document.status == TERMINAL)
    case Launch(route, generation) =>
      && generation >= 1
      && Launched(route, generation) !in s.launches
      && AttemptFile(route, generation) in s.disk
      && exists id :: CursorAt(s.disk, id, generation) && id.route == route
  }

  ghost predicate AllSafe(s: State, effects: seq<Effect>, retry: bool)
    decreases |effects|
  {
    effects != [] ==> Safe(s, effects[0], retry) && AllSafe(Perform(s, effects[0]), effects[1..], retry)
  }

  // ----- The invariant ------------------------------------------------------------------

  ghost predicate CursorsJustified(disk: Disk) {
    forall id: CursorIdentity, n: nat | CursorAt(disk, id, n) :: WaitedBelow(disk, id, n)
  }

  ghost predicate LaunchesClaimed(s: State) {
    forall l | l in s.launches :: AttemptFile(l.route, l.generation) in s.disk
  }

  /** A generation above the first was launched only after its predecessor ended waiting. */
  ghost predicate LaunchesJustified(s: State) {
    forall l | l in s.launches && l.generation > 1 ::
      exists id: AttemptIdentity :: id.route == l.route && id.generation == l.generation - 1 && WaitingAt(s.disk, id)
  }

  ghost predicate Inv(s: State) {
    CursorsJustified(s.disk) && LaunchesClaimed(s) && Distinct(s.launches) && LaunchesJustified(s)
  }

  /** Every terminal file is as before, and every cursor is at least as far as before. */
  ghost predicate Later(s: State, s': State) {
    && s.launches <= s'.launches
    && (forall file | file in s.disk && file.AttemptFile? && s.disk[file].AttemptDocument?
                      && s.disk[file].status == TERMINAL ::
          file in s'.disk && s'.disk[file] == s.disk[file])
    && (forall id: CursorIdentity, n: nat | CursorAt(s.disk, id, n) :: CursorReached(s'.disk, id, n))
  }

  ghost predicate CursorReached(disk: Disk, id: CursorIdentity, n: nat) {
    exists n': nat | n' >= n :: CursorAt(disk, id, n')
  }

  lemma WaitingStays(s: State, e: Effect, retry: bool, id: AttemptIdentity)
    requires Safe(s, e, retry) && WaitingAt(s.disk, id)
    ensures WaitingAt(Perform(s, e).disk, id)
  {
    hide Settled;
    assert s.disk[AttemptFile(id.route, id.generation)].status == TERMINAL by {
      SettledIsTerminal(s.disk[AttemptFile(id.route, id.generation)], id);
    }
  }

  lemma SettledIsTerminal(document: Document, id: AttemptIdentity)
    requires Settled(document, id).Some?
    ensures Matches(document, id) && document.status == TERMINAL
  {
  }

  /** The generation of every launch is still the current one of its route. */
  ghost predicate LaunchesCurrent(s: State) {
    forall l | l in s.launches :: exists id: CursorIdentity :: id.route == l.route && CursorAt(s.disk, id, l.generation)
  }

  lemma SafeEffectKeepsInvariant(s: State, e: Effect, retry: bool)
    requires Inv(s) && Safe(s, e, retry)
    ensures Inv(Perform(s, e)) && Later(s, Perform(s, e))
    ensures !retry && LaunchesCurrent(s) ==> LaunchesCurrent(Perform(s, e))
  {
    hide WaitingAt;
    var s' := Perform(s, e);
    forall id | WaitingAt(s.disk, id) ensures WaitingAt(s'.disk, id) {
      WaitingStays(s, e, retry, id);
    }
    assert CursorsJustified(s'.disk) by {
      forall id: CursorIdentity, n: nat | CursorAt(s'.disk, id, n) ensures WaitedBelow(s'.disk, id, n) {
        assert CursorAt(s.disk, id, n) || e == Write(CursorFile(id.route), CursorDocument(id, Number(n)));
        assert WaitedBelow(s.disk, id, n);
      }
    }
    if e.Launch? {
      var id :| CursorAt(s.disk, id, e.generation) && id.route == e.route;
      if e.generation > 1 {
        assert WaitingAt(s.disk, id.At(e.generation - 1));
      }
    }
    forall id: CursorIdentity, n: nat | CursorAt(s.disk, id, n) ensures CursorReached(s'.disk, id, n) {
      if CursorAt(s'.disk, id, n) {
      } else {
        assert e.Write? && e.file == CursorFile(id.route);
        assert CursorAt(s'.disk, id, n + 1);
      }
    }
  }

  // ----- Every effect of a call is safe -------------------------------------------------

  lemma LaunchIsSafe(s: State, c: Call, p: Plan, generation: nat)
    requires Inv(s) && CursorAt(s.disk, CursorOf(c, p), generation)
    requires AttemptFile(p.route, generation) !in s.disk
    ensures AllSafe(s, LaunchAttempt(c, p, generation).effects, c.retry)
  {
    hide MapNatureResult, WaitedBelow;
    var effects := LaunchAttempt(c, p, generation).effects;
    var claimed := Perform(s, effects[0]);
    var launched := Perform(claimed, effects[1]);
    assert CursorAt(claimed.disk, CursorOf(c, p), generation);
    assert Safe(claimed, effects[1], c.retry);
    assert effects[1..] == [effects[1]] + effects[2..];
    if |effects| == 3 {
      assert Safe(launched, effects[2], c.retry);
      assert effects[2..][1..] == [];
    }
    StepThenSafe(claimed, effects[1], effects[2..], c.retry);
  }

  lemma ReconcileIsSafe(s: State, c: Call, p: Plan, generation: nat)
    requires AttemptFile(p.route, generation) in s.disk
    ensures AllSafe(s, ReconcileAttempt(c, p, generation, s.disk[AttemptFile(p.route, generation)]).effects, c.retry)
  {
    hide MapNatureResult, Settled;
    var effects := ReconcileAttempt(c, p, generation, s.disk[AttemptFile(p.route, generation)]).effects;
    assert effects != [] ==> effects[1..] == [];
  }

  lemma StepThenSafe(s: State, e: Effect, rest: seq<Effect>, retry: bool)
    requires Safe(s, e, retry) && AllSafe(Perform(s, e), rest, retry)
    ensures AllSafe(s, [e] + rest, retry)
  {
    assert ([e] + rest)[1..] == rest;
  }

  lemma AttemptAtIsSafe(s: State, c: Call, p: Plan, generation: nat)
    requires Inv(s) && CursorAt(s.disk, CursorOf(c, p), generation)
    ensures AllSafe(s, AttemptAt(s.disk, c, p, generation).effects, c.retry)
  {
    hide LaunchAttempt, ReconcileAttempt, Inv, AllSafe, WaitedBelow;
    var id := CursorOf(c, p);
    var file := AttemptFile(p.route, generation);
    NothingIsSafe(s, c.retry);
    if file !in s.disk {
      LaunchIsSafe(s, c, p, generation);
    } else if Matches(s.disk[file], id.At(generation)) && s.disk[file].status != TERMINAL {
      ReconcileIsSafe(s, c, p, generation);
    } else if WaitingDocument(s.disk[file], id.At(generation)) && c.retry {
      NextGenerationIsSafe(s, c, p, generation);
    }
  }

  lemma NothingIsSafe(s: State, retry: bool)
    ensures AllSafe(s, [], retry)
  {
  }

  lemma NextGenerationIsSafe(s: State, c: Call, p: Plan, generation: nat)
    requires Inv(s) && CursorAt(s.disk, CursorOf(c, p), generation)
    requires c.retry && WaitingAt(s.disk, CursorOf(c, p).At(generation))
    ensures AllSafe(s, NextGeneration(s.disk, c, p, generation + 1).effects, c.retry)
  {
    hide LaunchAttempt, ReconcileAttempt, WaitingAt, AllSafe;
    var id := CursorOf(c, p);
    var step := Write(CursorFile(p.route), CursorDocument(id, Number(generation + 1)));
    assert WaitedBelow(s.disk, id, generation);
    assert WaitedBelow(s.disk, id, generation + 1);
    assert Safe(s, step, c.retry);
    SafeEffectKeepsInvariant(s, step, c.retry);
    var next := Perform(s, step);
    if AttemptFile(p.route, generation + 1) in s.disk {
      ReconcileIsSafe(next, c, p, generation + 1);
    } else {
      LaunchIsSafe(next, c, p, generation + 1);
    }
    StepThenSafe(s, step, NextGeneration(s.disk, c, p, generation + 1).effects[1..], c.retry);
  }

  lemma AttemptIsSafe(s: State, c: Call, p: Plan)
    requires Inv(s)
    ensures AllSafe(s, Attempt(s.disk, c, p).effects, c.retry)
  {
    hide AttemptAt, AllSafe, WaitingDocument;
    NothingIsSafe(s, c.retry);
    var id := CursorOf(c, p);
    if CursorFile(p.route) in s.disk {
      var document := s.disk[CursorFile(p.route)];
      if document.CursorDocument? && document.cursor == id
         && document.generation.Number? && document.generation.n >= 1 {
        AttemptAtIsSafe(s, c, p, document.generation.n);
      }
    } else {
      var generation := LegacyGeneration(s.disk, c, p, 1);
      var step := Write(CursorFile(p.route), CursorDocument(id, Number(generation)));
      assert WaitedBelow(s.disk, id, generation) by {
        forall g | 1 <= g < generation ensures WaitingAt(s.disk, id.At(g)) {
          assert AttemptFile(p.route, g) in s.disk;
        }
      }
      SafeEffectKeepsInvariant(s, step, c.retry);
      AttemptAtIsSafe(Perform(s, step), c, p, generation);
      AttemptSeesItsFile(s.disk, c, p, generation, step);
      StepThenSafe(s, step, AttemptAt(s.disk, c, p, generation).effects, c.retry);
    }
  }

  /** Writing the cursor first does not change what the attempt does then. */
  lemma AttemptSeesItsFile(disk: Disk, c: Call, p: Plan, generation: nat, step: Effect)
    requires step.Write? && step.file == CursorFile(p.route)
    ensures AttemptAt(disk[step.file := step.document], c, p, generation) == AttemptAt(disk, c, p, generation)
  {
    hide LaunchAttempt, ReconcileAttempt, Settled;
  }

  // ----- Sequences of safe effects ------------------------------------------------------

  lemma LaterIsTransitive(a: State, b: State, c: State)
    requires Later(a, b) && Later(b, c)
    ensures Later(a, c)
  {
    forall id: CursorIdentity, n: nat | CursorAt(a.disk, id, n) ensures CursorReached(c.disk, id, n) {
      assert CursorReached(b.disk, id, n);
      var m: nat :| m >= n && CursorAt(b.disk, id, m);
      assert CursorReached(c.disk, id, m);
    }
  }

  lemma LaterIsReflexive(s: State)
    ensures Later(s, s)
  {
    forall id: CursorIdentity, n: nat | CursorAt(s.disk, id, n) ensures CursorReached(s.disk, id, n) {
    }
  }

  /** A process may die after any number of safe effects. */
  lemma {:induction false} AnyPrefixKeepsInvariant(s: State, effects: seq<Effect>, steps: nat, retry: bool)
    requires Inv(s) && AllSafe(s, effects, retry)
    ensures var s' := PerformAll(s, FirstSteps(effects, steps));
      Inv(s') && Later(s, s') && (!retry && LaunchesCurrent(s) ==> LaunchesCurrent(s'))
    decreases |effects|
  {
    hide Inv, Later, Safe, LaunchesCurrent;
    var done := FirstSteps(effects, steps);
    if done == [] {
      LaterIsReflexive(s);
    } else {
      var s1 := Perform(s, effects[0]);
      SafeEffectKeepsInvariant(s, effects[0], retry);
      AnyPrefixKeepsInvariant(s1, effects[1..], steps - 1, retry);
      assert done[1..] == FirstSteps(effects[1..], steps - 1);
      LaterIsTransitive(s, s1, PerformAll(s, done));
    }
  }

  lemma {:induction false} SafeAfterSafe(s: State, first: seq<Effect>, rest: seq<Effect>, retry: bool)
    requires AllSafe(s, first, retry) && AllSafe(PerformAll(s, first), rest, retry)
    ensures AllSafe(s, first + rest, retry)
    decreases |first|
  {
    hide Safe;
    if first == [] {
      assert first + rest == rest;
    } else {
      SafeAfterSafe(Perform(s, first[0]), first[1..], rest, retry);
      assert (first + rest)[1..] == first[1..] + rest;
    }
  }

  lemma {:induction false} RoutesAreSafe(s: State, c: Call, plans: seq<Plan>)
    requires Inv(s) && plans != []
    ensures AllSafe(s, TryRoutes(s.disk, c, plans).effects, c.retry)
    decreases |plans|
  {
    hide Inv, Attempt, AllSafe, PerformAll;
    var first := Attempt(s.disk, c, plans[0]);
    AttemptIsSafe(s, c, plans[0]);
    if !Stops(first.result) && |plans| > 1 {
      AnyPrefixKeepsInvariant(s, first.effects, |first.effects|, c.retry);
      var s1 := PerformAll(s, first.effects);
      DiskDoesNotSeeLaunches(s, first.effects);
      RoutesAreSafe(s1, c, plans[1..]);
      SafeAfterSafe(s, first.effects, TryRoutes(s1.disk, c, plans[1..]).effects, c.retry);
    }
  }

  // ----- Runs ---------------------------------------------------------------------------

  /** One call by a process that dies after at most `steps` durable effects. */
  datatype Turn = Turn(call: Call, plans: seq<Plan>, steps: nat)

  function TakeTurn(s: State, t: Turn): State {
    PerformAll(s, FirstSteps(AcquirePaper(s.disk, t.call, t.plans).effects, t.steps))
  }

  function Run(s: State, turns: seq<Turn>): State {
    if turns == [] then s
    else TakeTurn(Run(s, turns[..|turns| - 1]), turns[|turns| - 1])
  }

  lemma TurnIsSafe(s: State, t: Turn)
    requires Inv(s)
    ensures Inv(TakeTurn(s, t)) && Later(s, TakeTurn(s, t))
    ensures !t.call.retry && LaunchesCurrent(s) ==> LaunchesCurrent(TakeTurn(s, t))
  {
    hide Inv, Later, TryRoutes, LaunchesCurrent;
    if t.plans == [] {
      NothingIsSafe(s, t.call.retry);
    } else {
      RoutesAreSafe(s, t.call, t.plans);
    }
    AnyPrefixKeepsInvariant(s, AcquirePaper(s.disk, t.call, t.plans).effects, t.steps, t.call.retry);
  }

  // ----- Attempts that were begun before ------------------------------------------------

  /** Nothing that already has an operation file is launched. */
  ghost predicate LaunchesNew(disk: Disk, effects: seq<Effect>) {
    forall e | e in effects && e.Launch? :: AttemptFile(e.route, e.generation) !in disk
  }

  lemma AttemptAtLaunchesNew(disk: Disk, c: Call, p: Plan, generation: nat)
    ensures LaunchesNew(disk, AttemptAt(disk, c, p, generation).effects)
  {
    hide MapNatureResult, Settled, Matches;
  }

  lemma AttemptLaunchesNew(disk: Disk, c: Call, p: Plan)
    ensures LaunchesNew(disk, Attempt(disk, c, p).effects)
  {
    hide AttemptAt, LegacyGeneration;
    if CursorFile(p.route) !in disk {
      AttemptAtLaunchesNew(disk, c, p, LegacyGeneration(disk, c, p, 1));
    } else {
      var document := disk[CursorFile(p.route)];
      if document.CursorDocument? && document.generation.Number? && document.generation.n >= 1 {
        AttemptAtLaunchesNew(disk, c, p, document.generation.n);
      }
    }
  }

  lemma {:induction false} FilesStay(s: State, effects: seq<Effect>)
    ensures s.disk.Keys <= PerformAll(s, effects).disk.Keys
    decreases |effects|
  {
    if effects != [] {
      FilesStay(Perform(s, effects[0]), effects[1..]);
    }
  }

  lemma {:induction false} RoutesLaunchNew(disk: Disk, c: Call, plans: seq<Plan>)
    requires plans != []
    ensures LaunchesNew(disk, TryRoutes(disk, c, plans).effects)
    decreases |plans|
  {
    hide Attempt, PerformAll;
    var first := Attempt(disk, c, plans[0]);
    AttemptLaunchesNew(disk, c, plans[0]);
    if !Stops(first.result) && |plans| > 1 {
      FilesStay(State(disk, []), first.effects);
      RoutesLaunchNew(PerformAll(State(disk, []), first.effects).disk, c, plans[1..]);
    }
  }

  ghost predicate IsLaunchOf(l: Launched, effects: seq<Effect>) {
    Launch(l.route, l.generation) in effects
  }

  lemma {:induction false} LaunchesComeFromEffects(s: State, effects: seq<Effect>)
    ensures forall l | l in PerformAll(s, effects).launches :: l in s.launches || IsLaunchOf(l, effects)
    decreases |effects|
  {
    if effects != [] {
      LaunchesComeFromEffects(Perform(s, effects[0]), effects[1..]);
      assert forall e | e in effects[1..] :: e in effects;
    }
  }

  lemma TurnLaunchesNew(s: State, t: Turn)
    ensures s.disk.Keys <= TakeTurn(s, t).disk.Keys
    ensures forall l | l in TakeTurn(s, t).launches && l !in s.launches :: AttemptFile(l.route, l.generation) !in s.disk
  {
    hide PerformAll, TryRoutes;
    var effects := AcquirePaper(s.disk, t.call, t.plans).effects;
    if t.plans != [] {
      RoutesLaunchNew(s.disk, t.call, t.plans);
    }
    var done := FirstSteps(effects, t.steps);
    FilesStay(s, done);
    LaunchesComeFromEffects(s, done);
    assert forall e | e in done :: e in effects;
  }

  /** Over every run, from any disk at all, no attempt is launched whose operation file was there at
      the start: such a file is the evidence of an earlier launch. */
  lemma {:induction false} EveryRunLaunchesNew(disk: Disk, turns: seq<Turn>)
    ensures var s := Run(State(disk, []), turns);
      disk.Keys <= s.disk.Keys && forall l | l in s.launches :: AttemptFile(l.route, l.generation) !in disk
  {
    hide TakeTurn;
    if turns != [] {
      EveryRunLaunchesNew(disk, turns[..|turns| - 1]);
      TurnLaunchesNew(Run(State(disk, []), turns[..|turns| - 1]), turns[|turns| - 1]);
    }
  }

  /** Over every run of calls and crashes, from any disk whose cursors are justified (every
      disk that predates the cursors is): no (route, generation) is launched twice, nor when its
      operation file was there at the start; a generation above the first is launched only when
      its predecessor ended waiting for the user, terminal files never change, operation files
      stay, and cursors never go back. */
  lemma {:induction false} EveryRunIsSafe(disk: Disk, turns: seq<Turn>)
    requires CursorsJustified(disk)
    ensures var s := Run(State(disk, []), turns);
      Inv(s) && Later(State(disk, []), s)
    ensures var s := Run(State(disk, []), turns);
      disk.Keys <= s.disk.Keys && forall l | l in s.launches :: AttemptFile(l.route, l.generation) !in disk
  {
    hide TakeTurn, CursorsJustified, Later;
    EveryRunLaunchesNew(disk, turns);
    if turns == [] {
      LaterIsReflexive(State(disk, []));
    } else {
      var before := turns[..|turns| - 1];
      EveryRunIsSafe(disk, before);
      TurnIsSafe(Run(State(disk, []), before), turns[|turns| - 1]);
      LaterIsTransitive(State(disk, []), Run(State(disk, []), before), Run(State(disk, []), turns));
    }
  }

  lemma DisksBeforeCursorsAreJustified(disk: Disk)
    requires forall file | file in disk :: file.AttemptFile?
    ensures CursorsJustified(disk)
  {
    forall id: CursorIdentity, n: nat | CursorAt(disk, id, n) ensures WaitedBelow(disk, id, n) {
      assert CursorFile(id.route) in disk;
    }
  }

  /** A run of reconcile calls alone launches each route at most once, from any such disk. */
  lemma {:induction false} ReconcilingLaunchesARouteOnce(disk: Disk, turns: seq<Turn>)
    requires CursorsJustified(disk)
    requires forall t | t in turns :: !t.call.retry
    ensures var launches := Run(State(disk, []), turns).launches;
      forall i, j | 0 <= i < j < |launches| :: launches[i].route != launches[j].route
  {
    hide Run;
    var s := Run(State(disk, []), turns);
    EveryRunIsSafe(disk, turns);
    ReconcilingKeepsLaunchesCurrent(disk, turns);
    forall i, j | 0 <= i < j < |s.launches| ensures s.launches[i].route != s.launches[j].route {
      var a, b := s.launches[i], s.launches[j];
      assert a in s.launches && b in s.launches && a != b;
    }
  }

  lemma {:induction false} ReconcilingKeepsLaunchesCurrent(disk: Disk, turns: seq<Turn>)
    requires CursorsJustified(disk)
    requires forall t | t in turns :: !t.call.retry
    ensures LaunchesCurrent(Run(State(disk, []), turns))
  {
    hide TakeTurn, CursorsJustified, Inv;
    if turns != [] {
      var before := turns[..|turns| - 1];
      ReconcilingKeepsLaunchesCurrent(disk, before);
      EveryRunIsSafe(disk, before);
      TurnIsSafe(Run(State(disk, []), before), turns[|turns| - 1]);
    }
  }
}
