/** What an attempt that lives to its end does, on any disk: which generation it works at, when
    it launches, what it records and what it answers. */
module AcquisitionProgress {
  import opened Wrappers
  import opened AcquisitionResults
  import opened AcquisitionAttempts
  import opened AcquisitionSafety
  import opened AcquisitionRoutes

  // ----- The generation an attempt works at ---------------------------------------------

  /** The attempt may go past this generation: it waits for the user, who asks again. */
  ghost predicate Passes(disk: Disk, c: Call, p: Plan, n: nat) {
    c.retry && WaitingAt(disk, CursorOf(c, p).At(n))
  }

  /** The generation of the cursor; without a cursor the first of the 99 before there were cursors
      that is not passed, or the one after them. */
  ghost predicate StartsAt(disk: Disk, c: Call, p: Plan, n: nat) {
    if CursorFile(p.route) in disk then CursorAt(disk, CursorOf(c, p), n)
    else
      && 1 <= n <= LEGACY_GENERATIONS + 1
      && (forall g | 1 <= g < n :: Passes(disk, c, p, g))
      && (n <= LEGACY_GENERATIONS ==> !Passes(disk, c, p, n))
  }

  ghost predicate WorksAt(disk: Disk, c: Call, p: Plan, n: nat) {
    || (StartsAt(disk, c, p, n) && !Passes(disk, c, p, n))
    || (n > 1 && StartsAt(disk, c, p, n - 1) && Passes(disk, c, p, n - 1))
  }

  /** The cursor is there and is not one of this request, paper and route. */
  ghost predicate ForeignCursor(disk: Disk, c: Call, p: Plan) {
    CursorFile(p.route) in disk && !exists n: nat :: CursorAt(disk, CursorOf(c, p), n)
  }

  // ----- What it does there -------------------------------------------------------------

  /** The row whose result the attempt records: the answer to a launch, or the manifest of an
      attempt that was left running. */
  function RowFor(disk: Disk, c: Call, p: Plan, n: nat): Option<Json> {
    var file := AttemptFile(p.route, n);
    if file !in disk then c.env.provider(p.route, n)
    else if Matches(disk[file], CursorOf(c, p).At(n)) && disk[file].status == RUNNING then c.env.manifest(p.route, n)
    else None
  }

  /** The cursor is at the generation, which is terminal with the mapped row if there is one, running
      if it had no file, and as it was otherwise; the answer is the result that is recorded there
      then, or that somebody has to look. */
  ghost predicate Recorded(disk: Disk, c: Call, p: Plan, n: nat, disk': Disk, r: ItemResult) {
    var id := CursorOf(c, p);
    var file := AttemptFile(p.route, n);
    && CursorAt(disk', id, n)
    && (match RowFor(disk, c, p, n)
        case Some(row) => StoredAt(disk', id.At(n), MapNatureResult(c.paperId, row, c.env.files))
        case None => Read(disk', file) == Some(if file in disk then disk[file] else RunningDocument(id.At(n))))
    && r == Settled(disk'[file], id.At(n)).GetOr(ReconciliationItem(c.paperId))
  }

  ghost predicate OnlyChanges(disk: Disk, disk': Disk, files: set<File>) {
    forall file | file !in files :: Read(disk', file) == Read(disk, file)
  }

  /** What a call does that lives to its end; it launches its generation exactly if that had no file. */
  ghost predicate Progressed(s: State, c: Call, p: Plan, n: nat, after: State, r: ItemResult) {
    var file := AttemptFile(p.route, n);
    && Recorded(s.disk, c, p, n, after.disk, r)
    && OnlyChanges(s.disk, after.disk, {CursorFile(p.route), file})
    && after.launches == s.launches + (if file in s.disk then [] else [Launched(p.route, n)])
  }

  // ----- Exactly one generation ---------------------------------------------------------

  lemma StartsAtOne(disk: Disk, c: Call, p: Plan)
    ensures forall n, m | StartsAt(disk, c, p, n) && StartsAt(disk, c, p, m) :: n == m
  {
    hide Passes;
  }

  lemma WorksAtOne(disk: Disk, c: Call, p: Plan, g: nat, n: nat)
    requires StartsAt(disk, c, p, g)
    ensures WorksAt(disk, c, p, n) <==> n == if Passes(disk, c, p, g) then g + 1 else g
  {
    hide Passes, StartsAt;
    StartsAtOne(disk, c, p);
    StartsAboveZero(disk, c, p, g);
  }

  lemma StartsAboveZero(disk: Disk, c: Call, p: Plan, g: nat)
    requires StartsAt(disk, c, p, g)
    ensures g >= 1
  {
  }

  lemma WorksSomewhere(disk: Disk, c: Call, p: Plan)
    ensures ForeignCursor(disk, c, p) <==> !exists n :: WorksAt(disk, c, p, n)
  {
    hide WaitingAt;
    if CursorFile(p.route) !in disk {
      LegacyScanStarts(disk, c, p);
      var n := LegacyGeneration(disk, c, p, 1);
      assert WorksAt(disk, c, p, if Passes(disk, c, p, n) then n + 1 else n);
    } else if n: nat :| CursorAt(disk, CursorOf(c, p), n) {
      assert WorksAt(disk, c, p, if Passes(disk, c, p, n) then n + 1 else n);
    }
  }

  lemma LegacyScanStarts(disk: Disk, c: Call, p: Plan)
    requires CursorFile(p.route) !in disk
    ensures StartsAt(disk, c, p, LegacyGeneration(disk, c, p, 1))
  {
    hide WaitingDocument;
  }

  // ----- Every attempt progresses -------------------------------------------------------

  function Uninterrupted(s: State, c: Call, p: Plan): State {
    PerformAll(s, Attempt(s.disk, c, p).effects)
  }

  lemma LaunchProgresses(s: State, c: Call, p: Plan, n: nat)
    requires AttemptFile(p.route, n) !in s.disk && CursorAt(s.disk, CursorOf(c, p), n)
    ensures var a := LaunchAttempt(c, p, n); Progressed(s, c, p, n, PerformAll(s, a.effects), a.result)
  {
    hide MapNatureResult, Settled, TerminalDocument;
    var id := CursorOf(c, p);
    var a := LaunchAttempt(c, p, n);
    var s2 := Perform(Perform(s, a.effects[0]), a.effects[1]);
    assert a.effects[1..][1..] == a.effects[2..];
    assert PerformAll(s, a.effects) == PerformAll(s2, a.effects[2..]);
    if c.env.provider(p.route, n).Some? {
      StoredDocument(id.At(n), a.result);
      assert a.effects[2..] == [a.effects[2]];
      PerformOne(s2, a.effects[2]);
    } else {
      RunningIsUnsettled(id.At(n));
    }
  }

  lemma PerformOne(s: State, e: Effect)
    ensures PerformAll(s, [e]) == Perform(s, e)
  {
    assert [e][1..] == [];
  }

  lemma RunningIsUnsettled(id: AttemptIdentity)
    ensures Settled(RunningDocument(id), id).None?
  {
  }

  lemma ReconcileProgresses(s: State, c: Call, p: Plan, n: nat)
    requires AttemptFile(p.route, n) in s.disk && CursorAt(s.disk, CursorOf(c, p), n)
    ensures var a := ReconcileAttempt(c, p, n, s.disk[AttemptFile(p.route, n)]);
      Progressed(s, c, p, n, PerformAll(s, a.effects), a.result)
  {
    hide MapNatureResult, FromPrivateState, TerminalDocument;
    var id := CursorOf(c, p);
    var a := ReconcileAttempt(c, p, n, s.disk[AttemptFile(p.route, n)]);
    if a.effects != [] {
      StoredDocument(id.At(n), a.result);
      PerformOne(s, a.effects[0]);
    }
  }

  /** Writing the cursor first does not change what has been done in the end. */
  lemma CursorThenProgress(s: State, c: Call, p: Plan, g: nat, n: nat, rest: Attempted)
    requires var step := Write(CursorFile(p.route), CursorDocument(CursorOf(c, p), Number(g)));
      var s1 := Perform(s, step);
      Progressed(s1, c, p, n, PerformAll(s1, rest.effects), rest.result)
    ensures var step := Write(CursorFile(p.route), CursorDocument(CursorOf(c, p), Number(g)));
      Progressed(s, c, p, n, PerformAll(s, [step] + rest.effects), rest.result)
  {
    hide MapNatureResult, Settled, PerformAll, Matches;
    var step := Write(CursorFile(p.route), CursorDocument(CursorOf(c, p), Number(g)));
    FirstThenRest(s, step, rest.effects, 0);
    assert RowFor(Perform(s, step).disk, c, p, n) == RowFor(s.disk, c, p, n);
  }

  lemma NextProgresses(s: State, c: Call, p: Plan, n: nat)
    requires n >= 1
    ensures var a := NextGeneration(s.disk, c, p, n);
      Progressed(s, c, p, n, PerformAll(s, a.effects), a.result)
  {
    hide LaunchAttempt, ReconcileAttempt, PerformAll, Progressed;
    var step := Write(CursorFile(p.route), CursorDocument(CursorOf(c, p), Number(n)));
    var s1 := Perform(s, step);
    var file := AttemptFile(p.route, n);
    if file in s.disk {
      ReconcileProgresses(s1, c, p, n);
      CursorThenProgress(s, c, p, n, n, ReconcileAttempt(c, p, n, s1.disk[file]));
    } else {
      LaunchProgresses(s1, c, p, n);
      CursorThenProgress(s, c, p, n, n, LaunchAttempt(c, p, n));
    }
  }

  lemma AttemptAtProgresses(s: State, c: Call, p: Plan, n: nat)
    requires CursorAt(s.disk, CursorOf(c, p), n)
    ensures var a := AttemptAt(s.disk, c, p, n);
      Progressed(s, c, p, if Passes(s.disk, c, p, n) then n + 1 else n, PerformAll(s, a.effects), a.result)
  {
    hide MapNatureResult, FromPrivateState, LaunchAttempt, NextGeneration, PerformAll, Progressed;
    var file := AttemptFile(p.route, n);
    if file !in s.disk {
      LaunchProgresses(s, c, p, n);
    } else if Passes(s.disk, c, p, n) {
      NextProgresses(s, c, p, n + 1);
    } else {
      ReconcileProgresses(s, c, p, n);
    }
  }

  lemma OwnCursor(disk: Disk, c: Call, p: Plan)
    ensures CursorFile(p.route) in disk ==>
      var document := disk[CursorFile(p.route)];
      document.CursorDocument? && document.cursor == CursorOf(c, p)
      && document.generation.Number? && document.generation.n >= 1 ==>
        CursorAt(disk, CursorOf(c, p), document.generation.n)
  {
  }

  /** On any disk whose cursor is not a foreign one an attempt works at exactly one generation and does
      there what it should; with a foreign cursor it does nothing and somebody has to look. */
  lemma AttemptProgresses(s: State, c: Call, p: Plan)
    ensures forall n | WorksAt(s.disk, c, p, n) ::
      Progressed(s, c, p, n, Uninterrupted(s, c, p), Attempt(s.disk, c, p).result)
    ensures ForeignCursor(s.disk, c, p) <==> !exists n :: WorksAt(s.disk, c, p, n)
    ensures ForeignCursor(s.disk, c, p) ==> Attempt(s.disk, c, p) == Attempted([], ReconciliationItem(c.paperId))
  {
    hide AttemptAt, Progressed, PerformAll, WaitingAt;
    WorksSomewhere(s.disk, c, p);
    OwnCursor(s.disk, c, p);
    forall n | WorksAt(s.disk, c, p, n)
      ensures Progressed(s, c, p, n, Uninterrupted(s, c, p), Attempt(s.disk, c, p).result)
    {
      WorkedAttemptProgresses(s, c, p, n);
    }
  }

  lemma WorkedAttemptProgresses(s: State, c: Call, p: Plan, n: nat)
    requires WorksAt(s.disk, c, p, n)
    ensures Progressed(s, c, p, n, Uninterrupted(s, c, p), Attempt(s.disk, c, p).result)
  {
    hide AttemptAt, Progressed, PerformAll, Passes, WorksAt, LegacyGeneration;
    if CursorFile(p.route) in s.disk {
      StartsAtCursor(s.disk, c, p, n);
      var g := s.disk[CursorFile(p.route)].generation.n;
      WorksAtOne(s.disk, c, p, g, n);
      AttemptAtProgresses(s, c, p, g);
    } else {
      LegacyScanStarts(s.disk, c, p);
      var g := LegacyGeneration(s.disk, c, p, 1);
      WorksAtOne(s.disk, c, p, g, n);
      ScannedAttemptProgresses(s, c, p, g);
    }
  }

  lemma StartsAtCursor(disk: Disk, c: Call, p: Plan, n: nat)
    requires CursorFile(p.route) in disk && WorksAt(disk, c, p, n)
    ensures var document := disk[CursorFile(p.route)];
      document.CursorDocument? && document.generation.Number? && document.generation.n >= 1
      && CursorAt(disk, CursorOf(c, p), document.generation.n)
  {
    hide Passes;
  }

  lemma ScannedAttemptProgresses(s: State, c: Call, p: Plan, g: nat)
    requires CursorFile(p.route) !in s.disk && g == LegacyGeneration(s.disk, c, p, 1)
    ensures Progressed(s, c, p, if Passes(s.disk, c, p, g) then g + 1 else g, Uninterrupted(s, c, p),
                       Attempt(s.disk, c, p).result)
  {
    hide AttemptAt, Progressed, PerformAll, Passes, LegacyGeneration;
    var step := Write(CursorFile(p.route), CursorDocument(CursorOf(c, p), Number(g)));
    var s1 := Perform(s, step);
    AttemptSeesItsFile(s.disk, c, p, g, step);
    AttemptAtProgresses(s1, c, p, g);
    SamePasses(s.disk, c, p, g, step);
    CursorThenProgress(s, c, p, g, if Passes(s.disk, c, p, g) then g + 1 else g, AttemptAt(s1.disk, c, p, g));
  }

  lemma SamePasses(disk: Disk, c: Call, p: Plan, g: nat, step: Effect)
    requires step.Write? && step.file == CursorFile(p.route)
    ensures Passes(disk[step.file := step.document], c, p, g) == Passes(disk, c, p, g)
  {
    hide WaitingDocument;
  }

  // ----- When an attempt launches -------------------------------------------------------

  /** The generation is due: the route was not begun and it is the first, or the cursor is there and
      its generation was not claimed, or it comes after one that waits for the user, who asks again. */
  ghost predicate Due(disk: Disk, c: Call, p: Plan, g: nat) {
    var id := CursorOf(c, p);
    || (Untouched(disk, p.route) && g == 1)
    || (CursorAt(disk, id, g) && AttemptFile(p.route, g) !in disk)
    || (g > 1 && c.retry && RouteAt(disk, id, g - 1) && WaitingAt(disk, id.At(g - 1))
        && AttemptFile(p.route, g) !in disk)
  }

  /** On every disk that the protocol leaves: an attempt that lives to its end launches exactly the
      generation that is due, at most one is, and the cursor ends at it. */
  lemma LaunchesExactlyTheDue(s: State, c: Call, p: Plan, g: nat)
    requires RouteShape(s.disk, CursorOf(c, p))
    ensures var after := Uninterrupted(s, c, p);
      && (Due(s.disk, c, p, g) <==> after.launches == s.launches + [Launched(p.route, g)])
      && (Due(s.disk, c, p, g) ==> CursorAt(after.disk, CursorOf(c, p), g))
      && (after.launches == s.launches || exists n :: Due(s.disk, c, p, n))
  {
    hide Recorded, OnlyChanges, WorksAt, Due, Attempt;
    var after := Uninterrupted(s, c, p);
    AttemptProgresses(s, c, p);
    ShapeIsOwn(s.disk, c, p);
    var n :| WorksAt(s.disk, c, p, n);
    DueIsUnclaimedWork(s.disk, c, p, n);
    DueIsUnclaimedWork(s.disk, c, p, g);
    RecordedCursor(s.disk, c, p, n, after.disk, Attempt(s.disk, c, p).result);
    if AttemptFile(p.route, n) !in s.disk {
      assert Due(s.disk, c, p, n);
      assert after.launches[|s.launches|] == Launched(p.route, n);
    }
  }

  lemma RecordedCursor(disk: Disk, c: Call, p: Plan, n: nat, disk': Disk, r: ItemResult)
    requires Recorded(disk, c, p, n, disk', r)
    ensures CursorAt(disk', CursorOf(c, p), n)
  {
  }

  lemma ShapeIsOwn(disk: Disk, c: Call, p: Plan)
    requires RouteShape(disk, CursorOf(c, p))
    ensures !ForeignCursor(disk, c, p)
  {
    hide Settled, WaitedBelow;
  }

  lemma DueIsUnclaimedWork(disk: Disk, c: Call, p: Plan, g: nat)
    requires RouteShape(disk, CursorOf(c, p))
    ensures Due(disk, c, p, g) <==> WorksAt(disk, c, p, g) && AttemptFile(p.route, g) !in disk
    ensures forall n | WorksAt(disk, c, p, g) && WorksAt(disk, c, p, n) :: n == g
  {
    hide WaitingDocument, WaitedBelow, WorksAt;
    var id := CursorOf(c, p);
    var n := if Untouched(disk, p.route) then 1 else var n: nat :| RouteAt(disk, id, n); n;
    assert StartsAt(disk, c, p, n);
    WorksAtOne(disk, c, p, n, g);
    forall m ensures WorksAt(disk, c, p, m) <==> m == if Passes(disk, c, p, n) then n + 1 else n {
      WorksAtOne(disk, c, p, n, m);
    }
  }

  /** An attempt left running whose manifest can be read ends terminal with the mapped row, which is
      also the answer; nothing is launched. */
  lemma RunningIsReconciled(s: State, c: Call, p: Plan, n: nat, row: Json)
    requires CursorAt(s.disk, CursorOf(c, p), n)
    requires Read(s.disk, AttemptFile(p.route, n)) == Some(RunningDocument(CursorOf(c, p).At(n)))
    requires c.env.manifest(p.route, n) == Some(row)
    ensures var after := Uninterrupted(s, c, p);
      var r := Attempt(s.disk, c, p).result;
      && r == MapNatureResult(c.paperId, row, c.env.files)
      && StoredAt(after.disk, CursorOf(c, p).At(n), r) && after.launches == s.launches
  {
    hide Attempt, PerformAll, FromPrivateState;
    assert StartsAt(s.disk, c, p, n);
    AttemptProgresses(s, c, p);
    assert WorksAt(s.disk, c, p, n);
  }

  // ----- The routes of a paper ----------------------------------------------------------

  ghost predicate SameRoute(disk: Disk, disk': Disk, route: string) {
    forall file: File | file.route == route :: Read(disk', file) == Read(disk, file)
  }

  /** The attempt on the route did what it should, whatever happened to other routes. */
  ghost predicate RouteDone(disk: Disk, c: Call, p: Plan, disk': Disk, r: ItemResult) {
    || (ForeignCursor(disk, c, p) && SameRoute(disk, disk', p.route) && r == ReconciliationItem(c.paperId))
    || (exists n :: WorksAt(disk, c, p, n) && RouteRecorded(disk, c, p, n, disk', r))
  }

  ghost predicate RouteRecorded(disk: Disk, c: Call, p: Plan, n: nat, disk': Disk, r: ItemResult) {
    && Recorded(disk, c, p, n, disk', r)
    && (forall file: File | file.route == p.route && file !in {CursorFile(p.route), AttemptFile(p.route, n)} ::
          Read(disk', file) == Read(disk, file))
  }

  ghost predicate LaunchesNow(disk: Disk, c: Call, p: Plan, l: Launched) {
    l.route == p.route && WorksAt(disk, c, p, l.generation) && AttemptFile(p.route, l.generation) !in disk
  }

  predicate EndsPaper(r: ItemResult) {
    r.status == OBTAINED || r.status == WAITING_USER
  }

  predicate DistinctPlans(plans: seq<Plan>) {
    forall i, j | 0 <= i < j < |plans| :: plans[i].route != plans[j].route
  }

  /** The first |results| routes were tried, each with its result; only the last of them ends the
      paper, or no route is left. */
  ghost predicate RoutesTried(disk: Disk, c: Call, plans: seq<Plan>, results: seq<ItemResult>, disk': Disk) {
    && 1 <= |results| <= |plans|
    && (forall i | 0 <= i < |results| :: RouteDone(disk, c, plans[i], disk', results[i]))
    && (forall i | 0 <= i < |results| - 1 :: !EndsPaper(results[i]))
    && (EndsPaper(results[|results| - 1]) || |results| == |plans|)
    && (forall file: File | (forall i | 0 <= i < |results| :: file.route != plans[i].route) ::
          Read(disk', file) == Read(disk, file))
  }

  /** Each of these routes was launched at most once, and exactly when its generation was new. */
  ghost predicate LaunchedOnce(s: State, c: Call, plans: seq<Plan>, after: State) {
    && s.launches <= after.launches
    && var added := after.launches[|s.launches|..];
    && (forall l :: l in added <==> exists p | p in plans :: LaunchesNow(s.disk, c, p, l))
    && (forall a, b | 0 <= a < b < |added| :: added[a].route != added[b].route)
  }

  /** The answer for the paper: that of the last route tried, unless an open-access session ran out of
      routes for want of access. */
  predicate PaperAnswer(c: Call, last: ItemResult, r: ItemResult) {
    if last.status != OBTAINED && last.status != WAITING_USER && c.sessionMode == "oa_only"
       && last.failure.Dict? && "code" in last.failure.m
       && last.failure.m["code"] in {Text("institutional_access_not_authorized"), Text("library_no_permission"),
                                     Text("no_authorized_pdf_found"), Text("oa_not_found")}
    then r == ItemResult(c.paperId, MISSING, Null, Null, r.failure, Null, Null)
         && r.failure.Dict? && Field(r.failure.m, "code") == Some(Text("oa_not_found"))
    else r == last
  }

  lemma SameRouteSameWork(disk: Disk, disk': Disk, c: Call, p: Plan)
    requires SameRoute(disk, disk', p.route)
    ensures forall n :: WorksAt(disk', c, p, n) == WorksAt(disk, c, p, n)
    ensures ForeignCursor(disk', c, p) == ForeignCursor(disk, c, p)
    ensures forall n :: RowFor(disk', c, p, n) == RowFor(disk, c, p, n)
    ensures forall l :: LaunchesNow(disk', c, p, l) == LaunchesNow(disk, c, p, l)
  {
    hide WaitingDocument, Matches;
    forall n ensures Passes(disk', c, p, n) == Passes(disk, c, p, n) {
      var file := AttemptFile(p.route, n);
      assert Read(disk', file) == Read(disk, file);
    }
    var cursor := CursorFile(p.route);
    assert Read(disk', cursor) == Read(disk, cursor);
    assert forall n: nat :: CursorAt(disk', CursorOf(c, p), n) == CursorAt(disk, CursorOf(c, p), n);
    forall n ensures RowFor(disk', c, p, n) == RowFor(disk, c, p, n)
             ensures StartsAt(disk', c, p, n) == StartsAt(disk, c, p, n)
             ensures AttemptFile(p.route, n) in disk' <==> AttemptFile(p.route, n) in disk {
      var file := AttemptFile(p.route, n);
      assert Read(disk', file) == Read(disk, file);
    }
  }

  /** What was done on a route is still done when only other routes change, before or after. */
  lemma DoneElsewhere(before: Disk, disk: Disk, disk': Disk, after: Disk, c: Call, p: Plan, r: ItemResult)
    requires RouteDone(disk, c, p, disk', r)
    requires SameRoute(before, disk, p.route) && SameRoute(disk', after, p.route)
    ensures RouteDone(before, c, p, after, r)
  {
    hide WorksAt, ForeignCursor, MapNatureResult, Settled, RowFor;
    SameRouteSameWork(before, disk, c, p);
    if n :| WorksAt(disk, c, p, n) && RouteRecorded(disk, c, p, n, disk', r) {
      var cursor, file := CursorFile(p.route), AttemptFile(p.route, n);
      assert Read(disk, file) == Read(before, file);
      assert Read(after, file) == Read(disk', file) && Read(after, cursor) == Read(disk', cursor);
      assert RouteRecorded(before, c, p, n, after, r);
    }
  }

  lemma AttemptIsDone(s: State, c: Call, p: Plan)
    ensures var after := Uninterrupted(s, c, p);
      && RouteDone(s.disk, c, p, after.disk, Attempt(s.disk, c, p).result)
      && (forall file: File | file.route != p.route :: Read(after.disk, file) == Read(s.disk, file))
      && LaunchedOnce(s, c, [p], after)
  {
    hide WorksAt, Recorded, Attempt, PerformAll;
    AttemptProgresses(s, c, p);
    var after, r := Uninterrupted(s, c, p), Attempt(s.disk, c, p).result;
    if ForeignCursor(s.disk, c, p) {
      NoEffects(s);
    } else {
      var n :| WorksAt(s.disk, c, p, n);
      assert RouteRecorded(s.disk, c, p, n, after.disk, r);
      WorksAtNoOther(s.disk, c, p, n);
    }
    var added := after.launches[|s.launches|..];
    forall l ensures l in added <==> exists q | q in [p] :: LaunchesNow(s.disk, c, q, l) {
      assert p in [p] && (l in added <==> LaunchesNow(s.disk, c, p, l));
    }
  }

  lemma WorksAtNoOther(disk: Disk, c: Call, p: Plan, n: nat)
    requires WorksAt(disk, c, p, n)
    ensures forall m | WorksAt(disk, c, p, m) :: m == n
  {
    hide WaitingAt;
    StartsAtOne(disk, c, p);
  }

  lemma RoutesStayDistinct(first: seq<Launched>, second: seq<Launched>, route: string)
    requires forall a, b | 0 <= a < b < |first| :: first[a].route != first[b].route
    requires forall a, b | 0 <= a < b < |second| :: second[a].route != second[b].route
    requires forall l | l in first :: l.route == route
    requires forall l | l in second :: l.route != route
    ensures var added := first + second; forall a, b | 0 <= a < b < |added| :: added[a].route != added[b].route
  {
    var added := first + second;
    forall a, b | 0 <= a < b < |added| ensures added[a].route != added[b].route {
      if a < |first| <= b {
        assert first[a] in first && second[b - |first|] in second;
      }
    }
  }

  /** Launches of one route and then of others. */
  lemma LaunchedBoth(s: State, middle: State, after: State, c: Call, p: Plan, rest: seq<Plan>)
    requires DistinctPlans([p] + rest)
    requires LaunchedOnce(s, c, [p], middle) && LaunchedOnce(middle, c, rest, after)
    requires forall file: File | file.route != p.route :: Read(middle.disk, file) == Read(s.disk, file)
    ensures LaunchedOnce(s, c, [p] + rest, after)
  {
    hide WorksAt;
    var first, second := middle.launches[|s.launches|..], after.launches[|middle.launches|..];
    var added := after.launches[|s.launches|..];
    assert added == first + second;
    forall q | q in rest
      ensures q.route != p.route && forall l :: LaunchesNow(middle.disk, c, q, l) == LaunchesNow(s.disk, c, q, l)
    {
      var i :| 0 <= i < |rest| && rest[i] == q;
      var all := [p] + rest;
      assert all[0] == p && all[i + 1] == q;
      SameRouteSameWork(s.disk, middle.disk, c, q);
    }
    RoutesStayDistinct(first, second, p.route);
    forall l ensures l in added <==> exists q | q in [p] + rest :: LaunchesNow(s.disk, c, q, l) {
      assert forall q :: q in [p] + rest <==> q in [p] || q in rest;
      assert l in added <==> l in first || l in second;
    }
  }

  /** A call for a paper that lives to its end tries the routes in order up to the first that ends the
      paper, does on each what an attempt should, and answers with the last. */
  lemma {:induction false} RoutesProgress(s: State, c: Call, plans: seq<Plan>) returns (results: seq<ItemResult>)
    requires plans != [] && DistinctPlans(plans)
    ensures var a := TryRoutes(s.disk, c, plans);
      var after := PerformAll(s, a.effects);
      && RoutesTried(s.disk, c, plans, results, after.disk)
      && LaunchedOnce(s, c, plans[..|results|], after)
      && PaperAnswer(c, results[|results| - 1], a.result)
    decreases |plans|
  {
    hide Attempt, PerformAll, RouteDone, LaunchedOnce, ExhaustedItem, PaperAnswer;
    var first := Attempt(s.disk, c, plans[0]);
    AnswerOfLast(c, first.result);
    var s1 := Uninterrupted(s, c, plans[0]);
    AttemptIsDone(s, c, plans[0]);
    if Stops(first.result) || |plans| == 1 {
      results := [first.result];
      assert plans[..1] == [plans[0]];
    } else {
      DiskDoesNotSeeLaunches(s, first.effects);
      var rest := TryRoutes(s1.disk, c, plans[1..]);
      PerformBoth(s, first.effects, rest.effects);
      var others := RoutesProgress(s1, c, plans[1..]);
      results := [first.result] + others;
      var after := PerformAll(s1, rest.effects);
      RoutesTriedAfterOne(s.disk, s1.disk, c, plans, first.result, others, after.disk);
      LaunchedBoth(s, s1, after, c, plans[0], plans[1..][..|others|]);
      assert [plans[0]] + plans[1..][..|others|] == plans[..|results|];
    }
  }

  lemma AnswerOfLast(c: Call, last: ItemResult)
    ensures PaperAnswer(c, last, if EndsPaper(last) then last else ExhaustedItem(c.paperId, c.sessionMode, last))
  {
    if last.failure.Dict? && "code" in last.failure.m && last.failure.m["code"].Text? {
      assert last.failure.m["code"] == Text(last.failure.m["code"].s);
    }
  }

  lemma RoutesTriedAfterOne(disk: Disk, middle: Disk, c: Call, plans: seq<Plan>, first: ItemResult,
                            others: seq<ItemResult>, after: Disk)
    requires |plans| > 1 && DistinctPlans(plans) && !EndsPaper(first)
    requires RouteDone(disk, c, plans[0], middle, first)
    requires forall file: File | file.route != plans[0].route :: Read(middle, file) == Read(disk, file)
    requires RoutesTried(middle, c, plans[1..], others, after)
    ensures RoutesTried(disk, c, plans, [first] + others, after)
  {
    hide RouteDone;
    var results := [first] + others;
    assert SameRoute(middle, after, plans[0].route) by {
      forall file: File | file.route == plans[0].route ensures Read(after, file) == Read(middle, file) {
      }
    }
    forall i | 0 <= i < |results| ensures RouteDone(disk, c, plans[i], after, results[i]) {
      if i == 0 {
        DoneElsewhere(disk, disk, middle, after, c, plans[0], first);
      } else {
        assert RouteDone(middle, c, plans[1..][i - 1], after, others[i - 1]);
        DoneElsewhere(disk, middle, after, after, c, plans[i], results[i]);
      }
    }
    forall file: File | forall i | 0 <= i < |results| :: file.route != plans[i].route
      ensures Read(after, file) == Read(disk, file)
    {
      assert file.route != plans[0].route;
      forall i | 0 <= i < |others| ensures file.route != plans[1..][i].route {
        assert plans[1..][i] == plans[i + 1];
      }
    }
  }

  /** All of the above of one call for a paper; without routes there is nothing to do. */
  ghost predicate PaperProgressed(s: State, c: Call, plans: seq<Plan>, after: State, r: ItemResult) {
    if plans == [] then
      && after == s && r.status == MISSING && r.failure.Dict?
      && Field(r.failure.m, "code") == Some(Text("provided_material_missing"))
    else
      exists results ::
        && RoutesTried(s.disk, c, plans, results, after.disk)
        && LaunchedOnce(s, c, plans[..|results|], after)
        && PaperAnswer(c, results[|results| - 1], r)
  }

  lemma PaperProgresses(s: State, c: Call, plans: seq<Plan>)
    requires DistinctPlans(plans)
    ensures var a := AcquirePaper(s.disk, c, plans);
      PaperProgressed(s, c, plans, PerformAll(s, a.effects), a.result)
  {
    hide TryRoutes, PerformAll, RoutesTried, LaunchedOnce, PaperAnswer;
    if plans == [] {
      NoEffects(s);
    } else {
      var results := RoutesProgress(s, c, plans);
    }
  }
}
