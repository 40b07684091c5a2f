/** Crash-safe download attempts: a durable cursor per route and one operation file per
    generation, written ahead of the provider launch.

    A call is modelled by the durable effects it performs in order and the result it returns;
    a process that dies has performed a prefix of them.  Writing a private file replaces it
    atomically.  Canonical hashes are injective, so identities hold the hashed values. */
module AcquisitionAttempts {
  import opened Wrappers
  import opened AcquisitionResults

  const LEGACY_GENERATIONS: nat := 99

  datatype Plan = Plan(route: string, argv: seq<string>)

  /** The provider's answer to a launch (None: no trustworthy envelope), the manifest it left
      behind (None: unreadable), and the file system that results are checked against. */
  datatype Environment = Environment(provider: (string, nat) -> Option<Json>,
                                     manifest: (string, nat) -> Option<Json>,
                                     files: FileSystem)

  /** One call for one paper; `retry` is set by acquire and clear in reconcile. */
  datatype Call = Call(requestId: string, paperId: string, sessionMode: string, retry: bool, env: Environment)

  // ----- The durable files --------------------------------------------------------------

  datatype File = CursorFile(route: string) | AttemptFile(route: string, generation: nat)

  datatype CursorIdentity = CursorIdentity(requestId: string, paperId: string, route: string, argv: seq<string>)
  {
    function At(generation: nat): AttemptIdentity {
      AttemptIdentity(requestId, paperId, route, generation, argv)
    }
  }

  datatype AttemptIdentity = AttemptIdentity(requestId: string, paperId: string, route: string,
                                             generation: nat, argv: seq<string>)

  /** `Unreadable` is every file that is no JSON object of the two schemas. */
  datatype Document =
    | CursorDocument(cursor: CursorIdentity, generation: Json)
    | AttemptDocument(attempt: AttemptIdentity, status: Json, result: Option<Json>)
    | Unreadable

  type Disk = map<File, Document>

  const RUNNING := Text("running")
  const TERMINAL := Text("terminal")

  function CursorOf(c: Call, p: Plan): CursorIdentity {
    CursorIdentity(c.requestId, c.paperId, p.route, p.argv)
  }

  function RunningDocument(id: AttemptIdentity): Document {
    AttemptDocument(id, RUNNING, None)
  }

  function TerminalDocument(id: AttemptIdentity, r: ItemResult): Document {
    AttemptDocument(id, TERMINAL, Some(Dict(AsDict(r))))
  }

  function Read(disk: Disk, file: File): Option<Document> {
    if file in disk then Some(disk[file]) else None
  }

  /** The state that a file records for an identity, where it is of that identity. */
  predicate Matches(document: Document, id: AttemptIdentity) {
    document.AttemptDocument? && document.attempt == id
  }

  /** The stored result of a terminal file of the identity. */
  function Settled(document: Document, id: AttemptIdentity): Option<ItemResult> {
    if Matches(document, id) && document.status == TERMINAL
    then FromPrivateState(document.result, id.paperId) else None
  }

  predicate WaitingDocument(document: Document, id: AttemptIdentity) {
    var result := Settled(document, id);
    result.Some? && result.value.status == WAITING_USER
  }

  // ----- Effects ------------------------------------------------------------------------

  datatype Effect = Write(file: File, document: Document) | Launch(route: string, generation: nat)

  datatype Launched = Launched(route: string, generation: nat)

  /** The disk and the launches so far. */
  datatype State = State(disk: Disk, launches: seq<Launched>)

  function Perform(s: State, e: Effect): State {
    match e
    case Write(file, document) => s.(disk := s.disk[file := document])
    case Launch(route, generation) => s.(launches := s.launches + [Launched(route, generation)])
  }

  function PerformAll(s: State, effects: seq<Effect>): State
    decreases |effects|
  {
    if effects == [] then s else PerformAll(Perform(s, effects[0]), effects[1..])
  }

  /** What a process performs that dies after at most `steps` effects. */
  function FirstSteps(effects: seq<Effect>, steps: nat): seq<Effect> {
    if |effects| <= steps then effects else effects[..steps]
  }

  lemma {:induction false} PerformBoth(s: State, first: seq<Effect>, rest: seq<Effect>)
    ensures PerformAll(s, first + rest) == PerformAll(PerformAll(s, first), rest)
    decreases |first|
  {
    if first == [] {
      assert first + rest == rest;
    } else {
      PerformBoth(Perform(s, first[0]), first[1..], rest);
      assert (first + rest)[1..] == first[1..] + rest;
    }
  }

  lemma StepsOfBoth(first: seq<Effect>, rest: seq<Effect>, steps: nat)
    ensures FirstSteps(first + rest, steps)
         == if steps <= |first| then FirstSteps(first, steps) else first + FirstSteps(rest, steps - |first|)
  {
  }

  lemma NoEffects(s: State)
    ensures PerformAll(s, []) == s
  {
  }

  lemma {:induction false} DiskDoesNotSeeLaunches(s: State, effects: seq<Effect>)
    ensures PerformAll(State(s.disk, []), effects).disk == PerformAll(s, effects).disk
    decreases |effects|
  {
    DiskOfPerform(State(s.disk, []), s, effects);
  }

  lemma {:induction false} DiskOfPerform(a: State, b: State, effects: seq<Effect>)
    requires a.disk == b.disk
    ensures PerformAll(a, effects).disk == PerformAll(b, effects).disk
    decreases |effects|
  {
    if effects != [] {
      DiskOfPerform(Perform(a, effects[0]), Perform(b, effects[0]), effects[1..]);
    }
  }

  lemma FirstThenRest(s: State, e: Effect, rest: seq<Effect>, steps: nat)
    ensures FirstSteps([e] + rest, steps) == if steps == 0 then [] else [e] + FirstSteps(rest, steps - 1)
    ensures PerformAll(s, []) == s
    ensures forall later :: PerformAll(s, [e] + later) == PerformAll(Perform(s, e), later)
  {
    forall later: seq<Effect> ensures PerformAll(s, [e] + later) == PerformAll(Perform(s, e), later) {
      assert ([e] + later)[1..] == later;
    }
  }

  // ----- One attempt on one route -------------------------------------------------------

  datatype Attempted = Attempted(effects: seq<Effect>, result: ItemResult)

  function ReconciliationItem(paperId: string): ItemResult {
    MissingItem(paperId, "acquisition_reconciliation_required", true)
  }

  function Nothing(c: Call): Attempted {
    Attempted([], ReconciliationItem(c.paperId))
  }

  /** Claim the generation, launch the provider, and store what it returned. */
  function LaunchAttempt(c: Call, p: Plan, generation: nat): Attempted {
    var id := CursorOf(c, p).At(generation);
    var file := AttemptFile(p.route, generation);
    var claim := [Write(file, RunningDocument(id)), Launch(p.route, generation)];
    match c.env.provider(p.route, generation)
    case None => Attempted(claim, ReconciliationItem(c.paperId))
    case Some(row) =>
      var r := MapNatureResult(c.paperId, row, c.env.files);
      Attempted(claim + [Write(file, TerminalDocument(id, r))], r)
  }

  /** `_reconcile_attempt_state` */
  function ReconcileAttempt(c: Call, p: Plan, generation: nat, document: Document): Attempted {
    var id := CursorOf(c, p).At(generation);
    if !Matches(document, id) then Nothing(c)
    else if document.status == TERMINAL then
      Attempted([], Settled(document, id).GetOr(ReconciliationItem(c.paperId)))
    else if document.status != RUNNING then Nothing(c)
    else
      match c.env.manifest(p.route, generation)
      case None => Nothing(c)
      case Some(row) =>
        var r := MapNatureResult(c.paperId, row, c.env.files);
        Attempted([Write(AttemptFile(p.route, generation), TerminalDocument(id, r))], r)
  }

  function NextGeneration(disk: Disk, c: Call, p: Plan, generation: nat): Attempted {
    var step := Write(CursorFile(p.route), CursorDocument(CursorOf(c, p), Number(generation)));
    var rest := match Read(disk, AttemptFile(p.route, generation))
                case None => LaunchAttempt(c, p, generation)
                case Some(document) => ReconcileAttempt(c, p, generation, document);
    Attempted([step] + rest.effects, rest.result)
  }

  /** The part of an attempt after its generation is known. */
  function AttemptAt(disk: Disk, c: Call, p: Plan, generation: nat): Attempted {
    var id := CursorOf(c, p).At(generation);
    match Read(disk, AttemptFile(p.route, generation))
    case None => LaunchAttempt(c, p, generation)
    case Some(document) =>
      if !Matches(document, id) then Nothing(c)
      else if document.status == TERMINAL then
        var result := Settled(document, id);
        if result.None? then Nothing(c)
        else if result.value.status != WAITING_USER || !c.retry then Attempted([], result.value)
        else NextGeneration(disk, c, p, generation + 1)
      else ReconcileAttempt(c, p, generation, document)
  }

  /** `_legacy_route_generation`: the first generation that the fixed scan does not pass. */
  function LegacyGeneration(disk: Disk, c: Call, p: Plan, generation: nat): (found: nat)
    requires 1 <= generation <= LEGACY_GENERATIONS + 1
    ensures generation <= found <= LEGACY_GENERATIONS + 1
    ensures forall g | generation <= g < found ::
      c.retry && AttemptFile(p.route, g) in disk
      && WaitingDocument(disk[AttemptFile(p.route, g)], CursorOf(c, p).At(g))
    ensures found <= LEGACY_GENERATIONS ==>
              !(c.retry && AttemptFile(p.route, found) in disk
                && WaitingDocument(disk[AttemptFile(p.route, found)], CursorOf(c, p).At(found)))
    decreases LEGACY_GENERATIONS + 1 - generation
  {
    if generation > LEGACY_GENERATIONS then generation
    else
      match Read(disk, AttemptFile(p.route, generation))
      case None => generation
      case Some(document) =>
        if !c.retry || !WaitingDocument(document, CursorOf(c, p).At(generation)) then generation
        else LegacyGeneration(disk, c, p, generation + 1)
  }

  /** `_execute_resumable_attempt` */
  function Attempt(disk: Disk, c: Call, p: Plan): Attempted {
    match Read(disk, CursorFile(p.route))
    case None =>
      var generation := LegacyGeneration(disk, c, p, 1);
      var step := Write(CursorFile(p.route), CursorDocument(CursorOf(c, p), Number(generation)));
      var rest := AttemptAt(disk, c, p, generation);
      Attempted([step] + rest.effects, rest.result)
    case Some(document) =>
      if !document.CursorDocument? || document.cursor != CursorOf(c, p)
         || !document.generation.Number? || document.generation.n < 1
      then Nothing(c)
      else AttemptAt(disk, c, p, document.generation.n)
  }

  // ----- The routes of one paper --------------------------------------------------------

  const OA_EXHAUSTED_CODES := {"institutional_access_not_authorized", "library_no_permission",
                               "no_authorized_pdf_found", "oa_not_found"}

  /** The result once every route came back missing. */
  function ExhaustedItem(paperId: string, sessionMode: string, last: ItemResult): ItemResult {
    if sessionMode == "oa_only" && last.failure.Dict? && "code" in last.failure.m
       && last.failure.m["code"].Text? && last.failure.m["code"].s in OA_EXHAUSTED_CODES
    then MissingItem(paperId, "oa_not_found", false) else last
  }

  predicate Stops(r: ItemResult) {
    r.status == OBTAINED || r.status == WAITING_USER
  }

  /** The loop of `_acquire_paper` over the routes that are left. */
  function TryRoutes(disk: Disk, c: Call, plans: seq<Plan>): Attempted
    requires plans != []
    decreases |plans|
  {
    var first := Attempt(disk, c, plans[0]);
    if Stops(first.result) then first
    else if |plans| == 1 then Attempted(first.effects, ExhaustedItem(c.paperId, c.sessionMode, first.result))
    else
      var rest := TryRoutes(PerformAll(State(disk, []), first.effects).disk, c, plans[1..]);
      Attempted(first.effects + rest.effects, rest.result)
  }

  /** `_acquire_paper` */
  function AcquirePaper(disk: Disk, c: Call, plans: seq<Plan>): Attempted {
    if plans == [] then Attempted([], MissingItem(c.paperId, "provided_material_missing", false))
    else TryRoutes(disk, c, plans)
  }
}
