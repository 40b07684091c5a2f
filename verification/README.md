# Verified model of the research harness core

This project models the parts of `meta_research` whose correctness spans loops, several functions or
whole runs, and proves what they promise.  `dafny verify dfyconfig.toml` checks everything.

| part | modules | the system's own terms |
|---|---|---|
| Reply preview | `PythonInt`, `ReplyString`, `ReplyPreview`, `ReplyAnswers`, `ReplyEffects`, `ReplyRecords`, `ReplyFolds`, `ReplyCache`, `ReplyRestart`, `ReplyRaising`, `ChatProgress` | the incremental reader that shows a chat reply while the provider still writes it: a JSON string-prefix decoder, a bounded paragraph table, a chunked record splitter with a discard mode, resumable file readers in an LRU cache |
| Downloads | `AcquisitionResults`, `AcquisitionAttempts`, `AcquisitionSafety`, `AcquisitionRoutes`, `AcquisitionProgress`, `AcquisitionSpool`, `Decimals` | crash-safe download attempts: a durable cursor per route and one operation file per generation, with a crash possible between any two durable effects |
| Download sessions | `SessionReceipts`, `SessionChain`, `SessionProgress`, `SessionRoot` | the append-only chain of session receipts with replays and replacements |
| Bundle completion | `Refs`, `BundleRecords`, `BundleAcyclic`, `BundleCoverage`, `BundleStrategy`, `BundleClosures`, `BundleResults`, `BundleExact`, `BundleEntries`, `BundleWork`, `BundleReplan`, `BundlePayload` | the strategy gate, accepted measurement closures, the result sets, the report gate and the closed semantic-replan payload |
| Delta prompts | `BatchRecords`, `BatchDelivery`, `BatchExact`, `BatchJobs` | prompts that leave out record bodies delivered before |
| Bounded projections | `BundleValues`, `BundleBudget`, `BundleText`, `BundleVisits`, `BundlePlaces` | the budgeted traversals of metric values and Bundle projections |
| Exhaustion evidence | `ExhaustionClaims`, `ExhaustionBudget`, `ExhaustionAssessment`, `ExhaustionExact`, `ExhaustionChecks`, `ExhaustionEvidence`, `ExhaustionReview` | the assessment validator, the claim parser and printer, the record and evidence constructors |
| Child sessions | `ChildEvents`, `ChildSessions`, `ChildProgress`, `ChildLifecycle`, `ChildReading` | the table of child sessions as a fold over provider events, with rows shared between two dictionaries |
| Baselines | `BaselineIdentity`, `BaselineAcceptance` | the registry of experiment baselines and named method versions |

Each part has a specification on values; the code that updates state step by step is a class or a
method with loops, proved against that specification; the properties are lemmas about the
specification, and so hold of the class or method.  Foreign effects are parameters: JSON parsing,
SHA-256 over canonical JSON (a function that the theorems about content take injective), what `stat`
and `read` report, what a provider answers, the number of durable effects after which a process dies.

## Where the code does less than its description

Seven promises hold of the code only under a condition.  Each condition is exact, and the inputs outside
it break the promise:

- A reply is decoded as JSON: `int(text, 16)` reads more than four hexadecimal digits after `\u`.
  `ReplyString.SpacesInAnEscapeAreRead` and `ReplyString.NegativeEscapeRaises` are two such strings, the
  second of which raises; `ReplyString.OnlyJsonIsDecoded` is the equivalence.
- A cached reader is the fold of `consume` over the bytes before its offset: offset and anchor move
  before `consume`, which may raise (a negative escape, an identity with a lone surrogate, a field that
  cannot be looked up).  `ReplyRaising.RaisedRecordsAreLost` is a run of three looks after which the whole
  file is read and a complete record never shown; `ReplyCache.EveryRunFollowsTheFiles` says for every
  run that a reader is the fold of its bytes if and only if no record among them raises.  A new file whose
  first bytes raise is never cached (`ReplyCache.UncachedFileRaisesAgain`).
- `turn.completed` leaves exactly the last structured reply: `ReplyPreview.RepeatedReplyIsNotTheOneLeft`
  shows an older paragraph said again that is skipped before it becomes the reply;
  `ReplyPreview.CompletedTurnLeavesTheLastReply` is the equivalence.
- The child table holds at most max(256, known) rows: `ChildLifecycle.TableCanOutgrowItsBound` reaches
  257 after 254 known ones when a task reference reads like the key of a request;
  `ChildLifecycle.TableOutgrowsExactly` is the equivalence over every stream of lines, and
  `ChildLifecycle.PlainTasksKeepTheBound` the bound for the streams without such references.
- Receipt files are read in the order of their generations: nine digits sort before eight
  (`SessionChain.NineDigitsSortEarly`); `SessionChain.ReadBackWhileNamesSort` says the chain is read back
  exactly below 10^8 receipts.
- Every appended receipt leaves a readable chain: an empty native reference does not.
  `SessionChain.EmptyNativeIsRefused` is the broken directory and `SessionChain.AppendedIsReadable` the
  equivalence for one append.  `_work` does not refuse the empty reference itself; the provider layer
  does (src/meta_research/idea_skill.py:3395-3396, src/meta_research/native_codex_bridge.py:424), and `SessionChain.EveryRunIsReadBack` says
  that then every run of fewer than 10^8 turns is read back.
- A stored download result is read back as it was: `AcquisitionResults.StoredResultIsReadBack` holds
  exactly for the results that `validate_item_results` accepts.

The last pass over the child table also turns finished rows to `unknown` when the reading was cut
short, so a status leaves the terminal ones there too; `ChildLifecycle.NoChildLooksAlive` says so and
`ChildLifecycle.OnlyARestartLeavesFinished` is about the event loop.

## Model

| member | source | states |
|---|---|---|
| `ReplyString.NextPieceIsTheOnlyPiece` | src/meta_research/chat_progress.py:66-114 | the decoder's branches find exactly the piece of the string grammar that stands at a place; the grammar, in which an escape is whatever `int` reads in four characters, is prefix-free |
| `ReplyString.ProperUnitsMeanTheirNumber` | src/meta_research/chat_progress.py:95-113 | units and pairs of four hexadecimal digits are such pieces and mean what section 7 of RFC 8259 and section 2.2 of RFC 2781 say |
| `ReplyString.EveryPieceIsDecoded` | src/meta_research/chat_progress.py:66-114 | every sequence of complete pieces in the text reaches the output, up to the cap |
| `ReplyString.OutputIsTheLongestParse` | src/meta_research/chat_progress.py:66-114 | the output is the meaning of pieces that really stand in the text, and decoding stops only at the cap or where no piece is complete |
| `ReplyString.PrefixInvertsEncoding` | src/meta_research/chat_progress.py:66-114 | decoding inverts every encoding of a closed string (raw characters, short escapes, \u units, surrogate pairs), cut at 12000 characters |
| `ReplyString.PrefixIsMonotone` | src/meta_research/chat_progress.py:66-114 | a truncated source decodes to a prefix of what the longer source decodes to, and raises only if that one does |
| `ReplyString.PrefixHasNoSurrogates` | src/meta_research/chat_progress.py:66-114 | no surrogate code point is ever output |
| `ReplyString.OnlyJsonIsDecoded` | src/meta_research/chat_progress.py:66-114 | the decoder answers as one of JSON proper would if and only if that one does not stop, before the cap, at an escape that `int` reads nevertheless |
| `ReplyString.SpacesInAnEscapeAreRead` | src/meta_research/chat_progress.py:95-98 | the string `"\u 41 "`, which is no JSON, is read as `A` |
| `ReplyString.NegativeEscapeRaises` | src/meta_research/chat_progress.py:95-113 | the string `"\u-041"` ends in a `ValueError` of `chr` |
| `ReplyString.UnicodeEscape` | src/meta_research/chat_progress.py:95-113 | the \u branch reads one unit or a whole pair, or finds the negative number that `chr` will refuse, and nothing where no complete piece stands |
| `ReplyString.StringPrefix` | src/meta_research/chat_progress.py:66-114 | the cursor loop returns the decoded prefix, and raises exactly when decoding runs into a negative escape before the cap |
| `PythonInt.HexIsRead` | src/meta_research/chat_progress.py:96 | where all four are hexadecimal digits `int` reads the number they write |
| `ReplyPreview.ReadTopLevelReply` | src/meta_research/chat_progress.py:117-156 | the loop over top-level properties returns the first `reply` that a whole-text walk finds, and raises exactly when decoding it does |
| `ReplyAnswers.PlainTextIsTaken` | src/meta_research/chat_progress.py:117-119 | a text whose first word opens no fence is looked at from that word on |
| `ReplyAnswers.FenceIsTaken` | src/meta_research/chat_progress.py:118-124 | of a fenced text the body counts, if the fence says `json` in letters of either case, or says nothing and the body starts an object or a list; otherwise the text is taken with its fence |
| `ReplyAnswers.OpenFenceIsTaken` | src/meta_research/chat_progress.py:118-126 | a fence line that says `json` and has no end yet counts as an object without a reply, another one as plain text |
| `ReplyAnswers.ReplyIsTheFirstNamed` | src/meta_research/chat_progress.py:129-155 | the reply starts where the first top-level property of that name has its value, over every sequence of properties before it, if there is one |
| `ReplyAnswers.AnswerIsTheReply` | src/meta_research/chat_progress.py:117-155 | a text is structured exactly if without its fence it starts an object or a list; its answer is then that first reply, as far as it stands, and nothing if there is none; any other text is its own answer, cut at 12000 characters |
| `ReplyPreview.PreviewIsBounded` | src/meta_research/chat_progress.py:170-239 | after any events the text with its separators is at most 12000 characters, no paragraph is empty |
| `ReplyPreview.OnlyStructuredTextAfterAStructuredReply` | src/meta_research/chat_progress.py:173-239 | once a structured reply was seen, all text comes from structured answers |
| `ReplyPreview.CompletedTurnLeavesTheLastReply` | src/meta_research/chat_progress.py:180-239 | a completed turn leaves the last structured reply if and only if it did not repeat an older paragraph word for word |
| `ReplyPreview.RepeatedReplyIsNotTheOneLeft` | src/meta_research/chat_progress.py:215-219 | a concrete stream whose last structured reply is not the one left |
| `ReplyEffects.NewItemLeaves` | src/meta_research/chat_progress.py:203-239 | the text that an item under a new identity leaves: a final one becomes the whole text, and so does one that extends the text; a prefix of it changes nothing; anything else, and every unstructured one, comes after a blank line, clipped to the room left; a first structured one starts over |
| `ReplyEffects.KnownItemLeaves` | src/meta_research/chat_progress.py:215-239 | an item whose paragraph is there changes nothing if it says the same, becomes the whole text if it is final, and else takes the place of that paragraph, clipped to the room that leaves |
| `ReplyEffects.OthersChangeNothing` | src/meta_research/chat_progress.py:173-210 | every other record leaves the text as it is, except that a completed turn leaves the reply alone |
| `ReplyEffects.RaisingLeaves` | src/meta_research/chat_progress.py:173-217 | which records raise, and that they leave the preview as it was, except that a first structured answer without a usable identity has cleared it |
| `ReplyRecords.SplitIsExact` | src/meta_research/chat_progress.py:241-254 | splitting loses no byte and no part holds a newline |
| `ReplyRecords.AdvanceFollowsTheStream` | src/meta_research/chat_progress.py:241-254 | one chunk accepts exactly the new records of at most 512 KiB and leaves the splitter state of the longer stream |
| `ReplyRecords.CuttingDoesNotMatter` | src/meta_research/chat_progress.py:241-254 | however a stream is cut into chunks, the accepted records and the final state are those of one call; the partial record stays within the limit and is empty while discarding |
| `ReplyRecords.KeptAreTheShort` | src/meta_research/chat_progress.py:247-250 | the accepted records are those of at most 512 KiB, each once and in order |
| `ReplyFolds.ConsumeFollowsTheStream` | src/meta_research/chat_progress.py:241-254 | one chunk after a stream that did not raise raises exactly when the longer stream does, and leaves its splitter state and preview otherwise |
| `ReplyFolds.FoldedUnlessRaising` | src/meta_research/chat_progress.py:173-254 | `consume` over a whole stream ends in the splitter state and preview of its records exactly when none of them raises |
| `ReplyCache.Observe` | src/meta_research/chat_progress.py:261-315 | no observation reads over 512 KiB, also one that raises |
| `ReplyCache.AnchorIsFound` | src/meta_research/chat_progress.py:291-299 | the anchor of what was read is found again in a file that only grew |
| `ReplyRestart.LookContinuesExactly` | src/meta_research/chat_progress.py:279-307 | whatever the file has become, a look reads on from the offset if and only if it is the same file, not cut below the offset, not rewritten without growing, and still has its last 128 bytes there unless it looks untouched; otherwise it reads from the start; in both cases the next bytes that the budget allows |
| `ReplyCache.EveryRunFollowsTheFiles` | src/meta_research/chat_progress.py:261-315 | over every interleaving of appends, looks, raising looks and evictions each cached reader has read exactly file[..offset], is the fold of `consume` over those bytes if and only if no record among them raises, shows at most 12000 characters, and the cache holds at most 64 files |
| `ReplyCache.RememberKeepsTheBound` | src/meta_research/chat_progress.py:311-314 | storing a reader as the most recent one evicts the oldest beyond 64 |
| `ReplyCache.NextLookReadsOn` | src/meta_research/chat_progress.py:261-315 | a look at a file that stands still reads the next 512 KiB or to its end, whether it raises or not |
| `ReplyCache.RepeatedLooksReachTheEnd` | src/meta_research/chat_progress.py:261-315 | from any cached state, or none, enough looks at a file that stands still leave the fold of the whole file if and only if none of its records raises |
| `ReplyCache.EveryRunReachesTheEnd` | src/meta_research/chat_progress.py:261-315 | in every run, raising looks at any file included, a file that stands still, looked at again before 64 other files were, is read on by 512 KiB at each look while no record of it raises, and its reader ends as the fold of the whole file if and only if none does |
| `ReplyCache.UncachedFileRaisesAgain` | src/meta_research/chat_progress.py:261-315 | a new file whose first bytes raise raises at every later look, however it grows, and is never cached |
| `ReplyRaising.RaisedRecordsAreLost` | src/meta_research/chat_progress.py:299-305 | a concrete run: the second look raises, the third does not, the whole file is read, and the text misses a complete record because its bytes were joined to a stale one |
| `ChatProgress.ReplyProgress.Accept` | src/meta_research/chat_progress.py:173-239 | one record updates paragraphs and reply as the preview function says, whose effect on the text `ReplyEffects` states case by case; it raises exactly when its text, its identity or a lookup makes it |
| `ChatProgress.ReplyProgress.Consume` | src/meta_research/chat_progress.py:241-254 | the fields after a chunk are those of the specification, whether it raises or not |
| `ChatProgress.ReplyProgress.Text` | src/meta_research/chat_progress.py:170-171 | the text is that of the reader's paragraphs, which is the preview of all bytes read when the reader is their fold |
| `ChatProgress.ReplyReader.ReadChatReply` | src/meta_research/chat_progress.py:261-315 | one observation, raising or not, leaves the cache of the specification within the byte budget; the text is the preview of the bytes read unless one of their records raised |
| `AcquisitionResults.StoredResultIsReadBack` | src/meta_research/acquisition.py:1119-1153 | `as_dict` followed by reading the private state gives the result back if and only if the result is valid |
| `AcquisitionResults.MapNatureResult` | src/meta_research/acquisition.py:1224-1297 | whatever row a provider returns, the mapped result is valid |
| `AcquisitionResults.MappedRow` | src/meta_research/acquisition.py:1224-1297 | a row is obtained if and only if it claims success for an acceptable file of a format that it names or its suffix has, with that file and format; it waits for the user if and only if its status says so |
| `AcquisitionResults.FailedRow` | src/meta_research/acquisition.py:1224-1297 | the failure code of every row that is not obtained |
| `AcquisitionSafety.EveryRunIsSafe` | src/meta_research/acquisition.py:700-882 | over every run of calls with a crash after any effect: no route and generation is launched twice, none is launched whose operation file was on the disk before the run, a later generation only after its predecessor ended waiting for the user, terminal files never change, cursors never go back |
| `AcquisitionSafety.EveryRunLaunchesNew` | src/meta_research/acquisition.py:700-882 | on any disk at all, no run of calls launches an attempt whose operation file was there at the start, and no operation file is ever removed |
| `AcquisitionSafety.DisksBeforeCursorsAreJustified` | src/meta_research/acquisition.py:820-857 | every disk that predates the cursors is a valid start |
| `AcquisitionSafety.ReconcilingLaunchesARouteOnce` | src/meta_research/acquisition.py:675-796 | reconcile calls alone launch each route at most once |
| `AcquisitionProgress.AttemptProgresses` | src/meta_research/acquisition.py:675-882 | on any disk, an attempt that lives to its end works at exactly one generation, unless the cursor is a foreign one: that of the cursor, or the first that the scan does not pass, or the next one if that waits for the user and the call retries; the cursor ends there, the generation is launched exactly if it had no file, its record ends terminal with the mapped answer or manifest if there is one, every other file stays, and the answer is what is recorded |
| `AcquisitionProgress.LaunchesExactlyTheDue` | src/meta_research/acquisition.py:700-796 | on every disk of the protocol: a generation is launched if and only if the route is untouched and it is the first, or the cursor is there and it has no file, or it follows one that waits for the user, the call retries and it has no file; the cursor ends at it |
| `AcquisitionProgress.RunningIsReconciled` | src/meta_research/acquisition.py:858-882 | an attempt left running whose manifest can be read ends terminal with the mapped row, and nothing is launched |
| `AcquisitionProgress.PaperProgresses` | src/meta_research/acquisition.py:615-673 | a call for a paper tries the routes in order up to the first that is obtained or waits, does on each what an attempt should, launches each at most once and exactly when its generation is new, leaves all other routes as they are, and answers with the last one, or `oa_not_found` where an open-access session ran out of routes |
| `AcquisitionRoutes.SettledRouteAnswers` | src/meta_research/acquisition.py:675-796 | a settled route answers from its record without any effect |
| `AcquisitionRoutes.EveryRunTakesRoutesInOrder` | src/meta_research/acquisition.py:615-673 | in every reachable disk a later route is touched only if every earlier one is terminal missing |
| `AcquisitionRoutes.AtMostOneRouteIsUnfinished` | src/meta_research/acquisition.py:615-673 | at most one attempt of a paper is ever unfinished |
| `AcquisitionRoutes.FinishedPaperStaysFinished` | src/meta_research/acquisition.py:615-673 | after an obtained or finally missing result every later call returns it and has no effect, whatever the provider would say |
| `AcquisitionSpool.ProviderSpool.ExecuteResumableAttempt` | src/meta_research/acquisition.py:675-796 | the steps over durable files perform the effects of the specification as far as the process lives; one that lives to its end has launched, recorded and answered what its generation calls for |
| `AcquisitionSpool.ProviderSpool.LegacyRouteGeneration` | src/meta_research/acquisition.py:820-857 | the scan finds the first generation that it may not pass |
| `AcquisitionSpool.ProviderSpool.AcquireOnePaper` | src/meta_research/acquisition.py:615-673 | the loop over routes performs the effects of the specification, cut off where the process dies |
| `Decimals.AttemptNamesAreDistinct` | src/meta_research/acquisition.py:808 | attempts of different routes or generations never share a directory name |
| `Decimals.PaddedIsMonotone` | src/meta_research/acquisition_root.py:438 | zero-padded numbers of one length sort like the numbers |
| `SessionChain.ReadBackWhileNamesSort` | src/meta_research/acquisition_root.py:340-386 | the files of a chain are read back as that chain exactly below 10^8 receipts, and refused from there on |
| `SessionChain.AppendedIsReadable` | src/meta_research/acquisition_root.py:398-445 | an appended receipt leaves a readable directory if and only if its native reference is not empty and its number fits in the name |
| `SessionChain.EveryRunLeavesAChain` | src/meta_research/acquisition_root.py:201-267 | every run of fresh, replayed and replaced turns, whatever the providers report, leaves the files of one chain: gapless generations, each previous reference the prior native one, distinct jobs, every native reference one that a turn reported; it is read back if and only if the last one is not empty and the numbers fit in the names |
| `SessionChain.EveryRunIsReadBack` | src/meta_research/acquisition_root.py:201-267 | when no turn reports an empty native reference, the reader returns the whole chain after every run of fewer than 10^8 turns |
| `SessionChain.WorkKeepsChain` | src/meta_research/acquisition_root.py:201-267 | any turn extends the chain by at most one receipt, of a native reference that it reported, and changes none |
| `SessionProgress.TurnIsExact` | src/meta_research/acquisition_root.py:201-267 | a turn on a readable chain is accepted if and only if it claims a receipt, of its own job or of a replacement with its proof in another native session, that repeats one of the chain or extends it from the last native session; it adds exactly that receipt in the second case and changes no file otherwise |
| `SessionProgress.OrdinaryTurnIsRecorded` | src/meta_research/acquisition_root.py:398-441 | a job that is new and was not begun, answered by a native session, adds its receipt if and only if the chain is empty or that is the native session of its last receipt |
| `SessionProgress.TurnSealsItsJobs` | src/meta_research/acquisition_root.py:205-255 | a turn seals its job with the native session it resumes, and an answered replacement job without one; what is sealed stays |
| `SessionChain.UnreadableStaysSo` | src/meta_research/acquisition_root.py:201-267 | after an empty native reference, or past the names, every turn is refused and changes nothing |
| `SessionChain.AppendedAgainChangesNothing` | src/meta_research/acquisition_root.py:408-418 | appending a recorded receipt again, however much later, writes nothing, and is accepted if and only if the directory is readable |
| `SessionChain.ConflictingAppendIsRefused` | src/meta_research/acquisition_root.py:410-417 | a recorded job with other content is refused and writes nothing |
| `SessionChain.NativeChangesAtReplacements` | src/meta_research/acquisition_root.py:369-384 | the native session changes exactly at replacement receipts |
| `SessionChain.RetiredSessionsAreGone` | src/meta_research/acquisition_root.py:388-396 | the retired sessions are the used ones other than the latest, each proved unavailable by a checkpoint in the chain |
| `SessionRoot.AcquisitionSession.SessionReceipts` | src/meta_research/acquisition_root.py:340-386 | the loop over the sorted names accepts exactly the chains |
| `SessionRoot.AcquisitionSession.RetiredNativeSessions` | src/meta_research/acquisition_root.py:388-392 | the natives of the chain without the latest |
| `SessionRoot.AcquisitionSession.AppendSessionReceipt` | src/meta_research/acquisition_root.py:398-445 | the new directory and the verdict are those of the specification, of which `SessionProgress` says exactly when it adds a receipt |
| `SessionRoot.AcquisitionSession.Work` | src/meta_research/acquisition_root.py:201-267 | one turn, with its replay, replacement and failure paths, leaves the state of the specification |
| `BundleAcyclic.VerifyAcyclic` | src/meta_research/bundle_completion.py:185-203 | accepted exactly when the dependencies are closed and have no cycle; acceptance yields a topological order, rejection of a closed relation a cycle among the stuck labels |
| `BundleAcyclic.StuckLabelsHaveACycle` | src/meta_research/bundle_completion.py:185-203 | labels that always depend on another stuck label contain a cycle |
| `BundleAcyclic.OrderExcludesCycles` | src/meta_research/bundle_completion.py:185-203 | a topological order excludes every cycle |
| `BundleExact.AcyclicIsSchedulable` | src/meta_research/bundle_completion.py:185-203 | the dependencies of a strategy are accepted if and only if its targets can be put in an order in which each comes after those it depends on |
| `BundleStrategy.CompletionIsABijection` | src/meta_research/bundle_completion.py:109-182 | an accepted complete strategy is exactly a valid, acyclic, drift-free one whose candidates are in bijection with the required units, each listing exactly the experiments that require its unit |
| `BundleStrategy.VerifyCompletionCells` | src/meta_research/bundle_completion.py:206-251 | the loops with their counter and held-fixed dictionary accept exactly the complete strategies |
| `BundleExact.StrategyAcceptedExactly` | src/meta_research/bundle_completion.py:109-251 | target by target: accepted if and only if plan and targets are valid, each required measurement is that of exactly one target, no two targets measure one unit, targets of an experiment bind each slot that it holds fixed to one revision, and the targets can be scheduled |
| `BundleEntries.StrategyStandsExactly` | src/meta_research/bundle_completion.py:54-251 | the same with nothing left to the checks of single records: what a brief, a plan and a target need is stated on their fields, and the slots bound by a target are exactly those that one of its experiments holds fixed, each once |
| `BundleStrategy.EveryCellOnce` | src/meta_research/bundle_completion.py:236-251 | the last loop decides whether every required cell is covered once |
| `BundleCoverage.RecordCoverage` | src/meta_research/bundle_completion.py:226-234 | recording a coverage refuses exactly a drifting held-fixed slot |
| `BundleClosures.AcceptedWorkWasReviewed` | src/meta_research/bundle_completion.py:310-486 | an accepted closure without the receipt of a root completion is a formal measurement with metric values, reviewed by independent sessions for exactly its attempt, metric, manifest and revision; with one it claims no review |
| `BundleClosures.InputsAreBoundApart` | src/meta_research/bundle_completion.py:405-435 | an attempt has its own input binding, and it shares neither reference nor receipt with that of the variant run |
| `BundleExact.AcceptedWorkIsExactly` | src/meta_research/bundle_completion.py:310-486 | a closure is accepted if and only if its common parts are right and it is either a formal measurement with values and both independent reviews, or work of a completed root session, formal or not, without any review |
| `BundleWork.WorkStandsExactly` | src/meta_research/bundle_completion.py:254-538 | which closures are accepted, stated on their fields: references, receipts and their subjects, input bindings, protocol parts with the aggregation of exactly those parts, and for each kind of work the reviews it needs |
| `BundleResults.ResultSets` | src/meta_research/bundle_completion.py:541-604 | realized and remaining are the sorted experiments that are and are not fully measured; raised exactly when the plan or a closure is invalid, two closures select one identity, a slot drifts or a cell is measured twice |
| `BundleExact.AggregableIsPairwise` | src/meta_research/bundle_completion.py:541-604 | closures are aggregated if and only if each is accepted on its own and any two are of different commits, attempts and metric results, measure no cell both and bind held-fixed slots alike |
| `BundleExact.StrategyClosuresAreAggregated` | src/meta_research/bundle_completion.py:541-604 | the closures of a complete strategy, one for each target, are aggregated unless two share a commit, attempt or metric result |
| `BundleExact.RealizedMeansMeasured` | src/meta_research/bundle_completion.py:585-604 | an experiment is realized if and only if each of its required units has an accepted closure |
| `BundleResults.RealizedOnlyGrows` | src/meta_research/bundle_completion.py:541-604 | realized only grows as closures are added |
| `BundleResults.RemainingMeansUnaccepted` | src/meta_research/bundle_completion.py:541-604 | for a complete strategy an experiment remains if and only if one of its candidates is unaccepted |
| `BundleResults.AllAcceptedMeansRealized` | src/meta_research/bundle_completion.py:541-604 | when every candidate is accepted nothing remains |
| `BundleResults.OneDispositionPasses` | src/meta_research/bundle_completion.py:616-652 | for fixed facts at most one disposition passes the gate |
| `BundleResults.AcceptedStrategyIsRealized` | src/meta_research/bundle_completion.py:616-652 | a fully accepted complete strategy passes as realized |
| `BundleReplan.ClosedSemanticReplanPayload` | src/meta_research/bundle_completion.py:655-781 | the payload exists exactly when everything is at rest and the barriers are exact; then it holds the sorted changes, evidence and receipts |
| `BundleReplan.PayloadIsExact` | src/meta_research/bundle_completion.py:677-781 | route dispositions correspond one to one to the routes of the unresolved candidates, external operations to receipts, with one outcome each, and the barriers' keys are the non-empty remaining set |
| `BundlePayload.PayloadAnswersTheRequest` | src/meta_research/bundle_completion.py:655-781 | the barriers of a returned payload are those of the unresolved targets with their experiments, every route of those has one disposition and every disposition such a route, and the four sorted tuples hold exactly what the dispositions ask for and rest on |
| `BundlePayload.PayloadExactlyWhen` | src/meta_research/bundle_completion.py:655-781 | a payload exists if and only if nothing is outstanding, every target has an identity of its own, the barriers are exactly those of the unresolved targets and name exactly the experiments that remain, every route has one disposition, no route, disposition or reference occurs twice, and reconciliations agree |
| `BundlePayload.NotYetExactlyWhen` | src/meta_research/bundle_completion.py:655-700 | there is no payload yet if and only if something is outstanding, or the targets are identified and barriers are missing or too many |
| `BatchRecords.Partition` | src/meta_research/bundle_batch_view.py:155-188 | the counting loops give the bodies, index and retained reasons of the specification |
| `BatchRecords.LeftOutExactly` | src/meta_research/bundle_batch_view.py:165-188 | a body is left out exactly when the same record was delivered, its reference is unique in both lists and its reader names its hash |
| `BatchExact.ReasonsAreExact` | src/meta_research/bundle_batch_view.py:165-188 | each reason to show a delivered body again, by the uniqueness of its reference and its reader |
| `BatchExact.RetainedArePicked` | src/meta_research/bundle_batch_view.py:165-188 | the retained list has the delivered records that are shown again, each with its reason, in the order of the records |
| `BatchRecords.DeltaRebuildsTheFullView` | src/meta_research/bundle_batch_view.py:155-188 | bodies, index and baseline alone rebuild the full ordered record list |
| `BatchDelivery.DeliveredWasShown` | src/meta_research/bundle_batch_delivery.py:40-99 | every delivered hash stands in the view of an operation of the session |
| `BatchExact.ScanDelivers` | src/meta_research/bundle_batch_delivery.py:40-99 | what counts as delivered is exactly what some view of the session showed, over all generations so far |
| `BatchDelivery.EveryRecordWasShown` | src/meta_research/bundle_batch_view.py:233-262 | over every run of prompts each frozen record was shown with exactly its content in that prompt or an earlier one of the same native session |
| `BatchDelivery.TranscriptRebuildsEveryList` | src/meta_research/bundle_batch_delivery.py:40-105 | the index of any generation and what the session was shown so far rebuild that generation's full list |
| `BatchDelivery.LeftOutHasExactReader` | src/meta_research/bundle_batch_view.py:145-152 | every body left out is reachable through a reader with its exact hash |
| `BatchDelivery.MismatchIsNeverReported` | src/meta_research/bundle_batch_view.py:237-239 | the hash-mismatch reason never occurs in a prompt |
| `BatchDelivery.ViewsAreNeverRefused` | src/meta_research/bundle_batch_delivery.py:81-95 | the baseline of a reachable job is refused only for a foreign session or identity |
| `BatchJobs.BatchJob.VerifiedBaseline` | src/meta_research/bundle_batch_delivery.py:16-105 | the loop over the generations gives the part of the latest frozen lists that the session was shown, no baseline or a conflict, each exactly when it should |
| `BatchExact.BaselineIsExact` | src/meta_research/bundle_batch_delivery.py:16-105 | there is no baseline without a session or the base operation, or where the first trouble is a missing proposal; any other first trouble is a conflict; else the baseline is the part of the latest frozen lists that some view showed, in order |
| `BatchExact.EveryPromptIsExact` | src/meta_research/bundle_batch_view.py:226-262 | the next prompt of every run: a sealed generation is replayed, an interrupted session makes none, otherwise the request is frozen as it is and its view leaves out exactly the records that were seen, were frozen last, have a unique reference and an exact reader |
| `BatchExact.IndexNamesExactReaders` | src/meta_research/bundle_batch_view.py:145-188 | the index of a delta names each record in its place, with a reader exactly where there is an exact one for it |
| `BatchJobs.BatchJob.Prompt` | src/meta_research/bundle_batch_view.py:226-262 | the next generation is sealed with the view of the specification, or nothing is sealed |
| `BundleVisits.ValidTargetMetricValue` | src/meta_research/bundle_protocol.py:62-88 | the short-circuiting check with its shared counter decides total nodes, depth and leaf bounds |
| `BundleBudget.ScalarsFitTheProjection` | src/meta_research/bundle_protocol.py:652-798 | the scalar bytes of a value are at most its canonical length, the dropped root completion receipt included |
| `BundleBudget.RunningBytesNeverDecide` | src/meta_research/bundle_protocol.py:706-798 | the running byte budget rejects nothing whose canonical text fits |
| `BundleText.LengthIsOfTheText` | src/meta_research/bundle_protocol.py:652-687 | the length that the budgets count is that of the compact JSON text in UTF-8 |
| `BundleText.AcceptedByItsText` | src/meta_research/bundle_protocol.py:690-798 | a projection is accepted if and only if its shape, its nodes and the bytes of its canonical text are within bounds |
| `BundlePlaces.AcceptedPlaceByPlace` | src/meta_research/bundle_protocol.py:690-798 | a projection is accepted if and only if it has at most 65536 places, what stands at each place is allowed there on its own (lists and dictionaries only inside metric values, longer texts only where a plan text stands), and its canonical text fits the bytes |
| `BundlePlaces.MetricPlaceByPlace` | src/meta_research/bundle_protocol.py:62-88 | a target metric value is accepted if and only if it has at most 65536 places, none deeper than 64, and at each there is a bounded leaf, a list, or a dictionary with texts as keys |
| `BundleVisits.ProjectionVisit.Visit` | src/meta_research/bundle_protocol.py:713-789 | the visit succeeds exactly on values of the right shape within both budgets, and counts exactly their nodes and bytes |
| `BundleVisits.ValidateClosedBundleProjection` | src/meta_research/bundle_protocol.py:690-798 | accepted exactly when shape, nodes and canonical length are within bounds |
| `ExhaustionClaims.ClaimPrintsBack` | src/meta_research/bundle_exhaustion.py:572-631 | a claim that parses prints back to the same value |
| `ExhaustionClaims.ClaimsAndValuesCorrespond` | src/meta_research/bundle_exhaustion.py:264-424 | parsing and printing are inverse bijections between the parsing values and the claims with acceptable texts |
| `ExhaustionBudget.DispositionIsAccepted` | src/meta_research/bundle_exhaustion.py:451-465 | the JSON root budget of an assessment covers the projection budget that the record constructor checks on the route disposition |
| `ExhaustionBudget.NodesFitTheProjection` | src/meta_research/bundle_protocol.py:652-673 | a value has at most as many nodes as what it prints |
| `ExhaustionAssessment.AcceptedAssessmentBecomesEvidence` | src/meta_research/bundle_exhaustion.py:1235-1388 | whenever the validator accepts, every record rebuilds, prints back, passes the record constructor, and together they pass the evidence constructor's record checks |
| `ExhaustionAssessment.EvidenceCoversExactly` | src/meta_research/bundle_exhaustion.py:1034-1092 | accepted evidence covers exactly the required cells and cites each rejected submission in exactly one record, an `attempted_rejected` one |
| `ExhaustionExact.RejectionsFitExactly` | src/meta_research/bundle_exhaustion.py:1034-1092 | the citations are right if and only if the rejected submissions are in order, each is cited by one `attempted_rejected` record and no other, and such records cite nothing else and nothing twice |
| `ExhaustionChecks.RecordReadsBack` | src/meta_research/bundle_exhaustion.py:601-631 | every record that the constructor admits is rebuilt from its own claim |
| `ExhaustionChecks.ValidateAssessment` | src/meta_research/bundle_exhaustion.py:1235-1388 | the loop with its `setdefault` tables accepts exactly the assessments of the specification |
| `ExhaustionExact.AcceptedExactly` | src/meta_research/bundle_exhaustion.py:1235-1388 | a value is accepted if and only if it is within its budget and is the printed assessment of claims that stand: each binds the slots of its brief and has its route disposed, its operations settled and the fingerprint of its plan; together they agree, are in order and claim exactly the required cells |
| `ExhaustionChecks.CheckEvidenceRecords` | src/meta_research/bundle_exhaustion.py:977-1092 | the loops of the evidence constructor decide its checks on records and on rejected submissions |
| `ExhaustionEvidence.AcceptEvidence` | src/meta_research/bundle_exhaustion.py:875-1095 | the whole constructor accepts exactly the evidence of valid parts with a fine identity, review and plan, fitting records and rejected submissions, within the root budget |
| `ExhaustionEvidence.OnlyTheRestIsDecided` | src/meta_research/bundle_exhaustion.py:875-1388 | for evidence made of an accepted assessment the constructor's answer depends only on identity, review, rejected submissions and the root budget |
| `ExhaustionReview.EvidenceAcceptedExactly` | src/meta_research/bundle_exhaustion.py:635-1095 | that rest on its fields: complete identity of the same plan, named turns and bounded findings, a review trace that repeats run, session, reviewer and assessment, submissions rejected by one of two owners, each cited by one rejecting record and by no other, and the root budget |
| `ExhaustionReview.TraceMeans` | src/meta_research/bundle_exhaustion.py:779-972 | of a review trace only its copies of the evidence, its computed hashes and the form of its hashes decide; the checks on its own texts never do |
| `ExhaustionEvidence.TracedReviewIsIndependent` | src/meta_research/bundle_exhaustion.py:937-972 | a review trace in accepted evidence is of an agent other than the root and native sessions, for this assessment and the plan that every fingerprint is over |
| `ChildSessions.EachChildHasOneKey` | src/meta_research/child_session_observations.py:63-176 | over every stream each child is stored under its native reference, or under its request key while it has none, never both; all belong to one native session |
| `ChildProgress.StepIsExact` | src/meta_research/child_session_observations.py:80-172 | what each event does to the children by their keys: launches add starting rows, a started task binds its row and moves it, reports and calls change one status, known children are loaded once, and all other children stay as they are |
| `ChildProgress.ReadingIsExact` | src/meta_research/child_session_observations.py:63-176 | every reading goes through its lines in order, up to the first that ends it or is refused, and then settles each child: unknown after a cut reading, or if it is not finished and no process is left |
| `ChildLifecycle.OnlyARestartLeavesFinished` | src/meta_research/child_session_observations.py:113-169 | an event changes a finished row only by binding a task to it or by a `send_input` or `resume_agent` call that addresses it |
| `ChildLifecycle.FinishedStaysFinished` | src/meta_research/child_session_observations.py:66-172 | without such events finished rows stay finished over any stretch of lines |
| `ChildLifecycle.NoChildLooksAlive` | src/meta_research/child_session_observations.py:173-176 | a cut reading returns only unknown children, and without a process none is starting or running; otherwise the statuses are those of the events |
| `ChildLifecycle.OnlyBringingBackOutgrows` | src/meta_research/child_session_observations.py:105-126 | one event makes the table larger than its limit and than it was exactly when it brings back a request's row into a full table |
| `ChildLifecycle.TableOutgrowsExactly` | src/meta_research/child_session_observations.py:63-172 | over every stream of lines from the empty table: some point of the reading holds more than max(256, known) rows if and only if some line brings back a request's row under a new native reference into a table that is full; only then may the reading return more |
| `ChildLifecycle.PlainTasksKeepTheBound` | src/meta_research/child_session_observations.py:63-172 | without task references that read like request keys the table holds at most max(256, known) rows |
| `ChildLifecycle.PlainReadingKeepsTheBound` | src/meta_research/child_session_observations.py:42-176 | a reading of lines without such references returns at most max(256, known) rows |
| `ChildLifecycle.TableCanOutgrowItsBound` | src/meta_research/child_session_observations.py:117-126 | a concrete stream that leaves 257 rows after 254 known ones |
| `ChildReading.ChildReader.Observe` | src/meta_research/child_session_observations.py:80-172 | one event over the shared mutable rows leaves the table of the specification |
| `ChildReading.ChildReader.Bind` | src/meta_research/child_session_observations.py:117-126 | the shared row gets its native reference and moves from its request key to it |
| `ChildReading.ReadChildSessions` | src/meta_research/child_session_observations.py:42-176 | the reader returns the rows of the fold after the last pass, or refuses an inconsistent native identity |
| `BaselineIdentity.EveryRunIsConsistent` | src/meta_research/baseline_identity.py:121-176 | from historical tables every run keeps one baseline per method name and version, with its stored document, distinct references and unique hashes |
| `BaselineIdentity.ResolveKeepsConsistent` | src/meta_research/baseline_identity.py:121-176 | a resolution that registers nothing or raises changes nothing |
| `BaselineIdentity.AcceptedNamesItsMethod` | src/meta_research/baseline_identity.py:74-118 | an accepted versioned request answers with the baseline of the method it names, whose contract is the one given |
| `BaselineAcceptance.ExplicitAcceptedExactly` | src/meta_research/baseline_identity.py:121-176 | an explicit request is accepted if and only if its name is free or the rows it selects agree with its reference, name and contract; a free name adds one baseline with the stored document and one method row under the new reference, otherwise the row that agrees is the answer |
| `BaselineAcceptance.OtherAcceptedExactly` | src/meta_research/baseline_identity.py:121-136 | any other request is accepted if and only if a historical baseline holds that very document |
| `BaselineIdentity.ResolvedAgainIsTheSame` | src/meta_research/baseline_identity.py:121-155 | the same identity with other run bindings or notes, however much later, gives the same reference with False |
| `BaselineIdentity.EveryRunResolvesTheSame` | src/meta_research/baseline_identity.py:121-176 | in every run from historical tables, an identity accepted at one step gets the same reference with False at every later step, whatever was resolved in between |
| `BaselineIdentity.OtherContractRaises` | src/meta_research/baseline_identity.py:115-118 | another contract for a registered name raises with both tables unchanged |
| `BaselineIdentity.BaselineRegistry.ResolveIdentity` | src/meta_research/baseline_identity.py:121-176 | the queries and inserts leave the tables of the specification, of which `BaselineAcceptance` says exactly what it accepts and registers |

## Left out

- Error codes and messages: only whether a call is accepted is modelled, and the user-facing texts of failures are one constant.
- Provider subprocesses, locks and threads, symlink and permission checks, SQL, and envelope signatures: they are foreign effects.
- JSON parsing: values are parsed already.  Of canonical JSON only the text of projections is modelled, without the order of its keys; the canonical hash is a function, taken injective where content is compared.
- Python equality across types (`True == 1 == 1.0`): values compare by structure.
- Values that are not hashable where the source looks them up in a set, outside provider records: the errors they cause are not modelled.
- PythonInt.HexIsRead: the decimal digits of other scripts are those of Unicode 15; Python 3.11 has two scripts fewer.
- AcquisitionRoutes.FinishedPaperStaysFinished: the paper key is a truncated digest of the paper identifier in the source; papers with one key are one paper here.
- AcquisitionSpool.ProviderSpool.AcquireOnePaper: the provider's output files and manifests are the values that `stat` and parsing report.
- SessionReceipts: the wording of prompts and the frozen replacement context of a turn.
- BundleResults.ResultSets: the SHA-256 of a protocol aggregation is a parameter; the nested held-fixed dictionary is one map by experiment and slot.
- `_attempt_plans` and `_build_report` of bundle completion.
- BatchJobs.BatchJob.Prompt: the plan reader, the completion contract reconstruction, the responsibility index and the descriptive fields of the index; the proposal that an operation must match is an input.
- BatchDelivery.BaselineOf: operation directories are a table by generation; a prompt without exactly one context line does not occur.
- BundleVisits.ProjectionVisit.Visit: cyclic Python containers, whose recursion error the source turns into a rejection, are no values here; the fields of a closure are visited in another order.
- ExhaustionBudget.JsonBudget: the counting loop of `_validate_json_root_budget` appears as the bound it decides; the like loop is `BundleVisits.MetricCheck`.
- ExhaustionAssessment.AssessmentAccepted: the completion contract parser rests on `bundle_target_contract`, which is not part of this model; it is a parameter.
- ExhaustionEvidence.AcceptEvidence: the digests of the review task and response and the public form of the completion contract are parameters; Owner receipts for recorded evidence (`VerifiedBundleExhaustionEvidence`) are not modelled.
- ChildReading.ReadChildSessions: the supervisor receipt, and the order in which the rows are returned.
- BaselineIdentity.EveryRunIsConsistent: paging and relation queries; `new_ref` is taken to return an unused reference.
- `BundleExhaustionOwnerProofVerifier`, bundle stages and skills, dispatch recovery, autonomous creation, authentication, the command line and the web parts: orchestration or lookups into other state.
