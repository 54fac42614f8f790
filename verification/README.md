# Consensus engine and gateway: a verified model

The repository implements a collaborative argumentation tool. Participants append entries (claims,
relations between claims, stances, resolutions, comments) to a shared session log; every replica folds
the log into claims and an attack graph, solves the graph under grounded semantics and shows an epistemic
status per claim. Entries arrive out of order and are requested again when missing; local drafts are
previewed and submitted; a chat assistant drives the drafts through tool calls; a gateway schedules chat
requests over workers. This project models those five parts and proves what they are for.

The modules, bottom up:

- `Types`: entries, claims, relations, stances, the materialized state. Claim ids and authors are compared
  for equality only.
- `Argumentation`: Dung's abstract argumentation over any argument type. The characteristic function, the
  grounded set as its iterate, the grounded labelling, complete labellings, directionality, renaming.
- `Solver`: the graph builder and the in-place labelling loop, which overwrites labels during a pass. It is
  proved to compute the grounded labelling of every graph.
- `Reducer`: the fold of the log, its declarative reading, and the extraction of the attack graph with
  nodes numbered in hash-map order.
- `Status`: labels and stances combined, and the whole pipeline for any hash-map order.
- `LogReading`: which claims have a status and which one, read off the log itself.
- `Commutation`: which adjacent entries may be swapped. `Renaming`: replay commutes with one-to-one
  renamings of claim ids.
- `Coordinator`: slots, gaps, paged fetch plans, runs. `EntryBuffer`: the second implementation of in-order
  application, submission tracking and finishing; exactly when the two agree is proved.
- `Sorting`: the order of strings and the stable sort the impact analysis uses.
- `Drafts`, `Preview`, `Impact`, `Engine`: the draft list, its two materializations (provisional and final
  ids), impact analysis, and the engine object.
- `Response`, `Conversation`, `App`: stream assembly, chat history and truncation, and the application state
  machine that joins chat, drafts and log.
- `Kernel`, `Runtime`: the tick-driven scheduler and the runtime that resolves its effects against a table
  of one-shot handles.

Orders in which hash maps are walked are parameters (`order`, `walk`) constrained only to visit
every key once, so each result holds for every order. Runs are sequences of events whose last element is the latest.

## Findings

Each item names the lemma with a failing input and the lemma with the exact condition.

- `finish_submission` removes the submitted drafts in creation order, and `remove_draft` refuses a draft that
  is gone or that another draft refers to. It succeeds exactly when every submitted draft is still in the list
  and no draft refers to a submitted one (`EntryBuffer.FinishInCreationOrder`). A claim and a stance on it,
  submitted together, cannot be finished (`EntryBuffer.FinishFailsOnReferringDrafts`); neither can a
  submission one of whose drafts was removed meanwhile (`EntryBuffer.FinishFailsOnRemovedDrafts`). The pending
  submission is forgotten nevertheless, and the drafts before the refused one are gone. On an unchanged list,
  removing in reverse order always succeeds (`EntryBuffer.ReverseOrderAlwaysFinishes`).
- The coordinator keeps the first entry delivered for an index; the entry buffer applies the latest one
  delivered by the time the index can be applied, and ignores later ones. Both always expect the same next index
  (`EntryBuffer.NextIndicesAgree`). They hand on the same entries exactly when those two deliveries carry the
  same entry at every index below it (`EntryBuffer.BuffersAgreeIff`), which deliveries of one log always do;
  `EntryBuffer.BuffersDisagreeOnConflicts` shows a run in which they differ.
- With generated ids that are not in sight yet, submitting is previewing with provisional ids renamed exactly
  when no `draft-n` id of a claim draft occurs in the log or is referred to as committed by a draft
  (`Preview.SubmissionIsRenamedPreview`). Any mention clashes, for example a stance on a `draft-0` nobody has
  claimed. A committed claim `draft-0` even hides the draft claim from the preview (`Impact.ProvisionalIdClash`).
- `truncate_history` returns more than `max` messages exactly when the history is longer and none of the last
  `max` messages is a safe point (`Conversation.TruncationKeepsSafeSuffix`); with `max` zero it returns
  everything (`Conversation.ZeroLimitKeepsAll`).
- An active stream loses its handle while its job goes on exactly when it is requested again: the request is
  refused with an error and a done, and the done takes the handle (`Runtime.ActiveStreamKeepsHandle`; a run is
  in `Runtime.SecondRequestTakesHandle`). Request conservation and the exactly-once results hold nevertheless.
- A dispatched worker is gone, from the table and from the idle workers, whether or not its job is sent; the
  job is sent exactly when the stream has a handle (`Runtime.JobSentIffStreamHasHandle`; a run is in
  `Runtime.UnregisteredStreamUsesUpWorker`). The fallback fails the assignment but does not return the worker.
  The routers request each freshly registered stream once
  (`crates/prosthetic-conscience/src/router/chat_completions.rs:26-36` and `audio_transcriptions.rs:128-138`
  beside it), so that this input and the previous one need a direct caller of `RuntimeHandle`.
- A comment in `runtime.rs` says a later timeout cleans up an orphaned worker. The kernel does drop it, but its
  handle stays in the registry (`Runtime.ExpiredWorkerKeepsHandle`): a worker's handle is taken exactly when a job
  is dispatched to it (`Runtime.OnlyDispatchTakesWorkerHandles`).
- A comment in `response.rs` says the last finish reason is taken. That of a chunk without a delta is not
  (`Response.FinishWithoutDeltaIsLost`); the assembled one is that of the last chunk to carry one exactly when
  this chunk has a delta or repeats the reason of the last one that has (`Response.FinishIsLastIff`).

## Model

| member | source | states |
|---|---|---|
| Argumentation.GroundedIsLeastFixpoint | crates/consensus/src/solver.rs:101-109 | the grounded set is a fixpoint of the characteristic function and is contained in every fixpoint (and pre-fixpoint) |
| Argumentation.GroundedIsComplete | crates/consensus/src/solver.rs:101-156 | the grounded labelling is a complete labelling: In iff all attackers are Out, Out iff some attacker is In |
| Argumentation.GroundedIsLeastComplete | crates/consensus/src/solver.rs:101-156 | the grounded In set is contained in the In set of every complete labelling |
| Argumentation.CompleteWithinGrounded | crates/consensus/src/solver.rs:110-156 | a complete labelling whose In set lies within the grounded set is the grounded labelling |
| Argumentation.Directionality | crates/consensus/src/solver.rs:430-458 | if nothing outside a node set attacks into it, two graphs that agree on the attacks into the set label it alike |
| Argumentation.RenamingInvariance | crates/consensus/src/reducer.rs:105-146 | isomorphic frameworks have corresponding grounded labels |
| Solver.GraphBuilder.Attack | crates/consensus/src/solver.rs:65-69 | appends one attack edge and changes nothing else |
| Solver.GraphBuilder.Support | crates/consensus/src/solver.rs:72-75 | appends one support edge and changes nothing else |
| Solver.Adjacency | crates/consensus/src/solver.rs:77-99 | each node's attacker list holds the sources of the edges into it, with multiplicity and in order; edges to targets outside the graph are dropped |
| Solver.GraphBuilder.Build | crates/consensus/src/solver.rs:77-99 | the graph has one attacker list and one supporter list per node, each read off the recorded edges |
| Solver.DecidingShrinksUndec | crates/consensus/src/solver.rs:114-152 | deciding a node lowers the number of undecided nodes, which bounds the passes |
| Solver.JustifiedStep | crates/consensus/src/solver.rs:120-147 | a label written in the middle of a pass agrees with the grounded labelling, whichever labels the pass has already changed |
| Solver.SettledIsGrounded | crates/consensus/src/solver.rs:148-155 | when a pass changes nothing, the labels are the grounded ones |
| Solver.ComputeGroundedLabelling | crates/consensus/src/solver.rs:110-156 | for every graph, including attackers outside the node range, the in-place loop terminates with the grounded labelling |
| Solver.GraphDirectionality | crates/consensus/src/solver.rs:430-458 | two runs of the solver give equal labels on a node set that nothing outside attacks, whatever else the graphs contain |
| Reducer.ReplayAppend | crates/consensus/src/reducer.rs:98-104 | replaying a concatenation continues from the state of its first part |
| Reducer.ReplayClaims | crates/consensus/src/reducer.rs:16-87 | a claim is present iff some Claim entry has its id, holds the content of the first one and the last Resolve after that one |
| Reducer.ReplayStances | crates/consensus/src/reducer.rs:60-75 | a stance is present iff some Stance entry has its target and author, and holds the position of the last one |
| Reducer.ReplayRelations | crates/consensus/src/reducer.rs:46-58 | the relations are the Relation entries of the log in order |
| Reducer.SourcesMeaning | crates/consensus/src/reducer.rs:128-143 | a claim attacks, or supports, another in the graph iff some relation of that kind joins them and both are unresolved |
| Reducer.SourceMultiplicity | crates/consensus/src/reducer.rs:128-143 | the multiplicity of an attacker, or supporter, is the number of such relations |
| Reducer.ToGraph | crates/consensus/src/reducer.rs:111-146 | for any walk of the claim map the index is a bijection onto the unresolved claims and each node's attackers and supporters are numbered exactly as the relations say, with multiplicity |
| Reducer.GraphIsIsomorphic | crates/consensus/src/reducer.rs:111-146 | the numbered graph is isomorphic to the framework on claim ids, so label of node = label of claim |
| Status.AssignedKeepsLast | crates/consensus/src/status.rs:50-69 | entering statuses one by one leaves each claim with that of its last occurrence in the index |
| Status.ComputeAll | crates/consensus/src/status.rs:50-69 | the map has exactly the indexed claims, each with the status from its label and its stances, for any labels and index |
| Status.MaterializeEntries | crates/consensus/src/engine.rs:557-578 | replay, extraction, solving and statuses together give the status map defined on claim ids alone, whatever the walk; the Undec default is never taken |
| Status.EnumerationIndependence | crates/consensus/src/reducer.rs:105-146 | two walks give graphs of equal size with the same claims, the same named attackers and supporters and the same label for each claim |
| Commutation.SameMeaningSameStatuses | crates/consensus/src/status.rs:50-69 | states equal up to the order of relations have equal status maps |
| Commutation.AdjacentSwap | crates/consensus/src/reducer.rs:14-95 | two non-conflicting entries reduce to the same claims, stances and relation multiset in either order |
| Commutation.ConflictShows | crates/consensus/src/reducer.rs:14-95 | two different conflicting entries can be told apart by swapping them in some log |
| Commutation.InterchangeableIff | crates/consensus/src/reducer.rs:14-104 | swapping two adjacent entries is invisible, statuses included, in every log iff they do not conflict or are equal |
| Renaming.RenamedReplayFrom | crates/consensus/src/reducer.rs:14-104 | replay commutes with every one-to-one renaming of the ids mentioned |
| Renaming.FrameworkRenamed | crates/consensus/src/reducer.rs:111-146 | the attack framework of the renamed state is the renamed framework |
| Renaming.StatusReadsPositions | crates/consensus/src/status.rs:30-44 | a status depends only on the label and on which positions are taken, not on who takes them or on what id |
| Renaming.RenamedLog | crates/consensus/src/engine.rs:557-578 | a renamed log replays to the renamed state and gives every renamed claim the status of the original |
| LogReading.ActiveIsLive | crates/consensus/src/reducer.rs:14-126 | over every log: a claim is unresolved iff the log claims it and no Resolve of it follows its first Claim entry |
| LogReading.FrameworkOfLog | crates/consensus/src/reducer.rs:111-146 | the framework solved has exactly those claims, and one attacks another iff some Relation entry says so and both are in it |
| LogReading.PositionsOfLog | crates/consensus/src/status.rs:58-62 | the positions a status is read from are those of the last Stance entry of each author on the claim; there are none iff no Stance entry targets it |
| LogReading.StatusOfLog | crates/consensus/src/status.rs:30-69 | over every log: exactly the unresolved claims have a status; one labelled Out is Defeated, Undec Unresolved; one labelled In is Contested iff some author's last stance on it is Block or Object, Unexamined iff it has no Stance entry, Established otherwise |
| Coordinator.PlanIsUnique | crates/consensus/src/coordinator.rs:167-192 | ascending, disjoint, maximal fetches of at most a page that cover exactly the holes are unique |
| Coordinator.PlannedFetchesIsPlan | crates/consensus/src/coordinator.rs:167-192 | the recursive description of the plan has these properties |
| Coordinator.PlanMissingFetches | crates/consensus/src/coordinator.rs:167-192 | the nested loops terminate and emit that plan |
| Coordinator.CoordinatorState.Sync | crates/consensus/src/coordinator.rs:116-127 | extends the slots up to the latest index without shrinking them, and plans all holes |
| Coordinator.CoordinatorState.Reduce | crates/consensus/src/coordinator.rs:130-157 | fills the slot unless it is already filled; emits a plan exactly when the entry lies beyond the known slots |
| Coordinator.Init | crates/consensus/src/coordinator.rs:102-113 | fails iff the page limit is zero; otherwise starts with the holes up to the latest index and a plan for them |
| Coordinator.SlotsAfterRun | crates/consensus/src/coordinator.rs:130-157 | after any run a slot is filled iff its index was delivered, and it keeps the first delivery |
| Coordinator.SlotCountAfterRun | crates/consensus/src/coordinator.rs:116-165 | after any run there is a slot for index i iff some event received an index at or above i or synced to a latest at or above i |
| Coordinator.NextExpectedIsFirstUndelivered | crates/consensus/src/coordinator.rs:81-87 | over any run the next expected index is the first never delivered |
| Coordinator.CommittedPrefixOfLog | crates/consensus/src/coordinator.rs:89-98 | however deliveries of one log are reordered and repeated, the committed prefix is the log up to the next expected index |
| Coordinator.StepOnlyGrows | crates/consensus/src/coordinator.rs:116-165 | no event loses a received value, a slot or a committed entry |
| Coordinator.EveryHoleIsAskedFor | crates/consensus/src/coordinator.rs:116-192 | at every point of every run each hole is covered by some fetch emitted so far |
| Coordinator.AnsweringLeavesNoGap | crates/consensus/src/coordinator.rs:116-192 | once all that was asked for is delivered, everything known is committed |
| EntryBuffer.NextIndicesAgree | crates/consensus/src/entry_buffer.rs:101-126 | whatever is delivered, conflicting or not, the entry buffer's next index is the coordinator's; as many entries are applied and buffered indices lie above it |
| EntryBuffer.AppliedIsLatest | crates/consensus/src/entry_buffer.rs:101-126 | an index is applied by the event that completes the indices up to it, with the latest entry delivered for it by then |
| EntryBuffer.BuffersAgreeIff | crates/consensus/src/entry_buffer.rs:101-126 | for every delivery sequence the applied entries are the committed prefix iff at each index below the next one the first delivery and the latest one by its application carry the same entry |
| EntryBuffer.BuffersAgree | crates/consensus/src/entry_buffer.rs:101-126 | hence on any deliveries of one log both hand on the same prefix of it |
| EntryBuffer.BuffersDisagreeOnConflicts | crates/consensus/src/entry_buffer.rs:107-110 | the failing input for the iff above: two early entries for one index make the two differ |
| EntryBuffer.TrackingIsGreedy | crates/consensus/src/entry_buffer.rs:145-152 | the counter has reached k iff the first k pending payloads occur in order among those applied |
| EntryBuffer.CompleteIffEchoed | crates/consensus/src/entry_buffer.rs:91-95 | a submission is complete iff its payloads are a subsequence of those applied since it began |
| EntryBuffer.SerializedReadsBack | crates/consensus/src/entry_buffer.rs:129-141 | serialized entries parse back to themselves in order, and what does not parse adds nothing |
| EntryBuffer.EngineGetsPrefix | crates/consensus/src/entry_buffer.rs:101-141 | fed any deliveries of a log of entries, the buffer hands the engine the prefix of that log up to its next index |
| EntryBuffer.FinishInCreationOrder | crates/consensus/src/entry_buffer.rs:189-199 | removing any ascending list of submitted drafts succeeds iff all are still there and no draft refers to one of them, and then removes exactly them |
| EntryBuffer.FinishUntouchedDrafts | crates/consensus/src/entry_buffer.rs:189-199 | if the submitted drafts are all still there, success depends on references alone and leaves the drafts added since |
| EntryBuffer.FinishStopsAtRefusal | crates/consensus/src/entry_buffer.rs:194-196 | a failed finish has removed exactly the drafts before the refused one and reports why that one was refused |
| EntryBuffer.FinishFailsOnRemovedDrafts | crates/consensus/src/entry_buffer.rs:189-199 | after a submitted draft was removed, finishing removes the earlier one and then fails |
| EntryBuffer.FinishFailsOnReferringDrafts | crates/consensus/src/entry_buffer.rs:189-199 | a claim draft and a stance on it are well formed and cannot be finished |
| EntryBuffer.ReverseOrderAlwaysFinishes | crates/consensus/src/engine.rs:321-346 | in reverse creation order removal of all drafts succeeds |
| EntryBuffer.EntryBuffer.ApplyPayload | crates/consensus/src/entry_buffer.rs:129-141 | advances the submission counter on the expected payload, appends to the engine's log iff the payload parses |
| EntryBuffer.EntryBuffer.ApplyOrBufferEntry | crates/consensus/src/entry_buffer.rs:101-126 | old entries are ignored, early ones buffered, the next one applied with all that become next; counter, log and results follow exactly what was applied |
| EntryBuffer.EntryBuffer.BeginSubmission | crates/consensus/src/entry_buffer.rs:160-186 | an error or an empty bundle leaves the pending submission alone; otherwise the serialized bundle becomes pending from its first payload |
| EntryBuffer.EntryBuffer.FinishSubmission | crates/consensus/src/entry_buffer.rs:189-199 | removes the pending drafts one by one up to the first refusal, and nothing is pending afterwards either way |
| Drafts.FirstReferrer | crates/consensus/src/drafts.rs:271-296 | finds another draft that refers to the id iff there is one |
| Drafts.AddKeepsWellFormed | crates/consensus/src/drafts.rs:111-269 | a draft is accepted iff each local reference names a claim draft of the list; it is appended under the next id and keeps the list well formed |
| Drafts.RemoveKeepsWellFormed | crates/consensus/src/drafts.rs:271-312 | removal succeeds iff the draft exists and nothing refers to it, takes out exactly that draft and keeps the list well formed |
| Drafts.ReachableIsWellFormed | crates/consensus/src/drafts.rs:77-312 | over all runs ids ascend below the next id and every reference points back to an earlier claim draft |
| Drafts.RefusalIsTruthful | crates/consensus/src/drafts.rs:257-269 | a refused reference is indeed missing, or names a draft that is not a claim |
| Drafts.AddOutcome | crates/consensus/src/drafts.rs:111-269 | drafting appends the draft under the next id and reports that id, or blames the first reference that is not acceptable and says truly what is wrong with it |
| Drafts.RemoveOutcome | crates/consensus/src/drafts.rs:271-296 | removal takes out that draft alone, or names it as missing or says truly who refers to it |
| Drafts.UserEventOutcome | crates/consensus/src/drafts.rs:77-109 | after a user event the notice is clear iff it was carried out; otherwise only the notice changed, and it tells the truth |
| Engine.ConsensusEngine.AddDraft | crates/consensus/src/engine.rs:228-313 | the engine's drafting methods do in place what the draft list's do, and nothing on an error |
| Engine.ConsensusEngine.RemoveDraft | crates/consensus/src/engine.rs:321-346 | likewise for removal, with the same three outcomes |
| Engine.ConsensusEngine.SubmitDrafts | crates/consensus/src/engine.rs:349-354 | hands out the drafts as previewed and drops them, or drops nothing on an error |
| Engine.ConsensusEngine.SubmissionBundle | crates/consensus/src/engine.rs:384-424 | the two loops build the bundle defined on the draft list: ids in order, entries under final ids, the id map; the first error wins |
| Preview.DecimalReadsBack | crates/consensus/src/preview.rs:140-142 | a draft number is printed in decimal digits without leading zeros that read back as the number |
| Preview.AssignedIds | crates/consensus/src/engine.rs:391-399 | exactly the claim drafts are given ids, all from the first generated ones, and different if the generator never repeats one |
| Preview.PreviewNeverFails | crates/consensus/src/preview.rs:13-21 | an intact draft list is materialized without error; each entry says what its draft says in the author's name, a local reference being the claim made from that draft, and claims bear their `draft-n` ids |
| Preview.SubmissionNeverFails | crates/consensus/src/engine.rs:384-424 | with any id generator an intact draft list gives a bundle without error whose entries say what the drafts say, references resolved within the bundle |
| Preview.BundleNamesItsClaims | crates/consensus/src/engine.rs:391-422 | the bundle's id map has exactly the claim drafts and maps each to the id of its claim entry, which is the next generated one in list order |
| Preview.SubmissionIsRenamedPreview | crates/consensus/src/engine.rs:384-535 | committed log plus bundle is committed log plus preview with provisional ids renamed to final ones, iff no claim draft's provisional id occurs in the log or in a committed reference |
| Preview.PreviewIsFaithful | crates/consensus/src/preview.rs:44-72 | with fresh ids, state and every status shown by the preview are those after submission, up to that renaming |
| Impact.BuildImpactAnalysis | crates/consensus/src/preview.rs:74-138 | lists every claim draft, sorted by draft id, with its previewed status, and exactly the committed claims whose status differs, once each, sorted by claim id |
| Sorting.SortIds | crates/consensus/src/preview.rs:100-107 | the claim ids of both states in ascending order of their text, without duplicates |
| Sorting.SortingSorts | crates/consensus/src/preview.rs:98 | the stable sort gives an ascending permutation and leaves an ascending list alone |
| Impact.ImpactAnalysis | crates/consensus/src/preview.rs:44-62 | fails iff the preview fails; otherwise compares the committed log with the previewed one, for any hash orders |
| Impact.ImpactPredictsSubmission | crates/consensus/src/preview.rs:44-138 | with fresh ids the analysis lists exactly the claims submitting will add and the committed claims whose status it will change, with the statuses that will result |
| Impact.ShownTextIsCommitted | crates/consensus/src/preview.rs:119-124 | the text shown for a changed claim is its committed text, since a claim keeps its text for good |
| Impact.ProvisionalIdClash | crates/consensus/src/preview.rs:140-142 | without fresh provisional ids the preview drops a draft claim that submission adds |
| Response.FirstNonEmptyIsNamed | crates/consensus/src/response.rs:113-161 | the value kept is the first one present that is not empty |
| Response.ProjectionMeaning | crates/consensus/src/response.rs:127-135 | the fragments of a call are exactly those with its index; one without an index belongs to call 0 |
| Response.AbsorbAll | crates/consensus/src/response.rs:127-162 | folding fragments into the table of accumulators gives each index the call made of its own fragments |
| Response.InKeyOrder | crates/consensus/src/response.rs:174-179 | the table is read out completely in ascending index order |
| Response.Assemble | crates/consensus/src/response.rs:82-186 | the loop computes the declarative reading of a stream, with each error and its chunk index |
| Response.AssemblyErrors | crates/consensus/src/response.rs:82-112 | each error arises iff its cause is there: no chunk, the first chunk without choices or with none, or a first role other than assistant |
| Response.TextComposes | crates/consensus/src/response.rs:122-125 | the text of a stream is the texts of its parts one after the other |
| Response.TextOfOneChunk | crates/consensus/src/response.rs:122-125 | and a single chunk gives its own text |
| Response.FinishReasonReadsBack | crates/consensus/src/response.rs:188-197 | parsing a finish reason loses nothing, and only texts without a constructor are unknown |
| Response.ContentIffCarried | crates/consensus/src/response.rs:122-125 | content is present iff some fragment carried a content string |
| Response.FinishIsHeeded | crates/consensus/src/response.rs:109-112 | the assembled finish reason is that of the last chunk with a delta to carry one |
| Response.FinishIsLastIff | crates/consensus/src/response.rs:164-168 | it is that of the last chunk to carry one iff this chunk has a delta or repeats the reason of the last one that has |
| Response.FinishWithoutDeltaIsLost | crates/consensus/src/response.rs:109-112 | a stream whose only finish reason comes without a delta is assembled without one |
| Response.FragmentationRoundTrip | crates/consensus/src/response.rs:82-186 | however a message is cut into fragments and its calls interleaved, assembling returns it, calls sorted by index |
| Conversation.WellFormedAppend | crates/consensus/src/conversation.rs:87-95 | joining two well-formed histories gives a well-formed history |
| Conversation.AnsweredGroup | crates/consensus/src/conversation.rs:87-95 | an assistant message followed by one result per call in order keeps the history well formed |
| Conversation.SuffixWellFormed | crates/consensus/src/conversation.rs:133-163 | cutting before any message that is not a tool message keeps the history well formed |
| Conversation.TruncateHistory | crates/consensus/src/conversation.rs:133-163 | the loop computes `Truncated`, the truncation characterised in the next row |
| Conversation.TruncationKeepsSafeSuffix | crates/consensus/src/conversation.rs:133-163 | the result is everything or the suffix from the earliest safe point that fits; it fits iff one exists; it keeps the protocol |
| Conversation.ZeroLimitKeepsAll | crates/consensus/src/conversation.rs:133-163 | the failing input for the limit: with a limit of zero every history comes back whole |
| App.ExecuteToolCalls | crates/consensus/src/app.rs:244-276 | the loop computes `ExecuteAll`, the batch characterised in the next rows |
| App.BatchAnswersEveryCall | crates/consensus/src/app.rs:244-276 | every call gets one outcome under its id in order, whatever fails, and only the drafts change |
| App.CallsSeeEarlierCalls | crates/consensus/src/app.rs:244-276 | each outcome is that of its call alone in the state the calls before it leave |
| App.CallIsCarriedOut | crates/consensus/src/app.rs:351-467 | a call that does not decode reports that; drafting appends what was asked under the id reported, removal takes out the draft named, queries change nothing, and refusals are blamed truly |
| App.BatchIsCarriedOut | crates/consensus/src/app.rs:244-276 | the calls of a batch do so one after the other, each from the state the last one left |
| App.MutationFlagIsAccurate | crates/consensus/src/app.rs:244-276 | the mutation flag is clear iff the drafts are unchanged: set, ids were handed out or drafts removed |
| App.AsksAgainIffDraftsUnchanged | crates/consensus/src/app.rs:500-528 | after tool calls the model is asked to go on iff the drafts are unchanged |
| App.StartIsEmpty | crates/consensus/src/app.rs:115-139 | a replica starts with no chat and no drafts, holes up to the latest index and a plan fetching them |
| App.PromptIsAsked | crates/consensus/src/conversation.rs:170-179 | a user prompt extends the history by exactly that message, changes nothing else and emits exactly one request, a suffix of the new history ending with the prompt |
| App.BrokenStreamIsReported | crates/consensus/src/conversation.rs:180-202 | a stream that does not assemble changes nothing and emits the decode error alone |
| App.CompletionIsRecorded | crates/consensus/src/app.rs:469-528 | a completion extends the history by exactly its assistant message and one message per call with the rendered outcome, and emits one request iff it had calls and the drafts are unchanged, else nothing |
| App.LogEntryFillsItsSlot | crates/consensus/src/app.rs:530-547 | a log entry changes the slots alone: its own is filled unless it was, new ones below are holes; a plan is emitted iff it lies beyond the known slots |
| App.StepKeepsInvariant | crates/consensus/src/app.rs:141-147 | every event keeps history and drafts well formed, and every completion request carries a well-formed history |
| App.ReachableStatesAreSound | crates/consensus/src/app.rs:115-147 | in every run preview and submission never fail and every completion request is well formed |
| App.SlotsFollowLogEvents | crates/consensus/src/app.rs:530-547 | chat and draft events, however interleaved, leave the coordinator's slots to the log events alone |
| App.HolesAreAskedFor | crates/consensus/src/app.rs:115-147 | in every app run each hole is covered by a fetch emitted so far, from the start on |
| App.KnownIsReceivedOrAskedFor | crates/consensus/src/app.rs:115-147 | in every app run each index up to the initial latest, or up to an index received, has been received or asked for |
| App.ReplicaCommitsPrefix | crates/consensus/src/app.rs:530-547 | a replica commits the log up to exactly the first entry it has not received |
| App.ReplicasConverge | crates/consensus/src/app.rs:115-547 | two replicas of one log with different users, chats, drafts and delivery orders agree on claims, stances and statuses once they miss the same first entry |
| App.ViewStatuses | crates/consensus/src/app.rs:153-155 | the computed statuses are the function of the committed prefix, for any hash order |
| Kernel.FirstCapableWorker | crates/prosthetic-conscience/src/gateway/kernel.rs:526-539 | returns the least capable idle worker, or none iff there is none |
| Kernel.DueMeaning | crates/prosthetic-conscience/src/gateway/kernel.rs:367-375 | a tick collects exactly the active streams that are due, once each, for any walk |
| Kernel.StepConservesRequests | crates/prosthetic-conscience/src/gateway/kernel.rs:168-390 | each event balances requests, dones and active assignments of every stream |
| Kernel.RequestConservation | crates/prosthetic-conscience/src/gateway/kernel.rs:168-390 | in every run each stream has as many requests as dones, plus one while it is active |
| Kernel.ReachableDeadlines | crates/prosthetic-conscience/src/gateway/kernel.rs:338-366 | every deadline in a reachable state lies after the current tick (for a positive time to live) and at most a time to live ahead |
| Kernel.RefreshedStreamSurvives | crates/prosthetic-conscience/src/gateway/kernel.rs:338-366 | a stream refreshed at intervals of fewer than `stream_ttl` ticks never times out, in any run that does not end it |
| Kernel.SilentStreamTimesOut | crates/prosthetic-conscience/src/gateway/kernel.rs:358-390 | it times out, error then done, at exactly the tick at which its silence reaches `stream_ttl` |
| Kernel.IdleWorkerSurvives | crates/prosthetic-conscience/src/gateway/kernel.rs:316-366 | an idle worker heard from often enough keeps its capabilities and stays; it goes at exactly the tick at which its silence reaches `worker_ttl` |
| Kernel.TicksOnlyExpire | crates/prosthetic-conscience/src/gateway/kernel.rs:358-390 | ticks alone only remove streams, and none outlives its deadline |
| Kernel.EveryRequestIsAnswered | crates/prosthetic-conscience/src/gateway/kernel.rs:168-390 | after any run followed by `stream_ttl` ticks no stream is active and every request has been answered by its done |
| Kernel.DispatchIsSound | crates/prosthetic-conscience/src/gateway/kernel.rs:178-240 | a job carries what was asked, goes to the first capable idle worker, which ceases to be idle; a proper request is dispatched iff a capable worker is idle |
| Kernel.LeavingEmitsDone | crates/prosthetic-conscience/src/gateway/kernel.rs:168-390 | a stream ceases to be active only together with its done |
| Kernel.EndingsAreExplained | crates/prosthetic-conscience/src/gateway/kernel.rs:269-390 | an assignment ends only by being cleared, failed or timed out, and the client is told which |
| Kernel.StreamEndsIff | crates/prosthetic-conscience/src/gateway/kernel.rs:269-390 | an active stream is gone iff the event clears it, fails it or is a tick at which it is due; a clear or failure has exactly its stated effects and leaves every other stream and worker alone |
| Kernel.TickOutcome | crates/prosthetic-conscience/src/gateway/kernel.rs:358-390 | a tick lets exactly the due streams and overdue workers go, leaves the rest unchanged, and emits error and done once for each due stream and nothing else |
| Kernel.RefusedRequestIsTold | crates/prosthetic-conscience/src/gateway/kernel.rs:178-240 | a request is refused iff it is not streaming, its stream is active or no idle worker is capable; then nothing changes and its client is told which and then done |
| Kernel.MisplacedIsReported | crates/prosthetic-conscience/src/gateway/kernel.rs:241-357 | exactly the events about unknown streams or workers, or a worker known already, are protocol violations, and change nothing |
| Kernel.RegistrationAndHeartbeatsRefresh | crates/prosthetic-conscience/src/gateway/kernel.rs:241-357 | otherwise registrations and heartbeats give a full time to live to their own worker or stream alone, silently |
| Kernel.AvailabilityShrinks | crates/prosthetic-conscience/src/gateway/kernel.rs:241-268 | only registration makes a worker available |
| Runtime.ChannelRegistry.TakeWorker | crates/prosthetic-conscience/src/gateway/channel_registry.rs:129-131 | returns the worker's handle if present and removes it; nothing else changes |
| Runtime.ChannelRegistry.TakeStream | crates/prosthetic-conscience/src/gateway/channel_registry.rs:143-145 | returns the stream's handle if present and removes it; nothing else changes |
| Runtime.GatewayRuntime.ResolveEffects | crates/prosthetic-conscience/src/gateway/runtime.rs:503-621 | the loop resolves the effects one after the other against the changing handle table, with the two fallbacks |
| Runtime.GatewayRuntime.ProcessMessage | crates/prosthetic-conscience/src/gateway/runtime.rs:623-726 | processing a message is one step of the combined state machine of kernel and handle table |
| Runtime.HandlesOnlyTaken | crates/prosthetic-conscience/src/gateway/runtime.rs:503-621 | resolving effects adds no handle, and nothing is sent to a stream without one |
| Runtime.DoneTakesHandle | crates/prosthetic-conscience/src/gateway/runtime.rs:555-561 | a registered stream is sent a done iff one was emitted, and exactly then loses its handle |
| Runtime.ResolvedDoneIsLast | crates/prosthetic-conscience/src/gateway/runtime.rs:503-621 | within a batch nothing is resolved for a stream after its done |
| Runtime.ResolvedAreSent | crates/prosthetic-conscience/src/gateway/runtime.rs:503-621 | whatever is resolved comes from an effect with the same content and carries the handles of its own worker and stream; a fallback fails a dispatched stream |
| Runtime.ErrorsAreSent | crates/prosthetic-conscience/src/gateway/runtime.rs:547-554 | every error the kernel emits for a stream with a handle is sent through it with its own message |
| Runtime.ViolationIsLogged | crates/prosthetic-conscience/src/gateway/runtime.rs:562 | every protocol violation is passed on for logging as it stands |
| Runtime.AllSentIsProper | crates/prosthetic-conscience/src/gateway/runtime.rs:355-621 | over every run, each job carries the handles its worker and stream were registered with and the payload and capability of a request for that stream; each error and done carries the handle of its stream |
| Runtime.HandlesAreUnique | crates/prosthetic-conscience/src/gateway/channel_registry.rs:113-151 | with fresh ids there is only one such handle for each worker and stream |
| Runtime.RegisteredUntilDone | crates/prosthetic-conscience/src/gateway/runtime.rs:419-428 | a registered stream keeps its handle until it is sent its done |
| Runtime.StepDispatch | crates/prosthetic-conscience/src/gateway/runtime.rs:512-544 | a step sends at most one job, the one the kernel dispatched, and takes that worker's handle |
| Runtime.StepKeepsInvariant | crates/prosthetic-conscience/src/gateway/runtime.rs:355-726 | every allowed message keeps: idle workers have handles, handles belong to issued ids, used handles are gone |
| Runtime.ExactlyOnce | crates/prosthetic-conscience/src/gateway/runtime.rs:503-726 | in every run with fresh ids a worker handle is never missing, each worker and stream gets at most one job, each stream at most one done and nothing after it |
| Runtime.AskedIsAnsweredOrActive | crates/prosthetic-conscience/src/gateway/runtime.rs:503-726 | a stream whose request came in while its handle was registered has been sent its done, or is still active with its handle |
| Runtime.AskedIsAnsweredInTime | crates/prosthetic-conscience/src/gateway/runtime.rs:503-726 | after any run followed by `stream_ttl` ticks every such stream has been sent its done |
| Runtime.ActiveStreamKeepsHandle | crates/prosthetic-conscience/src/gateway/kernel.rs:197-208 | an active stream loses its handle and stays active iff it is requested again |
| Runtime.SecondRequestTakesHandle | crates/prosthetic-conscience/src/gateway/kernel.rs:197-208 | a run of four messages in which that happens to a stream whose job was sent |
| Runtime.JobSentIffStreamHasHandle | crates/prosthetic-conscience/src/gateway/runtime.rs:512-545 | a dispatched worker leaves the table and the idle workers either way; its job is sent, with its handles, capability and payload, iff the stream has a handle, else the assignment is failed |
| Runtime.UnregisteredStreamUsesUpWorker | crates/prosthetic-conscience/src/gateway/runtime.rs:512-545 | a run of two messages that sends nothing and leaves no worker |
| Runtime.OnlyDispatchTakesWorkerHandles | crates/prosthetic-conscience/src/gateway/runtime.rs:360-368 | a worker handle leaves the table iff a job was dispatched to that worker; ticks never take one |
| Runtime.ExpiredWorkerKeepsHandle | crates/prosthetic-conscience/src/gateway/runtime.rs:360-368 | a run of two messages after which a worker has expired and its handle is still registered |

## Left out

- Sessions and subscribers of the gateway (`gateway/session/kernel.rs`, session events and effects, session id generation): not part of this model.
- Tokio channels, tasks, `spawn_effects`, relays, routers and clients: a run is the sequence of processed messages, and fallback events may come back at any time among arbitrary other messages.
- Freshness of generated worker, stream and claim ids is assumed, since they are random UUIDs; worker and stream ids are natural numbers, whose order stands for the string order of worker ids.
- Machine integers: ticks, deadlines, draft numbers, node numbers and indices are unbounded.
- JSON and serde: chunks, messages, tool calls and payloads are typed values; a payload either is an entry or does not parse, and equal payloads are equal values. Error texts of parsing are not kept.
- Decoding of tool calls and rendering of results and of the system prompt are two arbitrary functions (`Glue`).
- `node_map` and `next_node_id`, which nothing downstream reads.
- App.ExecuteToolCalls: a query's answer is represented by the query and the state it found, not by the view data computed from that state, because the views are grouping and display (`render.rs`).
- The order of the claim id map of a submission bundle, which is a map here. Strings are compared character by character, by code point.
- The five drafting operations differ only in the content appended and are one operation with that content as parameter.
- In the original the coordinator's owned state is threaded through free functions; here they are methods of a class. The draft list of `drafts.rs` is modelled on values, and in place in `Engine`.
- Through `engine_mut` a caller of the entry buffer could append to the engine's log directly; nothing here does so.
- Claim detail views, grouping and display order (`render.rs`), reconnection backoff, wasm bindings, command line and web interfaces.
