/** The application state machine: committed entries, local drafts and the chat, driven by one event at a time. */
module App {
  import opened Types
  import opened Reducer
  import opened Status
  import opened Coordinator
  import opened Response
  import Drafts
  import Preview
  import Conversation

  const PAGE_LIMIT: nat := 1000

  datatype Config = Config(model: string, maxHistory: nat, maxTokens: nat)

  datatype State = State(
    participant: Author,
    config: Config,
    history: seq<Conversation.Message>,
    slots: seq<Slot<Entry>>,
    drafts: Drafts.State)

  datatype Event =
    | ConversationEvent(conversation: Conversation.Event)
    | DraftsEvent(draft: Drafts.Event)
    | CoordinatorEvent(index: nat, entry: Entry)

  /** `RequestCompletion` carries the history part of the payload; the system prompt and tool list are text. */
  datatype Effect =
    | DecodeFailed(error: AssemblerError)
    | FetchMissing(fetch: Fetch)
    | RequestCompletion(model: string, messages: seq<Conversation.Message>, maxTokens: nat)

  datatype Transition = Transition(state: State, effects: seq<Effect>)

  // ------------------------------------------------------------------------ tool calls

  datatype Tool =
    | Overview | ClaimDetail(claimId: ClaimId) | ShowDrafts
    | PreviewOverview | PreviewClaimDetail(claim: Drafts.ClaimRef) | ImpactAnalysis
    | AddDraft(content: Drafts.DraftContent)
    | RemoveDraft(draftId: Drafts.DraftId)

  /** A query answers with data computed from the state it finds, which stands for the data here. */
  datatype Output = Answer(query: Tool, found: State) | Drafted(draftId: Drafts.DraftId) | Removed(draftId: Drafts.DraftId)

  datatype Outcome = Success(output: Output) | DecodeError(message: string) | ExecutionError(error: Drafts.EngineError)

  datatype Execution = Execution(callId: string, outcome: Outcome)

  /** Decoding of tool calls and rendering of outcomes, which are text glue. */
  datatype Glue = Glue(decode: RawToolCall -> Result<Tool, string>, render: Outcome -> string)

  /** The result state, the output and whether the drafts changed. */
  function ExecuteTool(s: State, tool: Tool): Result<(State, Output, bool), Drafts.EngineError> {
    match tool
    case Overview | ClaimDetail(_) | ShowDrafts => Ok((s, Answer(tool, s), false))
    case PreviewOverview | ImpactAnalysis =>
      (match Preview.PreviewEntries(s.drafts.drafts, s.participant)
       case Ok(_) => Ok((s, Answer(tool, s), false))
       case Err(e) => Err(e))
    case PreviewClaimDetail(claim) =>
      (match Preview.ResolveRef(s.drafts.drafts, Preview.PreviewNaming(), claim)
       case Err(e) => Err(e)
       case Ok(_) =>
         match Preview.PreviewEntries(s.drafts.drafts, s.participant)
         case Ok(_) => Ok((s, Answer(tool, s), false))
         case Err(e) => Err(e))
    case AddDraft(content) =>
      (match Drafts.AddDraft(s.drafts, content)
       case Ok((drafts, id)) => Ok((s.(drafts := drafts), Drafted(id), true))
       case Err(e) => Err(e))
    case RemoveDraft(id) =>
      (match Drafts.RemoveDraft(s.drafts, id)
       case Ok(drafts) => Ok((s.(drafts := drafts), Removed(id), true))
       case Err(e) => Err(e))
  }

  datatype Batch = Batch(state: State, outcomes: seq<Execution>, mutated: bool)

  function ExecuteOne(b: Batch, glue: Glue, call: RawToolCall): Batch {
    match glue.decode(call)
    case Err(message) => b.(outcomes := b.outcomes + [Execution(call.id, DecodeError(message))])
    case Ok(tool) =>
      match ExecuteTool(b.state, tool)
      case Err(e) => b.(outcomes := b.outcomes + [Execution(call.id, ExecutionError(e))])
      case Ok((next, output, mutated)) =>
        Batch(next, b.outcomes + [Execution(call.id, Success(output))], b.mutated || mutated)
  }

  function ExecuteAll(s: State, glue: Glue, calls: seq<RawToolCall>): Batch {
    if calls == [] then Batch(s, [], false)
    else ExecuteOne(ExecuteAll(s, glue, calls[..|calls| - 1]), glue, calls[|calls| - 1])
  }

  method ExecuteToolCalls(s: State, glue: Glue, calls: seq<RawToolCall>) returns (b: Batch)
    ensures b == ExecuteAll(s, glue, calls)
  {
    var state, outcomes, mutated := s, [], false;
    for k := 0 to |calls|
      invariant Batch(state, outcomes, mutated) == ExecuteAll(s, glue, calls[..k])
    {
      assert calls[..k + 1][..k] == calls[..k];
      var call := calls[k];
      match glue.decode(call) {
        case Err(message) =>
          outcomes := outcomes + [Execution(call.id, DecodeError(message))];
        case Ok(tool) =>
          match ExecuteTool(state, tool) {
            case Err(e) =>
              outcomes := outcomes + [Execution(call.id, ExecutionError(e))];
            case Ok((next, output, changed)) =>
              state, mutated := next, mutated || changed;
              outcomes := outcomes + [Execution(call.id, Success(output))];
          }
      }
    }
    assert calls[..|calls|] == calls;
    b := Batch(state, outcomes, mutated);
  }

  // ---------------------------------------------------------------------- the reducer

  function FetchEffects(fetches: seq<Fetch>): seq<Effect> {
    seq(|fetches|, i requires 0 <= i < |fetches| => FetchMissing(fetches[i]))
  }

  function Request(s: State): Effect {
    RequestCompletion(s.config.model, Conversation.Truncated(s.history, s.config.maxHistory), s.config.maxTokens)
  }

  function Init(participant: Author, latest: Option<nat>, config: Config): Transition {
    var slots := Apply<Entry>([], SyncToLatest(latest));
    var fetches := if latest.Some? then PlannedFetches(slots, PAGE_LIMIT, 0) else [];
    Transition(State(participant, config, [], slots, Drafts.INIT), FetchEffects(fetches))
  }

  function ReduceConversation(s: State, glue: Glue, event: Conversation.Event): Transition {
    var t := Conversation.ReduceEvent(s.history, event);
    var next := s.(history := t.history);
    var effects := if t.error.Some? then [DecodeFailed(t.error.value)] else [];
    match t.intent
    case NoRequest => Transition(next, effects)
    case RequestCompletion => Transition(next, effects + [Request(next)])
    case ExecuteToolCalls(calls) => ReduceToolCalls(next, glue, calls, effects)
  }

  function ToolResults(b: Batch, glue: Glue): seq<Conversation.ToolResult> {
    seq(|b.outcomes|, i requires 0 <= i < |b.outcomes| =>
      Conversation.ToolResult(b.outcomes[i].callId, glue.render(b.outcomes[i].outcome)))
  }

  /** After changing drafts the app waits for the user; otherwise it asks the model to go on. */
  function ReduceToolCalls(s: State, glue: Glue, calls: seq<RawToolCall>, effects: seq<Effect>): Transition {
    var b := ExecuteAll(s, glue, calls);
    var next := b.state.(history := Conversation.WithToolResults(b.state.history, ToolResults(b, glue)));
    Transition(next, effects + if b.mutated then [] else [Request(next)])
  }

  function ReduceCoordinator(s: State, index: nat, entry: Entry): Transition {
    var slots := Apply(s.slots, Receive(index, entry));
    var fetches := if index < |s.slots| then [] else PlannedFetches(slots, PAGE_LIMIT, 0);
    Transition(s.(slots := slots), FetchEffects(fetches))
  }

  function Reduce(s: State, glue: Glue, event: Event): Transition {
    match event
    case ConversationEvent(e) => ReduceConversation(s, glue, e)
    case DraftsEvent(e) => Transition(s.(drafts := Drafts.Reduce(s.drafts, e)), [])
    case CoordinatorEvent(index, entry) => ReduceCoordinator(s, index, entry)
  }

  function Run(init: State, glue: Glue, events: seq<Event>): State {
    if events == [] then init
    else Reduce(Run(init, glue, events[..|events| - 1]), glue, events[|events| - 1]).state
  }

  // ------------------------------------------------------------- what tools leave alone

  lemma ExecuteToolTouchesDraftsOnly(s: State, tool: Tool)
    ensures ExecuteTool(s, tool).Ok? ==> ExecuteTool(s, tool).value.0 == s.(drafts := ExecuteTool(s, tool).value.0.drafts)
    ensures Drafts.WellFormed(s.drafts) && ExecuteTool(s, tool).Ok? ==> Drafts.WellFormed(ExecuteTool(s, tool).value.0.drafts)
  {
    if Drafts.WellFormed(s.drafts) {
      match tool
      case AddDraft(content) => Drafts.AddKeepsWellFormed(s.drafts, content);
      case RemoveDraft(id) => Drafts.RemoveKeepsWellFormed(s.drafts, id);
      case _ =>
    }
  }

  /** The draft buffer after at least one successful change: more ids handed out, or fewer drafts left. */
  ghost predicate MovedOn(before: Drafts.State, after: Drafts.State) {
    after.nextDraftId > before.nextDraftId || (after.nextDraftId == before.nextDraftId && |after.drafts| < |before.drafts|)
  }

  /** A batch answers every call once, in order, whatever fails, and changes nothing but the drafts. */
  lemma {:induction false} BatchAnswersEveryCall(s: State, glue: Glue, calls: seq<RawToolCall>)
    ensures ExecuteAll(s, glue, calls).state == s.(drafts := ExecuteAll(s, glue, calls).state.drafts)
    ensures |ExecuteAll(s, glue, calls).outcomes| == |calls|
    ensures forall j :: 0 <= j < |calls| ==> ExecuteAll(s, glue, calls).outcomes[j].callId == calls[j].id
    ensures Drafts.WellFormed(s.drafts) ==> Drafts.WellFormed(ExecuteAll(s, glue, calls).state.drafts)
  {
    if calls != [] {
      var n := |calls| - 1;
      BatchAnswersEveryCall(s, glue, calls[..n]);
      OneMoreAnswer(ExecuteAll(s, glue, calls[..n]), glue, calls[n]);
    }
  }

  lemma OneMoreAnswer(b: Batch, glue: Glue, call: RawToolCall)
    ensures ExecuteOne(b, glue, call).state == b.state.(drafts := ExecuteOne(b, glue, call).state.drafts)
    ensures |ExecuteOne(b, glue, call).outcomes| == |b.outcomes| + 1
    ensures ExecuteOne(b, glue, call).outcomes[..|b.outcomes|] == b.outcomes
    ensures ExecuteOne(b, glue, call).outcomes[|b.outcomes|].callId == call.id
    ensures Drafts.WellFormed(b.state.drafts) ==> Drafts.WellFormed(ExecuteOne(b, glue, call).state.drafts)
  {
    if glue.decode(call).Ok? {
      ExecuteToolTouchesDraftsOnly(b.state, glue.decode(call).value);
    }
  }

  /** Each call is carried out in the state the calls before it leave, whatever comes after it. */
  lemma {:induction false} CallsSeeEarlierCalls(s: State, glue: Glue, calls: seq<RawToolCall>, j: nat)
    requires j < |calls|
    ensures |ExecuteAll(s, glue, calls).outcomes| == |calls|
    ensures ExecuteAll(s, glue, calls).outcomes[j] == OutcomeOf(ExecuteAll(s, glue, calls[..j]).state, glue, calls[j])
    decreases |calls|
  {
    var n := |calls| - 1;
    var before, now := ExecuteAll(s, glue, calls[..n]), ExecuteAll(s, glue, calls);
    BatchAnswersEveryCall(s, glue, calls[..n]);
    OneMoreAnswer(before, glue, calls[n]);
    if j < n {
      CallsSeeEarlierCalls(s, glue, calls[..n], j);
      assert calls[..n][..j] == calls[..j];
      assert now.outcomes[..n][j] == before.outcomes[j];
    }
  }

  /** What one call answers in a state, on its own. */
  function OutcomeOf(s: State, glue: Glue, call: RawToolCall): Execution {
    match glue.decode(call)
    case Err(message) => Execution(call.id, DecodeError(message))
    case Ok(tool) =>
      match ExecuteTool(s, tool)
      case Err(e) => Execution(call.id, ExecutionError(e))
      case Ok((_, output, _)) => Execution(call.id, Success(output))
  }

  /** The mutation flag is set exactly when the drafts have changed. */
  lemma {:induction false} MutationFlagIsAccurate(s: State, glue: Glue, calls: seq<RawToolCall>)
    ensures !ExecuteAll(s, glue, calls).mutated ==> ExecuteAll(s, glue, calls).state == s
    ensures ExecuteAll(s, glue, calls).mutated ==> MovedOn(s.drafts, ExecuteAll(s, glue, calls).state.drafts)
  {
    if calls != [] {
      MutationFlagIsAccurate(s, glue, calls[..|calls| - 1]);
    }
  }

  /** After a batch of tool calls the model is asked to go on exactly when the drafts are unchanged. */
  lemma AsksAgainIffDraftsUnchanged(s: State, glue: Glue, calls: seq<RawToolCall>, effects: seq<Effect>)
    ensures
      var t := ReduceToolCalls(s, glue, calls, effects);
      t.effects == effects + if t.state.drafts == s.drafts then [Request(t.state)] else []
  {
    MutationFlagIsAccurate(s, glue, calls);
  }

  /** What one tool does: what `t`, the state after it, and `outcome` are, in terms of the drafts it finds. */
  ghost predicate CarriedOut(s: State, tool: Tool, t: State, outcome: Outcome) {
    var before, after := s.drafts, t.drafts;
    match tool
    case AddDraft(content) =>
      if forall r :: r in content.References() ==> Drafts.Acceptable(before.drafts, r) then
        && t == s.(drafts := before.(drafts := before.drafts + [Drafts.DraftEntry(before.nextDraftId, content)],
                                     nextDraftId := before.nextDraftId + 1))
        && outcome == Success(Drafted(before.nextDraftId))
      else
        && t == s && outcome.ExecutionError?
        && Drafts.Truthful(before.drafts, outcome.error) && Drafts.Blames(before.drafts, content.References(), outcome.error)
    case RemoveDraft(id) =>
      if (exists d :: d in before.drafts && d.id == id) && (forall d :: d in before.drafts ==> !d.content.RefersTo(id)) then
        && t == s.(drafts := before.(drafts := after.drafts)) && Drafts.Ascending(after.drafts)
        && (forall d :: d in after.drafts <==> d in before.drafts && d.id != id)
        && outcome == Success(Removed(id))
      else
        && t == s && outcome.ExecutionError?
        && Drafts.Truthful(before.drafts, outcome.error) && outcome.error.id == id
    case PreviewClaimDetail(claim) =>
      && t == s
      && if Drafts.Acceptable(before.drafts, claim) then outcome == Success(Answer(tool, s))
         else outcome.ExecutionError? && Drafts.Truthful(before.drafts, outcome.error) && outcome.error.id == claim.draftId
    case _ => t == s && outcome == Success(Answer(tool, s))
  }

  /** One call is answered under its id: with the decoding error, or with what its tool does. */
  lemma CallIsCarriedOut(b: Batch, glue: Glue, call: RawToolCall)
    requires Drafts.WellFormed(b.state.drafts)
    ensures
      var r := ExecuteOne(b, glue, call);
      && |r.outcomes| == |b.outcomes| + 1 && r.outcomes[..|b.outcomes|] == b.outcomes
      && Happened(b.state, glue, call, r.state, r.outcomes[|b.outcomes|])
  {
    var drafts := b.state.drafts;
    if glue.decode(call).Ok? {
      match glue.decode(call).value
      case AddDraft(content) => Drafts.AddOutcome(drafts, content);
      case RemoveDraft(id) => Drafts.RemoveOutcome(drafts, id);
      case PreviewClaimDetail(claim) =>
        Preview.PreviewNeverFails(drafts.drafts, b.state.participant);
        Drafts.RefAccepted(drafts.drafts, claim);
        RefusedClaim(drafts.drafts, claim);
      case _ => Preview.PreviewNeverFails(drafts.drafts, b.state.participant);
    }
  }

  lemma RefusedClaim(drafts: seq<Drafts.DraftEntry>, claim: Drafts.ClaimRef)
    requires Drafts.Ascending(drafts)
    ensures Drafts.ValidateRef(drafts, claim).Some? ==>
      && claim.Local? && Drafts.ValidateRef(drafts, claim).value.id == claim.draftId
      && Drafts.Truthful(drafts, Drafts.ValidateRef(drafts, claim).value)
  {
    if claim.Local? {
      var p := Drafts.IndexOf(drafts, claim.draftId);
      if p < |drafts| {
        assert drafts[p] in drafts;
      }
    }
  }

  /** The state in which the `j`-th call of a batch is carried out. */
  function StateBefore(s: State, glue: Glue, calls: seq<RawToolCall>, j: nat): State
    requires j <= |calls|
  {
    ExecuteAll(s, glue, calls[..j]).state
  }

  lemma StatesOfBatch(s: State, glue: Glue, calls: seq<RawToolCall>)
    ensures StateBefore(s, glue, calls, 0) == s && StateBefore(s, glue, calls, |calls|) == ExecuteAll(s, glue, calls).state
  {
    assert calls[..|calls|] == calls && calls[..0] == [];
  }

  /** What happened to the call, from the state before it to the state after it. */
  ghost predicate Happened(before: State, glue: Glue, call: RawToolCall, after: State, x: Execution) {
    && x.callId == call.id
    && match glue.decode(call)
       case Err(message) => after == before && x.outcome == DecodeError(message)
       case Ok(tool) => CarriedOut(before, tool, after, x.outcome)
  }

  /** The calls of a batch are carried out one after the other, each from the state the last one left. */
  lemma {:induction false} BatchIsCarriedOut(s: State, glue: Glue, calls: seq<RawToolCall>, j: nat)
    requires Drafts.WellFormed(s.drafts) && j < |calls|
    ensures StateBefore(s, glue, calls, 0) == s && StateBefore(s, glue, calls, |calls|) == ExecuteAll(s, glue, calls).state
    ensures |ExecuteAll(s, glue, calls).outcomes| == |calls|
    ensures Happened(StateBefore(s, glue, calls, j), glue, calls[j], StateBefore(s, glue, calls, j + 1),
                     ExecuteAll(s, glue, calls).outcomes[j])
    decreases |calls|
  {
    var n := |calls| - 1;
    var prev := calls[..n];
    StatesOfBatch(s, glue, calls);
    BatchAnswersEveryCall(s, glue, prev);
    CallIsCarriedOut(ExecuteAll(s, glue, prev), glue, calls[n]);
    if j < n {
      BatchIsCarriedOut(s, glue, prev, j);
      assert prev[..j] == calls[..j] && prev[..j + 1] == calls[..j + 1];
      assert ExecuteAll(s, glue, calls).outcomes[..n][j] == ExecuteAll(s, glue, prev).outcomes[j];
    }
  }

  // --------------------------------------------------------------- what each event does

  /** A replica starts with no chat and no drafts, its slots holes up to the latest entry, and asks for those. */
  lemma StartIsEmpty(participant: Author, latest: Option<nat>, config: Config)
    ensures
      var t := Init(participant, latest, config);
      && t.state == State(participant, config, [], t.state.slots, Drafts.State([], 0, None))
      && |t.state.slots| == (if latest.Some? then latest.value + 1 else 0)
      && (forall i :: 0 <= i < |t.state.slots| ==> t.state.slots[i].Requested?)
      && exists fetches :: Plan(fetches, t.state.slots, PAGE_LIMIT) && t.effects == FetchEffects(fetches)
  {
    var t := Init(participant, latest, config);
    PlannedFetchesIsPlan(t.state.slots, PAGE_LIMIT, 0);
    assert t.effects == FetchEffects(PlannedFetches(t.state.slots, PAGE_LIMIT, 0));
  }

  /** `e` asks the configured model to go on from the end of the history. */
  ghost predicate AsksToGoOn(e: Effect, s: State) {
    && e.RequestCompletion? && e.model == s.config.model && e.maxTokens == s.config.maxTokens
    && 0 < |e.messages| <= |s.history| && e.messages == s.history[|s.history| - |e.messages|..]
  }

  lemma RequestAsksToGoOn(s: State)
    requires s.history != []
    ensures AsksToGoOn(Request(s), s)
    ensures Request(s).messages[|Request(s).messages| - 1] == s.history[|s.history| - 1]
  {
    var c := Conversation.TruncatedIsSuffix(s.history, s.config.maxHistory);
  }

  /** A prompt is appended to the history, nothing else changes, and the model is asked once, ending with the prompt. */
  lemma PromptIsAsked(s: State, glue: Glue, content: string)
    ensures
      var t := Reduce(s, glue, ConversationEvent(Conversation.UserPrompt(content)));
      && t.state == s.(history := s.history + [Conversation.User(content)])
      && |t.effects| == 1 && AsksToGoOn(t.effects[0], t.state)
      && t.effects[0].messages[|t.effects[0].messages| - 1] == Conversation.User(content)
  {
    RequestAsksToGoOn(s.(history := s.history + [Conversation.User(content)]));
  }

  /** A stream that does not assemble changes nothing and is reported. */
  lemma BrokenStreamIsReported(s: State, glue: Glue, chunks: seq<Chunk>)
    requires Assembled(chunks).Err?
    ensures Reduce(s, glue, ConversationEvent(Conversation.Completion(chunks)))
         == Transition(s, [DecodeFailed(Assembled(chunks).error)])
  {
  }

  /** `answers` are the rendered outcomes of `calls`, one tool message each, in order. */
  ghost predicate Renders(answers: seq<Conversation.Message>, calls: seq<RawToolCall>, outcomes: seq<Execution>, glue: Glue) {
    && |answers| == |calls| == |outcomes|
    && forall j :: 0 <= j < |calls| ==> answers[j] == Conversation.Tool(calls[j].id, glue.render(outcomes[j].outcome))
  }

  /**
   A completion adds the assistant message with its content and calls, then the rendered outcome of each
   call.  Beyond that only the drafts change.  The model is asked again iff there were calls and the drafts
   are as before; nothing else is emitted.
   */
  lemma CompletionIsRecorded(s: State, glue: Glue, chunks: seq<Chunk>)
    requires Assembled(chunks).Ok?
    ensures
      var m := Assembled(chunks).value;
      var said := s.(history := s.history + [Conversation.Assistant(m.content, m.toolCalls)]);
      var b := ExecuteAll(said, glue, m.toolCalls);
      var t := Reduce(s, glue, ConversationEvent(Conversation.Completion(chunks)));
      && t.state == said.(drafts := b.state.drafts, history := t.state.history)
      && |t.state.history| == |said.history| + |m.toolCalls| && t.state.history[..|said.history|] == said.history
      && Renders(t.state.history[|said.history|..], m.toolCalls, b.outcomes, glue)
      && if m.toolCalls != [] && t.state.drafts == s.drafts then |t.effects| == 1 && AsksToGoOn(t.effects[0], t.state)
         else t.effects == []
  {
    var m := Assembled(chunks).value;
    var said := s.(history := s.history + [Conversation.Assistant(m.content, m.toolCalls)]);
    var t := Reduce(s, glue, ConversationEvent(Conversation.Completion(chunks)));
    BatchAnswersEveryCall(said, glue, m.toolCalls);
    MutationFlagIsAccurate(said, glue, m.toolCalls);
    if m.toolCalls != [] {
      ToolCallsAreRecorded(said, glue, m.toolCalls);
    }
  }

  lemma ToolCallsAreRecorded(s: State, glue: Glue, calls: seq<RawToolCall>)
    requires s.history != []
    ensures
      var b := ExecuteAll(s, glue, calls);
      var t := ReduceToolCalls(s, glue, calls, []);
      && t.state == s.(drafts := b.state.drafts, history := t.state.history)
      && |t.state.history| == |s.history| + |calls| && t.state.history[..|s.history|] == s.history
      && Renders(t.state.history[|s.history|..], calls, b.outcomes, glue)
      && if t.state.drafts == s.drafts then |t.effects| == 1 && AsksToGoOn(t.effects[0], t.state) else t.effects == []
  {
    BatchAnswersEveryCall(s, glue, calls);
    AsksAgainIffDraftsUnchanged(s, glue, calls, []);
    RequestAsksToGoOn(ReduceToolCalls(s, glue, calls, []).state);
  }

  /** An entry from the log touches the slots only: its own is filled unless it was, new ones below it are holes. */
  lemma LogEntryFillsItsSlot(s: State, glue: Glue, index: nat, entry: Entry)
    ensures
      var t := Reduce(s, glue, CoordinatorEvent(index, entry));
      && t.state == s.(slots := t.state.slots)
      && |t.state.slots| == (if index < |s.slots| then |s.slots| else index + 1)
      && t.state.slots[index] == (if index < |s.slots| && s.slots[index].Received? then s.slots[index] else Received(entry))
      && (forall i :: 0 <= i < |t.state.slots| && i != index ==>
            t.state.slots[i] == if i < |s.slots| then s.slots[i] else Requested)
      && if index < |s.slots| then t.effects == []
         else exists fetches :: Plan(fetches, t.state.slots, PAGE_LIMIT) && t.effects == FetchEffects(fetches)
  {
    var slots := Reduce(s, glue, CoordinatorEvent(index, entry)).state.slots;
    PlannedFetchesIsPlan(slots, PAGE_LIMIT, 0);
  }

  /** A user's draft event changes the drafts as the draft list says and emits nothing. */
  lemma DraftEventTouchesDrafts(s: State, glue: Glue, event: Drafts.Event)
    ensures Reduce(s, glue, DraftsEvent(event)) == Transition(s.(drafts := Drafts.Reduce(s.drafts, event)), [])
  {
  }

  // ----------------------------------------------------------- invariants of every run

  ghost predicate Invariant(s: State) {
    Conversation.WellFormed(s.history) && Drafts.WellFormed(s.drafts)
  }

  lemma StepKeepsInvariant(s: State, glue: Glue, event: Event)
    requires Invariant(s)
    ensures Invariant(Reduce(s, glue, event).state)
    ensures forall e :: e in Reduce(s, glue, event).effects && e.RequestCompletion? ==> Conversation.WellFormed(e.messages)
    ensures forall e :: e in Reduce(s, glue, event).effects && e.RequestCompletion? ==>
      e == Request(Reduce(s, glue, event).state)
  {
    var t := Reduce(s, glue, event);
    match event
    case DraftsEvent(e) => Drafts.PerformKeepsWellFormed(s.drafts, Drafts.UserEvent(e));
    case CoordinatorEvent(_, _) =>
    case ConversationEvent(e) => ConversationKeepsInvariant(s, glue, e);
    Conversation.TruncationKeepsSafeSuffix(t.state.history, t.state.config.maxHistory);
  }

  lemma ConversationKeepsInvariant(s: State, glue: Glue, event: Conversation.Event)
    requires Invariant(s)
    ensures Invariant(ReduceConversation(s, glue, event).state)
  {
    match event
    case UserPrompt(content) =>
      var m := Conversation.User(content);
      assert [m][1..] == [];
      Conversation.WellFormedAppend(s.history, [m]);
    case Completion(chunks) =>
      if Assembled(chunks).Ok? {
        var m := Assembled(chunks).value;
        AnsweredCallsKeepInvariant(s, glue, m.content, m.toolCalls);
      }
  }

  lemma AnsweredCallsKeepInvariant(s: State, glue: Glue, reply: Option<string>, calls: seq<RawToolCall>)
    requires Invariant(s)
    ensures
      var next := s.(history := s.history + [Conversation.Assistant(reply, calls)]);
      && (calls == [] ==> Invariant(next))
      && forall effects :: Invariant(ReduceToolCalls(next, glue, calls, effects).state)
  {
    var next := s.(history := s.history + [Conversation.Assistant(reply, calls)]);
    BatchAnswersEveryCall(next, glue, calls);
    var b := ExecuteAll(next, glue, calls);
    Conversation.AnsweredGroup(s.history, reply, calls, ToolResults(b, glue));
    if calls == [] {
      assert Conversation.WithToolResults(next.history, ToolResults(b, glue)) == next.history;
    }
  }

  lemma {:induction false} RunKeepsInvariant(participant: Author, latest: Option<nat>, config: Config, glue: Glue, events: seq<Event>)
    ensures Invariant(Run(Init(participant, latest, config).state, glue, events))
  {
    if events != [] {
      var n := |events| - 1;
      RunKeepsInvariant(participant, latest, config, glue, events[..n]);
      StepKeepsInvariant(Run(Init(participant, latest, config).state, glue, events[..n]), glue, events[n]);
    }
  }

  /** In every run, previews, impact analysis and submission never fail, and every request is well formed. */
  lemma ReachableStatesAreSound(participant: Author, latest: Option<nat>, config: Config, glue: Glue,
                                events: seq<Event>, event: Event, next: nat -> ClaimId)
    ensures
      var s := Run(Init(participant, latest, config).state, glue, events);
      && Preview.PreviewEntries(s.drafts.drafts, s.participant).Ok?
      && Preview.SubmissionBundle(s.drafts.drafts, s.participant, next).Ok?
      && (forall e :: e in Reduce(s, glue, event).effects && e.RequestCompletion? ==> Conversation.WellFormed(e.messages))
  {
    var s := Run(Init(participant, latest, config).state, glue, events);
    RunKeepsInvariant(participant, latest, config, glue, events);
    StepKeepsInvariant(s, glue, event);
    Preview.PreviewNeverFails(s.drafts.drafts, s.participant);
    Preview.SubmissionNeverFails(s.drafts.drafts, s.participant, next);
  }

  // --------------------------------------------------------------- replica convergence

  /** What the coordinator sees of a run. */
  function LogEvents(latest: Option<nat>, events: seq<Event>): seq<LogEvent<Entry>> {
    if events == [] then [SyncToLatest(latest)]
    else
      var rest, e := LogEvents(latest, events[..|events| - 1]), events[|events| - 1];
      if e.CoordinatorEvent? then rest + [Receive(e.index, e.entry)] else rest
  }

  /** Chat and draft events never touch the slots. */
  lemma {:induction false} SlotsFollowLogEvents(participant: Author, latest: Option<nat>, config: Config, glue: Glue, events: seq<Event>)
    ensures Run(Init(participant, latest, config).state, glue, events).slots == Coordinator.Run([], LogEvents(latest, events))
  {
    var init := Init(participant, latest, config).state;
    if events == [] {
      var sync: seq<LogEvent<Entry>> := [SyncToLatest(latest)];
      assert sync[..0] == [];
      assert Coordinator.Run([], sync) == Apply([], sync[0]);
    } else {
      var n := |events| - 1;
      SlotsFollowLogEvents(participant, latest, config, glue, events[..n]);
      var s, e := Run(init, glue, events[..n]), events[n];
      if e.CoordinatorEvent? {
        var rest := LogEvents(latest, events[..n]);
        var all := rest + [Receive(e.index, e.entry)];
        assert all[..|all| - 1] == rest;
      } else if e.ConversationEvent? {
        var t := Conversation.ReduceEvent(s.history, e.conversation);
        if t.intent.ExecuteToolCalls? {
          BatchAnswersEveryCall(s.(history := t.history), glue, t.intent.calls);
        }
      }
    }
  }

  /** Every entry received in the run is the one the log holds at its index. */
  ghost predicate DeliversFrom(events: seq<Event>, log: seq<Entry>) {
    forall e :: e in events && e.CoordinatorEvent? ==> e.index < |log| && e.entry == log[e.index]
  }

  ghost predicate HasReceived(events: seq<Event>, i: int) {
    exists e :: e in events && e.CoordinatorEvent? && e.index == i
  }

  lemma {:induction false} LogEventsConsistent(latest: Option<nat>, events: seq<Event>, log: seq<Entry>)
    requires DeliversFrom(events, log)
    ensures ConsistentWith(LogEvents(latest, events), log)
  {
    if events != [] {
      var n := |events| - 1;
      assert events == events[..n] + [events[n]];
      LogEventsConsistent(latest, events[..n], log);
    }
  }

  /** The session is known to reach index `i`: from the start, or by an entry received. */
  ghost predicate Known(latest: Option<nat>, events: seq<Event>, i: int) {
    || (latest.Some? && i <= latest.value)
    || exists e :: e in events && e.CoordinatorEvent? && i <= e.index
  }

  lemma {:induction false} LogEventsReach(latest: Option<nat>, events: seq<Event>, i: int)
    requires Known(latest, events, i)
    ensures Heard(LogEvents(latest, events), i)
  {
    if events == [] {
      assert Reaches(LogEvents(latest, events)[0], i);
    } else {
      var n := |events| - 1;
      var rest := LogEvents(latest, events[..n]);
      assert events == events[..n] + [events[n]];
      if Known(latest, events[..n], i) {
        LogEventsReach(latest, events[..n], i);
        var k :| 0 <= k < |rest| && Reaches(rest[k], i);
        assert Reaches(LogEvents(latest, events)[k], i);
      } else {
        assert Reaches(LogEvents(latest, events)[|rest|], i);
      }
    }
  }

  lemma {:induction false} LogEventsRead(latest: Option<nat>, events: seq<Event>)
    ensures forall i :: Delivered(LogEvents(latest, events), i) <==> HasReceived(events, i)
  {
    if events != [] {
      var n := |events| - 1;
      var e, rest := events[n], LogEvents(latest, events[..n]);
      LogEventsRead(latest, events[..n]);
      assert events == events[..n] + [e];
      assert forall x :: x in events <==> x in events[..n] || x == e;
      if e.CoordinatorEvent? {
        var r := Receive(e.index, e.entry);
        forall i ensures Delivered(rest + [r], i) <==> Delivered(rest, i) || i == e.index {
          assert DeliveryOf((rest + [r])[|rest|], e.index);
          if Delivered(rest, i) {
            var k :| 0 <= k < |rest| && DeliveryOf(rest[k], i);
            assert DeliveryOf((rest + [r])[k], i);
          }
        }
      }
    }
  }

  ghost function Committed(s: State): seq<Entry> {
    CommittedPrefix(s.slots)
  }

  /** `k` is the first index not received. */
  ghost predicate FirstMissing(events: seq<Event>, k: nat) {
    !HasReceived(events, k) && forall i :: 0 <= i < k ==> HasReceived(events, i)
  }

  /** A replica commits exactly the log up to the first entry it has not received. */
  lemma ReplicaCommitsPrefix(participant: Author, latest: Option<nat>, config: Config, glue: Glue, events: seq<Event>,
                             log: seq<Entry>, k: nat)
    requires DeliversFrom(events, log) && FirstMissing(events, k)
    ensures k <= |log| && Committed(Run(Init(participant, latest, config).state, glue, events)) == log[..k]
  {
    SlotsFollowLogEvents(participant, latest, config, glue, events);
    LogEventsConsistent(latest, events, log);
    LogEventsRead(latest, events);
    CommittedPrefixOfLog(LogEvents(latest, events), log);
    NextExpectedIsFirstUndelivered(LogEvents(latest, events));
    var n := NextExpected(Run(Init(participant, latest, config).state, glue, events).slots);
    assert !HasReceived(events, n);
    assert n == k;
  }

  /**
   Replica convergence: two replicas of one log, each with its own participant, chat and drafts, entries
   arriving in any order and any number of times, agree on claims, stances and statuses as soon as they
   miss the same first entry.
   */
  lemma ReplicasConverge(p: Author, pLatest: Option<nat>, pConfig: Config, pGlue: Glue, pEvents: seq<Event>,
                         q: Author, qLatest: Option<nat>, qConfig: Config, qGlue: Glue, qEvents: seq<Event>,
                         log: seq<Entry>, k: nat)
    requires DeliversFrom(pEvents, log) && DeliversFrom(qEvents, log)
    requires FirstMissing(pEvents, k) && FirstMissing(qEvents, k)
    ensures
      var s, t := Run(Init(p, pLatest, pConfig).state, pGlue, pEvents), Run(Init(q, qLatest, qConfig).state, qGlue, qEvents);
      && Committed(s) == Committed(t)
      && Replay(Committed(s)) == Replay(Committed(t))
      && StatusMap(Replay(Committed(s))) == StatusMap(Replay(Committed(t)))
  {
    ReplicaCommitsPrefix(p, pLatest, pConfig, pGlue, pEvents, log, k);
    ReplicaCommitsPrefix(q, qLatest, qConfig, qGlue, qEvents, log, k);
  }

  /** The overview as a replica computes it; `order` is its own walk of its hash map, and does not matter. */
  method ViewStatuses(s: State, order: seq<ClaimId>) returns (statuses: map<ClaimId, EpistemicStatus>)
    requires Enumerates(order, Replay(Committed(s)).claims.Keys)
    ensures statuses == StatusMap(Replay(Committed(s)))
  {
    var _, result := MaterializeEntries(CommittedPrefix(s.slots), order);
    statuses := result;
  }

  // ----------------------------------------------------------------------- gap fetching

  /** Everything a run has emitted, from the start on. */
  function Emitted(participant: Author, latest: Option<nat>, config: Config, glue: Glue, events: seq<Event>): seq<Effect> {
    var init := Init(participant, latest, config);
    if events == [] then init.effects
    else
      var prev := events[..|events| - 1];
      Emitted(participant, latest, config, glue, prev) + Reduce(Run(init.state, glue, prev), glue, events[|events| - 1]).effects
  }

  ghost predicate AskedFor(effects: seq<Effect>, i: int) {
    exists e :: e in effects && e.FetchMissing? && Covers(e.fetch, i)
  }

  lemma FetchesAskFor(fetches: seq<Fetch>, i: int)
    requires Covered(fetches, i)
    ensures AskedFor(FetchEffects(fetches), i)
  {
    var k :| 0 <= k < |fetches| && Covers(fetches[k], i);
    assert FetchEffects(fetches)[k] in FetchEffects(fetches);
  }

  /** A log event leaves a hole only if it was there before or is asked for now; other events leave the slots alone. */
  lemma StepAsksForHoles(s: State, glue: Glue, event: Event, i: nat)
    requires i < |Reduce(s, glue, event).state.slots| && Reduce(s, glue, event).state.slots[i].Requested?
    ensures (i < |s.slots| && s.slots[i].Requested?) || AskedFor(Reduce(s, glue, event).effects, i)
  {
    match event
    case DraftsEvent(_) =>
    case ConversationEvent(e) =>
      var t := Conversation.ReduceEvent(s.history, e);
      if t.intent.ExecuteToolCalls? {
        BatchAnswersEveryCall(s.(history := t.history), glue, t.intent.calls);
      }
    case CoordinatorEvent(index, entry) =>
      var slots := Apply(s.slots, Receive(index, entry));
      if index >= |s.slots| {
        PlannedFetchesIsPlan(slots, PAGE_LIMIT, 0);
        FetchesAskFor(PlannedFetches(slots, PAGE_LIMIT, 0), i);
      }
  }

  /** In every run of the app each hole has been asked for by some fetch emitted so far. */
  lemma {:induction false} HolesAreAskedFor(participant: Author, latest: Option<nat>, config: Config, glue: Glue,
                                            events: seq<Event>, i: nat)
    requires
      var slots := Run(Init(participant, latest, config).state, glue, events).slots;
      i < |slots| && slots[i].Requested?
    ensures AskedFor(Emitted(participant, latest, config, glue, events), i)
  {
    var init := Init(participant, latest, config);
    if events == [] {
      PlannedFetchesIsPlan(init.state.slots, PAGE_LIMIT, 0);
      FetchesAskFor(PlannedFetches(init.state.slots, PAGE_LIMIT, 0), i);
    } else {
      var n := |events| - 1;
      var s := Run(init.state, glue, events[..n]);
      StepAsksForHoles(s, glue, events[n], i);
      var before, now := Emitted(participant, latest, config, glue, events[..n]), Reduce(s, glue, events[n]).effects;
      if i < |s.slots| && s.slots[i].Requested? {
        HolesAreAskedFor(participant, latest, config, glue, events[..n], i);
      }
      assert AskedFor(before, i) || AskedFor(now, i) ==> AskedFor(before + now, i);
    }
  }

  /** Whatever the session is known to hold has been received or asked for, in every run of the app. */
  lemma KnownIsReceivedOrAskedFor(participant: Author, latest: Option<nat>, config: Config, glue: Glue,
                                  events: seq<Event>, i: nat)
    requires Known(latest, events, i)
    ensures HasReceived(events, i) || AskedFor(Emitted(participant, latest, config, glue, events), i)
  {
    LogEventsReach(latest, events, i);
    LogEventsRead(latest, events);
    SlotCountAfterRun(LogEvents(latest, events), i);
    SlotsAfterRun(LogEvents(latest, events));
    SlotsFollowLogEvents(participant, latest, config, glue, events);
    var slots := Run(Init(participant, latest, config).state, glue, events).slots;
    if slots[i].Requested? {
      HolesAreAskedFor(participant, latest, config, glue, events, i);
    }
  }
}
