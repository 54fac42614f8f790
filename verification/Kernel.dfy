/** The gateway scheduler: idle workers, active streams and their deadlines, driven by events and ticks. */
module Kernel {
  import opened Types

  type WorkerId = nat

  type StreamId = nat

  datatype Capability = Chat | Transcription

  datatype WorkerEntry = WorkerEntry(deadline: nat, capabilities: set<Capability>)

  datatype State = State(
    tick: nat,
    workerTtl: nat,
    streamTtl: nat,
    available: map<WorkerId, WorkerEntry>,
    activeStreams: map<StreamId, nat>)

  /** `Tick` carries the order in which the hash map of active streams happens to be walked. */
  datatype Event =
    | HttpChatRequested(stream: StreamId, payload: string, streaming: bool, required: Capability)
    | WorkerRegistered(worker: WorkerId, capabilities: set<Capability>)
    | AssignmentCleared(stream: StreamId)
    | AssignmentFailed(stream: StreamId, message: string)
    | WorkerHeartbeat(worker: WorkerId)
    | StreamHeartbeat(stream: StreamId)
    | Tick(walk: seq<StreamId>)

  datatype Source = Worker(worker: WorkerId) | Stream(stream: StreamId)

  datatype Effect =
    | DispatchJob(worker: WorkerId, stream: StreamId, capability: Capability, payload: string)
    | SendClientError(stream: StreamId, message: string)
    | SendClientDone(stream: StreamId)
    | ProtocolViolation(source: Source, message: string)

  datatype Transition = Transition(state: State, effects: seq<Effect>)

  function New(workerTtl: nat, streamTtl: nat): State {
    State(0, workerTtl, streamTtl, map[], map[])
  }

  const TIMED_OUT := "stream timed out"

  lemma {:induction false} Least(s: set<WorkerId>) returns (m: WorkerId)
    requires s != {}
    ensures m in s && forall x :: x in s ==> m <= x
  {
    m :| m in s;
    var rest := s - {m};
    assert s == rest + {m};
    if rest != {} {
      var l := Least(rest);
      if l < m {
        m := l;
      }
    }
  }

  lemma LeastExists(s: set<WorkerId>)
    requires s != {}
    ensures exists w :: w in s && forall x :: x in s ==> w <= x
  {
    var m := Least(s);
  }

  function Capable(s: State, required: Capability): set<WorkerId> {
    set w | w in s.available && required in s.available[w].capabilities
  }

  /** The first capable worker in id order. */
  function FirstCapableWorker(s: State, required: Capability): (r: Option<WorkerId>)
    ensures r.None? <==> Capable(s, required) == {}
    ensures r.Some? ==> r.value in Capable(s, required) && forall w :: w in Capable(s, required) ==> r.value <= w
  {
    var capable := Capable(s, required);
    if capable == {} then None
    else
      LeastExists(capable);
      var w :| w in capable && forall x :: x in capable ==> w <= x;
      Some(w)
  }

  function Refuse(stream: StreamId, message: string): seq<Effect> {
    [SendClientError(stream, message), SendClientDone(stream)]
  }

  /** The streams of `walk` that are active and due at `tick`. */
  function Due(active: map<StreamId, nat>, walk: seq<StreamId>, tick: nat): seq<StreamId> {
    if walk == [] then []
    else
      var rest := Due(active, walk[..|walk| - 1], tick);
      var s := walk[|walk| - 1];
      if s in active && active[s] <= tick then rest + [s] else rest
  }

  function Timeouts(expired: seq<StreamId>): seq<Effect> {
    if expired == [] then []
    else Timeouts(expired[..|expired| - 1]) + Refuse(expired[|expired| - 1], TIMED_OUT)
  }

  function Reduce(s: State, event: Event): Transition {
    match event
    case HttpChatRequested(stream, payload, streaming, required) =>
      if !streaming then Transition(s, Refuse(stream, "stream=true is required in this phase"))
      else if stream in s.activeStreams then Transition(s, Refuse(stream, "stream already has an active assignment"))
      else
        (match FirstCapableWorker(s, required)
         case Some(worker) =>
           Transition(
             s.(available := s.available - {worker}, activeStreams := s.activeStreams[stream := s.tick + s.streamTtl]),
             [DispatchJob(worker, stream, required, payload)])
         case None => Transition(s, Refuse(stream, "no idle worker available")))
    case WorkerRegistered(worker, capabilities) =>
      if worker in s.available then Transition(s, [ProtocolViolation(Worker(worker), "duplicate worker registration")])
      else
        Transition(s.(available := s.available[worker := WorkerEntry(s.tick + s.workerTtl, capabilities)]), [])
    case AssignmentCleared(stream) =>
      if stream !in s.activeStreams then
        Transition(s, [ProtocolViolation(Stream(stream), "assignment cleared for unknown stream")])
      else Transition(s.(activeStreams := s.activeStreams - {stream}), [SendClientDone(stream)])
    case AssignmentFailed(stream, message) =>
      if stream !in s.activeStreams then
        Transition(s, [ProtocolViolation(Stream(stream), "assignment failed for unknown stream")])
      else Transition(s.(activeStreams := s.activeStreams - {stream}), Refuse(stream, message))
    case WorkerHeartbeat(worker) =>
      if worker !in s.available then
        Transition(s, [ProtocolViolation(Worker(worker), "heartbeat from unknown worker")])
      else
        Transition(s.(available := s.available[worker := s.available[worker].(deadline := s.tick + s.workerTtl)]), [])
    case StreamHeartbeat(stream) =>
      if stream !in s.activeStreams then
        Transition(s, [ProtocolViolation(Stream(stream), "heartbeat for unknown stream")])
      else Transition(s.(activeStreams := s.activeStreams[stream := s.tick + s.streamTtl]), [])
    case Tick(walk) =>
      var tick := s.tick + 1;
      var expired := Due(s.activeStreams, walk, tick);
      Transition(
        s.(tick := tick,
           available := map w | w in s.available && s.available[w].deadline > tick :: s.available[w],
           activeStreams := s.activeStreams - (set x | x in expired)),
        Timeouts(expired))
  }

  // ------------------------------------------------------------------------------- runs

  ghost predicate Walks(walk: seq<StreamId>, active: map<StreamId, nat>) {
    && (forall s: StreamId :: s in walk <==> s in active)
    && forall i, j :: 0 <= i < j < |walk| ==> walk[i] != walk[j]
  }

  ghost predicate Possible(s: State, event: Event) {
    event.Tick? ==> Walks(event.walk, s.activeStreams)
  }

  function After(s: State, events: seq<Event>): State {
    if events == [] then s else Reduce(After(s, events[..|events| - 1]), events[|events| - 1]).state
  }

  function Emitted(s: State, events: seq<Event>): seq<Effect> {
    if events == [] then []
    else
      var prev := events[..|events| - 1];
      Emitted(s, prev) + Reduce(After(s, prev), events[|events| - 1]).effects
  }

  ghost predicate PossibleRun(s: State, events: seq<Event>) {
    forall k :: 0 <= k < |events| ==> Possible(After(s, events[..k]), events[k])
  }

  lemma PrefixPossible(s: State, events: seq<Event>)
    requires PossibleRun(s, events) && events != []
    ensures PossibleRun(s, events[..|events| - 1])
    ensures Possible(After(s, events[..|events| - 1]), events[|events| - 1])
  {
    var prev := events[..|events| - 1];
    forall k | 0 <= k < |prev| ensures Possible(After(s, prev[..k]), prev[k]) {
      assert prev[..k] == events[..k];
    }
  }

  // --------------------------------------------------------------- request conservation

  function Requests(events: seq<Event>, stream: StreamId): nat {
    if events == [] then 0
    else
      var last := events[|events| - 1];
      Requests(events[..|events| - 1], stream) + if last.HttpChatRequested? && last.stream == stream then 1 else 0
  }

  function Dones(effects: seq<Effect>, stream: StreamId): nat {
    if effects == [] then 0
    else Dones(effects[..|effects| - 1], stream) + if effects[|effects| - 1] == SendClientDone(stream) then 1 else 0
  }

  lemma {:induction false} DonesAppend(a: seq<Effect>, b: seq<Effect>, stream: StreamId)
    ensures Dones(a + b, stream) == Dones(a, stream) + Dones(b, stream)
    decreases b
  {
    if b == [] {
      assert a + b == a;
    } else {
      assert (a + b)[..|a + b| - 1] == a + b[..|b| - 1];
      DonesAppend(a, b[..|b| - 1], stream);
    }
  }

  lemma DonesRefuse(stream: StreamId, message: string, other: StreamId)
    ensures Dones(Refuse(stream, message), other) == if stream == other then 1 else 0
  {
    var r := Refuse(stream, message);
    assert r[..1] == [r[0]] && [r[0]][..0] == [];
    assert Dones([r[0]], other) == 0;
  }

  lemma {:induction false} DueMeaning(active: map<StreamId, nat>, walk: seq<StreamId>, tick: nat)
    requires forall i, j :: 0 <= i < j < |walk| ==> walk[i] != walk[j]
    ensures forall x: StreamId :: x in Due(active, walk, tick) <==> x in walk && x in active && active[x] <= tick
    ensures forall i, j :: 0 <= i < j < |Due(active, walk, tick)| ==> Due(active, walk, tick)[i] != Due(active, walk, tick)[j]
  {
    if walk != [] {
      var n := |walk| - 1;
      DueMeaning(active, walk[..n], tick);
      assert walk == walk[..n] + [walk[n]];
      assert walk[n] !in walk[..n];
    }
  }

  lemma {:induction false} DonesTimeouts(expired: seq<StreamId>, stream: StreamId)
    requires forall i, j :: 0 <= i < j < |expired| ==> expired[i] != expired[j]
    ensures Dones(Timeouts(expired), stream) == if stream in expired then 1 else 0
  {
    if expired != [] {
      var n := |expired| - 1;
      assert expired == expired[..n] + [expired[n]];
      assert expired[n] !in expired[..n];
      DonesTimeouts(expired[..n], stream);
      DonesAppend(Timeouts(expired[..n]), Refuse(expired[n], TIMED_OUT), stream);
      DonesRefuse(expired[n], TIMED_OUT, stream);
    }
  }

  function ActiveCount(s: State, stream: StreamId): nat {
    if stream in s.activeStreams then 1 else 0
  }

  lemma StepConservesRequests(s: State, event: Event, stream: StreamId)
    requires Possible(s, event)
    ensures Dones(Reduce(s, event).effects, stream) + ActiveCount(Reduce(s, event).state, stream)
         == ActiveCount(s, stream) + if event.HttpChatRequested? && event.stream == stream then 1 else 0
  {
    match event
    case Tick(walk) => TickConservesRequests(s, walk, stream);
    case HttpChatRequested(_, _, _, _) => RequestIsCounted(s, event, stream);
    case _ => DonesOfFew(Reduce(s, event).effects, stream);
  }

  lemma TickConservesRequests(s: State, walk: seq<StreamId>, stream: StreamId)
    requires Walks(walk, s.activeStreams)
    ensures Dones(Reduce(s, Tick(walk)).effects, stream) + ActiveCount(Reduce(s, Tick(walk)).state, stream) == ActiveCount(s, stream)
  {
    DueMeaning(s.activeStreams, walk, s.tick + 1);
    DonesTimeouts(Due(s.activeStreams, walk, s.tick + 1), stream);
  }

  lemma RequestIsCounted(s: State, event: Event, stream: StreamId)
    requires event.HttpChatRequested?
    ensures Dones(Reduce(s, event).effects, stream) + ActiveCount(Reduce(s, event).state, stream)
         == ActiveCount(s, stream) + if event.stream == stream then 1 else 0
  {
    DonesOfFew(Reduce(s, event).effects, stream);
  }

  lemma DonesOfFew(effects: seq<Effect>, stream: StreamId)
    ensures |effects| == 0 ==> Dones(effects, stream) == 0
    ensures |effects| == 1 ==> Dones(effects, stream) == if effects[0] == SendClientDone(stream) then 1 else 0
    ensures |effects| == 2 && effects[0] != SendClientDone(stream) ==>
      Dones(effects, stream) == if effects[1] == SendClientDone(stream) then 1 else 0
  {
    if |effects| == 1 {
      assert effects[..0] == [];
    } else if |effects| == 2 {
      assert effects[..1][..0] == [];
    }
  }

  /** Every request is answered by exactly one done, the last one possibly still outstanding. */
  lemma {:induction false} RequestConservation(workerTtl: nat, streamTtl: nat, events: seq<Event>, stream: StreamId)
    requires PossibleRun(New(workerTtl, streamTtl), events)
    ensures Requests(events, stream)
         == Dones(Emitted(New(workerTtl, streamTtl), events), stream)
          + ActiveCount(After(New(workerTtl, streamTtl), events), stream)
  {
    if events != [] {
      var n := |events| - 1;
      var init := New(workerTtl, streamTtl);
      PrefixPossible(init, events);
      RequestConservation(workerTtl, streamTtl, events[..n], stream);
      var s := After(init, events[..n]);
      StepConservesRequests(s, events[n], stream);
      DonesAppend(Emitted(init, events[..n]), Reduce(s, events[n]).effects, stream);
    }
  }

  // ---------------------------------------------------------------------- deadlines

  /** Not overdue, and no further ahead than the time to live. */
  predicate Bounded(deadline: nat, tick: nat, ttl: nat) {
    tick + (if ttl > 0 then 1 else 0) <= deadline <= tick + ttl
  }

  /** Nothing overdue is kept, and no deadline lies further ahead than its time to live. */
  ghost predicate DeadlinesBounded(s: State) {
    && (forall t :: t in s.activeStreams ==> Bounded(s.activeStreams[t], s.tick, s.streamTtl))
    && (forall w :: w in s.available ==> Bounded(s.available[w].deadline, s.tick, s.workerTtl))
  }

  lemma StepKeepsDeadlinesBounded(s: State, event: Event)
    requires DeadlinesBounded(s) && Possible(s, event)
    ensures DeadlinesBounded(Reduce(s, event).state)
    ensures Reduce(s, event).state.streamTtl == s.streamTtl && Reduce(s, event).state.workerTtl == s.workerTtl
  {
    if event.Tick? {
      TickKeepsDeadlinesBounded(s, event.walk);
    } else {
      OthersKeepDeadlinesBounded(s, event);
    }
  }

  lemma TickKeepsDeadlinesBounded(s: State, walk: seq<StreamId>)
    requires DeadlinesBounded(s) && Walks(walk, s.activeStreams)
    ensures DeadlinesBounded(Reduce(s, Tick(walk)).state)
  {
    DueMeaning(s.activeStreams, walk, s.tick + 1);
  }

  /** Between ticks an entry keeps its deadline or is given a full time to live. */
  lemma OthersKeepDeadlinesBounded(s: State, event: Event)
    requires DeadlinesBounded(s) && !event.Tick?
    ensures DeadlinesBounded(Reduce(s, event).state)
  {
  }

  lemma {:induction false} ReachableDeadlines(workerTtl: nat, streamTtl: nat, events: seq<Event>)
    requires PossibleRun(New(workerTtl, streamTtl), events)
    ensures DeadlinesBounded(After(New(workerTtl, streamTtl), events))
    ensures After(New(workerTtl, streamTtl), events).streamTtl == streamTtl
    ensures After(New(workerTtl, streamTtl), events).workerTtl == workerTtl
  {
    if events != [] {
      var n := |events| - 1;
      var init := New(workerTtl, streamTtl);
      PrefixPossible(init, events);
      ReachableDeadlines(workerTtl, streamTtl, events[..n]);
      StepKeepsDeadlinesBounded(After(init, events[..n]), events[n]);
    }
  }

  /** Ticks since the stream was last refreshed by a heartbeat, or since the start. */
  function Silence(events: seq<Event>, stream: StreamId): nat {
    if events == [] then 0
    else
      var last := events[|events| - 1];
      if last == StreamHeartbeat(stream) then 0
      else Silence(events[..|events| - 1], stream) + if last.Tick? then 1 else 0
  }

  /** No event ends the assignment of the stream. */
  ghost predicate Uncleared(events: seq<Event>, stream: StreamId) {
    forall e :: e in events ==> !(e.AssignmentCleared? && e.stream == stream) && !(e.AssignmentFailed? && e.stream == stream)
  }

  /** The stream was never silent for as long as its time to live. */
  ghost predicate NeverSilent(events: seq<Event>, stream: StreamId, ttl: nat) {
    forall k :: 0 <= k <= |events| ==> Silence(events[..k], stream) < ttl
  }

  /** What one event that does not end an assignment does to a stream that is not due. */
  lemma StreamStep(s: State, e: Event, stream: StreamId)
    requires stream in s.activeStreams && Possible(s, e) && Uncleared([e], stream)
    requires e.Tick? ==> s.activeStreams[stream] > s.tick + 1
    ensures stream in Reduce(s, e).state.activeStreams && Reduce(s, e).state.streamTtl == s.streamTtl
    ensures Reduce(s, e).state.tick == s.tick + if e.Tick? then 1 else 0
    ensures Reduce(s, e).state.activeStreams[stream]
         == if e == StreamHeartbeat(stream) then s.tick + s.streamTtl else s.activeStreams[stream]
  {
    assert e in [e];
    if e.Tick? {
      DueMeaning(s.activeStreams, e.walk, s.tick + 1);
    }
  }

  lemma PrefixQuiet(events: seq<Event>, stream: StreamId, ttl: nat)
    requires Uncleared(events, stream) && NeverSilent(events, stream, ttl) && events != []
    ensures Uncleared(events[..|events| - 1], stream) && NeverSilent(events[..|events| - 1], stream, ttl)
    ensures Uncleared([events[|events| - 1]], stream)
    ensures Silence(events, stream) < ttl
  {
    var prev := events[..|events| - 1];
    forall k | 0 <= k <= |prev| ensures Silence(prev[..k], stream) < ttl {
      assert prev[..k] == events[..k];
    }
    assert events[..|events|] == events;
    assert events[|events| - 1] in events;
  }

  /**
   A stream just dispatched or refreshed stays active as long as it is refreshed at intervals of fewer
   than `streamTtl` ticks, and its deadline counts from the last refresh.
   */
  lemma {:induction false} RefreshedStreamSurvives(s: State, events: seq<Event>, stream: StreamId)
    requires stream in s.activeStreams && s.activeStreams[stream] == s.tick + s.streamTtl
    requires PossibleRun(s, events) && Uncleared(events, stream) && NeverSilent(events, stream, s.streamTtl)
    ensures After(s, events).streamTtl == s.streamTtl
    ensures stream in After(s, events).activeStreams
    ensures After(s, events).activeStreams[stream] + Silence(events, stream) == After(s, events).tick + s.streamTtl
  {
    if events != [] {
      var n := |events| - 1;
      PrefixPossible(s, events);
      PrefixQuiet(events, stream, s.streamTtl);
      RefreshedStreamSurvives(s, events[..n], stream);
      StreamStep(After(s, events[..n]), events[n], stream);
    }
  }

  /** The error for `stream` and its done stand next to each other among the effects. */
  ghost predicate ErrorThenDone(effects: seq<Effect>, stream: StreamId, message: string) {
    exists i :: 0 <= i < |effects| - 1 && effects[i] == SendClientError(stream, message) && effects[i + 1] == SendClientDone(stream)
  }

  ghost predicate TimesOut(effects: seq<Effect>, stream: StreamId) {
    ErrorThenDone(effects, stream, TIMED_OUT)
  }

  lemma {:induction false} TimeoutsAnnounce(expired: seq<StreamId>, stream: StreamId)
    requires stream in expired
    ensures TimesOut(Timeouts(expired), stream)
  {
    var n := |expired| - 1;
    var before, last := Timeouts(expired[..n]), Refuse(expired[n], TIMED_OUT);
    if expired[n] == stream {
      var i := |before|;
      assert (before + last)[i] == last[0] && (before + last)[i + 1] == last[1];
    } else {
      assert expired == expired[..n] + [expired[n]];
      TimeoutsAnnounce(expired[..n], stream);
      var i :| 0 <= i < |before| - 1 && before[i] == SendClientError(stream, TIMED_OUT) && before[i + 1] == SendClientDone(stream);
      assert (before + last)[i] == before[i] && (before + last)[i + 1] == before[i + 1];
    }
  }

  /** A silent stream times out at exactly the `streamTtl`-th tick after its last refresh, with error, then done. */
  lemma SilentStreamTimesOut(s: State, events: seq<Event>, stream: StreamId, walk: seq<StreamId>)
    requires stream in s.activeStreams && s.activeStreams[stream] == s.tick + s.streamTtl && s.streamTtl > 0
    requires PossibleRun(s, events) && Uncleared(events, stream) && NeverSilent(events, stream, s.streamTtl)
    requires Walks(walk, After(s, events).activeStreams)
    ensures stream in After(s, events).activeStreams
    ensures Silence(events + [Tick(walk)], stream) == s.streamTtl <==>
      stream !in Reduce(After(s, events), Tick(walk)).state.activeStreams
    ensures Silence(events + [Tick(walk)], stream) == s.streamTtl <==>
      TimesOut(Reduce(After(s, events), Tick(walk)).effects, stream)
  {
    RefreshedStreamSurvives(s, events, stream);
    var all := events + [Tick(walk)];
    assert all[..|all| - 1] == events;
    assert Silence(all, stream) == Silence(events, stream) + 1;
    TickTimesOutDue(After(s, events), stream, walk);
    assert events[..|events|] == events;
    assert Silence(events, stream) < s.streamTtl;
  }

  lemma TickTimesOutDue(t: State, stream: StreamId, walk: seq<StreamId>)
    requires stream in t.activeStreams && Walks(walk, t.activeStreams)
    ensures t.activeStreams[stream] <= t.tick + 1 <==> stream !in Reduce(t, Tick(walk)).state.activeStreams
    ensures t.activeStreams[stream] <= t.tick + 1 <==> TimesOut(Reduce(t, Tick(walk)).effects, stream)
  {
    var expired := Due(t.activeStreams, walk, t.tick + 1);
    DueMeaning(t.activeStreams, walk, t.tick + 1);
    assert stream in expired <==> t.activeStreams[stream] <= t.tick + 1;
    assert Reduce(t, Tick(walk)).state.activeStreams == t.activeStreams - (set x | x in expired);
    assert Reduce(t, Tick(walk)).effects == Timeouts(expired);
    if stream in expired {
      TimeoutsAnnounce(expired, stream);
    } else {
      NoTimeoutUnlessExpired(expired, stream);
      NoDoneNoTimeout(Timeouts(expired), stream);
    }
  }

  lemma NoDoneNoTimeout(effects: seq<Effect>, stream: StreamId)
    requires SendClientDone(stream) !in effects
    ensures !TimesOut(effects, stream)
  {
  }

  lemma {:induction false} NoTimeoutUnlessExpired(expired: seq<StreamId>, stream: StreamId)
    requires stream !in expired
    ensures SendClientDone(stream) !in Timeouts(expired)
  {
    if expired != [] {
      var n := |expired| - 1;
      NoTimeoutUnlessExpired(expired[..n], stream);
    }
  }

  // -------------------------------------------------------------------------- idle workers

  function WorkerSilence(events: seq<Event>, worker: WorkerId): nat {
    if events == [] then 0
    else
      var last := events[|events| - 1];
      if last == WorkerHeartbeat(worker) then 0
      else WorkerSilence(events[..|events| - 1], worker) + if last.Tick? then 1 else 0
  }

  ghost predicate NeverDispatched(s: State, events: seq<Event>, worker: WorkerId) {
    forall e :: e in Emitted(s, events) && e.DispatchJob? ==> e.worker != worker
  }

  ghost predicate WorkerNeverSilent(events: seq<Event>, worker: WorkerId, ttl: nat) {
    forall k :: 0 <= k <= |events| ==> WorkerSilence(events[..k], worker) < ttl
  }

  lemma WorkerStep(s: State, e: Event, worker: WorkerId)
    requires worker in s.available
    requires forall x :: x in Reduce(s, e).effects && x.DispatchJob? ==> x.worker != worker
    requires e.Tick? ==> s.available[worker].deadline > s.tick + 1
    ensures worker in Reduce(s, e).state.available && Reduce(s, e).state.workerTtl == s.workerTtl
    ensures Reduce(s, e).state.tick == s.tick + if e.Tick? then 1 else 0
    ensures Reduce(s, e).state.available[worker].capabilities == s.available[worker].capabilities
    ensures Reduce(s, e).state.available[worker].deadline
         == if e == WorkerHeartbeat(worker) then s.tick + s.workerTtl else s.available[worker].deadline
  {
    if e.HttpChatRequested? && |Reduce(s, e).effects| == 1 {
      assert Reduce(s, e).effects[0] in Reduce(s, e).effects;
    }
  }

  /**
   A registered worker that is not dispatched and is heard from at intervals of fewer than `workerTtl`
   ticks stays available with the capabilities it declared; it is dropped at exactly the tick at which
   its silence reaches `workerTtl`.
   */
  lemma {:induction false} IdleWorkerSurvives(s: State, worker: WorkerId, capabilities: set<Capability>, events: seq<Event>)
    requires worker !in s.available && s.workerTtl > 0
    requires PossibleRun(Registered(s, worker, capabilities), events)
    requires NeverDispatched(Registered(s, worker, capabilities), events, worker)
    requires WorkerNeverSilent(events, worker, s.workerTtl)
    ensures After(Registered(s, worker, capabilities), events).workerTtl == s.workerTtl
    ensures worker in After(Registered(s, worker, capabilities), events).available
    ensures After(Registered(s, worker, capabilities), events).available[worker].capabilities == capabilities
    ensures After(Registered(s, worker, capabilities), events).available[worker].deadline + WorkerSilence(events, worker)
         == After(Registered(s, worker, capabilities), events).tick + s.workerTtl
    ensures forall walk ::
      WorkerSilence(events, worker) + 1 < s.workerTtl <==>
      worker in Reduce(After(Registered(s, worker, capabilities), events), Tick(walk)).state.available
  {
    if events != [] {
      var n := |events| - 1;
      var start := Registered(s, worker, capabilities);
      PrefixPossible(start, events);
      PrefixHeard(events, worker, s.workerTtl);
      assert Emitted(start, events) == Emitted(start, events[..n]) + Reduce(After(start, events[..n]), events[n]).effects;
      IdleWorkerSurvives(s, worker, capabilities, events[..n]);
      WorkerStep(After(start, events[..n]), events[n], worker);
    }
  }

  lemma PrefixHeard(events: seq<Event>, worker: WorkerId, ttl: nat)
    requires WorkerNeverSilent(events, worker, ttl) && events != []
    ensures WorkerNeverSilent(events[..|events| - 1], worker, ttl) && WorkerSilence(events, worker) < ttl
  {
    var prev := events[..|events| - 1];
    forall k | 0 <= k <= |prev| ensures WorkerSilence(prev[..k], worker) < ttl {
      assert prev[..k] == events[..k];
    }
    assert events[..|events|] == events;
  }

  function Registered(s: State, worker: WorkerId, capabilities: set<Capability>): State {
    Reduce(s, WorkerRegistered(worker, capabilities)).state
  }

  // ------------------------------------------------------------------------------ draining

  /** During ticks alone, streams only leave, and none outlives its deadline. */
  lemma {:induction false} TicksOnlyExpire(s: State, ticks: seq<Event>)
    requires PossibleRun(s, ticks) && forall e :: e in ticks ==> e.Tick?
    ensures After(s, ticks).tick == s.tick + |ticks|
    ensures forall t: StreamId :: t in After(s, ticks).activeStreams ==>
      && t in s.activeStreams && After(s, ticks).activeStreams[t] == s.activeStreams[t]
      && (ticks != [] ==> s.activeStreams[t] > After(s, ticks).tick)
  {
    if ticks != [] {
      var n := |ticks| - 1;
      PrefixPossible(s, ticks);
      assert ticks[n] in ticks;
      assert forall e :: e in ticks[..n] ==> e in ticks;
      TicksOnlyExpire(s, ticks[..n]);
      TickExpires(After(s, ticks[..n]), ticks[n]);
    }
  }

  lemma TicksExpireAll(s: State, ticks: seq<Event>)
    requires DeadlinesBounded(s) && PossibleRun(s, ticks)
    requires |ticks| > 0 && |ticks| >= s.streamTtl && forall e :: e in ticks ==> e.Tick?
    ensures After(s, ticks).activeStreams == map[]
  {
    TicksOnlyExpire(s, ticks);
    var left := After(s, ticks).activeStreams;
    forall t: StreamId ensures t !in left {
      assert t in left ==> t in s.activeStreams && Bounded(s.activeStreams[t], s.tick, s.streamTtl);
    }
    assert left.Keys == {};
  }

  lemma TickExpires(s: State, event: Event)
    requires Possible(s, event) && event.Tick?
    ensures Reduce(s, event).state.tick == s.tick + 1
    ensures forall t: StreamId :: t in Reduce(s, event).state.activeStreams <==> t in s.activeStreams && s.activeStreams[t] > s.tick + 1
    ensures forall t: StreamId :: t in Reduce(s, event).state.activeStreams ==>
      Reduce(s, event).state.activeStreams[t] == s.activeStreams[t]
  {
    DueMeaning(s.activeStreams, event.walk, s.tick + 1);
  }

  lemma {:induction false} RunAppend(s: State, a: seq<Event>, b: seq<Event>)
    ensures After(s, a + b) == After(After(s, a), b)
    decreases b
  {
    if b == [] {
      assert a + b == a;
    } else {
      assert (a + b)[..|a + b| - 1] == a + b[..|b| - 1];
      RunAppend(s, a, b[..|b| - 1]);
    }
  }

  lemma {:induction false} RequestsAppend(a: seq<Event>, b: seq<Event>, stream: StreamId)
    ensures Requests(a + b, stream) == Requests(a, stream) + Requests(b, stream)
    decreases b
  {
    if b == [] {
      assert a + b == a;
    } else {
      assert (a + b)[..|a + b| - 1] == a + b[..|b| - 1];
      RequestsAppend(a, b[..|b| - 1], stream);
    }
  }

  lemma PossibleSuffix(s: State, a: seq<Event>, b: seq<Event>)
    requires PossibleRun(s, a + b)
    ensures PossibleRun(s, a) && PossibleRun(After(s, a), b)
  {
    var all := a + b;
    forall k | 0 <= k < |a| ensures Possible(After(s, a[..k]), a[k]) {
      assert all[..k] == a[..k] && all[k] == a[k];
    }
    forall k | 0 <= k < |b| ensures Possible(After(After(s, a), b[..k]), b[k]) {
      assert all[..|a| + k] == a + b[..k] && all[|a| + k] == b[k];
      RunAppend(s, a, b[..k]);
    }
  }

  lemma {:induction false} TicksRequestNothing(ticks: seq<Event>, stream: StreamId)
    requires forall e :: e in ticks ==> e.Tick?
    ensures Requests(ticks, stream) == 0
  {
    if ticks != [] {
      var n := |ticks| - 1;
      assert ticks[n] in ticks;
      assert forall e :: e in ticks[..n] ==> e in ticks;
      TicksRequestNothing(ticks[..n], stream);
    }
  }

  /** Whatever happened before, once enough ticks have passed every request has been answered by its done. */
  lemma EveryRequestIsAnswered(workerTtl: nat, streamTtl: nat, events: seq<Event>, ticks: seq<Event>, stream: StreamId)
    requires PossibleRun(New(workerTtl, streamTtl), events + ticks)
    requires |ticks| > 0 && |ticks| >= streamTtl && forall e :: e in ticks ==> e.Tick?
    ensures After(New(workerTtl, streamTtl), events + ticks).activeStreams == map[]
    ensures Requests(events, stream) == Dones(Emitted(New(workerTtl, streamTtl), events + ticks), stream)
  {
    var init := New(workerTtl, streamTtl);
    PossibleSuffix(init, events, ticks);
    RunAppend(init, events, ticks);
    RequestsAppend(events, ticks, stream);
    ReachableDeadlines(workerTtl, streamTtl, events);
    TicksExpireAll(After(init, events), ticks);
    TicksRequestNothing(ticks, stream);
    RequestConservation(workerTtl, streamTtl, events + ticks, stream);
  }

  // ------------------------------------------------------------------------ dispatching

  /**
   A job goes to the first idle worker that can do it, which is then no longer idle, and carries what was
   asked; a well-formed request for a new stream is refused only if no idle worker can do it.
   */
  lemma DispatchIsSound(s: State, event: Event)
    ensures forall e :: e in Reduce(s, event).effects && e.DispatchJob? ==>
      && event == HttpChatRequested(e.stream, e.payload, true, e.capability)
      && e.worker in s.available && e.capability in s.available[e.worker].capabilities
      && (forall w :: w in s.available && e.capability in s.available[w].capabilities ==> e.worker <= w)
      && Reduce(s, event).effects == [e]
      && Reduce(s, event).state.available == s.available - {e.worker}
      && e.stream !in s.activeStreams
      && Reduce(s, event).state.activeStreams == s.activeStreams[e.stream := s.tick + s.streamTtl]
    ensures event.HttpChatRequested? && event.streaming && event.stream !in s.activeStreams ==>
      ((exists e :: e in Reduce(s, event).effects && e.DispatchJob?) <==>
        exists w :: w in s.available && event.required in s.available[w].capabilities)
  {
    if event.HttpChatRequested? && event.streaming && event.stream !in s.activeStreams {
      var effects := Reduce(s, event).effects;
      var capable := Capable(s, event.required);
      assert forall w :: w in capable <==> w in s.available && event.required in s.available[w].capabilities;
      assert effects[0] in effects;
    } else {
      OthersDispatchNothing(s, event);
    }
  }

  lemma OthersDispatchNothing(s: State, event: Event)
    requires !(event.HttpChatRequested? && event.streaming && event.stream !in s.activeStreams)
    ensures forall e :: e in Reduce(s, event).effects ==> !e.DispatchJob?
  {
    if event.Tick? {
      TimeoutsDispatchNothing(Due(s.activeStreams, event.walk, s.tick + 1));
    }
  }

  lemma {:induction false} TimeoutsDispatchNothing(expired: seq<StreamId>)
    ensures forall e :: e in Timeouts(expired) ==> e.SendClientError? || e.SendClientDone?
  {
    if expired != [] {
      TimeoutsDispatchNothing(expired[..|expired| - 1]);
    }
  }

  lemma {:induction false} TimeoutsIncludeDone(expired: seq<StreamId>, stream: StreamId)
    ensures stream in expired ==> SendClientDone(stream) in Timeouts(expired)
  {
    if expired != [] {
      var n := |expired| - 1;
      TimeoutsIncludeDone(expired[..n], stream);
      assert expired == expired[..n] + [expired[n]];
      assert Refuse(expired[n], TIMED_OUT)[1] == SendClientDone(expired[n]);
    }
  }

  lemma RefuseEmitsDone(stream: StreamId, message: string)
    ensures SendClientDone(stream) in Refuse(stream, message)
  {
    assert Refuse(stream, message)[1] == SendClientDone(stream);
  }

  /** A stream ceases to be active only together with its done; a request for it leaves it active or is done. */
  lemma LeavingEmitsDone(s: State, event: Event, stream: StreamId)
    requires Possible(s, event)
    requires stream in s.activeStreams || (event.HttpChatRequested? && event.stream == stream)
    ensures stream in Reduce(s, event).state.activeStreams || SendClientDone(stream) in Reduce(s, event).effects
  {
    if event.Tick? {
      DueMeaning(s.activeStreams, event.walk, s.tick + 1);
      TimeoutsIncludeDone(Due(s.activeStreams, event.walk, s.tick + 1), stream);
    } else {
      forall t: StreamId, message: string ensures SendClientDone(t) in Refuse(t, message) {
        RefuseEmitsDone(t, message);
      }
      assert SendClientDone(stream) in [SendClientDone(stream)];
    }
  }

  /** A stream is ended only by being cleared, failed or timed out, and its client is told which. */
  lemma EndingsAreExplained(s: State, event: Event, stream: StreamId)
    requires Possible(s, event) && stream in s.activeStreams && stream !in Reduce(s, event).state.activeStreams
    ensures match event
            case AssignmentCleared(t) => t == stream && Reduce(s, event).effects == [SendClientDone(stream)]
            case AssignmentFailed(t, message) => t == stream && ErrorThenDone(Reduce(s, event).effects, stream, message)
            case Tick(_) => TimesOut(Reduce(s, event).effects, stream)
            case _ => false
  {
    match event
    case Tick(walk) => TickTimesOutDue(s, stream, walk);
    case AssignmentFailed(_, message) =>
      var effects := Reduce(s, event).effects;
      assert effects[0] == SendClientError(stream, message) && effects[0 + 1] == SendClientDone(stream);
    case _ =>
  }

  /** Only registration makes a worker available. */
  lemma AvailabilityShrinks(s: State, event: Event)
    ensures forall w: WorkerId :: w in Reduce(s, event).state.available ==>
      w in s.available || (event.WorkerRegistered? && w == event.worker)
  {
  }

  // -------------------------------------------------------------- what each event does

  /** The event ends the assignment of the active stream: clears it, fails it, or is a tick at which it is due. */
  predicate Ends(s: State, event: Event, stream: StreamId)
    requires stream in s.activeStreams
  {
    match event
    case AssignmentCleared(t) => t == stream
    case AssignmentFailed(t, _) => t == stream
    case Tick(_) => s.activeStreams[stream] <= s.tick + 1
    case _ => false
  }

  /** The state with one stream taken out and all else as it was. */
  ghost predicate OnlyWithout(s: State, t: State, stream: StreamId) {
    t == s.(activeStreams := t.activeStreams)
    && stream !in t.activeStreams
    && forall x: StreamId :: x != stream ==>
      && (x in t.activeStreams <==> x in s.activeStreams)
      && (x in s.activeStreams ==> t.activeStreams[x] == s.activeStreams[x])
  }

  /** An active stream is gone after exactly the events that end it; its client is told, and nothing else happens. */
  lemma StreamEndsIff(s: State, event: Event, stream: StreamId)
    requires Possible(s, event) && stream in s.activeStreams
    ensures stream !in Reduce(s, event).state.activeStreams <==> Ends(s, event, stream)
    ensures Ends(s, event, stream) ==>
      match event
      case AssignmentCleared(_) =>
        OnlyWithout(s, Reduce(s, event).state, stream) && Reduce(s, event).effects == [SendClientDone(stream)]
      case AssignmentFailed(_, message) =>
        && OnlyWithout(s, Reduce(s, event).state, stream)
        && Reduce(s, event).effects == [SendClientError(stream, message), SendClientDone(stream)]
      case _ => TimesOut(Reduce(s, event).effects, stream)
  {
    match event
    case Tick(walk) => TickTimesOutDue(s, stream, walk);
    case _ =>
  }

  ghost predicate IsDue(s: State, stream: StreamId) {
    stream in s.activeStreams && s.activeStreams[stream] <= s.tick + 1
  }

  /** The effects are the timeouts of due streams, error and done side by side. */
  ghost predicate AnnouncesDue(s: State, effects: seq<Effect>) {
    && |effects| % 2 == 0
    && forall i :: 0 <= i < |effects| / 2 ==> AnnouncesAt(s, effects, i)
  }

  ghost predicate AnnouncesAt(s: State, effects: seq<Effect>, i: nat)
    requires 2 * i + 1 < |effects|
  {
    && effects[2 * i].SendClientError? && IsDue(s, effects[2 * i].stream)
    && effects[2 * i] == SendClientError(effects[2 * i].stream, TIMED_OUT)
    && effects[2 * i + 1] == SendClientDone(effects[2 * i].stream)
  }

  lemma {:induction false} TimeoutsAlternate(s: State, expired: seq<StreamId>)
    requires forall x :: x in expired ==> IsDue(s, x)
    ensures AnnouncesDue(s, Timeouts(expired)) && |Timeouts(expired)| == 2 * |expired|
  {
    if expired != [] {
      var n := |expired| - 1;
      var before, all := Timeouts(expired[..n]), Timeouts(expired);
      TimeoutsAlternate(s, expired[..n]);
      assert all == before + Refuse(expired[n], TIMED_OUT);
      assert expired[n] in expired;
      forall i | 0 <= i < |all| / 2 ensures AnnouncesAt(s, all, i) {
        if i < n {
          assert AnnouncesAt(s, before, i);
          assert all[2 * i] == before[2 * i] && all[2 * i + 1] == before[2 * i + 1];
        }
      }
    }
  }

  /**
   A tick lets exactly the due streams and the overdue workers go, leaves the others as they are, and
   announces each due stream once and no other.
   */
  lemma TickOutcome(s: State, walk: seq<StreamId>)
    requires Walks(walk, s.activeStreams)
    ensures
      var t := Reduce(s, Tick(walk));
      && t.state == s.(tick := s.tick + 1, available := t.state.available, activeStreams := t.state.activeStreams)
      && (forall x: StreamId :: x in t.state.activeStreams <==> x in s.activeStreams && !IsDue(s, x))
      && (forall x: StreamId :: x in t.state.activeStreams ==> t.state.activeStreams[x] == s.activeStreams[x])
      && (forall w: WorkerId :: w in t.state.available <==> w in s.available && s.available[w].deadline > s.tick + 1)
      && (forall w: WorkerId :: w in t.state.available ==> t.state.available[w] == s.available[w])
      && AnnouncesDue(s, t.effects)
      && forall x: StreamId :: Dones(t.effects, x) == if IsDue(s, x) then 1 else 0
  {
    var expired := Due(s.activeStreams, walk, s.tick + 1);
    DueMeaning(s.activeStreams, walk, s.tick + 1);
    TimeoutsAlternate(s, expired);
    forall x: StreamId ensures Dones(Timeouts(expired), x) == if IsDue(s, x) then 1 else 0 {
      DonesTimeouts(expired, x);
    }
  }

  /** Why a request is refused, if it is. */
  ghost function Refusal(s: State, event: Event): Option<string>
    requires event.HttpChatRequested?
  {
    if !event.streaming then Some("stream=true is required in this phase")
    else if event.stream in s.activeStreams then Some("stream already has an active assignment")
    else if forall w :: w in s.available ==> event.required !in s.available[w].capabilities then Some("no idle worker available")
    else None
  }

  /** A refused request changes nothing, and its client is told why and then that it is done; any other is dispatched. */
  lemma RefusedRequestIsTold(s: State, event: Event)
    requires event.HttpChatRequested?
    ensures match Refusal(s, event)
            case Some(message) =>
              Reduce(s, event) == Transition(s, [SendClientError(event.stream, message), SendClientDone(event.stream)])
            case None =>
              exists w :: Reduce(s, event).effects == [DispatchJob(w, event.stream, event.required, event.payload)]
  {
    var capable := Capable(s, event.required);
    assert forall w :: w in capable <==> w in s.available && event.required in s.available[w].capabilities;
    if Refusal(s, event).None? {
      var w := FirstCapableWorker(s, event.required).value;
      assert Reduce(s, event).effects == [DispatchJob(w, event.stream, event.required, event.payload)];
    }
  }

  /** What is wrong with an event about an unknown stream or worker, or a worker known already. */
  ghost function Misplaced(s: State, event: Event): Option<Effect> {
    match event
    case WorkerRegistered(w, _) =>
      if w in s.available then Some(ProtocolViolation(Worker(w), "duplicate worker registration")) else None
    case WorkerHeartbeat(w) =>
      if w !in s.available then Some(ProtocolViolation(Worker(w), "heartbeat from unknown worker")) else None
    case StreamHeartbeat(t) =>
      if t !in s.activeStreams then Some(ProtocolViolation(Stream(t), "heartbeat for unknown stream")) else None
    case AssignmentCleared(t) =>
      if t !in s.activeStreams then Some(ProtocolViolation(Stream(t), "assignment cleared for unknown stream")) else None
    case AssignmentFailed(t, _) =>
      if t !in s.activeStreams then Some(ProtocolViolation(Stream(t), "assignment failed for unknown stream")) else None
    case _ => None
  }

  /** Exactly the misplaced events are protocol violations; they change nothing and have no other effect. */
  lemma MisplacedIsReported(s: State, event: Event)
    ensures match Misplaced(s, event)
            case Some(violation) => Reduce(s, event) == Transition(s, [violation])
            case None => forall e :: e in Reduce(s, event).effects ==> !e.ProtocolViolation?
  {
    if event.Tick? {
      TimeoutsDispatchNothing(Due(s.activeStreams, event.walk, s.tick + 1));
    }
  }

  /** A registration or heartbeat in its place gives its worker or stream a full time to live, silently. */
  lemma RegistrationAndHeartbeatsRefresh(s: State, event: Event)
    requires Misplaced(s, event).None?
    ensures
      var t := Reduce(s, event);
      match event
      case WorkerRegistered(w, capabilities) =>
        && t.effects == [] && t.state == s.(available := t.state.available)
        && t.state.available.Keys == s.available.Keys + {w}
        && t.state.available[w] == WorkerEntry(s.tick + s.workerTtl, capabilities)
        && forall x: WorkerId :: x in s.available ==> t.state.available[x] == s.available[x]
      case WorkerHeartbeat(w) =>
        && t.effects == [] && t.state == s.(available := t.state.available)
        && t.state.available.Keys == s.available.Keys
        && t.state.available[w] == WorkerEntry(s.tick + s.workerTtl, s.available[w].capabilities)
        && forall x: WorkerId :: x in s.available && x != w ==> t.state.available[x] == s.available[x]
      case StreamHeartbeat(r) =>
        && t.effects == [] && t.state == s.(activeStreams := t.state.activeStreams)
        && t.state.activeStreams.Keys == s.activeStreams.Keys
        && t.state.activeStreams[r] == s.tick + s.streamTtl
        && forall x: StreamId :: x in s.activeStreams && x != r ==> t.state.activeStreams[x] == s.activeStreams[x]
      case _ => true
  {
  }
}
