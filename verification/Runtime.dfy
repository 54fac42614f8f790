/** The gateway runtime: kernel effects resolved against a table of one-shot handles. */
module Runtime {
  import opened Types
  import opened Kernel

  type Handle = nat

  /** The handle table as a value. */
  datatype Registry = Registry(workers: map<WorkerId, Handle>, streams: map<StreamId, Handle>)

  /** An effect with the handles it needs. */
  datatype Resolved =
    | JobSent(worker: WorkerId, workerHandle: Handle, stream: StreamId, handle: Handle, capability: Capability, payload: string)
    | ErrorSent(stream: StreamId, handle: Handle, message: string)
    | DoneSent(stream: StreamId, handle: Handle)
    | Logged(source: Source, message: string)

  datatype Delivery = Delivery(registry: Registry, resolved: seq<Resolved>, fallbacks: seq<Event>)

  function ResolveOne(reg: Registry, effect: Effect): Delivery {
    match effect
    case DispatchJob(worker, stream, capability, payload) =>
      if worker !in reg.workers then Delivery(reg, [], [AssignmentFailed(stream, "worker handle not found")])
      else
        var taken := reg.(workers := reg.workers - {worker});
        if stream !in reg.streams then Delivery(taken, [], [AssignmentFailed(stream, "stream handle not found")])
        else
          Delivery(taken, [JobSent(worker, reg.workers[worker], stream, reg.streams[stream], capability, payload)], [])
    case SendClientError(stream, message) =>
      Delivery(reg, if stream in reg.streams then [ErrorSent(stream, reg.streams[stream], message)] else [], [])
    case SendClientDone(stream) =>
      if stream in reg.streams then
        Delivery(reg.(streams := reg.streams - {stream}), [DoneSent(stream, reg.streams[stream])], [])
      else Delivery(reg, [], [])
    case ProtocolViolation(source, message) => Delivery(reg, [Logged(source, message)], [])
  }

  function ResolveAll(reg: Registry, effects: seq<Effect>): Delivery {
    if effects == [] then Delivery(reg, [], [])
    else
      var before := ResolveAll(reg, effects[..|effects| - 1]);
      var last := ResolveOne(before.registry, effects[|effects| - 1]);
      Delivery(last.registry, before.resolved + last.resolved, before.fallbacks + last.fallbacks)
  }

  // ---------------------------------------------------------------- the objects in place

  class ChannelRegistry {
    var workers: map<WorkerId, Handle>
    var streams: map<StreamId, Handle>

    ghost function AsValue(): Registry
      reads this
    {
      Registry(workers, streams)
    }

    constructor ()
      ensures AsValue() == Registry(map[], map[])
    {
      workers, streams := map[], map[];
    }

    /** `id` is the identifier generated for the worker. */
    method RegisterWorker(id: WorkerId, handle: Handle)
      modifies this`workers
      ensures workers == old(workers)[id := handle]
    {
      workers := workers[id := handle];
    }

    method RegisterStream(id: StreamId, handle: Handle)
      modifies this`streams
      ensures streams == old(streams)[id := handle]
    {
      streams := streams[id := handle];
    }

    /** Taking a handle removes it: it can be taken once. */
    method TakeWorker(id: WorkerId) returns (h: Option<Handle>)
      modifies this`workers
      ensures h == if id in old(workers) then Some(old(workers)[id]) else None
      ensures workers == old(workers) - {id}
    {
      h := if id in workers then Some(workers[id]) else None;
      workers := workers - {id};
    }

    method CloneStream(id: StreamId) returns (h: Option<Handle>)
      ensures h == if id in streams then Some(streams[id]) else None
    {
      h := if id in streams then Some(streams[id]) else None;
    }

    method TakeStream(id: StreamId) returns (h: Option<Handle>)
      modifies this`streams
      ensures h == if id in old(streams) then Some(old(streams)[id]) else None
      ensures streams == old(streams) - {id}
    {
      h := if id in streams then Some(streams[id]) else None;
      streams := streams - {id};
    }
  }

  /** A command or an event in the runtime's queue; identifiers are generated by the environment. */
  datatype Message =
    | RegisterWorker(worker: WorkerId, workerHandle: Handle, capabilities: set<Capability>)
    | RegisterStream(stream: StreamId, streamHandle: Handle)
    | Submit(event: Event)

  class GatewayRuntime {
    var state: Kernel.State
    const registry: ChannelRegistry

    ghost function AsValue(): Gateway
      reads this, registry
    {
      Gateway(state, registry.AsValue())
    }

    constructor (workerTtl: nat, streamTtl: nat)
      ensures AsValue() == Start(workerTtl, streamTtl) && fresh(registry)
    {
      state := New(workerTtl, streamTtl);
      registry := new ChannelRegistry();
    }

    method ResolveEffects(effects: seq<Effect>) returns (resolved: seq<Resolved>, fallbacks: seq<Event>)
      modifies registry
      ensures Delivery(registry.AsValue(), resolved, fallbacks) == ResolveAll(old(registry.AsValue()), effects)
    {
      resolved, fallbacks := [], [];
      for k := 0 to |effects|
        invariant Delivery(registry.AsValue(), resolved, fallbacks) == ResolveAll(old(registry.AsValue()), effects[..k])
      {
        assert effects[..k + 1][..k] == effects[..k];
        match effects[k] {
          case DispatchJob(worker, stream, capability, payload) =>
            var workerHandle := registry.TakeWorker(worker);
            if workerHandle.None? {
              fallbacks := fallbacks + [AssignmentFailed(stream, "worker handle not found")];
              continue;
            }
            var streamHandle := registry.CloneStream(stream);
            if streamHandle.None? {
              fallbacks := fallbacks + [AssignmentFailed(stream, "stream handle not found")];
              continue;
            }
            resolved := resolved + [JobSent(worker, workerHandle.value, stream, streamHandle.value, capability, payload)];
          case SendClientError(stream, message) =>
            var handle := registry.CloneStream(stream);
            if handle.Some? {
              resolved := resolved + [ErrorSent(stream, handle.value, message)];
            }
          case SendClientDone(stream) =>
            var handle := registry.TakeStream(stream);
            if handle.Some? {
              resolved := resolved + [DoneSent(stream, handle.value)];
            }
          case ProtocolViolation(source, message) =>
            resolved := resolved + [Logged(source, message)];
        }
      }
      assert effects[..|effects|] == effects;
    }

    /** The sequential part of processing a message; the fallbacks go back into the queue. */
    method ProcessMessage(m: Message) returns (resolved: seq<Resolved>, fallbacks: seq<Event>)
      modifies this, registry
      ensures AsValue() == Step(old(AsValue()), m).gateway
      ensures resolved == Step(old(AsValue()), m).resolved
      ensures fallbacks == Step(old(AsValue()), m).fallbacks
    {
      var effects: seq<Effect> := [];
      match m {
        case RegisterWorker(worker, handle, capabilities) =>
          registry.RegisterWorker(worker, handle);
          var t := Reduce(state, WorkerRegistered(worker, capabilities));
          state, effects := t.state, t.effects;
        case RegisterStream(stream, handle) =>
          registry.RegisterStream(stream, handle);
        case Submit(event) =>
          var t := Reduce(state, event);
          state, effects := t.state, t.effects;
      }
      resolved, fallbacks := ResolveEffects(effects);
    }
  }

  // ------------------------------------------------------------------------------- runs

  datatype Gateway = Gateway(kernel: Kernel.State, registry: Registry)

  datatype StepResult = StepResult(gateway: Gateway, resolved: seq<Resolved>, fallbacks: seq<Event>)

  function Start(workerTtl: nat, streamTtl: nat): Gateway {
    Gateway(New(workerTtl, streamTtl), Registry(map[], map[]))
  }

  /** The kernel transition a message causes, with the handle table as it then stands. */
  function Accept(g: Gateway, m: Message): (Kernel.Transition, Registry) {
    match m
    case RegisterWorker(worker, handle, capabilities) =>
      (Reduce(g.kernel, WorkerRegistered(worker, capabilities)), g.registry.(workers := g.registry.workers[worker := handle]))
    case RegisterStream(stream, handle) =>
      (Transition(g.kernel, []), g.registry.(streams := g.registry.streams[stream := handle]))
    case Submit(event) => (Reduce(g.kernel, event), g.registry)
  }

  function Step(g: Gateway, m: Message): StepResult {
    var (t, reg) := Accept(g, m);
    var r := ResolveAll(reg, t.effects);
    StepResult(Gateway(t.state, r.registry), r.resolved, r.fallbacks)
  }

  function Run(g: Gateway, ms: seq<Message>): Gateway {
    if ms == [] then g else Step(Run(g, ms[..|ms| - 1]), ms[|ms| - 1]).gateway
  }

  /** Everything resolved in a run, in order. */
  function Trace(g: Gateway, ms: seq<Message>): seq<Resolved> {
    if ms == [] then []
    else Trace(g, ms[..|ms| - 1]) + Step(Run(g, ms[..|ms| - 1]), ms[|ms| - 1]).resolved
  }

  ghost predicate WorkerIssued(ms: seq<Message>, w: WorkerId) {
    exists m :: m in ms && m.RegisterWorker? && m.worker == w
  }

  ghost predicate StreamIssued(ms: seq<Message>, s: StreamId) {
    exists m :: m in ms && m.RegisterStream? && m.stream == s
  }

  /**
   Runs the environment can cause: generated identifiers are fresh, workers register only through the
   registry, and hash maps are walked completely.  Any other event may come at any time with any ids,
   so fallback events, delayed and interleaved in any way, are covered.
   */
  ghost predicate Allowed(g: Gateway, before: seq<Message>, m: Message) {
    && (m.RegisterWorker? ==> !WorkerIssued(before, m.worker))
    && (m.RegisterStream? ==> !StreamIssued(before, m.stream))
    && (m.Submit? ==> !m.event.WorkerRegistered? && Possible(g.kernel, m.event))
  }

  ghost predicate AllowedRun(g: Gateway, ms: seq<Message>)
    decreases ms
  {
    ms == [] ||
    (AllowedRun(g, ms[..|ms| - 1]) && Allowed(Run(g, ms[..|ms| - 1]), ms[..|ms| - 1], ms[|ms| - 1]))
  }

  // --------------------------------------------------------- what resolving effects does

  predicate Concerns(r: Resolved, s: StreamId) {
    !r.Logged? && r.stream == s
  }

  /** After a done nothing more is resolved for its stream. */
  ghost predicate DoneIsLast(trace: seq<Resolved>) {
    forall i, j :: 0 <= i < j < |trace| && trace[i].DoneSent? ==> !Concerns(trace[j], trace[i].stream)
  }

  ghost predicate HasDone(trace: seq<Resolved>, s: StreamId) {
    exists r :: r in trace && r.DoneSent? && r.stream == s
  }

  /** Handles are only ever taken, and what is resolved for a stream needs its handle. */
  lemma {:induction false} HandlesOnlyTaken(reg: Registry, effects: seq<Effect>)
    ensures forall s: StreamId :: s in ResolveAll(reg, effects).registry.streams ==> s in reg.streams
    ensures forall w: WorkerId :: w in ResolveAll(reg, effects).registry.workers ==> w in reg.workers
    ensures forall r :: r in ResolveAll(reg, effects).resolved && !r.Logged? ==> r.stream in reg.streams
  {
    if effects != [] {
      HandlesOnlyTaken(reg, effects[..|effects| - 1]);
    }
  }

  /** A done effect for a registered stream is resolved, once, and takes the handle. */
  lemma {:induction false} DoneTakesHandle(reg: Registry, effects: seq<Effect>, s: StreamId)
    requires s in reg.streams
    ensures s in ResolveAll(reg, effects).registry.streams <==> SendClientDone(s) !in effects
    ensures HasDone(ResolveAll(reg, effects).resolved, s) <==> SendClientDone(s) in effects
  {
    if effects != [] {
      var n := |effects| - 1;
      DoneTakesHandle(reg, effects[..n], s);
      assert effects == effects[..n] + [effects[n]];
      var before := ResolveAll(reg, effects[..n]);
      var last := ResolveOne(before.registry, effects[n]);
      HasDoneAppend(before.resolved, last.resolved, s);
      OneDoneTakesHandle(before.registry, effects[n], s);
    }
  }

  lemma OneDoneTakesHandle(reg: Registry, effect: Effect, s: StreamId)
    ensures s in ResolveOne(reg, effect).registry.streams <==> s in reg.streams && effect != SendClientDone(s)
    ensures HasDone(ResolveOne(reg, effect).resolved, s) <==> s in reg.streams && effect == SendClientDone(s)
  {
    var resolved := ResolveOne(reg, effect).resolved;
    if s in reg.streams && effect == SendClientDone(s) {
      assert resolved[0] in resolved;
    }
  }

  lemma {:induction false} ResolvedDoneIsLast(reg: Registry, effects: seq<Effect>)
    ensures DoneIsLast(ResolveAll(reg, effects).resolved)
  {
    if effects != [] {
      var n := |effects| - 1;
      ResolvedDoneIsLast(reg, effects[..n]);
      HandlesOnlyTaken(reg, effects[..n]);
      var before := ResolveAll(reg, effects[..n]);
      var last := ResolveOne(before.registry, effects[n]);
      forall s: StreamId | HasDone(before.resolved, s) ensures forall r :: r in last.resolved ==> !Concerns(r, s) {
        var r :| r in before.resolved && r.DoneSent? && r.stream == s;
        DoneTakesHandle(reg, effects[..n], s);
      }
      assert |last.resolved| <= 1;
      DoneIsLastAppend(before.resolved, last.resolved);
    }
  }

  lemma DoneIsLastAppend(a: seq<Resolved>, b: seq<Resolved>)
    requires DoneIsLast(a) && DoneIsLast(b)
    requires forall s: StreamId :: HasDone(a, s) ==> forall r :: r in b ==> !Concerns(r, s)
    ensures DoneIsLast(a + b)
  {
    var all := a + b;
    forall i, j | 0 <= i < j < |all| && all[i].DoneSent? ensures !Concerns(all[j], all[i].stream) {
      if i < |a| <= j {
        assert a[i] in a && HasDone(a, a[i].stream);
        assert all[j] in b;
      } else if i >= |a| {
        assert b[i - |a|].DoneSent?;
      }
    }
  }

  lemma HasDoneAppend(a: seq<Resolved>, b: seq<Resolved>, s: StreamId)
    ensures HasDone(a + b, s) <==> HasDone(a, s) || HasDone(b, s)
  {
    if HasDone(a, s) {
      var r :| r in a && r.DoneSent? && r.stream == s;
      assert r in a + b;
    }
    if HasDone(b, s) {
      var r :| r in b && r.DoneSent? && r.stream == s;
      assert r in a + b;
    }
  }

  lemma {:induction false} NoJobWithoutDispatch(reg: Registry, effects: seq<Effect>)
    requires forall e :: e in effects ==> !e.DispatchJob?
    ensures forall r :: r in ResolveAll(reg, effects).resolved ==> !r.JobSent?
    ensures ResolveAll(reg, effects).fallbacks == [] && ResolveAll(reg, effects).registry.workers == reg.workers
  {
    if effects != [] {
      var n := |effects| - 1;
      NoJobWithoutDispatch(reg, effects[..n]);
      assert effects[n] in effects;
    }
  }

  lemma ResolveSingle(reg: Registry, e: Effect)
    ensures ResolveAll(reg, [e]) == ResolveOne(reg, e)
  {
    assert [e][..0] == [];
    var r := ResolveOne(reg, e);
    assert [] + r.resolved == r.resolved && [] + r.fallbacks == r.fallbacks;
  }

  /** A step resolves a job, or falls back, only if its effects are one dispatch. */
  lemma StepDispatch(g: Gateway, m: Message) returns (e: Option<Effect>)
    ensures e.None? ==> Step(g, m).fallbacks == [] && forall r :: r in Step(g, m).resolved ==> !r.JobSent?
    ensures e.None? ==> Step(g, m).gateway.registry.workers == Accept(g, m).1.workers
    ensures e.Some? ==>
      && e.value.DispatchJob? && m.Submit? && Reduce(g.kernel, m.event).effects == [e.value]
      && Step(g, m).resolved == ResolveOne(g.registry, e.value).resolved
      && Step(g, m).fallbacks == ResolveOne(g.registry, e.value).fallbacks
      && Step(g, m).gateway.registry == ResolveOne(g.registry, e.value).registry
      && e.value.worker in g.kernel.available && e.value.stream !in g.kernel.activeStreams
      && e.value.stream in Step(g, m).gateway.kernel.activeStreams
      && Step(g, m).gateway.kernel.available == g.kernel.available - {e.value.worker}
  {
    var (t, reg) := Accept(g, m);
    if x :| x in t.effects && x.DispatchJob? {
      DispatchIsSound(g.kernel, if m.Submit? then m.event else WorkerRegistered(m.worker, m.capabilities));
      ResolveSingle(reg, x);
      e := Some(x);
    } else {
      NoJobWithoutDispatch(reg, t.effects);
      e := None;
    }
  }

  // -------------------------------------------------------------------- exactly once

  /** No worker and no stream is sent two jobs. */
  ghost predicate JobsAreUnique(trace: seq<Resolved>) {
    forall i, j :: 0 <= i < j < |trace| && trace[i].JobSent? && trace[j].JobSent? ==>
      trace[i].worker != trace[j].worker && trace[i].stream != trace[j].stream
  }

  ghost predicate HasJobFor(trace: seq<Resolved>, s: StreamId) {
    exists r :: r in trace && r.JobSent? && r.stream == s
  }

  /** Idle workers have handles; handles belong to issued ids; used handles are gone. */
  ghost predicate Invariant(g: Gateway, ms: seq<Message>, trace: seq<Resolved>) {
    && (forall w: WorkerId :: w in g.kernel.available ==> w in g.registry.workers)
    && (forall w: WorkerId :: w in g.registry.workers ==> WorkerIssued(ms, w))
    && (forall s: StreamId :: s in g.registry.streams ==> StreamIssued(ms, s))
    && (forall r :: r in trace && !r.Logged? ==> StreamIssued(ms, r.stream))
    && (forall r :: r in trace && r.JobSent? ==> WorkerIssued(ms, r.worker) && r.worker !in g.registry.workers)
    && (forall s: StreamId :: HasDone(trace, s) ==> s !in g.registry.streams)
    && (forall s: StreamId :: HasJobFor(trace, s) && s in g.registry.streams ==> s in g.kernel.activeStreams)
  }

  lemma IssuedSnoc(ms: seq<Message>, m: Message)
    ensures forall w: WorkerId :: WorkerIssued(ms + [m], w) <==> WorkerIssued(ms, w) || (m.RegisterWorker? && m.worker == w)
    ensures forall s: StreamId :: StreamIssued(ms + [m], s) <==> StreamIssued(ms, s) || (m.RegisterStream? && m.stream == s)
  {
    assert forall x :: x in ms + [m] <==> x in ms || x == m;
  }

  /** Handles after accepting a message: those before, and at most one for a fresh id. */
  lemma AcceptedHandles(g: Gateway, ms: seq<Message>, m: Message, trace: seq<Resolved>)
    requires Invariant(g, ms, trace) && Allowed(g, ms, m)
    ensures forall s: StreamId :: StreamIssued(ms, s) ==> (s in Accept(g, m).1.streams <==> s in g.registry.streams)
    ensures forall w: WorkerId :: WorkerIssued(ms, w) ==> (w in Accept(g, m).1.workers <==> w in g.registry.workers)
    ensures forall s: StreamId :: s in Accept(g, m).1.streams ==> StreamIssued(ms + [m], s)
    ensures forall w: WorkerId :: w in Accept(g, m).1.workers ==> WorkerIssued(ms + [m], w)
    ensures forall w: WorkerId :: w in Accept(g, m).0.state.available ==> w in Accept(g, m).1.workers
  {
    IssuedSnoc(ms, m);
    if m.Submit? {
      AvailabilityShrinks(g.kernel, m.event);
    } else if m.RegisterWorker? {
      AvailabilityShrinks(g.kernel, WorkerRegistered(m.worker, m.capabilities));
    }
  }

  lemma StepKeepsWorkerInvariant(g: Gateway, ms: seq<Message>, m: Message, trace: seq<Resolved>)
    requires Invariant(g, ms, trace) && Allowed(g, ms, m)
    ensures
      var r := Step(g, m);
      && (forall w: WorkerId :: w in r.gateway.kernel.available ==> w in r.gateway.registry.workers)
      && (forall w: WorkerId :: w in r.gateway.registry.workers ==> WorkerIssued(ms + [m], w))
      && (forall x :: x in trace + r.resolved && x.JobSent? ==> WorkerIssued(ms + [m], x.worker) && x.worker !in r.gateway.registry.workers)
  {
    AcceptedHandles(g, ms, m, trace);
    IssuedSnoc(ms, m);
    HandlesOnlyTaken(Accept(g, m).1, Accept(g, m).0.effects);
    var e := StepDispatch(g, m);
  }

  lemma StepKeepsStreamInvariant(g: Gateway, ms: seq<Message>, m: Message, trace: seq<Resolved>)
    requires Invariant(g, ms, trace) && Allowed(g, ms, m)
    ensures
      var r := Step(g, m);
      && (forall s: StreamId :: s in r.gateway.registry.streams ==> StreamIssued(ms + [m], s))
      && (forall x :: x in trace + r.resolved && !x.Logged? ==> StreamIssued(ms + [m], x.stream))
      && (forall s: StreamId :: HasDone(trace + r.resolved, s) ==> s !in r.gateway.registry.streams)
  {
    var r := Step(g, m);
    var (t, reg) := Accept(g, m);
    AcceptedHandles(g, ms, m, trace);
    IssuedSnoc(ms, m);
    HandlesOnlyTaken(reg, t.effects);
    forall s: StreamId | HasDone(trace + r.resolved, s) ensures s !in r.gateway.registry.streams {
      HasDoneAppend(trace, r.resolved, s);
      if HasDone(trace, s) {
        var x :| x in trace && x.DoneSent? && x.stream == s;
      } else {
        var x :| x in r.resolved && x.DoneSent? && x.stream == s;
        DoneTakesHandle(reg, t.effects, s);
      }
    }
  }

  lemma StepKeepsActiveInvariant(g: Gateway, ms: seq<Message>, m: Message, trace: seq<Resolved>, s: StreamId)
    requires Invariant(g, ms, trace) && Allowed(g, ms, m)
    requires HasJobFor(trace + Step(g, m).resolved, s) && s in Step(g, m).gateway.registry.streams
    ensures s in Step(g, m).gateway.kernel.activeStreams
  {
    var (t, reg) := Accept(g, m);
    AcceptedHandles(g, ms, m, trace);
    HandlesOnlyTaken(reg, t.effects);
    var e := StepDispatch(g, m);
    if HasJobFor(trace, s) {
      var x :| x in trace && x.JobSent? && x.stream == s;
      assert s in g.kernel.activeStreams;
      DoneTakesHandle(reg, t.effects, s);
      if m.Submit? {
        LeavingEmitsDone(g.kernel, m.event, s);
      }
    } else {
      var x :| x in trace + Step(g, m).resolved && x.JobSent? && x.stream == s;
      assert x in Step(g, m).resolved;
    }
  }

  lemma StepKeepsInvariant(g: Gateway, ms: seq<Message>, m: Message, trace: seq<Resolved>)
    requires Invariant(g, ms, trace) && Allowed(g, ms, m)
    ensures Invariant(Step(g, m).gateway, ms + [m], trace + Step(g, m).resolved)
  {
    StepKeepsWorkerInvariant(g, ms, m, trace);
    StepKeepsStreamInvariant(g, ms, m, trace);
    forall s: StreamId | HasJobFor(trace + Step(g, m).resolved, s) && s in Step(g, m).gateway.registry.streams
      ensures s in Step(g, m).gateway.kernel.activeStreams
    {
      StepKeepsActiveInvariant(g, ms, m, trace, s);
    }
  }

  /** One step neither sends a second job nor anything for a stream that is done, and finds its worker's handle. */
  lemma StepExactlyOnce(g: Gateway, ms: seq<Message>, m: Message, trace: seq<Resolved>)
    requires Invariant(g, ms, trace) && Allowed(g, ms, m) && DoneIsLast(trace) && JobsAreUnique(trace)
    ensures DoneIsLast(trace + Step(g, m).resolved)
    ensures JobsAreUnique(trace + Step(g, m).resolved)
    ensures forall f :: f in Step(g, m).fallbacks ==> f.AssignmentFailed? && f.message == "stream handle not found"
  {
    var (t, reg) := Accept(g, m);
    var resolved := Step(g, m).resolved;
    AcceptedHandles(g, ms, m, trace);
    HandlesOnlyTaken(reg, t.effects);
    ResolvedDoneIsLast(reg, t.effects);
    forall s: StreamId | HasDone(trace, s) ensures forall r :: r in resolved ==> !Concerns(r, s) {
      var x :| x in trace && x.DoneSent? && x.stream == s;
      assert s !in reg.streams;
    }
    DoneIsLastAppend(trace, resolved);
    StepJobsAreUnique(g, ms, m, trace);
    var e := StepDispatch(g, m);
  }

  lemma StepJobsAreUnique(g: Gateway, ms: seq<Message>, m: Message, trace: seq<Resolved>)
    requires Invariant(g, ms, trace) && Allowed(g, ms, m) && JobsAreUnique(trace)
    ensures JobsAreUnique(trace + Step(g, m).resolved)
  {
    var resolved := Step(g, m).resolved;
    var e := StepDispatch(g, m);
    var all := trace + resolved;
    forall i, j | 0 <= i < j < |all| && all[i].JobSent? && all[j].JobSent?
      ensures all[i].worker != all[j].worker && all[i].stream != all[j].stream
    {
      if j >= |trace| {
        assert all[j] in resolved;
        assert |resolved| <= 1 && i < |trace|;
        assert all[i] in trace && HasJobFor(trace, all[i].stream);
      }
    }
  }

  ghost predicate Sound(g: Gateway, ms: seq<Message>, trace: seq<Resolved>) {
    Invariant(g, ms, trace) && DoneIsLast(trace) && JobsAreUnique(trace)
  }

  lemma StepKeepsSound(g: Gateway, ms: seq<Message>, m: Message, trace: seq<Resolved>)
    requires Sound(g, ms, trace) && Allowed(g, ms, m)
    ensures Sound(Step(g, m).gateway, ms + [m], trace + Step(g, m).resolved)
  {
    StepKeepsInvariant(g, ms, m, trace);
    StepExactlyOnce(g, ms, m, trace);
  }

  lemma {:induction false} RunIsSound(g: Gateway, ms: seq<Message>)
    requires Sound(g, [], []) && AllowedRun(g, ms)
    ensures Sound(Run(g, ms), ms, Trace(g, ms))
  {
    if ms != [] {
      var n := |ms| - 1;
      RunIsSound(g, ms[..n]);
      assert ms == ms[..n] + [ms[n]];
      StepKeepsSound(Run(g, ms[..n]), ms[..n], ms[n], Trace(g, ms[..n]));
    }
  }

  /**
   Over every run with fresh ids: idle workers have handles, so the fallback for a missing worker handle
   is never produced; each worker and each stream gets at most one job; each stream gets at most one done,
   and nothing is resolved for it afterwards.
   */
  lemma ExactlyOnce(workerTtl: nat, streamTtl: nat, ms: seq<Message>, m: Message)
    requires AllowedRun(Start(workerTtl, streamTtl), ms)
    requires Allowed(Run(Start(workerTtl, streamTtl), ms), ms, m)
    ensures
      var g, trace := Run(Start(workerTtl, streamTtl), ms), Trace(Start(workerTtl, streamTtl), ms);
      && (forall w: WorkerId :: w in g.kernel.available ==> w in g.registry.workers)
      && (forall f :: f in Step(g, m).fallbacks ==> f.AssignmentFailed? && f.message == "stream handle not found")
      && (forall i, j :: 0 <= i < j < |trace| && trace[i].JobSent? && trace[j].JobSent? ==>
            trace[i].worker != trace[j].worker && trace[i].stream != trace[j].stream)
      && (forall i, j :: 0 <= i < j < |trace| && trace[i].DoneSent? ==> !Concerns(trace[j], trace[i].stream))
  {
    RunIsSound(Start(workerTtl, streamTtl), ms);
    var g, trace := Run(Start(workerTtl, streamTtl), ms), Trace(Start(workerTtl, streamTtl), ms);
    StepExactlyOnce(g, ms, m, trace);
  }

  /** An idle worker that expires stays in the handle table: only a dispatch takes a worker's handle. */
  lemma OnlyDispatchTakesWorkerHandles(g: Gateway, m: Message, w: WorkerId)
    requires w in g.registry.workers
    ensures w !in Step(g, m).gateway.registry.workers <==>
      m.Submit? && exists e :: e in Reduce(g.kernel, m.event).effects && e.DispatchJob? && e.worker == w
    ensures m.Submit? && m.event.Tick? ==> w in Step(g, m).gateway.registry.workers
  {
    var e := StepDispatch(g, m);
    if m.Submit? {
      if x :| x in Reduce(g.kernel, m.event).effects && x.DispatchJob? {
        DispatchIsSound(g.kernel, m.event);
        ResolveSingle(g.registry, x);
      }
      if m.event.Tick? {
        DispatchIsSound(g.kernel, m.event);
      }
    }
  }

  /** A run in which an idle worker has expired while its handle is still registered. */
  lemma ExpiredWorkerKeepsHandle(streamTtl: nat)
    ensures
      var g := Run(Start(1, streamTtl), [RegisterWorker(0, 0, {Chat}), Submit(Tick([]))]);
      0 !in g.kernel.available && 0 in g.registry.workers
  {
    var g := Start(1, streamTtl);
    var m0, m1 := RegisterWorker(0, 0, {Chat}), Submit(Tick([]));
    RunOneMore(g, [], m0);
    RunOneMore(g, [m0], m1);
    assert [m0, m1] == [m0] + [m1] && [] + [m0] == [m0];
    Registering(g, 0, 0, {Chat});
    OnlyDispatchTakesWorkerHandles(Run(g, [m0]), m1, 0);
  }

  // ------------------------------------------------------------- no request is forgotten

  /** A request came in for the stream at a moment when its handle was registered. */
  ghost predicate Asked(g: Gateway, ms: seq<Message>, s: StreamId) {
    exists k :: 0 <= k < |ms| && RequestFor(ms[k], s) && s in Run(g, ms[..k]).registry.streams
  }

  predicate RequestFor(m: Message, s: StreamId) {
    m.Submit? && m.event.HttpChatRequested? && m.event.stream == s
  }

  lemma StepAnswersOrKeeps(g: Gateway, m: Message, s: StreamId)
    requires m.Submit? ==> Possible(g.kernel, m.event)
    requires s in g.registry.streams && (s in g.kernel.activeStreams || RequestFor(m, s))
    ensures HasDone(Step(g, m).resolved, s)
      || (s in Step(g, m).gateway.kernel.activeStreams && s in Step(g, m).gateway.registry.streams)
  {
    var (t, reg) := Accept(g, m);
    DoneTakesHandle(reg, t.effects, s);
    if m.Submit? {
      LeavingEmitsDone(g.kernel, m.event, s);
    }
  }

  /** Such a stream has been sent its done, or is still active with its handle in place. */
  lemma {:induction false} AskedIsAnsweredOrActive(g: Gateway, ms: seq<Message>, s: StreamId)
    requires AllowedRun(g, ms) && Asked(g, ms, s)
    ensures HasDone(Trace(g, ms), s) || (s in Run(g, ms).kernel.activeStreams && s in Run(g, ms).registry.streams)
    decreases ms
  {
    var n := |ms| - 1;
    var prev, m := ms[..n], ms[n];
    var h := Run(g, prev);
    HasDoneAppend(Trace(g, prev), Step(h, m).resolved, s);
    AskedBefore(g, ms, s);
    if Asked(g, prev, s) {
      AskedIsAnsweredOrActive(g, prev, s);
    }
    if !HasDone(Trace(g, prev), s) {
      StepAnswersOrKeeps(h, m, s);
    }
  }

  lemma AskedBefore(g: Gateway, ms: seq<Message>, s: StreamId)
    requires Asked(g, ms, s)
    ensures ms != []
    ensures Asked(g, ms[..|ms| - 1], s)
      || (RequestFor(ms[|ms| - 1], s) && s in Run(g, ms[..|ms| - 1]).registry.streams)
  {
    var k :| 0 <= k < |ms| && RequestFor(ms[k], s) && s in Run(g, ms[..k]).registry.streams;
    var prev := ms[..|ms| - 1];
    if k < |prev| {
      assert prev[..k] == ms[..k] && RequestFor(prev[k], s);
    }
  }

  // ------------------------------------------------------------ what is sent, and with what

  /** Resolving leaves the handles that remain as they are. */
  lemma {:induction false} HandlesUnchanged(reg: Registry, effects: seq<Effect>)
    ensures forall w: WorkerId :: w in ResolveAll(reg, effects).registry.workers ==>
      w in reg.workers && ResolveAll(reg, effects).registry.workers[w] == reg.workers[w]
    ensures forall s: StreamId :: s in ResolveAll(reg, effects).registry.streams ==>
      s in reg.streams && ResolveAll(reg, effects).registry.streams[s] == reg.streams[s]
  {
    if effects != [] {
      HandlesUnchanged(reg, effects[..|effects| - 1]);
    }
  }

  /** What is sent comes from an effect, says what it says, and goes through the handles of its worker and stream. */
  ghost predicate Sent(r: Resolved, reg: Registry, effects: seq<Effect>) {
    match r
    case JobSent(w, workerHandle, s, handle, capability, payload) =>
      && DispatchJob(w, s, capability, payload) in effects
      && w in reg.workers && workerHandle == reg.workers[w] && s in reg.streams && handle == reg.streams[s]
    case ErrorSent(s, handle, message) =>
      SendClientError(s, message) in effects && s in reg.streams && handle == reg.streams[s]
    case DoneSent(s, handle) =>
      SendClientDone(s) in effects && s in reg.streams && handle == reg.streams[s]
    case Logged(source, message) => ProtocolViolation(source, message) in effects
  }

  /** What goes back into the queue fails the assignment of a dispatched stream, for a missing handle. */
  ghost predicate FailsDispatch(f: Event, reg: Registry, effects: seq<Effect>) {
    && f.AssignmentFailed? && (f.message == "stream handle not found" || f.message == "worker handle not found")
    && exists e :: e in effects && e.DispatchJob? && e.stream == f.stream
  }

  lemma {:induction false} ResolvedAreSent(reg: Registry, effects: seq<Effect>)
    ensures forall r :: r in ResolveAll(reg, effects).resolved ==> Sent(r, reg, effects)
    ensures forall f :: f in ResolveAll(reg, effects).fallbacks ==> FailsDispatch(f, reg, effects)
  {
    if effects != [] {
      var n := |effects| - 1;
      var prev, e := effects[..n], effects[n];
      var before := ResolveAll(reg, prev);
      var last := ResolveOne(before.registry, e);
      ResolvedAreSent(reg, prev);
      HandlesUnchanged(reg, prev);
      assert effects == prev + [e] && e in effects;
      forall r | r in before.resolved + last.resolved ensures Sent(r, reg, effects) {
        assert r in before.resolved ==> Sent(r, reg, prev);
      }
      forall f | f in before.fallbacks + last.fallbacks ensures FailsDispatch(f, reg, effects) {
        assert f in before.fallbacks ==> FailsDispatch(f, reg, prev);
      }
    }
  }

  /** An error is sent with its own message if its stream has a handle that no earlier done has taken. */
  lemma {:induction false} ErrorIsSent(reg: Registry, effects: seq<Effect>, i: nat)
    requires i < |effects| && effects[i].SendClientError? && effects[i].stream in reg.streams
    requires SendClientDone(effects[i].stream) !in effects[..i]
    ensures ErrorSent(effects[i].stream, reg.streams[effects[i].stream], effects[i].message) in ResolveAll(reg, effects).resolved
    decreases |effects|
  {
    var n := |effects| - 1;
    var before := ResolveAll(reg, effects[..n]);
    var last := ResolveOne(before.registry, effects[n]);
    if i < n {
      assert effects[..n][..i] == effects[..i];
      ErrorIsSent(reg, effects[..n], i);
    } else {
      DoneTakesHandle(reg, effects[..n], effects[n].stream);
      HandlesUnchanged(reg, effects[..n]);
      assert last.resolved == [ErrorSent(effects[n].stream, reg.streams[effects[n].stream], effects[n].message)];
      assert last.resolved[0] in last.resolved;
    }
  }

  /** Every protocol violation is logged as it stands. */
  lemma {:induction false} ViolationIsLogged(reg: Registry, effects: seq<Effect>, i: nat)
    requires i < |effects| && effects[i].ProtocolViolation?
    ensures Logged(effects[i].source, effects[i].message) in ResolveAll(reg, effects).resolved
    decreases |effects|
  {
    var n := |effects| - 1;
    var last := ResolveOne(ResolveAll(reg, effects[..n]).registry, effects[n]);
    if i < n {
      ViolationIsLogged(reg, effects[..n], i);
    } else {
      assert last.resolved == [Logged(effects[n].source, effects[n].message)];
      assert last.resolved[0] in last.resolved;
    }
  }

  /** The kernel never emits an error for a stream after its done. */
  lemma ErrorsComeBeforeDone(s: Kernel.State, event: Event, i: nat)
    requires Possible(s, event) && i < |Reduce(s, event).effects| && Reduce(s, event).effects[i].SendClientError?
    ensures SendClientDone(Reduce(s, event).effects[i].stream) !in Reduce(s, event).effects[..i]
  {
    if event.Tick? {
      TickErrorsComeFirst(s, event.walk, i);
    } else {
      OnlyFirstIsError(s, event, i);
      assert Reduce(s, event).effects[..0] == [];
    }
  }

  lemma TickErrorsComeFirst(s: Kernel.State, walk: seq<StreamId>, i: nat)
    requires Walks(walk, s.activeStreams) && i < |Reduce(s, Tick(walk)).effects| && Reduce(s, Tick(walk)).effects[i].SendClientError?
    ensures SendClientDone(Reduce(s, Tick(walk)).effects[i].stream) !in Reduce(s, Tick(walk)).effects[..i]
  {
    DueMeaning(s.activeStreams, walk, s.tick + 1);
    TimeoutErrorsComeFirst(Due(s.activeStreams, walk, s.tick + 1), i);
  }

  lemma OnlyFirstIsError(s: Kernel.State, event: Event, i: nat)
    requires !event.Tick? && i < |Reduce(s, event).effects| && Reduce(s, event).effects[i].SendClientError?
    ensures i == 0
  {
  }

  lemma {:induction false} TimeoutErrorsComeFirst(expired: seq<StreamId>, i: nat)
    requires forall j, k :: 0 <= j < k < |expired| ==> expired[j] != expired[k]
    requires i < |Timeouts(expired)| && Timeouts(expired)[i].SendClientError?
    ensures SendClientDone(Timeouts(expired)[i].stream) !in Timeouts(expired)[..i]
  {
    var n := |expired| - 1;
    var before, all := Timeouts(expired[..n]), Timeouts(expired);
    if i < |before| {
      TimeoutErrorsComeFirst(expired[..n], i);
      assert all[..i] == before[..i];
    } else {
      assert all == before + Refuse(expired[n], TIMED_OUT);
      assert i == |before| && all[..i] == before;
      NoTimeoutUnlessExpired(expired[..n], expired[n]);
    }
  }

  /** Every error the kernel emits for a stream with a handle is sent through it, with its own message. */
  lemma ErrorsAreSent(g: Gateway, event: Event, e: Effect)
    requires Possible(g.kernel, event) && e in Reduce(g.kernel, event).effects
    requires e.SendClientError? && e.stream in g.registry.streams
    ensures ErrorSent(e.stream, g.registry.streams[e.stream], e.message) in Step(g, Submit(event)).resolved
  {
    var effects := Reduce(g.kernel, event).effects;
    var i :| 0 <= i < |effects| && effects[i] == e;
    ErrorsComeBeforeDone(g.kernel, event, i);
    ErrorIsSent(g.registry, effects, i);
  }

  /** The worker, or stream, was registered with this handle. */
  ghost predicate WorkerHandle(ms: seq<Message>, w: WorkerId, h: Handle) {
    exists m :: m in ms && m.RegisterWorker? && m.worker == w && m.workerHandle == h
  }

  ghost predicate StreamHandle(ms: seq<Message>, s: StreamId, h: Handle) {
    RegisterStream(s, h) in ms
  }

  /** What is sent goes through the handles registered for its worker and stream, and a job is what was asked. */
  ghost predicate Proper(r: Resolved, ms: seq<Message>) {
    match r
    case JobSent(w, workerHandle, s, handle, capability, payload) =>
      && WorkerHandle(ms, w, workerHandle) && StreamHandle(ms, s, handle)
      && Submit(HttpChatRequested(s, payload, true, capability)) in ms
    case ErrorSent(s, handle, _) => StreamHandle(ms, s, handle)
    case DoneSent(s, handle) => StreamHandle(ms, s, handle)
    case Logged(_, _) => true
  }

  ghost predicate KeepsHandles(g: Gateway, ms: seq<Message>) {
    && (forall w: WorkerId :: w in g.registry.workers ==> WorkerHandle(ms, w, g.registry.workers[w]))
    && (forall s: StreamId :: s in g.registry.streams ==> StreamHandle(ms, s, g.registry.streams[s]))
  }

  lemma AcceptedKeepsHandles(g: Gateway, ms: seq<Message>, m: Message)
    requires KeepsHandles(g, ms)
    ensures KeepsHandles(Gateway(g.kernel, Accept(g, m).1), ms + [m])
  {
    var reg, all := Accept(g, m).1, ms + [m];
    assert m in all;
    forall w: WorkerId | w in reg.workers ensures WorkerHandle(all, w, reg.workers[w]) {
      if !(m.RegisterWorker? && m.worker == w) {
        var x :| x in ms && x.RegisterWorker? && x.worker == w && x.workerHandle == g.registry.workers[w];
        assert x in all;
      }
    }
  }

  lemma StepIsProper(g: Gateway, ms: seq<Message>, m: Message)
    requires KeepsHandles(g, ms)
    ensures KeepsHandles(Step(g, m).gateway, ms + [m])
    ensures forall r :: r in Step(g, m).resolved ==> Proper(r, ms + [m])
  {
    var (t, reg) := Accept(g, m);
    AcceptedKeepsHandles(g, ms, m);
    HandlesUnchanged(reg, t.effects);
    ResolvedAreSent(reg, t.effects);
    forall r | r in Step(g, m).resolved ensures Proper(r, ms + [m]) {
      assert Sent(r, reg, t.effects);
      if r.JobSent? && m.Submit? {
        DispatchIsSound(g.kernel, m.event);
      }
    }
  }

  lemma ProperLater(r: Resolved, ms: seq<Message>, m: Message)
    requires Proper(r, ms)
    ensures Proper(r, ms + [m])
  {
    if r.JobSent? {
      var x :| x in ms && x.RegisterWorker? && x.worker == r.worker && x.workerHandle == r.workerHandle;
      assert x in ms + [m];
    }
  }

  /** In every run, all that is sent goes through the right handles, and every job sent is one that was asked for. */
  lemma {:induction false} AllSentIsProper(workerTtl: nat, streamTtl: nat, ms: seq<Message>)
    ensures KeepsHandles(Run(Start(workerTtl, streamTtl), ms), ms)
    ensures forall r :: r in Trace(Start(workerTtl, streamTtl), ms) ==> Proper(r, ms)
  {
    if ms != [] {
      var n := |ms| - 1;
      var g := Start(workerTtl, streamTtl);
      AllSentIsProper(workerTtl, streamTtl, ms[..n]);
      StepIsProper(Run(g, ms[..n]), ms[..n], ms[n]);
      assert ms == ms[..n] + [ms[n]];
      forall r | r in Trace(g, ms[..n]) ensures Proper(r, ms) {
        ProperLater(r, ms[..n], ms[n]);
      }
    }
  }

  lemma HandleSnoc(ms: seq<Message>, m: Message)
    ensures forall w: WorkerId, h :: WorkerHandle(ms + [m], w, h) <==>
      WorkerHandle(ms, w, h) || (m.RegisterWorker? && m.worker == w && m.workerHandle == h)
    ensures forall s: StreamId, h :: StreamHandle(ms + [m], s, h) <==> StreamHandle(ms, s, h) || m == RegisterStream(s, h)
    ensures forall w: WorkerId, h :: WorkerHandle(ms, w, h) ==> WorkerIssued(ms, w)
    ensures forall s: StreamId, h :: StreamHandle(ms, s, h) ==> StreamIssued(ms, s)
  {
    var all := ms + [m];
    assert m in all;
    forall w: WorkerId, h ensures WorkerHandle(all, w, h) <==>
      WorkerHandle(ms, w, h) || (m.RegisterWorker? && m.worker == w && m.workerHandle == h)
    {
      if x :| x in ms && x.RegisterWorker? && x.worker == w && x.workerHandle == h {
        assert x in all;
      }
    }
    forall s: StreamId, h | StreamHandle(ms, s, h) ensures StreamIssued(ms, s) {
      assert RegisterStream(s, h).stream == s;
    }
  }

  /** With fresh ids there is only one handle each. */
  lemma {:induction false} HandlesAreUnique(g: Gateway, ms: seq<Message>)
    requires AllowedRun(g, ms)
    ensures forall w: WorkerId, h, k :: WorkerHandle(ms, w, h) && WorkerHandle(ms, w, k) ==> h == k
    ensures forall s: StreamId, h, k :: StreamHandle(ms, s, h) && StreamHandle(ms, s, k) ==> h == k
  {
    if ms != [] {
      var n := |ms| - 1;
      HandlesAreUnique(g, ms[..n]);
      assert ms == ms[..n] + [ms[n]];
      HandleSnoc(ms[..n], ms[n]);
    }
  }

  /** A registered stream keeps its handle until it is sent its done. */
  lemma {:induction false} RegisteredUntilDone(g: Gateway, ms: seq<Message>, s: StreamId)
    requires StreamIssued(ms, s)
    ensures s in Run(g, ms).registry.streams || HasDone(Trace(g, ms), s)
  {
    var n := |ms| - 1;
    var prev, m := ms[..n], ms[n];
    var h := Run(g, prev);
    assert ms == prev + [m];
    HasDoneAppend(Trace(g, prev), Step(h, m).resolved, s);
    if StreamIssued(prev, s) {
      RegisteredUntilDone(g, prev, s);
    } else {
      var x :| x in ms && x.RegisterStream? && x.stream == s;
      assert x == m;
    }
    var (t, reg) := Accept(h, m);
    if s in reg.streams {
      DoneTakesHandle(reg, t.effects, s);
    }
  }

  // --------------------------------------------------------------- what costs a handle

  /** A done for a stream that stays active answers a further request for it. */
  lemma DoneWhileActive(s: Kernel.State, event: Event, stream: StreamId)
    requires Possible(s, event) && stream in s.activeStreams && stream in Reduce(s, event).state.activeStreams
    ensures SendClientDone(stream) in Reduce(s, event).effects <==> event.HttpChatRequested? && event.stream == stream
  {
    if event.Tick? {
      var expired := Due(s.activeStreams, event.walk, s.tick + 1);
      DueMeaning(s.activeStreams, event.walk, s.tick + 1);
      NoTimeoutUnlessExpired(expired, stream);
    } else if event.HttpChatRequested? && event.stream == stream {
      LastOfRefusal(Reduce(s, event).effects);
    }
  }

  lemma LastOfRefusal(effects: seq<Effect>)
    ensures |effects| == 2 ==> effects[1] in effects
  {
  }

  /** An active stream loses its handle and stays active exactly when it is requested again. */
  lemma ActiveStreamKeepsHandle(g: Gateway, m: Message, s: StreamId)
    requires m.Submit? ==> Possible(g.kernel, m.event)
    requires s in g.kernel.activeStreams && s in g.registry.streams
    ensures s in Step(g, m).gateway.kernel.activeStreams && s !in Step(g, m).gateway.registry.streams <==> RequestFor(m, s)
  {
    var (t, reg) := Accept(g, m);
    DoneTakesHandle(reg, t.effects, s);
    if m.Submit? && s in t.state.activeStreams {
      DoneWhileActive(g.kernel, m.event, s);
    }
  }

  /** A dispatched worker is gone either way; its job is sent exactly when the stream has a handle. */
  lemma JobSentIffStreamHasHandle(g: Gateway, event: Event, e: Effect)
    requires e in Reduce(g.kernel, event).effects && e.DispatchJob? && e.worker in g.registry.workers
    ensures (exists r :: r in Step(g, Submit(event)).resolved && r.JobSent?) <==> e.stream in g.registry.streams
    ensures
      var r := Step(g, Submit(event));
      if e.stream in g.registry.streams then
        && r.resolved == [JobSent(e.worker, g.registry.workers[e.worker], e.stream, g.registry.streams[e.stream], e.capability, e.payload)]
        && r.fallbacks == []
      else r.resolved == [] && r.fallbacks == [AssignmentFailed(e.stream, "stream handle not found")]
    ensures e.worker !in Step(g, Submit(event)).gateway.registry.workers
    ensures e.worker !in Step(g, Submit(event)).gateway.kernel.available
  {
    DispatchIsSound(g.kernel, event);
    ResolveSingle(g.registry, e);
    var resolved := Step(g, Submit(event)).resolved;
    assert |resolved| > 0 ==> resolved[0] in resolved;
  }

  lemma RunOneMore(g: Gateway, ms: seq<Message>, m: Message)
    ensures Run(g, ms + [m]) == Step(Run(g, ms), m).gateway
    ensures Trace(g, ms + [m]) == Trace(g, ms) + Step(Run(g, ms), m).resolved
  {
    assert (ms + [m])[..|ms|] == ms;
  }

  lemma Registering(g: Gateway, worker: WorkerId, handle: Handle, capabilities: set<Capability>)
    requires worker !in g.kernel.available
    ensures Step(g, RegisterWorker(worker, handle, capabilities)) == StepResult(
      Gateway(g.kernel.(available := g.kernel.available[worker := WorkerEntry(g.kernel.tick + g.kernel.workerTtl, capabilities)]),
              g.registry.(workers := g.registry.workers[worker := handle])), [], [])
  {
  }

  /** The request a router makes for a stream. */
  function ChatRequest(stream: StreamId): Message {
    Submit(HttpChatRequested(stream, "", true, Chat))
  }

  /** An idle worker gets the request, whether or not the stream has a handle. */
  lemma Dispatching(g: Gateway, stream: StreamId)
    requires g.kernel.available.Keys == {0} && Chat in g.kernel.available[0].capabilities && stream !in g.kernel.activeStreams
    ensures Reduce(g.kernel, ChatRequest(stream).event).effects == [DispatchJob(0, stream, Chat, "")]
    ensures stream in Reduce(g.kernel, ChatRequest(stream).event).state.activeStreams
  {
    assert 0 in Capable(g.kernel, Chat);
    assert Capable(g.kernel, Chat) <= {0};
  }

  /** A run in which an active stream is requested again and loses its handle while its job goes on. */
  lemma SecondRequestTakesHandle(workerTtl: nat, streamTtl: nat)
    ensures
      var ms := [RegisterWorker(0, 0, {Chat}), RegisterStream(0, 0), ChatRequest(0), ChatRequest(0)];
      && (exists r :: r in Trace(Start(workerTtl, streamTtl), ms) && r.JobSent? && r.stream == 0)
      && 0 in Run(Start(workerTtl, streamTtl), ms).kernel.activeStreams
      && 0 !in Run(Start(workerTtl, streamTtl), ms).registry.streams
  {
    var g := Start(workerTtl, streamTtl);
    var m0, m1, m2 := RegisterWorker(0, 0, {Chat}), RegisterStream(0, 0), ChatRequest(0);
    RunOneMore(g, [], m0);
    RunOneMore(g, [m0], m1);
    RunOneMore(g, [m0, m1], m2);
    RunOneMore(g, [m0, m1, m2], m2);
    assert [m0, m1] == [m0] + [m1] && [m0, m1, m2] == [m0, m1] + [m2] && [m0, m1, m2, m2] == [m0, m1, m2] + [m2] && [] + [m0] == [m0];
    Registering(g, 0, 0, {Chat});
    var h := Run(g, [m0, m1]);
    assert h.kernel.available.Keys == {0} && 0 in h.registry.streams;
    var e := DispatchJob(0, 0, Chat, "");
    Dispatching(h, 0);
    JobSentIffStreamHasHandle(h, m2.event, e);
    ResolveSingle(h.registry, e);
    var r :| r in Step(h, m2).resolved && r.JobSent?;
    var all := Trace(g, [m0, m1, m2, m2]);
    assert r in Trace(g, [m0, m1, m2]) && r in all;
    ActiveStreamKeepsHandle(Run(g, [m0, m1, m2]), m2, 0);
  }

  /** A run in which a worker is used up by a stream without a handle: no job is sent and no worker is left. */
  lemma UnregisteredStreamUsesUpWorker(workerTtl: nat, streamTtl: nat)
    ensures
      var ms := [RegisterWorker(0, 0, {Chat}), ChatRequest(0)];
      && Trace(Start(workerTtl, streamTtl), ms) == []
      && Run(Start(workerTtl, streamTtl), ms).registry.workers == map[]
      && Run(Start(workerTtl, streamTtl), ms).kernel.available == map[]
  {
    var g := Start(workerTtl, streamTtl);
    var m0, m1 := RegisterWorker(0, 0, {Chat}), ChatRequest(0);
    RunOneMore(g, [], m0);
    RunOneMore(g, [m0], m1);
    assert [m0, m1] == [m0] + [m1] && [] + [m0] == [m0];
    Registering(g, 0, 0, {Chat});
    var h, e := Run(g, [m0]), DispatchJob(0, 0, Chat, "");
    Dispatching(h, 0);
    ResolveSingle(h.registry, e);
    DispatchIsSound(h.kernel, m1.event);
    assert e in Reduce(h.kernel, m1.event).effects;
    assert h.registry.workers - {0} == map[] && h.kernel.available - {0} == map[];
  }

  // ------------------------------------------------------------- every request is answered

  function Submitted(events: seq<Event>): seq<Message> {
    seq(|events|, i requires 0 <= i < |events| => Submit(events[i]))
  }

  lemma {:induction false} DeadlinesStayBounded(workerTtl: nat, streamTtl: nat, ms: seq<Message>)
    requires AllowedRun(Start(workerTtl, streamTtl), ms)
    ensures DeadlinesBounded(Run(Start(workerTtl, streamTtl), ms).kernel)
    ensures Run(Start(workerTtl, streamTtl), ms).kernel.streamTtl == streamTtl
  {
    if ms != [] {
      var n := |ms| - 1;
      DeadlinesStayBounded(workerTtl, streamTtl, ms[..n]);
      var g := Run(Start(workerTtl, streamTtl), ms[..n]);
      match ms[n]
      case RegisterWorker(worker, _, capabilities) => StepKeepsDeadlinesBounded(g.kernel, WorkerRegistered(worker, capabilities));
      case RegisterStream(_, _) =>
      case Submit(event) => StepKeepsDeadlinesBounded(g.kernel, event);
    }
  }

  /** Over submitted events the kernel of the gateway runs like the kernel alone. */
  lemma {:induction false} SubmittedRunTheKernel(g: Gateway, ms: seq<Message>, events: seq<Event>)
    requires AllowedRun(g, ms + Submitted(events))
    ensures Run(g, ms + Submitted(events)).kernel == After(Run(g, ms).kernel, events)
    ensures PossibleRun(Run(g, ms).kernel, events)
    decreases |events|
  {
    var all := ms + Submitted(events);
    if events == [] {
      assert all == ms;
    } else {
      var n := |events| - 1;
      var prev, e := events[..n], events[n];
      var before := ms + Submitted(prev);
      assert all == before + [Submit(e)];
      AllowedSnoc(g, before, Submit(e));
      RunOneMore(g, before, Submit(e));
      SubmittedRunTheKernel(g, ms, prev);
      PossibleSnoc(Run(g, ms).kernel, prev, e);
      assert prev + [e] == events;
    }
  }

  lemma AllowedSnoc(g: Gateway, ms: seq<Message>, m: Message)
    ensures AllowedRun(g, ms + [m]) <==> AllowedRun(g, ms) && Allowed(Run(g, ms), ms, m)
  {
    assert (ms + [m])[..|ms|] == ms;
  }

  lemma PossibleSnoc(s: Kernel.State, events: seq<Event>, e: Event)
    requires PossibleRun(s, events) && Possible(After(s, events), e)
    ensures PossibleRun(s, events + [e])
  {
    var all := events + [e];
    forall k | 0 <= k < |all| ensures Possible(After(s, all[..k]), all[k]) {
      assert k < |events| ==> all[..k] == events[..k];
      assert k == |events| ==> all[..k] == events;
    }
  }

  /**
   Whatever else happened, once `streamTtl` ticks have passed, every stream requested while its handle was
   registered has been sent its done.
   */
  lemma AskedIsAnsweredInTime(workerTtl: nat, streamTtl: nat, ms: seq<Message>, ticks: seq<Event>, s: StreamId)
    requires AllowedRun(Start(workerTtl, streamTtl), ms + Submitted(ticks))
    requires Asked(Start(workerTtl, streamTtl), ms, s)
    requires |ticks| > 0 && |ticks| >= streamTtl && forall e :: e in ticks ==> e.Tick?
    ensures HasDone(Trace(Start(workerTtl, streamTtl), ms + Submitted(ticks)), s)
  {
    var g, more := Start(workerTtl, streamTtl), Submitted(ticks);
    AskedStays(g, ms, more, s);
    AskedIsAnsweredOrActive(g, ms + more, s);
    AllowedPrefix(g, ms, more);
    NoneOutlivesTicks(workerTtl, streamTtl, ms, ticks, s);
  }

  lemma NoneOutlivesTicks(workerTtl: nat, streamTtl: nat, ms: seq<Message>, ticks: seq<Event>, s: StreamId)
    requires AllowedRun(Start(workerTtl, streamTtl), ms) && AllowedRun(Start(workerTtl, streamTtl), ms + Submitted(ticks))
    requires |ticks| > 0 && |ticks| >= streamTtl && forall e :: e in ticks ==> e.Tick?
    ensures s !in Run(Start(workerTtl, streamTtl), ms + Submitted(ticks)).kernel.activeStreams
  {
    DeadlinesStayBounded(workerTtl, streamTtl, ms);
    SubmittedRunTheKernel(Start(workerTtl, streamTtl), ms, ticks);
    TicksExpireAll(Run(Start(workerTtl, streamTtl), ms).kernel, ticks);
  }

  lemma AskedStays(g: Gateway, ms: seq<Message>, more: seq<Message>, s: StreamId)
    requires Asked(g, ms, s)
    ensures Asked(g, ms + more, s)
  {
    var k :| 0 <= k < |ms| && RequestFor(ms[k], s) && s in Run(g, ms[..k]).registry.streams;
    assert (ms + more)[..k] == ms[..k] && (ms + more)[k] == ms[k];
  }

  lemma {:induction false} AllowedPrefix(g: Gateway, ms: seq<Message>, more: seq<Message>)
    requires AllowedRun(g, ms + more)
    ensures AllowedRun(g, ms)
    decreases |more|
  {
    if more == [] {
      assert ms + more == ms;
    } else {
      assert (ms + more)[..|ms + more| - 1] == ms + more[..|more| - 1];
      AllowedPrefix(g, ms, more[..|more| - 1]);
    }
  }
}
