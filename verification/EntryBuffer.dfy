/** Applying session entries in order whatever order they arrive in, and tracking a pending submission. */
module EntryBuffer {
  import opened Types
  import opened Coordinator
  import opened Drafts
  import opened Preview
  import opened Engine

  // ------------------------------------------------------------------ ordering, as a value

  /** `applied` is everything handed on so far; `buffered` is what arrived early. */
  datatype Queue<T> = Queue(next: nat, buffered: map<nat, T>, applied: seq<T>)

  function Drained<T>(q: Queue<T>): Queue<T>
    decreases |q.buffered|
  {
    if q.next in q.buffered then
      assert q.buffered.Keys == (q.buffered - {q.next}).Keys + {q.next};
      Drained(DrainOne(q))
    else q
  }

  function DrainOne<T>(q: Queue<T>): Queue<T>
    requires q.next in q.buffered
  {
    Queue(q.next + 1, q.buffered - {q.next}, q.applied + [q.buffered[q.next]])
  }

  /** Entries already applied are ignored, early ones are kept (the last one wins), the next one is applied. */
  function Deliver<T>(q: Queue<T>, index: nat, payload: T): Queue<T> {
    if index < q.next then q
    else if index > q.next then q.(buffered := q.buffered[index := payload])
    else Drained(Queue(q.next + 1, q.buffered, q.applied + [payload]))
  }

  function DeliverAll<T>(events: seq<LogEvent<T>>): Queue<T> {
    if events == [] then Queue(0, map[], [])
    else
      var q := DeliverAll(events[..|events| - 1]);
      var e := events[|events| - 1];
      if e.Receive? then Deliver(q, e.index, e.entry) else q
  }

  ghost predicate Reached<T>(q: Queue<T>, i: int) {
    0 <= i < q.next || (i >= 0 && i in q.buffered)
  }

  /** Everything below the next index is applied, and what is buffered lies at `lowest` or above. */
  ghost predicate Shaped<T>(q: Queue<T>, lowest: nat) {
    |q.applied| == q.next && forall i :: i in q.buffered ==> i >= lowest
  }

  /** Draining moves buffered entries, in order and unchanged, to what is applied. */
  lemma {:induction false} DrainedTakes<T>(q: Queue<T>)
    requires Shaped(q, q.next)
    ensures Drained(q).next >= q.next && Shaped(Drained(q), Drained(q).next + 1)
    ensures forall i :: 0 <= i < q.next ==> Drained(q).applied[i] == q.applied[i]
    ensures forall i :: q.next <= i < Drained(q).next ==> i in q.buffered && Drained(q).applied[i] == q.buffered[i]
    ensures forall i :: i in Drained(q).buffered ==> i in q.buffered && Drained(q).buffered[i] == q.buffered[i]
    ensures forall i :: Reached(Drained(q), i) <==> Reached(q, i)
    decreases |q.buffered|
  {
    if q.next in q.buffered {
      assert q.buffered.Keys == (q.buffered - {q.next}).Keys + {q.next};
      var r := DrainOne(q);
      assert forall i :: Reached(r, i) <==> Reached(q, i);
      DrainedTakes(r);
    }
  }

  /** What one delivery does to a queue. */
  lemma DeliverTakes<T>(q: Queue<T>, index: nat, payload: T)
    requires Shaped(q, q.next + 1)
    ensures
      var r := Deliver(q, index, payload);
      && r.next >= q.next && Shaped(r, r.next + 1)
      && (forall i :: Reached(r, i) <==> Reached(q, i) || i == index)
      && (forall i :: 0 <= i < q.next ==> r.applied[i] == q.applied[i])
      && (forall i :: q.next <= i < r.next ==>
            if i == index then r.applied[i] == payload else i in q.buffered && r.applied[i] == q.buffered[i])
      && (forall i :: i in r.buffered ==>
            if i == index then r.buffered[i] == payload else i in q.buffered && r.buffered[i] == q.buffered[i])
  {
    if index == q.next {
      DrainedTakes(Queue(q.next + 1, q.buffered, q.applied + [payload]));
    }
  }

  lemma DeliveredSnoc<T>(events: seq<LogEvent<T>>, e: LogEvent<T>)
    ensures forall i :: Delivered(events + [e], i) <==> Delivered(events, i) || DeliveryOf(e, i)
  {
    var all := events + [e];
    forall i ensures Delivered(all, i) <==> Delivered(events, i) || DeliveryOf(e, i) {
      if Delivered(events, i) {
        var k :| 0 <= k < |events| && DeliveryOf(events[k], i);
        assert DeliveryOf(all[k], i);
      }
      if DeliveryOf(e, i) {
        assert DeliveryOf(all[|events|], i);
      }
    }
  }

  /** The queue holds exactly what was delivered, and has applied all it could. */
  lemma {:induction false} QueueHolds<T>(events: seq<LogEvent<T>>)
    ensures Shaped(DeliverAll(events), DeliverAll(events).next + 1)
    ensures forall i :: Delivered(events, i) <==> Reached(DeliverAll(events), i)
  {
    if events != [] {
      var n := |events| - 1;
      QueueHolds(events[..n]);
      assert events == events[..n] + [events[n]];
      DeliveredSnoc(events[..n], events[n]);
      if events[n].Receive? {
        DeliverTakes(DeliverAll(events[..n]), events[n].index, events[n].entry);
      }
    }
  }

  /** Both implementations expect the same next index, whatever is delivered. */
  lemma NextIndicesAgree<T>(events: seq<LogEvent<T>>)
    ensures DeliverAll(events).next == NextExpected(Run([], events))
    ensures |DeliverAll(events).applied| == DeliverAll(events).next
    ensures forall k :: k in DeliverAll(events).buffered ==> k > DeliverAll(events).next
  {
    QueueHolds(events);
    NextExpectedIsFirstUndelivered(events);
    var q, n := DeliverAll(events), NextExpected(Run([], events));
    assert !Reached(q, q.next);
    assert !Reached(q, n);
  }

  // ------------------------------------------------------------- when the contents agree

  ghost predicate AllDelivered<T>(events: seq<LogEvent<T>>, i: int) {
    forall j :: 0 <= j <= i ==> Delivered(events, j)
  }

  /** Event `k` is the first after which everything up to index `i` has been delivered. */
  ghost predicate CompletedAt<T>(events: seq<LogEvent<T>>, i: int, k: int) {
    0 <= k < |events| && AllDelivered(events[..k + 1], i) && !AllDelivered(events[..k], i)
  }

  /** Event `l` is the last delivery of index `i` among the events up to `k`. */
  ghost predicate LatestDelivery<T>(events: seq<LogEvent<T>>, i: int, k: int, l: int) {
    0 <= l <= k < |events| && DeliveryOf(events[l], i) && forall j :: l < j <= k ==> !DeliveryOf(events[j], i)
  }

  lemma {:induction false} BufferedIsLatest<T>(events: seq<LogEvent<T>>, i: nat) returns (l: int)
    requires i in DeliverAll(events).buffered
    ensures LatestDelivery(events, i, |events| - 1, l) && DeliverAll(events).buffered[i] == events[l].entry
  {
    var n := |events| - 1;
    var prev, e := events[..n], events[n];
    QueueHolds(prev);
    if e.Receive? {
      DeliverTakes(DeliverAll(prev), e.index, e.entry);
    }
    if DeliveryOf(e, i) {
      l := n;
    } else {
      l := BufferedIsLatest(prev, i);
      assert forall j :: l < j < n ==> !DeliveryOf(prev[j], i);
    }
  }

  /** Index `i` is applied by the event that completes it, with the latest entry delivered for it by then. */
  lemma {:induction false} AppliedIsLatest<T>(events: seq<LogEvent<T>>, i: nat) returns (k: int, l: int)
    requires i < DeliverAll(events).next
    ensures CompletedAt(events, i, k) && LatestDelivery(events, i, k, l)
    ensures i < |DeliverAll(events).applied| && DeliverAll(events).applied[i] == events[l].entry
  {
    var n := |events| - 1;
    var prev, e := events[..n], events[n];
    var q := DeliverAll(prev);
    QueueHolds(prev);
    QueueHolds(events);
    if e.Receive? {
      DeliverTakes(q, e.index, e.entry);
    }
    if i < q.next {
      k, l := AppliedIsLatest(prev, i);
      assert prev[..k] == events[..k] && prev[..k + 1] == events[..k + 1];
      assert forall j :: l < j <= k ==> prev[j] == events[j];
    } else {
      k := n;
      assert events[..n + 1] == events;
      assert !Reached(q, q.next);
      assert !Delivered(prev, q.next);
      forall j | 0 <= j <= i ensures Delivered(events, j) {
        assert Reached(DeliverAll(events), j);
      }
      if DeliveryOf(e, i) {
        l := n;
      } else {
        l := BufferedIsLatest(prev, i);
        assert forall j :: l < j < n ==> !DeliveryOf(prev[j], i);
      }
    }
  }

  lemma {:induction false} DeliveredLater<T>(events: seq<LogEvent<T>>, j: nat, k: nat, i: int)
    requires j <= k <= |events| && Delivered(events[..j], i)
    ensures Delivered(events[..k], i)
  {
    var d :| 0 <= d < j && DeliveryOf(events[..j][d], i);
    assert DeliveryOf(events[..k][d], i);
  }

  lemma CompletedOnce<T>(events: seq<LogEvent<T>>, i: int, j: nat, k: nat)
    requires CompletedAt(events, i, j) && CompletedAt(events, i, k)
    ensures j >= k
  {
    forall x | j < k && 0 <= x <= i ensures Delivered(events[..k], x) {
      assert Delivered(events[..j + 1], x);
      DeliveredLater(events, j + 1, k, x);
    }
  }

  /** The first delivery of `i` and the latest one by the event that completes `i` carry the same entry. */
  ghost predicate FirstIsLatest<T>(events: seq<LogEvent<T>>, i: int) {
    forall k, f, l :: CompletedAt(events, i, k) && FirstDelivery(events, i, f) && LatestDelivery(events, i, k, l) ==>
      events[f].entry == events[l].entry
  }

  /** At one applied index the two agree exactly when the entries that count for them are the same. */
  lemma AgreeAtIndex<T>(events: seq<LogEvent<T>>, i: nat)
    requires i < DeliverAll(events).next
    ensures i < |DeliverAll(events).applied| && i < |CommittedPrefix(Run([], events))|
    ensures DeliverAll(events).applied[i] == CommittedPrefix(Run([], events))[i] <==> FirstIsLatest(events, i)
  {
    NextIndicesAgree(events);
    NextExpectedIsFirstUndelivered(events);
    var k, l := AppliedIsLatest(events, i);
    assert Delivered(events, i);
    var f := EarliestDelivery(events, i);
    SlotsAfterRun(events);
    forall k', f', l' | CompletedAt(events, i, k') && FirstDelivery(events, i, f') && LatestDelivery(events, i, k', l')
      ensures k' == k && f' == f && l' == l
    {
      CompletedOnce(events, i, k, k');
      CompletedOnce(events, i, k', k);
    }
  }

  /**
   The coordinator and the entry buffer hand on the same entries exactly when, at every index below the
   next one, the first delivery and the latest one by the time the index is applied carry the same entry.
   */
  lemma BuffersAgreeIff<T>(events: seq<LogEvent<T>>)
    ensures DeliverAll(events).applied == CommittedPrefix(Run([], events)) <==>
      forall i :: 0 <= i < NextExpected(Run([], events)) ==> FirstIsLatest(events, i)
  {
    NextIndicesAgree(events);
    forall i | 0 <= i < NextExpected(Run([], events))
      ensures DeliverAll(events).applied[i] == CommittedPrefix(Run([], events))[i] <==> FirstIsLatest(events, i)
    {
      AgreeAtIndex(events, i);
    }
  }

  /** So they agree on any deliveries of one log: same index, same prefix. */
  lemma BuffersAgree<T>(events: seq<LogEvent<T>>, log: seq<T>)
    requires ConsistentWith(events, log)
    ensures DeliverAll(events).next <= |log|
    ensures DeliverAll(events).applied == CommittedPrefix(Run([], events)) == log[..DeliverAll(events).next]
  {
    NextIndicesAgree(events);
    CommittedPrefixOfLog(events, log);
    BuffersAgreeIff(events);
  }

  /** Deliveries of different contents at one index make them differ: first writer against last writer. */
  lemma BuffersDisagreeOnConflicts<T>(a: T, b: T, c: T)
    requires a != b
    ensures
      var events := [Receive(1, a), Receive(1, b), Receive(0, c)];
      CommittedPrefix(Run([], events)) == [c, a] && DeliverAll(events).applied == [c, b]
  {
    var e0, e1, e2 := Receive(1, a), Receive(1, b), Receive(0, c);
    var events := [e0, e1, e2];
    assert events[..2] == [e0, e1] && [e0, e1][..1] == [e0] && [e0][..0] == [];
    var slots := Run<T>([], [e0]);
    assert Run<T>([], []) == [] && Resized<T>([], 2) == [Requested, Requested];
    assert slots == [Requested, Received(a)];
    assert Run<T>([], [e0, e1]) == slots;
    assert Run<T>([], events) == [Received(c), Received(a)];
    assert [Received(c), Received(a)][1..] == [Received(a)] && [Received(a)][1..] == [];
    assert DeliverAll([e0]) == Queue(0, map[1 := a], []);
    assert DeliverAll([e0, e1]) == Queue(0, map[1 := b], []);
    assert events[..|events| - 1] == [e0, e1] && [] + [c] == [c];
    assert DeliverAll(events) == Drained(Queue(1, map[1 := b], [c]));
    var rest := map[1 := b] - {1};
    assert rest == map[];
    assert Drained(Queue(1, map[1 := b], [c])) == Drained(Queue(2, rest, [c] + [b]));
  }

  // --------------------------------------------------------------------- wire payloads

  /** A payload either reads as an entry, possibly with extra fields, or does not. */
  datatype Payload = EntryJson(entry: Entry, extra: string) | OtherJson(text: string)

  function Parse(p: Payload): Option<Entry> {
    if p.EntryJson? then Some(p.entry) else None
  }

  function Serialize(e: Entry): Payload {
    EntryJson(e, "")
  }

  function SerializeAll(entries: seq<Entry>): seq<Payload> {
    seq(|entries|, i requires 0 <= i < |entries| => Serialize(entries[i]))
  }

  /** The entries among some payloads; the others are skipped. */
  function Parsed(payloads: seq<Payload>): seq<Entry> {
    if payloads == [] then []
    else
      var rest := Parsed(payloads[..|payloads| - 1]);
      var last := payloads[|payloads| - 1];
      if last.EntryJson? then rest + [last.entry] else rest
  }

  lemma {:induction false} ParsedAppend(a: seq<Payload>, b: seq<Payload>)
    ensures Parsed(a + b) == Parsed(a) + Parsed(b)
    decreases b
  {
    if b == [] {
      assert a + b == a;
    } else {
      assert (a + b)[..|a + b| - 1] == a + b[..|b| - 1];
      ParsedAppend(a, b[..|b| - 1]);
    }
  }

  /** What is serialized reads back, in order; what does not parse adds nothing. */
  lemma {:induction false} SerializedReadsBack(entries: seq<Entry>, text: string)
    ensures Parsed(SerializeAll(entries)) == entries
    ensures Parsed(SerializeAll(entries) + [OtherJson(text)]) == entries
  {
    var all := SerializeAll(entries);
    if entries != [] {
      var n := |entries| - 1;
      SerializedReadsBack(entries[..n], text);
      assert all[..n] == SerializeAll(entries[..n]);
    }
    assert (all + [OtherJson(text)])[..|all|] == all;
  }

  /** Fed any deliveries of one log of entries, the buffer hands the engine a prefix of that log. */
  lemma EngineGetsPrefix(events: seq<LogEvent<Payload>>, log: seq<Entry>)
    requires ConsistentWith(events, SerializeAll(log))
    ensures DeliverAll(events).next <= |log|
    ensures Parsed(DeliverAll(events).applied) == log[..DeliverAll(events).next]
  {
    BuffersAgree(events, SerializeAll(log));
    var n := DeliverAll(events).next;
    assert SerializeAll(log)[..n] == SerializeAll(log[..n]);
    SerializedReadsBack(log[..n], "");
  }

  // --------------------------------------------------------------- submission tracking

  datatype Pending = Pending(draftIds: seq<DraftId>, payloads: seq<Payload>, nextEntry: nat)

  function Note(p: Option<Pending>, payload: Payload): Option<Pending> {
    if p.Some? && p.value.nextEntry < |p.value.payloads| && p.value.payloads[p.value.nextEntry] == payload
    then Some(p.value.(nextEntry := p.value.nextEntry + 1)) else p
  }

  function NoteAll(p: Option<Pending>, payloads: seq<Payload>): Option<Pending> {
    if payloads == [] then p else Note(NoteAll(p, payloads[..|payloads| - 1]), payloads[|payloads| - 1])
  }

  predicate IsComplete(p: Option<Pending>) {
    p.Some? && p.value.nextEntry >= |p.value.payloads|
  }

  lemma {:induction false} NoteAllAppend(p: Option<Pending>, a: seq<Payload>, b: seq<Payload>)
    ensures NoteAll(p, a + b) == NoteAll(NoteAll(p, a), b)
    decreases b
  {
    if b == [] {
      assert a + b == a;
    } else {
      assert (a + b)[..|a + b| - 1] == a + b[..|b| - 1];
      NoteAllAppend(p, a, b[..|b| - 1]);
    }
  }

  /** `at` picks positions of `ys`, in ascending order, where the elements of `xs` stand. */
  ghost predicate EmbedsAt(xs: seq<Payload>, ys: seq<Payload>, at: seq<nat>) {
    && |at| == |xs|
    && (forall i, j :: 0 <= i < j < |at| ==> at[i] < at[j])
    && forall i :: 0 <= i < |xs| ==> at[i] < |ys| && ys[at[i]] == xs[i]
  }

  ghost predicate Subsequence(xs: seq<Payload>, ys: seq<Payload>) {
    exists at: seq<nat> :: EmbedsAt(xs, ys, at)
  }

  lemma SubsequenceSnoc(xs: seq<Payload>, ys: seq<Payload>, y: Payload)
    ensures Subsequence(xs, ys + [y]) <==>
      Subsequence(xs, ys) || (xs != [] && xs[|xs| - 1] == y && Subsequence(xs[..|xs| - 1], ys))
  {
    var n := |xs| - 1;
    if Subsequence(xs, ys + [y]) {
      var at: seq<nat> :| EmbedsAt(xs, ys + [y], at);
      if xs == [] || at[n] < |ys| {
        assert EmbedsAt(xs, ys, at);
      } else {
        assert forall i :: 0 <= i < n ==> at[i] < at[n];
        assert EmbedsAt(xs[..n], ys, at[..n]);
      }
    }
    if Subsequence(xs, ys) {
      var at: seq<nat> :| EmbedsAt(xs, ys, at);
      assert EmbedsAt(xs, ys + [y], at);
    }
    if xs != [] && xs[n] == y && Subsequence(xs[..n], ys) {
      var at: seq<nat> :| EmbedsAt(xs[..n], ys, at);
      assert EmbedsAt(xs, ys + [y], at + [|ys|]);
    }
  }

  lemma NothingEmbedsInNothing(xs: seq<Payload>)
    requires xs != []
    ensures !Subsequence(xs, [])
  {
    forall at: seq<nat> ensures !EmbedsAt(xs, [], at) {
      if |at| > 0 {
        assert at[0] >= 0;
      }
    }
  }

  /** The counter has reached `k` exactly when the first `k` payloads occur, in order, among those seen. */
  lemma {:induction false} TrackingIsGreedy(p: Pending, seen: seq<Payload>, k: nat)
    requires p.nextEntry == 0 && k <= |p.payloads|
    ensures NoteAll(Some(p), seen).Some?
    ensures NoteAll(Some(p), seen).value.(nextEntry := 0) == p
    ensures NoteAll(Some(p), seen).value.nextEntry <= |p.payloads|
    ensures NoteAll(Some(p), seen).value.nextEntry >= k <==> Subsequence(p.payloads[..k], seen)
    decreases seen, k
  {
    if seen == [] {
      if k == 0 {
        assert EmbedsAt(p.payloads[..0], seen, []);
      } else {
        NothingEmbedsInNothing(p.payloads[..k]);
      }
    } else {
      var n := |seen| - 1;
      TrackingIsGreedy(p, seen[..n], k);
      if k > 0 {
        TrackingIsGreedy(p, seen[..n], k - 1);
        assert p.payloads[..k][..k - 1] == p.payloads[..k - 1];
      }
      assert seen == seen[..n] + [seen[n]];
      SubsequenceSnoc(p.payloads[..k], seen[..n], seen[n]);
    }
  }

  /** A submission is complete exactly when its payloads occur in order among those applied since it began. */
  lemma CompleteIffEchoed(p: Pending, seen: seq<Payload>)
    requires p.nextEntry == 0
    ensures IsComplete(NoteAll(Some(p), seen)) <==> Subsequence(p.payloads, seen)
  {
    TrackingIsGreedy(p, seen, |p.payloads|);
    assert p.payloads[..|p.payloads|] == p.payloads;
  }

  // -------------------------------------------------------------- finishing a submission

  /** Remove drafts one after the other, stopping at the first refusal. */
  function RemoveEach(s: State, ids: seq<DraftId>): (State, Option<EngineError>)
    decreases ids
  {
    if ids == [] then (s, None)
    else
      match RemoveDraft(s, ids[0])
      case Ok(next) => RemoveEach(next, ids[1..])
      case Err(e) => (s, Some(e))
  }

  ghost predicate Unreferenced(drafts: seq<DraftEntry>, id: DraftId) {
    forall d :: d in drafts ==> !d.content.RefersTo(id)
  }

  ghost predicate NoneReferenced(drafts: seq<DraftEntry>, ids: seq<DraftId>) {
    forall id :: id in ids ==> Unreferenced(drafts, id)
  }

  ghost predicate Present(drafts: seq<DraftEntry>, id: DraftId) {
    exists d :: d in drafts && d.id == id
  }

  ghost predicate AllPresent(drafts: seq<DraftEntry>, ids: seq<DraftId>) {
    forall id :: id in ids ==> Present(drafts, id)
  }

  ghost predicate AscendingIds(ids: seq<DraftId>) {
    forall i, j :: 0 <= i < j < |ids| ==> ids[i] < ids[j]
  }

  /** Taking out a draft leaves presence of, and references to, later drafts as they were. */
  lemma LaterDraftsUntouched(before: seq<DraftEntry>, after: seq<DraftEntry>, id: DraftId, later: DraftId)
    requires Ascending(before) && RefersBackwards(before) && id < later
    requires forall d :: d in after <==> d in before && d.id != id
    ensures Present(after, later) <==> Present(before, later)
    ensures Unreferenced(after, later) <==> Unreferenced(before, later)
  {
    if Present(before, later) {
      var d :| d in before && d.id == later;
      assert d in after;
    }
    forall d | d in before && d.id == id ensures !d.content.RefersTo(later) {
      var i :| 0 <= i < |before| && before[i] == d;
    }
  }

  lemma RestUntouched(before: seq<DraftEntry>, after: seq<DraftEntry>, id: DraftId, rest: seq<DraftId>)
    requires Ascending(before) && RefersBackwards(before) && forall later :: later in rest ==> id < later
    requires forall d :: d in after <==> d in before && d.id != id
    ensures AllPresent(after, rest) <==> AllPresent(before, rest)
    ensures NoneReferenced(after, rest) <==> NoneReferenced(before, rest)
  {
    forall later | later in rest
      ensures Present(after, later) <==> Present(before, later)
      ensures Unreferenced(after, later) <==> Unreferenced(before, later)
    {
      LaterDraftsUntouched(before, after, id, later);
    }
  }

  /**
   Finishing removes drafts in creation order.  It succeeds exactly when all of them are still there and
   no draft refers to one of them, and then removes exactly them.
   */
  lemma {:induction false} FinishInCreationOrder(s: State, ids: seq<DraftId>)
    requires WellFormed(s) && AscendingIds(ids)
    ensures RemoveEach(s, ids).1 == None <==> AllPresent(s.drafts, ids) && NoneReferenced(s.drafts, ids)
    ensures RemoveEach(s, ids).1 == None ==>
      var done := RemoveEach(s, ids).0;
      && WellFormed(done) && done == s.(drafts := done.drafts)
      && forall d :: d in done.drafts <==> d in s.drafts && d.id !in ids
    decreases |ids|
  {
    if ids != [] {
      var id, rest := ids[0], ids[1..];
      assert ids == [id] + rest;
      RemoveKeepsWellFormed(s, id);
      assert RemoveDraft(s, id).Ok? <==> Present(s.drafts, id) && Unreferenced(s.drafts, id);
      if RemoveDraft(s, id).Ok? {
        var next := RemoveDraft(s, id).value;
        FinishInCreationOrder(next, rest);
        RestUntouched(s.drafts, next.drafts, id, rest);
      }
    }
  }

  lemma {:induction false} AscendingIsDetermined(a: seq<DraftEntry>, b: seq<DraftEntry>)
    requires Ascending(a) && Ascending(b) && forall d :: d in a <==> d in b
    ensures a == b
    decreases |a|
  {
    assert a == [] || a[0] in a;
    assert b == [] || b[0] in b;
    if a != [] {
      var front, last := LastIsGreatest(a);
      var rear, end := LastIsGreatest(b);
      assert last == end;
      AscendingIsDetermined(front, rear);
    }
  }

  lemma LastIsGreatest(a: seq<DraftEntry>) returns (front: seq<DraftEntry>, last: DraftEntry)
    requires Ascending(a) && a != []
    ensures a == front + [last] && Ascending(front)
    ensures last in a && forall d :: d in a ==> d == last || d.id < last.id
    ensures forall d :: d in front <==> d in a && d != last
  {
    var m := |a| - 1;
    front, last := a[..m], a[m];
    assert a == front + [last];
    assert last !in front;
  }

  /**
   If the submitted drafts, the first `m`, are all still there, finishing succeeds exactly when no draft
   refers to one of them, and leaves the drafts added since.
   */
  lemma FinishUntouchedDrafts(s: State, m: nat)
    requires WellFormed(s) && m <= |s.drafts|
    ensures RemoveEach(s, Ids(s.drafts[..m])).1 == None <==> NoneReferenced(s.drafts, Ids(s.drafts[..m]))
    ensures RemoveEach(s, Ids(s.drafts[..m])).1 == None ==> RemoveEach(s, Ids(s.drafts[..m])).0 == s.(drafts := s.drafts[m..])
  {
    var ids := Ids(s.drafts[..m]);
    PrefixIds(s.drafts, m);
    FinishInCreationOrder(s, ids);
    if RemoveEach(s, ids).1 == None {
      AscendingIsDetermined(RemoveEach(s, ids).0.drafts, s.drafts[m..]);
    }
  }

  lemma PrefixIds(drafts: seq<DraftEntry>, m: nat)
    requires Ascending(drafts) && m <= |drafts|
    ensures AscendingIds(Ids(drafts[..m])) && AllPresent(drafts, Ids(drafts[..m]))
    ensures forall d :: d in drafts[m..] <==> d in drafts && d.id !in Ids(drafts[..m])
  {
    var ids := Ids(drafts[..m]);
    assert forall i :: 0 <= i < m ==> ids[i] == drafts[i].id && drafts[i] in drafts;
    forall d ensures d in drafts[m..] <==> d in drafts && d.id !in ids {
      if d in drafts {
        var i :| 0 <= i < |drafts| && drafts[i] == d;
        assert i < m ==> ids[i] == d.id;
        assert i >= m ==> drafts[m..][i - m] == d;
      }
    }
  }

  /** A failed finish has removed the drafts before the refused one, and reports why that one was refused. */
  lemma {:induction false} FinishStopsAtRefusal(s: State, ids: seq<DraftId>) returns (j: nat)
    requires RemoveEach(s, ids).1.Some?
    ensures j < |ids| && RemoveEach(s, ids[..j]) == (RemoveEach(s, ids).0, None)
    ensures RemoveDraft(RemoveEach(s, ids).0, ids[j]) == Err(RemoveEach(s, ids).1.value)
    decreases |ids|
  {
    match RemoveDraft(s, ids[0])
    case Err(_) =>
      j := 0;
      assert ids[..0] == [];
    case Ok(next) =>
      var k := FinishStopsAtRefusal(next, ids[1..]);
      j := k + 1;
      assert ids[..j][0] == ids[0] && ids[..j][1..] == ids[1..][..k];
  }

  /** A submitted draft removed in the meantime also makes finishing fail, after the earlier ones are gone. */
  lemma FinishFailsOnRemovedDrafts(first: string, second: string)
    ensures
      var s := State([DraftEntry(0, DraftClaim(first, Fact, None)), DraftEntry(1, DraftClaim(second, Fact, None))], 2, None);
      && WellFormed(s) && RemoveDraft(s, 1).Ok?
      && RemoveEach(RemoveDraft(s, 1).value, Ids(s.drafts)) == (s.(drafts := []), Some(DraftNotFound(1)))
  {
    var a, b := DraftEntry(0, DraftClaim(first, Fact, None)), DraftEntry(1, DraftClaim(second, Fact, None));
    assert a.content.References() == [] && b.content.References() == [];
    assert [a, b][1..] == [b] && [b][1..] == [];
    assert Without([a, b], 1) == [a] && Without([a], 0) == [];
    assert IndexOf([a, b], 1) == 1 && IndexOf([a], 0) == 0;
    assert FirstReferrer([a, b], 1) == FirstReferrer([b], 1) == FirstReferrer([], 1) == None;
    assert [a][1..] == [] && FirstReferrer([a], 0) == None;
    var s := State([a, b], 2, None);
    var t, u := s.(drafts := [a]), s.(drafts := []);
    assert RemoveDraft(s, 1) == Ok(t) && RemoveDraft(t, 0) == Ok(u);
    assert Ids([a, b]) == [0, 1] && [0, 1][1..] == [1];
    assert RemoveEach(u, [1]) == (u, Some(DraftNotFound(1)));
  }

  /** So a submission of a claim and a stance on it cannot be finished: the claim draft is refused first. */
  lemma FinishFailsOnReferringDrafts(body: string, position: Position)
    ensures
      var s := State([DraftEntry(0, DraftClaim(body, Fact, None)), DraftEntry(1, DraftStance(Local(0), position))], 2, None);
      WellFormed(s) && RemoveEach(s, Ids(s.drafts)) == (s, Some(DraftReferenced(0, 1)))
  {
    var claim, stance := DraftEntry(0, DraftClaim(body, Fact, None)), DraftEntry(1, DraftStance(Local(0), position));
    var drafts := [claim, stance];
    assert claim.content.References() == [] && stance.content.References() == [Local(0)];
    assert ClaimBefore(drafts, 1, 0) by {
      assert drafts[0].id == 0;
    }
    assert drafts[1..] == [stance];
    assert FirstReferrer(drafts, 0) == FirstReferrer([stance], 0) == Some(1);
    assert Ids(drafts)[0] == 0;
  }

  function Reversed(ids: seq<DraftId>): seq<DraftId> {
    if ids == [] then [] else [ids[|ids| - 1]] + Reversed(ids[..|ids| - 1])
  }

  /** In reverse creation order removal never fails. */
  lemma {:induction false} ReverseOrderAlwaysFinishes(s: State)
    requires WellFormed(s)
    ensures RemoveEach(s, Reversed(Ids(s.drafts))) == (s.(drafts := []), None)
    decreases |s.drafts|
  {
    var drafts := s.drafts;
    if drafts != [] {
      var n := |drafts| - 1;
      var last := drafts[n].id;
      RemoveKeepsWellFormed(s, last);
      assert drafts[n] in drafts;
      IndexUnique(drafts, n);
      LastIsUnreferenced(drafts);
      var next := RemoveDraft(s, last).value;
      assert next == s.(drafts := drafts[..n]);
      assert Ids(drafts)[..n] == Ids(drafts[..n]);
      ReverseOrderAlwaysFinishes(next);
      assert Reversed(Ids(drafts)) == [last] + Reversed(Ids(drafts[..n]));
    }
  }

  lemma LastIsUnreferenced(drafts: seq<DraftEntry>)
    requires Ascending(drafts) && RefersBackwards(drafts) && drafts != []
    ensures Unreferenced(drafts, drafts[|drafts| - 1].id)
  {
    forall d | d in drafts ensures !d.content.RefersTo(drafts[|drafts| - 1].id) {
      var i :| 0 <= i < |drafts| && drafts[i] == d;
    }
  }

  // -------------------------------------------------------------------------- the object

  datatype ApplyResult = Applied(entry: Entry) | Skipped

  function ResultOf(p: Payload): ApplyResult {
    if p.EntryJson? then Applied(p.entry) else Skipped
  }

  class EntryBuffer {
    const engine: ConsensusEngine
    var nextIndex: nat
    var buffered: map<nat, Payload>
    var pending: Option<Pending>
    ghost var applied: seq<Payload>

    ghost function AsQueue(): Queue<Payload>
      reads this
    {
      Queue(nextIndex, buffered, applied)
    }

    constructor (participant: Author)
      ensures AsQueue() == Queue(0, map[], []) && pending == None
      ensures fresh(engine) && engine.log == [] && engine.Local() == INIT && engine.draftAuthor == participant
    {
      engine := new ConsensusEngine(participant);
      nextIndex, buffered, pending, applied := 0, map[], None, [];
    }

    method ApplyPayload(payload: Payload) returns (r: ApplyResult)
      modifies this`pending, this`applied, engine`log
      ensures r == ResultOf(payload) && r == if payload.EntryJson? then Applied(payload.entry) else Skipped
      ensures applied == old(applied) + [payload]
      ensures pending == Note(old(pending), payload)
      ensures engine.log == old(engine.log) + if payload.EntryJson? then [payload.entry] else []
      ensures engine.log == old(engine.log) + Parsed([payload])
    {
      if pending.Some? && pending.value.nextEntry < |pending.value.payloads| {
        var expected := pending.value.payloads[pending.value.nextEntry];
        if expected == payload {
          pending := Some(pending.value.(nextEntry := pending.value.nextEntry + 1));
        }
      }
      applied := applied + [payload];
      assert [payload][..0] == [];
      match Parse(payload) {
        case Some(entry) =>
          engine.Append(entry);
          return Applied(entry);
        case None =>
          return Skipped;
      }
    }

    /** `news` has just been applied: the submission counter, the log and the results follow it. */
    twostate predicate Advanced(news: seq<Payload>, new results: seq<(nat, ApplyResult)>)
      reads this, engine
    {
      && applied == old(applied) + news
      && pending == NoteAll(old(pending), news)
      && engine.log == old(engine.log) + Parsed(news)
      && results == Results(old(nextIndex), news)
    }

    /** As long as nobody else appends to it, the engine's log is what has been applied. */
    twostate lemma EngineLogFollows(news: seq<Payload>, new results: seq<(nat, ApplyResult)>)
      requires Advanced(news, results) && old(engine.log == Parsed(applied))
      ensures engine.log == Parsed(applied)
    {
      ParsedAppend(old(applied), news);
    }

    /** Apply buffered entries as long as the next one is among them. */
    method DrainBuffered() returns (results: seq<(nat, ApplyResult)>, ghost news: seq<Payload>)
      modifies this`nextIndex, this`buffered, this`pending, this`applied, engine`log
      ensures AsQueue() == Drained(old(AsQueue()))
      ensures Advanced(news, results)
    {
      results, news := [], [];
      while nextIndex in buffered
        invariant Drained(AsQueue()) == Drained(old(AsQueue()))
        invariant nextIndex == old(nextIndex) + |news|
        invariant Advanced(news, results)
        decreases |buffered|
      {
        var early := buffered[nextIndex];
        assert buffered.Keys == (buffered - {nextIndex}).Keys + {nextIndex};
        OneMore(old(pending), old(nextIndex), news, early);
        buffered := buffered - {nextIndex};
        var r := ApplyPayload(early);
        results := results + [(nextIndex, r)];
        nextIndex := nextIndex + 1;
        news := news + [early];
      }
    }

    /** Apply the entry if it is the next one, together with every buffered entry that thereby becomes next. */
    method ApplyOrBufferEntry(index: nat, payload: Payload) returns (results: seq<(nat, ApplyResult)>)
      modifies this`nextIndex, this`buffered, this`pending, this`applied, engine`log
      ensures AsQueue() == Deliver(old(AsQueue()), index, payload)
      ensures exists news :: Advanced(news, results)
    {
      results := [];
      if index < nextIndex {
        assert Advanced([], results);
        return;
      }
      if index > nextIndex {
        buffered := buffered[index := payload];
        assert Advanced([], results);
        return;
      }
      var first := ApplyPayload(payload);
      nextIndex := nextIndex + 1;
      assert AsQueue() == Queue(index + 1, old(buffered), old(applied) + [payload]);
      var more, rest := DrainBuffered();
      results := [(index, first)] + more;
      Follow(old(pending), old(nextIndex), payload, rest);
      assert Advanced([payload] + rest, results);
    }

    /** Serialize the current drafts into the payloads of a new pending submission. */
    method BeginSubmission(next: nat -> ClaimId) returns (r: Result<Option<Pending>, EngineError>)
      modifies this`pending
      ensures match SubmissionBundle(engine.drafts, engine.draftAuthor, next)
              case Err(e) => r == Err(e) && pending == old(pending)
              case Ok(b) =>
                if b.entries == [] then r == Ok(None) && pending == old(pending)
                else pending == Some(Pending(b.draftIds, SerializeAll(b.entries), 0)) && r == Ok(pending)
    {
      var bundle := engine.SubmissionBundle(next);
      if bundle.Err? {
        return Err(bundle.error);
      }
      if bundle.value.entries == [] {
        return Ok(None);
      }
      pending := Some(Pending(bundle.value.draftIds, SerializeAll(bundle.value.entries), 0));
      return Ok(pending);
    }

    /** Remove the submitted drafts; whatever happens, nothing is pending afterwards. */
    method FinishSubmission() returns (r: Result<bool, EngineError>)
      modifies this`pending, engine`drafts
      ensures pending == None
      ensures old(pending).None? ==> r == Ok(false) && engine.Local() == old(engine.Local())
      ensures old(pending).Some? ==>
        var (local, error) := RemoveEach(old(engine.Local()), old(pending).value.draftIds);
        engine.Local() == local && r == if error.Some? then Err(error.value) else Ok(true)
    {
      var taken := pending;
      pending := None;
      if taken.None? {
        return Ok(false);
      }
      var ids := taken.value.draftIds;
      for k := 0 to |ids|
        invariant pending == None
        invariant RemoveEach(old(engine.Local()), ids) == RemoveEach(engine.Local(), ids[k..])
      {
        var removed := engine.RemoveDraft(ids[k]);
        assert ids[k..][1..] == ids[k + 1..];
        if removed.Err? {
          return Err(removed.error);
        }
      }
      return Ok(true);
    }
  }

  function Results(from: nat, payloads: seq<Payload>): seq<(nat, ApplyResult)> {
    seq(|payloads|, k requires 0 <= k < |payloads| => (from + k, ResultOf(payloads[k])))
  }

  lemma Follow(p: Option<Pending>, from: nat, payload: Payload, rest: seq<Payload>)
    ensures NoteAll(p, [payload] + rest) == NoteAll(Note(p, payload), rest)
    ensures Parsed([payload] + rest) == Parsed([payload]) + Parsed(rest)
    ensures Results(from, [payload] + rest) == [(from, ResultOf(payload))] + Results(from + 1, rest)
  {
    assert [payload][..0] == [];
    assert NoteAll(p, [payload]) == Note(NoteAll(p, []), payload);
    NoteAllAppend(p, [payload], rest);
    ParsedAppend([payload], rest);
    FollowingResults(from, payload, rest);
  }

  lemma FollowingResults(from: nat, payload: Payload, rest: seq<Payload>)
    ensures Results(from, [payload] + rest) == [(from, ResultOf(payload))] + Results(from + 1, rest)
  {
    var all, tail := Results(from, [payload] + rest), Results(from + 1, rest);
    assert forall k :: 0 <= k < |rest| ==> all[k + 1] == tail[k];
  }

  lemma OneMore(p: Option<Pending>, from: nat, news: seq<Payload>, payload: Payload)
    ensures NoteAll(p, news + [payload]) == Note(NoteAll(p, news), payload)
    ensures Parsed(news + [payload]) == Parsed(news) + Parsed([payload])
    ensures Results(from, news + [payload]) == Results(from, news) + [(from + |news|, ResultOf(payload))]
  {
    assert (news + [payload])[..|news|] == news;
    assert [payload][..0] == [];
  }
}
