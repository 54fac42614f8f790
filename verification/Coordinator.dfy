/** Sequencing of committed entries: slots for known indices, paged fetches for the holes. */
module Coordinator {
  import opened Types

  datatype Slot<+T> = Requested | Received(value: T)

  /** Ask for the entries `from .. from + limit`. */
  datatype Fetch = Fetch(from: nat, limit: nat)

  datatype InitError = InvalidPageLimit

  datatype LogEvent<+T> = Receive(index: nat, entry: T) | SyncToLatest(latest: Option<nat>)

  // ----------------------------------------------------------------------- slot contents

  /** The first hole, or the known upper bound if there is none. */
  function NextExpected<T>(slots: seq<Slot<T>>): (n: nat)
    ensures n <= |slots|
    ensures forall i :: 0 <= i < n ==> slots[i].Received?
    ensures n < |slots| ==> slots[n].Requested?
  {
    if slots == [] || slots[0].Requested? then 0 else 1 + NextExpected(slots[1..])
  }

  function CommittedPrefix<T>(slots: seq<Slot<T>>): seq<T> {
    seq(NextExpected(slots), i requires 0 <= i < NextExpected(slots) => slots[i].value)
  }

  /** Grow to `n` slots, the new ones being holes; never shrink. */
  function Resized<T>(slots: seq<Slot<T>>, n: nat): seq<Slot<T>> {
    if n <= |slots| then slots else slots + seq(n - |slots|, _ => Requested)
  }

  function Filled<T>(slots: seq<Slot<T>>, index: nat, entry: T): seq<Slot<T>> {
    if index < |slots| && slots[index].Received? then slots
    else Resized(slots, index + 1)[index := Received(entry)]
  }

  function Apply<T>(slots: seq<Slot<T>>, event: LogEvent<T>): seq<Slot<T>> {
    match event
    case Receive(index, entry) => Filled(slots, index, entry)
    case SyncToLatest(None) => slots
    case SyncToLatest(Some(latest)) => Resized(slots, latest + 1)
  }

  // ------------------------------------------------------------------------ fetch plans

  ghost predicate Covers(f: Fetch, i: int) {
    f.from <= i < f.from + f.limit
  }

  ghost predicate Covered(plan: seq<Fetch>, i: int) {
    exists k :: 0 <= k < |plan| && Covers(plan[k], i)
  }

  /** A fetch asks for at least one slot and stops only at the page limit or at the end of its hole. */
  ghost predicate Maximal<T>(f: Fetch, slots: seq<Slot<T>>, pageLimit: nat) {
    && 1 <= f.limit <= pageLimit && f.from + f.limit <= |slots|
    && (f.limit == pageLimit || f.from + f.limit == |slots| || slots[f.from + f.limit].Received?)
  }

  /** Ascending, disjoint, maximal fetches that cover exactly the holes from `lo` on. */
  ghost predicate PlanFrom<T>(plan: seq<Fetch>, slots: seq<Slot<T>>, pageLimit: nat, lo: nat) {
    && (forall k :: 0 <= k < |plan| ==> Maximal(plan[k], slots, pageLimit))
    && (forall j, k :: 0 <= j < k < |plan| ==> plan[j].from + plan[j].limit <= plan[k].from)
    && forall i :: 0 <= i < |slots| ==> (Covered(plan, i) <==> i >= lo && slots[i].Requested?)
  }

  ghost predicate Plan<T>(plan: seq<Fetch>, slots: seq<Slot<T>>, pageLimit: nat) {
    PlanFrom(plan, slots, pageLimit, 0)
  }

  /** These properties leave no freedom: there is only one such plan. */
  lemma {:induction false} PlanIsUnique<T>(p: seq<Fetch>, q: seq<Fetch>, slots: seq<Slot<T>>, pageLimit: nat, lo: nat)
    requires PlanFrom(p, slots, pageLimit, lo) && PlanFrom(q, slots, pageLimit, lo)
    ensures p == q
    decreases |p|
  {
    if p == [] || q == [] {
      NonEmptyPlanCovers(p, slots, pageLimit, lo);
      NonEmptyPlanCovers(q, slots, pageLimit, lo);
    } else {
      FirstFetchLeast(p, q, slots, pageLimit, lo);
      FirstFetchLeast(q, p, slots, pageLimit, lo);
      assert p[0].from == q[0].from;
      FirstLimitNotLess(p, q, slots, pageLimit, lo);
      FirstLimitNotLess(q, p, slots, pageLimit, lo);
      var next := p[0].from + p[0].limit;
      RestOfPlan(p, slots, pageLimit, lo);
      RestOfPlan(q, slots, pageLimit, lo);
      PlanIsUnique(p[1..], q[1..], slots, pageLimit, next);
      assert p == [p[0]] + p[1..] && q == [q[0]] + q[1..];
    }
  }

  lemma NonEmptyPlanCovers<T>(p: seq<Fetch>, slots: seq<Slot<T>>, pageLimit: nat, lo: nat)
    requires PlanFrom(p, slots, pageLimit, lo)
    ensures p != [] ==> lo <= p[0].from < |slots| && slots[p[0].from].Requested?
  {
    if p != [] {
      assert Covers(p[0], p[0].from);
      assert Covered(p, p[0].from);
    }
  }

  lemma FirstFetchLeast<T>(p: seq<Fetch>, q: seq<Fetch>, slots: seq<Slot<T>>, pageLimit: nat, lo: nat)
    requires PlanFrom(p, slots, pageLimit, lo) && PlanFrom(q, slots, pageLimit, lo) && p != [] && q != []
    ensures p[0].from <= q[0].from
  {
    NonEmptyPlanCovers(q, slots, pageLimit, lo);
    assert Covered(p, q[0].from);
    var k :| 0 <= k < |p| && Covers(p[k], q[0].from);
  }

  lemma FirstLimitNotLess<T>(p: seq<Fetch>, q: seq<Fetch>, slots: seq<Slot<T>>, pageLimit: nat, lo: nat)
    requires PlanFrom(p, slots, pageLimit, lo) && PlanFrom(q, slots, pageLimit, lo) && p != [] && q != []
    requires p[0].from == q[0].from
    ensures p[0].limit >= q[0].limit
  {
    var next := p[0].from + p[0].limit;
    assert Covers(q[0], next) <==> p[0].limit < q[0].limit;
    assert Covers(q[0], next) ==> Covered(q, next);
  }

  lemma RestOfPlan<T>(p: seq<Fetch>, slots: seq<Slot<T>>, pageLimit: nat, lo: nat)
    requires PlanFrom(p, slots, pageLimit, lo) && p != []
    ensures PlanFrom(p[1..], slots, pageLimit, p[0].from + p[0].limit)
  {
    var next := p[0].from + p[0].limit;
    NonEmptyPlanCovers(p, slots, pageLimit, lo);
    forall i | 0 <= i < |slots| ensures Covered(p[1..], i) <==> i >= next && slots[i].Requested? {
      if Covered(p[1..], i) {
        var k :| 0 <= k < |p[1..]| && Covers(p[1..][k], i);
        assert Covers(p[k + 1], i);
        assert Covered(p, i);
      }
      if i >= next && slots[i].Requested? {
        assert Covered(p, i);
        var k :| 0 <= k < |p| && Covers(p[k], i);
        assert Covers(p[1..][k - 1], i);
      }
    }
  }

  /** The length of the run of holes starting at `i`, at most `max`. */
  function HoleLength<T>(slots: seq<Slot<T>>, i: nat, max: nat): (n: nat)
    requires i <= |slots|
    decreases max
    ensures n <= max && i + n <= |slots|
    ensures forall j :: i <= j < i + n ==> slots[j].Requested?
    ensures n == max || i + n == |slots| || slots[i + n].Received?
  {
    if max == 0 || i == |slots| || slots[i].Received? then 0 else 1 + HoleLength(slots, i + 1, max - 1)
  }

  /** The plan, as a value. */
  function PlannedFetches<T>(slots: seq<Slot<T>>, pageLimit: nat, i: nat): seq<Fetch>
    requires pageLimit > 0 && i <= |slots|
    decreases |slots| - i
  {
    if i == |slots| then []
    else if slots[i].Received? then PlannedFetches(slots, pageLimit, i + 1)
    else
      var n := HoleLength(slots, i, pageLimit);
      [Fetch(i, n)] + PlannedFetches(slots, pageLimit, i + n)
  }

  lemma {:induction false} PlannedFetchesIsPlan<T>(slots: seq<Slot<T>>, pageLimit: nat, i: nat)
    requires pageLimit > 0 && i <= |slots|
    ensures PlanFrom(PlannedFetches(slots, pageLimit, i), slots, pageLimit, i)
    decreases |slots| - i
  {
    if i < |slots| && slots[i].Received? {
      PlannedFetchesIsPlan(slots, pageLimit, i + 1);
      SkipReceived(PlannedFetches(slots, pageLimit, i + 1), slots, pageLimit, i);
    } else if i < |slots| {
      var n := HoleLength(slots, i, pageLimit);
      PlannedFetchesIsPlan(slots, pageLimit, i + n);
      PlanWithFirst(Fetch(i, n), PlannedFetches(slots, pageLimit, i + n), slots, pageLimit);
    } else {
      NothingToPlan(slots, pageLimit);
    }
  }

  lemma NothingToPlan<T>(slots: seq<Slot<T>>, pageLimit: nat)
    ensures PlanFrom([], slots, pageLimit, |slots|)
  {
  }

  lemma SkipReceived<T>(plan: seq<Fetch>, slots: seq<Slot<T>>, pageLimit: nat, i: nat)
    requires i < |slots| && slots[i].Received? && PlanFrom(plan, slots, pageLimit, i + 1)
    ensures PlanFrom(plan, slots, pageLimit, i)
  {
  }

  lemma PlanWithFirst<T>(f: Fetch, rest: seq<Fetch>, slots: seq<Slot<T>>, pageLimit: nat)
    requires Maximal(f, slots, pageLimit) && PlanFrom(rest, slots, pageLimit, f.from + f.limit)
    requires forall i :: f.from <= i < f.from + f.limit ==> slots[i].Requested?
    ensures PlanFrom([f] + rest, slots, pageLimit, f.from)
  {
    var plan, next := [f] + rest, f.from + f.limit;
    forall k | 0 <= k < |rest| ensures rest[k].from >= next {
      assert Covers(rest[k], rest[k].from);
      assert Covered(rest, rest[k].from);
    }
    forall i | 0 <= i < |slots| ensures Covered(plan, i) <==> i >= f.from && slots[i].Requested? {
      Prefixed(f, rest, i);
    }
  }

  lemma Prefixed(f: Fetch, plan: seq<Fetch>, i: int)
    ensures Covered([f] + plan, i) <==> Covers(f, i) || Covered(plan, i)
  {
    if Covers(f, i) {
      assert Covers(([f] + plan)[0], i);
    }
    if Covered(plan, i) {
      var k :| 0 <= k < |plan| && Covers(plan[k], i);
      assert Covers(([f] + plan)[k + 1], i);
    }
  }

  lemma Appended(plan: seq<Fetch>, f: Fetch, i: int)
    ensures Covered(plan + [f], i) <==> Covered(plan, i) || Covers(f, i)
  {
    if Covered(plan, i) {
      var k :| 0 <= k < |plan| && Covers(plan[k], i);
      assert Covers((plan + [f])[k], i);
    }
    if Covers(f, i) {
      assert Covers((plan + [f])[|plan|], i);
    }
  }

  lemma PlanWithLast<T>(plan: seq<Fetch>, f: Fetch, slots: seq<Slot<T>>, pageLimit: nat)
    requires Maximal(f, slots, pageLimit) && PlannedUpTo(plan, slots, pageLimit, f.from)
    requires forall i :: f.from <= i < f.from + f.limit ==> slots[i].Requested?
    ensures PlannedUpTo(plan + [f], slots, pageLimit, f.from + f.limit)
  {
    forall i | 0 <= i < |slots| ensures Covered(plan + [f], i) <==> i < f.from + f.limit && slots[i].Requested? {
      Appended(plan, f, i);
    }
  }

  method PlanMissingFetches<T>(slots: seq<Slot<T>>, pageLimit: nat) returns (effects: seq<Fetch>)
    requires pageLimit > 0
    ensures Plan(effects, slots, pageLimit)
    ensures effects == PlannedFetches(slots, pageLimit, 0)
  {
    effects := [];
    var index := 0;
    while index < |slots|
      invariant 0 <= index <= |slots|
      invariant PlannedUpTo(effects, slots, pageLimit, index)
    {
      if !slots[index].Requested? {
        index := index + 1;
        continue;
      }
      var start := index;
      while index < |slots| && slots[index].Requested?
        invariant start <= index <= |slots|
        invariant forall i :: start <= i < index ==> slots[i].Requested?
      {
        index := index + 1;
      }
      var end := index;
      var from := start;
      while from < end
        invariant start <= from <= end
        invariant PlannedUpTo(effects, slots, pageLimit, from)
      {
        var limit := if end - from < pageLimit then end - from else pageLimit;
        PlanWithLast(effects, Fetch(from, limit), slots, pageLimit);
        effects := effects + [Fetch(from, limit)];
        from := from + limit;
      }
    }
    PlannedFetchesIsPlan(slots, pageLimit, 0);
    PlanIsUnique(effects, PlannedFetches(slots, pageLimit, 0), slots, pageLimit, 0);
  }

  /** The holes below `hi` are planned, and nothing else. */
  ghost predicate PlannedUpTo<T>(plan: seq<Fetch>, slots: seq<Slot<T>>, pageLimit: nat, hi: nat)
    requires hi <= |slots|
  {
    && (forall k :: 0 <= k < |plan| ==> Maximal(plan[k], slots, pageLimit) && plan[k].from + plan[k].limit <= hi)
    && (forall j, k :: 0 <= j < k < |plan| ==> plan[j].from + plan[j].limit <= plan[k].from)
    && forall i :: 0 <= i < |slots| ==> (Covered(plan, i) <==> i < hi && slots[i].Requested?)
  }

  // ------------------------------------------------------------------- the state machine

  /** What an event asks to be fetched. */
  ghost predicate Emits<T>(slots: seq<Slot<T>>, event: LogEvent<T>, pageLimit: nat, effects: seq<Fetch>) {
    if (event.Receive? && event.index < |slots|) || (event.SyncToLatest? && event.latest.None?) then effects == []
    else Plan(effects, Apply(slots, event), pageLimit)
  }

  class CoordinatorState<T> {
    var slots: seq<Slot<T>>
    const pageLimit: nat

    ghost predicate Valid() {
      pageLimit > 0
    }

    constructor Empty(pageLimit: nat)
      requires pageLimit > 0
      ensures Valid() && this.pageLimit == pageLimit && slots == []
    {
      this.pageLimit := pageLimit;
      slots := [];
    }

    method Sync(latest: Option<nat>) returns (effects: seq<Fetch>)
      requires Valid()
      modifies this
      ensures slots == Apply(old(slots), SyncToLatest(latest))
      ensures Emits(old(slots), SyncToLatest(latest), pageLimit, effects)
    {
      if latest.None? {
        return [];
      }
      if latest.value >= |slots| {
        slots := Resized(slots, latest.value + 1);
      }
      effects := PlanMissingFetches(slots, pageLimit);
    }

    method Reduce(index: nat, entry: T) returns (effects: seq<Fetch>)
      requires Valid()
      modifies this
      ensures slots == Apply(old(slots), Receive(index, entry))
      ensures Emits(old(slots), Receive(index, entry), pageLimit, effects)
    {
      if index < |slots| {
        match slots[index] {
          case Received(_) =>
          case Requested => slots := slots[index := Received(entry)];
        }
        return [];
      }
      slots := Resized(slots, index + 1);
      slots := slots[index := Received(entry)];
      effects := PlanMissingFetches(slots, pageLimit);
    }
  }

  /** A coordinator for a session whose latest entry may be known; a page limit of zero is refused. */
  method Init<T>(pageLimit: nat, latest: Option<nat>) returns (r: Result<(CoordinatorState<T>, seq<Fetch>), InitError>)
    ensures r.Err? <==> pageLimit == 0
    ensures r.Ok? ==> fresh(r.value.0) && r.value.0.Valid() && r.value.0.pageLimit == pageLimit
    ensures r.Ok? ==> r.value.0.slots == Apply([], SyncToLatest(latest))
    ensures r.Ok? ==> Emits<T>([], SyncToLatest(latest), pageLimit, r.value.1)
  {
    if pageLimit == 0 {
      return Err(InvalidPageLimit);
    }
    var c := new CoordinatorState<T>.Empty(pageLimit);
    var effects := c.Sync(latest);
    return Ok((c, effects));
  }

  // ------------------------------------------------------------------------------- runs

  function Run<T>(slots: seq<Slot<T>>, events: seq<LogEvent<T>>): seq<Slot<T>> {
    if events == [] then slots
    else Apply(Run(slots, events[..|events| - 1]), events[|events| - 1])
  }

  ghost predicate DeliveryOf<T>(e: LogEvent<T>, i: int) {
    e.Receive? && e.index == i
  }

  ghost predicate Delivered<T>(events: seq<LogEvent<T>>, i: int) {
    exists k :: 0 <= k < |events| && DeliveryOf(events[k], i)
  }

  ghost predicate FirstDelivery<T>(events: seq<LogEvent<T>>, i: int, k: int) {
    0 <= k < |events| && DeliveryOf(events[k], i) && forall j :: 0 <= j < k ==> !DeliveryOf(events[j], i)
  }

  /** A slot is filled exactly when its index has been delivered, and keeps the first delivery. */
  lemma {:induction false} SlotsAfterRun<T>(events: seq<LogEvent<T>>)
    ensures forall i :: Delivered(events, i) <==> 0 <= i < |Run([], events)| && Run([], events)[i].Received?
    ensures forall i, k :: FirstDelivery(events, i, k) ==>
      0 <= i < |Run([], events)| && Run([], events)[i] == Received(events[k].entry)
  {
    if events != [] {
      var n := |events| - 1;
      var prev, e := events[..n], events[n];
      var before, after := Run<T>([], prev), Run<T>([], events);
      SlotsAfterRun(prev);
      forall i ensures Delivered(events, i) <==> Delivered(prev, i) || DeliveryOf(e, i) {
        if Delivered(prev, i) {
          var k :| 0 <= k < |prev| && DeliveryOf(prev[k], i);
          assert DeliveryOf(events[k], i);
        }
        if DeliveryOf(e, i) {
          assert DeliveryOf(events[n], i);
        }
        if Delivered(events, i) && !DeliveryOf(e, i) {
          var k :| 0 <= k < |events| && DeliveryOf(events[k], i);
          assert DeliveryOf(prev[k], i);
        }
      }
      forall i ensures (0 <= i < |after| && after[i].Received?) <==>
                       (0 <= i < |before| && before[i].Received?) || DeliveryOf(e, i) {
      }
      forall i, k | FirstDelivery(events, i, k)
        ensures 0 <= i < |after| && after[i] == Received(events[k].entry)
      {
        if k < n {
          assert FirstDelivery(prev, i, k);
        } else {
          assert forall j :: 0 <= j < |prev| ==> prev[j] == events[j];
          assert !Delivered(prev, i);
        }
      }
    }
  }

  /** Some event receives an entry at or above `i`, or learns that the session reaches that far. */
  ghost predicate Heard<T>(events: seq<LogEvent<T>>, i: int) {
    exists k :: 0 <= k < |events| && Reaches(events[k], i)
  }

  predicate Reaches<T>(e: LogEvent<T>, i: int) {
    (e.Receive? && e.index >= i) || (e.SyncToLatest? && e.latest.Some? && e.latest.value >= i)
  }

  /** There is a slot for exactly the indices heard of. */
  lemma {:induction false} SlotCountAfterRun<T>(events: seq<LogEvent<T>>, i: nat)
    ensures i < |Run([], events)| <==> Heard(events, i)
  {
    if events != [] {
      var n := |events| - 1;
      SlotCountAfterRun(events[..n], i);
      if Heard(events[..n], i) {
        var k :| 0 <= k < n && Reaches(events[..n][k], i);
        assert Reaches(events[k], i);
      }
      if Heard(events, i) && !Reaches(events[n], i) {
        var k :| 0 <= k < |events| && Reaches(events[k], i);
        assert Reaches(events[..n][k], i);
      }
      SlotCountStep(Run([], events[..n]), events[n], i);
    }
  }

  lemma SlotCountStep<T>(slots: seq<Slot<T>>, e: LogEvent<T>, i: nat)
    ensures i < |Apply(slots, e)| <==> i < |slots| || Reaches(e, i)
  {
  }

  /** The next expected index is the first one never delivered. */
  lemma NextExpectedIsFirstUndelivered<T>(events: seq<LogEvent<T>>)
    ensures forall i :: 0 <= i < NextExpected(Run([], events)) ==> Delivered(events, i)
    ensures !Delivered(events, NextExpected(Run([], events)))
  {
    SlotsAfterRun(events);
  }

  /** Every delivery carries the entry the log holds at that index. */
  ghost predicate ConsistentWith<T>(events: seq<LogEvent<T>>, log: seq<T>) {
    forall k :: 0 <= k < |events| && events[k].Receive? ==>
      events[k].index < |log| && events[k].entry == log[events[k].index]
  }

  /** However deliveries of one log are reordered and repeated, exactly a prefix of the log is committed. */
  lemma CommittedPrefixOfLog<T>(events: seq<LogEvent<T>>, log: seq<T>)
    requires ConsistentWith(events, log)
    ensures NextExpected(Run([], events)) <= |log|
    ensures CommittedPrefix(Run([], events)) == log[..NextExpected(Run([], events))]
  {
    var slots := Run<T>([], events);
    var next := NextExpected(slots);
    SlotsAfterRun(events);
    forall i | 0 <= i < next ensures i < |log| && slots[i] == Received(log[i]) {
      assert Delivered(events, i);
      var k := EarliestDelivery(events, i);
    }
    if next > 0 {
      assert slots[next - 1].Received?;
    }
  }

  lemma {:induction false} EarliestDelivery<T>(events: seq<LogEvent<T>>, i: int) returns (k: int)
    requires Delivered(events, i)
    ensures FirstDelivery(events, i, k)
  {
    var n := |events| - 1;
    if Delivered(events[..n], i) {
      k := EarliestDelivery(events[..n], i);
    } else {
      k :| 0 <= k < |events| && DeliveryOf(events[k], i);
      forall j | 0 <= j < k ensures !DeliveryOf(events[j], i) {
        assert events[..n][j] == events[j];
      }
    }
  }

  /** One event never loses a received value, a slot or a committed entry. */
  lemma StepOnlyGrows<T>(slots: seq<Slot<T>>, event: LogEvent<T>)
    ensures |slots| <= |Apply(slots, event)|
    ensures forall i :: 0 <= i < |slots| && slots[i].Received? ==> Apply(slots, event)[i] == slots[i]
    ensures CommittedPrefix(slots) <= CommittedPrefix(Apply(slots, event))
  {
    var n, m := NextExpected(slots), NextExpected(Apply(slots, event));
    assert m < n ==> slots[m].Received?;
  }

  /** `effects[k]` is what the `k`-th event of the run emitted. */
  ghost predicate EmitsAlong<T>(events: seq<LogEvent<T>>, pageLimit: nat, effects: seq<seq<Fetch>>) {
    && |effects| == |events|
    && forall k :: 0 <= k < |events| ==> Emits(Run([], events[..k]), events[k], pageLimit, effects[k])
  }

  ghost predicate Asked(effects: seq<seq<Fetch>>, i: int) {
    exists k :: 0 <= k < |effects| && Covered(effects[k], i)
  }

  /** Over any run, every hole has been asked for by some fetch emitted so far. */
  lemma {:induction false} EveryHoleIsAskedFor<T>(events: seq<LogEvent<T>>, pageLimit: nat, effects: seq<seq<Fetch>>)
    requires EmitsAlong(events, pageLimit, effects)
    ensures forall i :: 0 <= i < |Run([], events)| && Run([], events)[i].Requested? ==> Asked(effects, i)
  {
    if events != [] {
      var n := |events| - 1;
      var prev, e := events[..n], events[n];
      var before, after := Run<T>([], prev), Run<T>([], events);
      forall k | 0 <= k < n ensures Emits(Run([], prev[..k]), prev[k], pageLimit, effects[..n][k]) {
        assert prev[..k] == events[..k];
      }
      EveryHoleIsAskedFor(prev, pageLimit, effects[..n]);
      assert Emits(before, e, pageLimit, effects[n]);
      forall i | 0 <= i < |after| && after[i].Requested? ensures Asked(effects, i) {
        if Covered(effects[n], i) {
        } else {
          assert |after| == |before| && before[i].Requested?;
          var k :| 0 <= k < |effects[..n]| && Covered(effects[..n][k], i);
          assert Covered(effects[k], i);
        }
      }
    }
  }

  /** Once every index asked for has been delivered, no hole is left. */
  lemma AnsweringLeavesNoGap<T>(events: seq<LogEvent<T>>, answers: seq<LogEvent<T>>, pageLimit: nat, effects: seq<seq<Fetch>>)
    requires EmitsAlong(events, pageLimit, effects)
    requires forall a :: a in answers ==> a.Receive? && a.index < |Run([], events)|
    requires forall i :: 0 <= i < |Run([], events)| && Asked(effects, i) ==> Delivered(answers, i)
    ensures NextExpected(Run([], events + answers)) == |Run([], events + answers)| == |Run([], events)|
  {
    EveryHoleIsAskedFor(events, pageLimit, effects);
    SlotsAfterRun(events);
    SlotsAfterRun(events + answers);
    InRangeAnswersKeepLength(events, answers);
    var n := |Run<T>([], events)|;
    forall i | 0 <= i < n ensures Delivered(events + answers, i) {
      if Run<T>([], events)[i].Received? {
        var k :| 0 <= k < |events| && DeliveryOf(events[k], i);
        assert DeliveryOf((events + answers)[k], i);
      } else {
        var k :| 0 <= k < |answers| && DeliveryOf(answers[k], i);
        assert DeliveryOf((events + answers)[|events| + k], i);
      }
    }
  }

  lemma {:induction false} InRangeAnswersKeepLength<T>(events: seq<LogEvent<T>>, answers: seq<LogEvent<T>>)
    requires forall a :: a in answers ==> a.Receive? && a.index < |Run([], events)|
    ensures |Run([], events + answers)| == |Run([], events)|
    decreases answers
  {
    if answers == [] {
      assert events + answers == events;
    } else {
      var n := |answers| - 1;
      assert (events + answers)[..|events| + n] == events + answers[..n];
      InRangeAnswersKeepLength(events, answers[..n]);
    }
  }
}
