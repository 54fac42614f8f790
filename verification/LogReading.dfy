/** What the statuses say about the log itself: no materialized state, no node numbers. */
module LogReading {
  import opened Types
  import opened Argumentation
  import opened Reducer
  import opened Status
  import opened Renaming

  // ------------------------------------------------------------- which claims have a status

  /** The log claims `id`, and no resolve of it follows its first claim entry. */
  ghost predicate Live(log: seq<Entry>, id: ClaimId) {
    exists i: nat :: FirstClaim(log, id, i) && forall k :: i < k < |log| ==> !ResolvesId(log[k], id)
  }

  lemma {:induction false} FindFirstClaim(log: seq<Entry>, id: ClaimId) returns (i: nat)
    requires exists j :: 0 <= j < |log| && ClaimsId(log[j], id)
    ensures FirstClaim(log, id, i)
  {
    var n := |log| - 1;
    if exists j :: 0 <= j < n && ClaimsId(log[..n][j], id) {
      i := FindFirstClaim(log[..n], id);
      assert forall j :: 0 <= j < i ==> log[j] == log[..n][j];
    } else {
      i := n;
      assert forall j :: 0 <= j < n ==> log[..n][j] == log[j];
    }
  }

  lemma {:induction false} FindLastResolve(log: seq<Entry>, id: ClaimId, i: nat) returns (k: nat)
    requires exists k :: i < k < |log| && ResolvesId(log[k], id)
    ensures LastResolveAfter(log, id, i, k)
    decreases |log|
  {
    var n := |log| - 1;
    if ResolvesId(log[n], id) {
      k := n;
    } else {
      var k0 :| i < k0 < |log| && ResolvesId(log[k0], id);
      assert k0 < n && ResolvesId(log[..n][k0], id);
      k := FindLastResolve(log[..n], id, i);
      assert forall j :: k < j < n ==> log[..n][j] == log[j];
    }
  }

  /** A claim is unresolved exactly when it is live in the log. */
  lemma ActiveIsLive(log: seq<Entry>, id: ClaimId)
    ensures Active(Replay(log), id) <==> Live(log, id)
  {
    ReplayClaims(log, id);
    assert Live(log, id) ==> id in Replay(log).claims;
    if id in Replay(log).claims {
      var i := FindFirstClaim(log, id);
      assert ReadsAs(log, id, i, Replay(log).claims[id]);
      if exists k :: i < k < |log| && ResolvesId(log[k], id) {
        var k := FindLastResolve(log, id, i);
      }
    }
  }

  // ------------------------------------------------------------------- who attacks whom

  predicate IsAttack(e: Entry, source: ClaimId, target: ClaimId) {
    e.Relation? && e.relation == Attacks && e.source == source && e.target == target
  }

  ghost predicate Attacked(log: seq<Entry>, source: ClaimId, target: ClaimId) {
    Live(log, source) && exists i :: 0 <= i < |log| && IsAttack(log[i], source, target)
  }

  lemma {:induction false} RelationsOfLog(log: seq<Entry>, source: ClaimId, target: ClaimId)
    ensures (exists r :: r in Relations(log) && r.kind == Attacks && r.source == source && r.target == target) <==>
            exists i :: 0 <= i < |log| && IsAttack(log[i], source, target)
  {
    if log != [] {
      var n := |log| - 1;
      var prev, e := log[..n], log[n];
      RelationsOfLog(prev, source, target);
      assert forall i :: 0 <= i < n ==> prev[i] == log[i];
      if IsAttack(e, source, target) {
        var rs := Relations(log);
        assert rs[|rs| - 1] in rs;
      } else {
        assert forall r :: r in Relations(log) && r.kind == Attacks && r.source == source && r.target == target ==> r in Relations(prev);
        assert forall r :: r in Relations(prev) ==> r in Relations(log);
      }
    }
  }

  /** The framework that is solved has the live claims and the attacks between them. */
  lemma FrameworkOfLog(log: seq<Entry>, id: ClaimId)
    ensures id in ClaimFramework(Replay(log)) <==> Live(log, id)
    ensures Live(log, id) ==>
      forall a :: a in ClaimFramework(Replay(log))[id] <==> Attacked(log, a, id)
  {
    var s := Replay(log);
    ActiveIsLive(log, id);
    ReplayRelations(log);
    if Live(log, id) {
      forall a ensures a in ClaimFramework(s)[id] <==> Attacked(log, a, id) {
        SourcesMeaning(s, s.relations, Attacks, id, a);
        ActiveIsLive(log, a);
        RelationsOfLog(log, a, id);
        if Attacked(log, a, id) {
          var r :| r in s.relations && r.kind == Attacks && r.source == a && r.target == id;
          assert Joins(s, r, Attacks, id);
        }
      }
    }
  }

  // --------------------------------------------------------------- what participants think

  /** Some author's last stance on `id` takes this position. */
  ghost predicate Held(log: seq<Entry>, id: ClaimId, position: Position) {
    exists author: Author, i: int :: LastStance(log, (id, author), i) && log[i].position == position
  }

  ghost predicate SomeStance(log: seq<Entry>, id: ClaimId) {
    exists i :: 0 <= i < |log| && log[i].Stance? && log[i].target == id
  }

  lemma {:induction false} FindLastStance(log: seq<Entry>, key: (ClaimId, Author)) returns (i: int)
    requires exists j :: 0 <= j < |log| && StandsOn(log[j], key)
    ensures LastStance(log, key, i)
  {
    var n := |log| - 1;
    if StandsOn(log[n], key) {
      i := n;
    } else {
      var j :| 0 <= j < |log| && StandsOn(log[j], key);
      assert StandsOn(log[..n][j], key);
      i := FindLastStance(log[..n], key);
      assert forall k :: i < k < n ==> log[k] == log[..n][k];
    }
  }

  /** The stances a status is read from are the last ones of the authors who took one on the claim. */
  lemma PositionsOfLog(log: seq<Entry>, id: ClaimId)
    ensures forall p :: p in Positions(StancesOn(Replay(log), id)) <==> Held(log, id, p)
    ensures Positions(StancesOn(Replay(log), id)) != {} <==> SomeStance(log, id)
  {
    var stances, on := Replay(log).stances, StancesOn(Replay(log), id);
    forall key | key in stances
      ensures exists i :: LastStance(log, key, i) && stances[key] == StanceState(key.0, key.1, log[i].position)
    {
      ReplayStances(log, key);
      var i := FindLastStance(log, key);
    }
    forall p | p in Positions(on) ensures Held(log, id, p) && SomeStance(log, id) {
      var key :| key in stances && stances[key] in on && stances[key].position == p;
      var i :| LastStance(log, key, i) && stances[key] == StanceState(key.0, key.1, log[i].position);
      assert key == (id, key.1);
      assert LastStance(log, (id, key.1), i);
    }
    forall author: Author, i | LastStance(log, (id, author), i) ensures log[i].position in Positions(on) {
      ReplayStances(log, (id, author));
      assert stances[(id, author)] in on;
    }
    if SomeStance(log, id) {
      var j :| 0 <= j < |log| && log[j].Stance? && log[j].target == id;
      var i := FindLastStance(log, (id, log[j].author));
      assert log[i].position in Positions(on);
    }
  }

  /**
   The statuses of a log: exactly the live claims have one.  A claim that is out of the grounded labelling
   is defeated, an undecided one unresolved; one that is in is contested exactly when some author's last
   stance on it blocks or objects, unexamined exactly when nobody took a stance, and established otherwise.
   */
  lemma StatusOfLog(log: seq<Entry>, id: ClaimId)
    ensures id in StatusMap(Replay(log)) <==> Live(log, id)
    ensures Live(log, id) ==>
      var status := StatusMap(Replay(log))[id];
      match GroundedLabel(ClaimFramework(Replay(log)), id)
      case Out => status == Defeated
      case Undec => status == Unresolved
      case In =>
        && (status == Contested <==> Held(log, id, Position.Block) || Held(log, id, Position.Object))
        && (status == Unexamined <==> !SomeStance(log, id))
        && status in {Contested, Unexamined, Established}
  {
    ActiveIsLive(log, id);
    PositionsOfLog(log, id);
    StatusReadsPositions(GroundedLabel(ClaimFramework(Replay(log)), id), StancesOn(Replay(log), id));
  }
}
