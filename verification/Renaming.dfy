/** Replay and statuses commute with any one-to-one renaming of the claim ids a log mentions. */
module Renaming {
  import opened Types
  import opened Argumentation
  import opened Reducer
  import opened Status

  type Rename = ClaimId -> ClaimId

  function RenameOption(rho: Rename, id: Option<ClaimId>): Option<ClaimId> {
    match id case None => None case Some(v) => Some(rho(v))
  }

  function RenameEntry(rho: Rename, e: Entry): Entry {
    match e
    case Claim(id, author, body, kind, parent) => Claim(rho(id), author, body, kind, RenameOption(rho, parent))
    case Relation(source, target, kind, author) => Relation(rho(source), rho(target), kind, author)
    case Stance(target, author, position) => Stance(rho(target), author, position)
    case Resolve(id, author, outcome) => Resolve(rho(id), author, outcome)
    case Comment(about, author, body) => Comment(RenameOption(rho, about), author, body)
  }

  function RenameAll(rho: Rename, log: seq<Entry>): seq<Entry> {
    seq(|log|, i requires 0 <= i < |log| => RenameEntry(rho, log[i]))
  }

  /** The ids an entry mentions in any position. */
  function Mentions(e: Entry): set<ClaimId> {
    match e
    case Claim(id, _, _, _, parent) => {id} + OptionSet(parent)
    case Relation(source, target, _, _) => {source, target}
    case Stance(target, _, _) => {target}
    case Resolve(id, _, _) => {id}
    case Comment(about, _, _) => OptionSet(about)
  }

  function OptionSet(id: Option<ClaimId>): set<ClaimId> {
    if id.Some? then {id.value} else {}
  }

  ghost predicate MentionsOnly(log: seq<Entry>, ids: set<ClaimId>) {
    forall e :: e in log ==> Mentions(e) <= ids
  }

  ghost predicate InjectiveOn(rho: Rename, ids: set<ClaimId>) {
    forall a, b :: a in ids && b in ids && rho(a) == rho(b) ==> a == b
  }

  function RenameClaim(rho: Rename, c: ClaimState): ClaimState {
    c.(id := rho(c.id), parent := RenameOption(rho, c.parent))
  }

  function RenameRelation(rho: Rename, r: RelationState): RelationState {
    r.(source := rho(r.source), target := rho(r.target))
  }

  /** `t` is `s` with every claim id renamed; `ids` bounds the ids of `s`. */
  ghost predicate RenamedState(rho: Rename, ids: set<ClaimId>, s: MaterializedState, t: MaterializedState) {
    && RenamedClaims(rho, ids, s.claims, t.claims)
    && RenamedStances(rho, ids, s.stances, t.stances)
    && RenamedRelations(rho, ids, s.relations, t.relations)
  }

  ghost predicate RenamedClaims(rho: Rename, ids: set<ClaimId>, s: map<ClaimId, ClaimState>, t: map<ClaimId, ClaimState>) {
    && s.Keys <= ids
    && (forall id :: id in s ==> rho(id) in t && t[rho(id)] == RenameClaim(rho, s[id]))
    && forall x :: x in t ==> exists id :: id in s && rho(id) == x
  }

  ghost predicate RenamedStances(rho: Rename, ids: set<ClaimId>,
                                 s: map<(ClaimId, Author), StanceState>, t: map<(ClaimId, Author), StanceState>)
  {
    && (forall k :: k in s ==>
          && k.0 in ids && s[k].target == k.0 && s[k].author == k.1
          && (rho(k.0), k.1) in t && t[(rho(k.0), k.1)] == s[k].(target := rho(k.0)))
    && forall y :: y in t ==> exists k :: k in s && (rho(k.0), k.1) == y
  }

  ghost predicate RenamedRelations(rho: Rename, ids: set<ClaimId>, s: seq<RelationState>, t: seq<RelationState>) {
    && |t| == |s|
    && forall i :: 0 <= i < |s| ==> s[i].source in ids && s[i].target in ids && t[i] == RenameRelation(rho, s[i])
  }

  lemma KeyRenamed(rho: Rename, ids: set<ClaimId>, s: map<ClaimId, ClaimState>, t: map<ClaimId, ClaimState>, id: ClaimId)
    requires InjectiveOn(rho, ids) && RenamedClaims(rho, ids, s, t) && id in ids
    ensures id in s <==> rho(id) in t
  {
    if rho(id) in t {
      var c :| c in s && rho(c) == rho(id);
      assert c == id;
    }
  }

  lemma RenamedPut(rho: Rename, ids: set<ClaimId>, s: map<ClaimId, ClaimState>, t: map<ClaimId, ClaimState>,
                   id: ClaimId, c: ClaimState)
    requires InjectiveOn(rho, ids) && RenamedClaims(rho, ids, s, t) && id in ids
    ensures RenamedClaims(rho, ids, s[id := c], t[rho(id) := RenameClaim(rho, c)])
  {
    var s', t' := s[id := c], t[rho(id) := RenameClaim(rho, c)];
    forall x | x in s' ensures rho(x) in t' && t'[rho(x)] == RenameClaim(rho, s'[x]) {
      if x != id {
        assert x in s && x in ids;
        assert rho(x) != rho(id);
      }
    }
    forall y | y in t' ensures exists x :: x in s' && rho(x) == y {
      if y == rho(id) {
        assert id in s';
      } else {
        var x :| x in s && rho(x) == y;
        assert x in s';
      }
    }
  }

  lemma RenamedClaimsStep(rho: Rename, ids: set<ClaimId>, s: map<ClaimId, ClaimState>, t: map<ClaimId, ClaimState>, e: Entry)
    requires InjectiveOn(rho, ids) && RenamedClaims(rho, ids, s, t) && Mentions(e) <= ids
    ensures RenamedClaims(rho, ids, ClaimsStep(s, e), ClaimsStep(t, RenameEntry(rho, e)))
  {
    if e.Claim? || e.Resolve? {
      var id := e.claimId;
      assert id in ids;
      KeyRenamed(rho, ids, s, t, id);
      if ClaimsStep(s, e) != s {
        RenamedPut(rho, ids, s, t, id, ClaimsStep(s, e)[id]);
      }
      if id in s {
        RenamedPut(rho, ids, s, t, id, ClaimsStep(s, e)[id]);
      }
    }
  }

  lemma RenamedStancesStep(rho: Rename, ids: set<ClaimId>,
                           s: map<(ClaimId, Author), StanceState>, t: map<(ClaimId, Author), StanceState>, e: Entry)
    requires InjectiveOn(rho, ids) && RenamedStances(rho, ids, s, t) && Mentions(e) <= ids
    ensures RenamedStances(rho, ids, StancesStep(s, e), StancesStep(t, RenameEntry(rho, e)))
  {
    if e.Stance? {
      var key, v := (e.target, e.author), StanceState(e.target, e.author, e.position);
      var rkey := (rho(e.target), e.author);
      var s', t' := s[key := v], t[rkey := v.(target := rho(e.target))];
      forall k | k in s'
        ensures k.0 in ids && s'[k].target == k.0 && s'[k].author == k.1
        ensures (rho(k.0), k.1) in t' && t'[(rho(k.0), k.1)] == s'[k].(target := rho(k.0))
      {
        if k != key {
          assert k in s && k.0 in ids && key.0 in ids;
          assert (rho(k.0), k.1) != rkey;
        }
      }
      forall y | y in t' ensures exists k :: k in s' && (rho(k.0), k.1) == y {
        if y == rkey {
          assert key in s';
        } else {
          var k :| k in s && (rho(k.0), k.1) == y;
          assert k in s';
        }
      }
    }
  }

  lemma RenamedReduce(rho: Rename, ids: set<ClaimId>, s: MaterializedState, t: MaterializedState, e: Entry)
    requires InjectiveOn(rho, ids) && RenamedState(rho, ids, s, t) && Mentions(e) <= ids
    ensures RenamedState(rho, ids, Reduce(s, e), Reduce(t, RenameEntry(rho, e)))
  {
    ReduceActsSeparately(s, e);
    ReduceActsSeparately(t, RenameEntry(rho, e));
    RenamedClaimsStep(rho, ids, s.claims, t.claims, e);
    RenamedStancesStep(rho, ids, s.stances, t.stances, e);
    assert RenamedRelations(rho, ids, RelationsStep(s.relations, e), RelationsStep(t.relations, RenameEntry(rho, e)));
  }

  lemma {:induction false} RenamedReplayFrom(rho: Rename, ids: set<ClaimId>, s: MaterializedState, t: MaterializedState, log: seq<Entry>)
    requires InjectiveOn(rho, ids) && RenamedState(rho, ids, s, t) && MentionsOnly(log, ids)
    ensures RenamedState(rho, ids, ReplayFrom(s, log), ReplayFrom(t, RenameAll(rho, log)))
    decreases log
  {
    if log != [] {
      RenamedReduce(rho, ids, s, t, log[0]);
      assert RenameAll(rho, log)[1..] == RenameAll(rho, log[1..]);
      RenamedReplayFrom(rho, ids, Reduce(s, log[0]), Reduce(t, RenameEntry(rho, log[0])), log[1..]);
    }
  }

  lemma ActiveRenamed(rho: Rename, ids: set<ClaimId>, s: MaterializedState, t: MaterializedState, id: ClaimId)
    requires InjectiveOn(rho, ids) && RenamedState(rho, ids, s, t) && id in ids
    ensures Active(s, id) <==> Active(t, rho(id))
  {
    KeyRenamed(rho, ids, s.claims, t.claims, id);
  }

  lemma {:induction false} AttackSourcesRenamed(rho: Rename, ids: set<ClaimId>, s: MaterializedState, t: MaterializedState,
                                                p: seq<RelationState>, q: seq<RelationState>, id: ClaimId)
    requires InjectiveOn(rho, ids) && RenamedState(rho, ids, s, t) && id in ids
    requires RenamedRelations(rho, ids, p, q)
    ensures |Sources(t, q, Attacks, rho(id))| == |Sources(s, p, Attacks, id)|
    ensures forall i :: 0 <= i < |Sources(s, p, Attacks, id)| ==>
      && Sources(s, p, Attacks, id)[i] in ids
      && Sources(t, q, Attacks, rho(id))[i] == rho(Sources(s, p, Attacks, id)[i])
  {
    if p != [] {
      var n := |p| - 1;
      AttackSourcesRenamed(rho, ids, s, t, p[..n], q[..n], id);
      ActiveRenamed(rho, ids, s, t, p[n].source);
      ActiveRenamed(rho, ids, s, t, id);
    }
  }

  lemma AttackersRenamed(rho: Rename, ids: set<ClaimId>, s: MaterializedState, t: MaterializedState,
                         name: map<ClaimId, ClaimId>, id: ClaimId)
    requires InjectiveOn(rho, ids) && RenamedState(rho, ids, s, t)
    requires NamesActive(rho, s, name)
    requires id in ActiveClaims(s)
    ensures ClaimFramework(s)[id] <= ActiveClaims(s)
    ensures rho(id) in ActiveClaims(t)
    ensures ClaimFramework(t)[rho(id)] == Renamed(ClaimFramework(s)[id], name)
  {
    ActiveRenamed(rho, ids, s, t, id);
    var p, q := Sources(s, s.relations, Attacks, id), Sources(t, t.relations, Attacks, rho(id));
    var attackers := ClaimFramework(s)[id];
    AttackSourcesRenamed(rho, ids, s, t, s.relations, t.relations, id);
    forall a | a in attackers ensures a in ActiveClaims(s) {
      SourcesMeaning(s, s.relations, Attacks, id, a);
    }
    ImageOf(rho, p, q, name);
  }

  lemma ImageOf(rho: Rename, p: seq<ClaimId>, q: seq<ClaimId>, name: map<ClaimId, ClaimId>)
    requires |p| == |q|
    requires forall i :: 0 <= i < |p| ==> p[i] in name && name[p[i]] == rho(p[i]) && q[i] == rho(p[i])
    ensures (set x | x in q) == Renamed((set a | a in p), name)
  {
    var image := Renamed((set a | a in p), name);
    forall x | x in q ensures x in image {
      var i :| 0 <= i < |q| && q[i] == x;
      assert p[i] in p && name[p[i]] == x;
    }
    forall x | x in image ensures x in q {
      var a :| a in p && name[a] == x;
      var i :| 0 <= i < |p| && p[i] == a;
      assert q[i] == x;
    }
  }

  ghost predicate NamesActive(rho: Rename, s: MaterializedState, name: map<ClaimId, ClaimId>) {
    name.Keys == ActiveClaims(s) && forall id :: id in name ==> name[id] == rho(id)
  }

  lemma ActiveImage(rho: Rename, ids: set<ClaimId>, s: MaterializedState, t: MaterializedState, name: map<ClaimId, ClaimId>)
    requires InjectiveOn(rho, ids) && RenamedState(rho, ids, s, t) && NamesActive(rho, s, name)
    ensures ActiveClaims(t) == Renamed(ActiveClaims(s), name)
  {
    var image := Renamed(ActiveClaims(s), name);
    forall x | x in ActiveClaims(t) ensures x in image {
      var id :| id in s.claims && rho(id) == x;
      ActiveRenamed(rho, ids, s, t, id);
      assert id in ActiveClaims(s) && name[id] == x;
    }
    forall x | x in image ensures x in ActiveClaims(t) {
      var id :| id in ActiveClaims(s) && name[id] == x;
      ActiveRenamed(rho, ids, s, t, id);
    }
  }

  lemma FrameworkRenamed(rho: Rename, ids: set<ClaimId>, s: MaterializedState, t: MaterializedState, name: map<ClaimId, ClaimId>)
    requires InjectiveOn(rho, ids) && RenamedState(rho, ids, s, t) && NamesActive(rho, s, name)
    ensures Isomorphic(ClaimFramework(s), ClaimFramework(t), name)
  {
    var f, g := ClaimFramework(s), ClaimFramework(t);
    forall id | id in f ensures f[id] <= f.Keys && name[id] in g && g[name[id]] == Renamed(f[id], name) {
      AttackersRenamed(rho, ids, s, t, name, id);
    }
    forall a, b | a in f && b in f && name[a] == name[b] ensures a == b {
      assert a in ids && b in ids;
    }
    ActiveImage(rho, ids, s, t, name);
  }

  function Positions(p: set<StanceState>): set<Position> {
    set x | x in p :: x.position
  }

  lemma StancesRenamed(rho: Rename, ids: set<ClaimId>, s: MaterializedState, t: MaterializedState, id: ClaimId)
    requires InjectiveOn(rho, ids) && RenamedState(rho, ids, s, t) && id in ids
    ensures Positions(StancesOn(s, id)) == Positions(StancesOn(t, rho(id)))
  {
    var p, q := StancesOn(s, id), StancesOn(t, rho(id));
    forall x | x in p ensures x.position in Positions(q) {
      var k :| k in s.stances && s.stances[k] == x;
      var y := t.stances[(rho(k.0), k.1)];
      assert y in q && y.position == x.position;
    }
    forall y | y in q ensures y.position in Positions(p) {
      var k' :| k' in t.stances && t.stances[k'] == y;
      var k :| k in s.stances && (rho(k.0), k.1) == k';
      assert k.0 == id;
      assert s.stances[k] in p && s.stances[k].position == y.position;
    }
  }

  /** A status only asks which positions are taken. */
  lemma StatusReadsPositions(l: Label, p: set<StanceState>)
    ensures StatusFor(l, p) ==
      if l == Out then Defeated
      else if l == Undec then Unresolved
      else if Positions(p) == {} then Unexamined
      else if Position.Block in Positions(p) || Position.Object in Positions(p) then Contested
      else Established
  {
    if p != {} {
      var x :| x in p;
      assert x.position in Positions(p);
    }
    assert (exists x :: x in p && x.position.IsNegative()) <==>
           (Position.Block in Positions(p) || Position.Object in Positions(p));
  }

  /** Renamed logs replay to renamed states, with the same status for every claim under its new name. */
  lemma RenamedLog(rho: Rename, ids: set<ClaimId>, log: seq<Entry>)
    requires InjectiveOn(rho, ids) && MentionsOnly(log, ids)
    ensures RenamedState(rho, ids, Replay(log), Replay(RenameAll(rho, log)))
    ensures forall id :: id in ids ==>
      SameStatus(StatusMap(Replay(log)), id, StatusMap(Replay(RenameAll(rho, log))), rho(id))
  {
    var s, t := Replay(log), Replay(RenameAll(rho, log));
    RenamedReplayFrom(rho, ids, EMPTY, EMPTY, log);
    var name := map id | id in ActiveClaims(s) :: rho(id);
    FrameworkRenamed(rho, ids, s, t, name);
    RenamingInvariance(ClaimFramework(s), ClaimFramework(t), name);
    forall id | id in ids
      ensures SameStatus(StatusMap(s), id, StatusMap(t), rho(id))
    {
      ActiveRenamed(rho, ids, s, t, id);
      if id in ActiveClaims(s) {
        assert name[id] == rho(id);
        StancesRenamed(rho, ids, s, t, id);
        StatusReadsPositions(GroundedLabel(ClaimFramework(s), id), StancesOn(s, id));
        StatusReadsPositions(GroundedLabel(ClaimFramework(s), id), StancesOn(t, rho(id)));
      }
    }
  }
}
