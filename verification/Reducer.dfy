/** Replaying the log into materialized state, and extracting the argumentation graph from it. */
module Reducer {
  import opened Types
  import opened Argumentation
  import opened Solver

  const EMPTY: MaterializedState := MaterializedState(map[], [], map[])

  /** Apply one entry.  The first claim with an id wins; the last stance and the last resolve win. */
  function Reduce(state: MaterializedState, entry: Entry): MaterializedState {
    match entry
    case Claim(id, author, body, kind, parent) =>
      if id in state.claims then state
      else state.(claims := state.claims[id := ClaimState(id, author, body, kind, parent, None)])
    case Relation(source, target, kind, author) =>
      state.(relations := state.relations + [RelationState(source, target, kind, author)])
    case Stance(target, author, position) =>
      state.(stances := state.stances[(target, author) := StanceState(target, author, position)])
    case Resolve(id, author, outcome) =>
      if id in state.claims then
        state.(claims := state.claims[id := state.claims[id].(resolution := Some(Resolution(outcome, author)))])
      else state
    case Comment(_, _, _) => state
  }

  /** What an entry does to the claims alone. */
  ghost function ClaimsStep(claims: map<ClaimId, ClaimState>, e: Entry): map<ClaimId, ClaimState> {
    if e.Claim? && e.claimId !in claims then
      claims[e.claimId := ClaimState(e.claimId, e.author, e.body, e.kind, e.parent, None)]
    else if e.Resolve? && e.claimId in claims then
      claims[e.claimId := claims[e.claimId].(resolution := Some(Resolution(e.outcome, e.author)))]
    else claims
  }

  ghost function StancesStep(stances: map<(ClaimId, Author), StanceState>, e: Entry): map<(ClaimId, Author), StanceState> {
    if e.Stance? then stances[(e.target, e.author) := StanceState(e.target, e.author, e.position)] else stances
  }

  ghost function RelationsStep(relations: seq<RelationState>, e: Entry): seq<RelationState> {
    if e.Relation? then relations + [RelationState(e.source, e.target, e.relation, e.author)] else relations
  }

  /** An entry acts on the claims, the relations and the stances separately. */
  lemma ReduceActsSeparately(s: MaterializedState, e: Entry)
    ensures Reduce(s, e).claims == ClaimsStep(s.claims, e)
    ensures Reduce(s, e).stances == StancesStep(s.stances, e)
    ensures Reduce(s, e).relations == RelationsStep(s.relations, e)
  {
  }

  function ReplayFrom(state: MaterializedState, entries: seq<Entry>): MaterializedState
    decreases entries
  {
    if entries == [] then state else ReplayFrom(Reduce(state, entries[0]), entries[1..])
  }

  function Replay(entries: seq<Entry>): MaterializedState {
    ReplayFrom(EMPTY, entries)
  }

  lemma {:induction false} ReplayAppend(state: MaterializedState, a: seq<Entry>, b: seq<Entry>)
    ensures ReplayFrom(state, a + b) == ReplayFrom(ReplayFrom(state, a), b)
    decreases a
  {
    if a == [] {
      assert a + b == b;
    } else {
      assert (a + b)[0] == a[0] && (a + b)[1..] == a[1..] + b;
      ReplayAppend(Reduce(state, a[0]), a[1..], b);
    }
  }

  lemma ReplayLast(entries: seq<Entry>)
    requires entries != []
    ensures Replay(entries) == Reduce(Replay(entries[..|entries| - 1]), entries[|entries| - 1])
  {
    var n := |entries| - 1;
    assert entries == entries[..n] + [entries[n]];
    ReplayAppend(EMPTY, entries[..n], [entries[n]]);
    assert [entries[n]][1..] == [];
  }

  // ------------------------------------------------------- declarative reading of a log

  predicate ClaimsId(e: Entry, id: ClaimId) {
    e.Claim? && e.claimId == id
  }

  predicate ResolvesId(e: Entry, id: ClaimId) {
    e.Resolve? && e.claimId == id
  }

  predicate StandsOn(e: Entry, key: (ClaimId, Author)) {
    e.Stance? && (e.target, e.author) == key
  }

  ghost predicate FirstClaim(log: seq<Entry>, id: ClaimId, i: nat) {
    i < |log| && ClaimsId(log[i], id) && forall j :: 0 <= j < i ==> !ClaimsId(log[j], id)
  }

  /** `k` is the last resolve of `id` strictly after position `i`. */
  ghost predicate LastResolveAfter(log: seq<Entry>, id: ClaimId, i: nat, k: nat) {
    i < k < |log| && ResolvesId(log[k], id) && forall j :: k < j < |log| ==> !ResolvesId(log[j], id)
  }

  /** What the log says about one claim: its first claim entry, then the last resolve after it. */
  ghost predicate ReadsAs(log: seq<Entry>, id: ClaimId, i: nat, c: ClaimState)
    requires i < |log| && log[i].Claim?
  {
    && c.id == id
    && (c.author, c.body, c.kind, c.parent) == (log[i].author, log[i].body, log[i].kind, log[i].parent)
    && ((forall k :: i < k < |log| ==> !ResolvesId(log[k], id)) ==> c.resolution == None)
    && (forall k: nat :: LastResolveAfter(log, id, i, k) ==>
          c.resolution == Some(Resolution(log[k].outcome, log[k].author)))
  }

  lemma {:induction false} ReplayClaims(log: seq<Entry>, id: ClaimId)
    ensures id in Replay(log).claims <==> exists j :: 0 <= j < |log| && ClaimsId(log[j], id)
    ensures forall i: nat :: FirstClaim(log, id, i) ==> ReadsAs(log, id, i, Replay(log).claims[id])
  {
    if log != [] {
      var n := |log| - 1;
      var prev, e := log[..n], log[n];
      ReplayClaims(prev, id);
      ReplayLast(log);
      assert prev + [e] == log;
      forall i: nat | FirstClaim(log, id, i) ensures id in Replay(log).claims && ReadsAs(log, id, i, Replay(log).claims[id]) {
        if i < n {
          assert FirstClaim(prev, id, i);
          ReadsAsExtended(prev, e, id, i);
        } else {
          assert forall j :: 0 <= j < n ==> !ClaimsId(prev[j], id);
        }
      }
    }
  }

  lemma ReadsAsExtended(prev: seq<Entry>, e: Entry, id: ClaimId, i: nat)
    requires FirstClaim(prev, id, i)
    requires id in Replay(prev).claims && ReadsAs(prev, id, i, Replay(prev).claims[id])
    ensures id in Reduce(Replay(prev), e).claims
    ensures ReadsAs(prev + [e], id, i, Reduce(Replay(prev), e).claims[id])
  {
    var log := prev + [e];
    var before, after := Replay(prev).claims[id], Reduce(Replay(prev), e).claims[id];
    if ResolvesId(e, id) {
      assert ResolvesId(log[|prev|], id);
      forall k: nat | LastResolveAfter(log, id, i, k) ensures k == |prev| {
      }
    } else {
      assert before == after;
      forall k: nat | LastResolveAfter(log, id, i, k) ensures LastResolveAfter(prev, id, i, k) {
        forall j | k < j < |prev| ensures !ResolvesId(prev[j], id) {
          assert log[j] == prev[j];
        }
      }
      if forall k :: i < k < |log| ==> !ResolvesId(log[k], id) {
        forall k | i < k < |prev| ensures !ResolvesId(prev[k], id) {
          assert log[k] == prev[k];
        }
      }
    }
  }

  ghost predicate LastStance(log: seq<Entry>, key: (ClaimId, Author), i: int) {
    0 <= i < |log| && StandsOn(log[i], key) && forall j :: i < j < |log| ==> !StandsOn(log[j], key)
  }

  /** Each (target, author) holds its last stance, and nothing else is held. */
  lemma {:induction false} ReplayStances(log: seq<Entry>, key: (ClaimId, Author))
    ensures key in Replay(log).stances <==> exists i :: 0 <= i < |log| && StandsOn(log[i], key)
    ensures forall i :: LastStance(log, key, i) ==>
      Replay(log).stances[key] == StanceState(key.0, key.1, log[i].position)
  {
    if log != [] {
      var n := |log| - 1;
      ReplayLast(log);
      ReplayStances(log[..n], key);
      if StandsOn(log[n], key) {
      } else {
        forall i | LastStance(log, key, i) ensures LastStance(log[..n], key, i) {
        }
      }
    }
  }

  /** The relation entries of a log, in order. */
  function Relations(log: seq<Entry>): seq<RelationState> {
    if log == [] then []
    else
      var rest := Relations(log[..|log| - 1]);
      var e := log[|log| - 1];
      if e.Relation? then rest + [RelationState(e.source, e.target, e.relation, e.author)] else rest
  }

  lemma {:induction false} ReplayRelations(log: seq<Entry>)
    ensures Replay(log).relations == Relations(log)
  {
    if log != [] {
      ReplayLast(log);
      ReplayRelations(log[..|log| - 1]);
    }
  }

  // -------------------------------------------------------------------- the claim graph

  predicate Active(state: MaterializedState, id: ClaimId) {
    id in state.claims && state.claims[id].resolution.None?
  }

  ghost function ActiveClaims(state: MaterializedState): set<ClaimId> {
    set id | id in state.claims && Active(state, id)
  }

  /** `r` attacks, or supports, `target`, both claims being unresolved. */
  predicate Joins(state: MaterializedState, r: RelationState, kind: RelationKind, target: ClaimId) {
    r.kind == kind && r.target == target && Active(state, r.source) && Active(state, target)
  }

  /** The unresolved attackers, or supporters, of a claim among `relations`, with multiplicity, in log order. */
  function Sources(state: MaterializedState, relations: seq<RelationState>, kind: RelationKind, target: ClaimId): seq<ClaimId> {
    if relations == [] then []
    else
      var rest := Sources(state, relations[..|relations| - 1], kind, target);
      var r := relations[|relations| - 1];
      if Joins(state, r, kind, target) then rest + [r.source] else rest
  }

  /** The argumentation framework over claim ids, free of any node numbering. */
  ghost function ClaimFramework(state: MaterializedState): (af: Framework<ClaimId>)
    ensures af.Keys == ActiveClaims(state)
  {
    map id | id in ActiveClaims(state) :: set a | a in Sources(state, state.relations, Attacks, id)
  }

  lemma {:induction false} SourcesMeaning(state: MaterializedState, relations: seq<RelationState>, kind: RelationKind,
                                          target: ClaimId, a: ClaimId)
    ensures a in Sources(state, relations, kind, target) <==>
      exists r :: r in relations && Joins(state, r, kind, target) && r.source == a
  {
    if relations != [] {
      var n := |relations| - 1;
      SourcesMeaning(state, relations[..n], kind, target, a);
      assert relations == relations[..n] + [relations[n]];
    }
  }

  /** Every relation between unresolved claims counts as often as it was asserted, and nothing else does. */
  lemma {:induction false} SourceMultiplicity(state: MaterializedState, relations: seq<RelationState>, kind: RelationKind,
                                              target: ClaimId, a: ClaimId)
    ensures multiset(Sources(state, relations, kind, target))[a] == |RelationPositions(state, relations, kind, target, a)|
  {
    if relations != [] {
      var n := |relations| - 1;
      var prev := relations[..n];
      SourceMultiplicity(state, prev, kind, target, a);
      var before := RelationPositions(state, prev, kind, target, a);
      var after := RelationPositions(state, relations, kind, target, a);
      if Joins(state, relations[n], kind, target) && relations[n].source == a {
        assert after == before + {n};
      } else {
        assert after == before;
      }
    }
  }

  ghost function RelationPositions(state: MaterializedState, relations: seq<RelationState>, kind: RelationKind,
                                   target: ClaimId, a: ClaimId): set<nat>
  {
    set k: nat | k < |relations| && Joins(state, relations[k], kind, target) && relations[k].source == a
  }

  /** `order` lists every key exactly once: one way a hash map may be walked. */
  ghost predicate Enumerates<T(!new)>(order: seq<T>, keys: set<T>) {
    && (forall k :: k in order <==> k in keys)
    && Distinct(order)
  }

  ghost predicate Distinct<T>(s: seq<T>) {
    forall i, j :: 0 <= i < j < |s| ==> s[i] != s[j]
  }

  ghost predicate InRange(nodes: seq<NodeId>, n: nat) {
    forall k :: 0 <= k < |nodes| ==> nodes[k] < n
  }

  /** Translate node numbers back into the claims they stand for. */
  ghost function Names(nodes: seq<NodeId>, index: seq<ClaimId>): seq<ClaimId>
    requires InRange(nodes, |index|)
  {
    seq(|nodes|, k requires 0 <= k < |nodes| => index[nodes[k]])
  }

  /** The lists of nodes, read through the index, are the sources of the relations of one kind, with multiplicity. */
  ghost predicate ListsSources(lists: seq<seq<NodeId>>, index: seq<ClaimId>, state: MaterializedState, kind: RelationKind) {
    && |lists| == |index|
    && forall t :: 0 <= t < |index| ==>
      && InRange(lists[t], |index|)
      && Names(lists[t], index) == Sources(state, state.relations, kind, index[t])
  }

  /** The graph, read through its index, is the claim graph: the index is one to one onto the active
      claims, and the attackers and supporters of a node are exactly those of its claim. */
  ghost predicate Represents(graph: Graph, index: seq<ClaimId>, state: MaterializedState) {
    && Enumerates(index, ActiveClaims(state))
    && graph.nodeCount == |index|
    && ListsSources(graph.attackedBy, index, state, Attacks)
    && ListsSources(graph.supportedBy, index, state, Supports)
  }

  /** `nodeOf` inverts `index`. */
  ghost predicate Inverts(nodeOf: map<ClaimId, NodeId>, index: seq<ClaimId>) {
    && nodeOf.Keys == (set id | id in index)
    && forall i :: 0 <= i < |index| ==> nodeOf[index[i]] == i
  }

  /** Build the solver graph, visiting the claim map in the order `order`. */
  method ToGraph(state: MaterializedState, order: seq<ClaimId>) returns (graph: Graph, index: seq<ClaimId>)
    requires Enumerates(order, state.claims.Keys)
    ensures Represents(graph, index, state)
  {
    var nodeOf: map<ClaimId, NodeId> := map[];
    index := [];
    for k := 0 to |order|
      invariant forall id :: id in index <==> id in order[..k] && Active(state, id)
      invariant Distinct(index)
      invariant Inverts(nodeOf, index)
    {
      var id := order[k];
      if state.claims[id].resolution.Some? {
        continue;
      }
      assert id !in order[..k];
      nodeOf := nodeOf[id := |index|];
      index := index + [id];
    }
    assert order[..|order|] == order;

    var builder := new GraphBuilder(|index|);
    for k := 0 to |state.relations|
      invariant BuiltFrom(builder.attacks, state.relations[..k], Attacks, state, index)
      invariant BuiltFrom(builder.supports, state.relations[..k], Supports, state, index)
    {
      var r := state.relations[k];
      ghost var attacks, supports := builder.attacks, builder.supports;
      if r.source in nodeOf && r.target in nodeOf {
        match r.kind {
          case Attacks => builder.Attack(nodeOf[r.source], nodeOf[r.target]);
          case Supports => builder.Support(nodeOf[r.source], nodeOf[r.target]);
        }
      }
      assert state.relations[..k + 1] == state.relations[..k] + [r];
      BuiltStep(attacks, builder.attacks, state.relations[..k], r, Attacks, state, nodeOf, index);
      BuiltStep(supports, builder.supports, state.relations[..k], r, Supports, state, nodeOf, index);
    }
    assert state.relations[..|state.relations|] == state.relations;
    graph := builder.Build();
  }

  /** The edges added so far, read through the index, are those of one kind among the relations seen so far. */
  ghost predicate BuiltFrom(edges: seq<Edge>, relations: seq<RelationState>, kind: RelationKind, state: MaterializedState,
                            index: seq<ClaimId>)
  {
    forall t :: 0 <= t < |index| ==>
      && InRange(SourcesInto(edges, t), |index|)
      && Names(SourcesInto(edges, t), index) == Sources(state, relations, kind, index[t])
  }

  lemma BuiltStep(edges: seq<Edge>, next: seq<Edge>, relations: seq<RelationState>, r: RelationState, kind: RelationKind,
                  state: MaterializedState, nodeOf: map<ClaimId, NodeId>, index: seq<ClaimId>)
    requires Inverts(nodeOf, index) && Distinct(index)
    requires forall id :: id in index <==> Active(state, id)
    requires BuiltFrom(edges, relations, kind, state, index)
    requires next == if r.kind == kind && r.source in nodeOf && r.target in nodeOf
                     then edges + [(nodeOf[r.source], nodeOf[r.target])] else edges
    ensures BuiltFrom(next, relations + [r], kind, state, index)
  {
    var now := relations + [r];
    assert now[..|now| - 1] == relations;
    forall t | 0 <= t < |index|
      ensures InRange(SourcesInto(next, t), |index|)
      ensures Names(SourcesInto(next, t), index) == Sources(state, now, kind, index[t])
    {
      if Joins(state, r, kind, index[t]) {
        assert next[..|next| - 1] == edges;
        var s := nodeOf[r.source];
        assert SourcesInto(next, t) == SourcesInto(edges, t) + [s];
        assert Names(SourcesInto(next, t), index) == Names(SourcesInto(edges, t), index) + [r.source];
      } else if next != edges {
        assert next[..|next| - 1] == edges;
        assert SourcesInto(next, t) == SourcesInto(edges, t);
      }
    }
  }

  /** Numbering the claims renames the claim framework into the graph's framework. */
  lemma GraphIsIsomorphic(graph: Graph, index: seq<ClaimId>, state: MaterializedState)
    requires Represents(graph, index, state)
    ensures forall i :: 0 <= i < |index| ==> graph.LabelOf(i) == GroundedLabel(ClaimFramework(state), index[i])
  {
    var f, g := graph.Framework(), ClaimFramework(state);
    var name := Numbering(index);
    forall i: NodeId | i in f
      ensures f[i] <= f.Keys && name[i] in g && g[name[i]] == Renamed<NodeId, ClaimId>(f[i], name)
    {
      AttackersRenamed(graph, index, state, i);
    }
    forall c | c in g ensures c in Renamed<NodeId, ClaimId>(f.Keys, name) {
      var i :| 0 <= i < |index| && index[i] == c;
      assert i in f && name[i] == c;
    }
    assert g.Keys == Renamed<NodeId, ClaimId>(f.Keys, name);
    RenamingInvariance<NodeId, ClaimId>(f, g, name);
    forall i | 0 <= i < |index| ensures graph.LabelOf(i) == GroundedLabel(g, index[i]) {
      assert i in f && name[i] == index[i];
    }
  }

  ghost function Numbering(index: seq<ClaimId>): (name: map<NodeId, ClaimId>)
    ensures forall i :: i in name <==> 0 <= i < |index|
  {
    map i: NodeId | 0 <= i < |index| :: index[i]
  }

  lemma AttackersRenamed(graph: Graph, index: seq<ClaimId>, state: MaterializedState, i: NodeId)
    requires Represents(graph, index, state) && i < |index|
    ensures graph.Framework()[i] <= Numbering(index).Keys
    ensures index[i] in ActiveClaims(state)
    ensures ClaimFramework(state)[index[i]] == Renamed<NodeId, ClaimId>(graph.Framework()[i], Numbering(index))
  {
    var nodes, attackers, name := graph.attackedBy[i], graph.Framework()[i], Numbering(index);
    var names := Names(nodes, index);
    assert forall a :: a in attackers <==> a in nodes;
    forall a: NodeId | a in attackers ensures a in name && name[a] in names {
      var k :| 0 <= k < |nodes| && nodes[k] == a;
      assert names[k] == name[a];
    }
    forall c | c in names ensures c in Renamed<NodeId, ClaimId>(attackers, name) {
      var k :| 0 <= k < |names| && names[k] == c;
      assert nodes[k] in attackers && name[nodes[k]] == c;
    }
  }
}
