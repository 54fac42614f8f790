/** Epistemic status: solver labels combined with the participants' stances. */
module Status {
  import opened Types
  import opened Argumentation
  import opened Solver
  import opened Reducer

  datatype EpistemicStatus = Established | Unexamined | Contested | Defeated | Unresolved

  function StatusFor(label_: Label, stances: set<StanceState>): EpistemicStatus {
    match label_
    case Out => Defeated
    case Undec => Unresolved
    case In =>
      if stances == {} then Unexamined
      else if exists s :: s in stances && s.position.IsNegative() then Contested
      else Established
  }

  function StancesOn(state: MaterializedState, id: ClaimId): set<StanceState> {
    set s | s in state.stances.Values && s.target == id
  }

  /** The status of every unresolved claim, defined on claim ids alone. */
  ghost function StatusMap(state: MaterializedState): (m: map<ClaimId, EpistemicStatus>)
    ensures m.Keys == ActiveClaims(state)
  {
    map id | id in ActiveClaims(state) ::
      StatusFor(GroundedLabel(ClaimFramework(state), id), StancesOn(state, id))
  }

  function Lookup(m: map<ClaimId, EpistemicStatus>, id: ClaimId): Option<EpistemicStatus> {
    if id in m then Some(m[id]) else None
  }

  /** `a` has in `m` the status, or lack of one, that `b` has in `n`. */
  ghost predicate SameStatus(m: map<ClaimId, EpistemicStatus>, a: ClaimId, n: map<ClaimId, EpistemicStatus>, b: ClaimId) {
    Lookup(m, a) == Lookup(n, b)
  }

  function LabelAt(labels: seq<Label>, i: nat): Label {
    if i < |labels| then labels[i] else Undec
  }

  /** Position `i` holds the last of the first `k` occurrences of its claim. */
  ghost predicate LastAmong(index: seq<ClaimId>, i: nat, k: nat)
    requires i < k <= |index|
  {
    forall j :: i < j < k ==> index[j] != index[i]
  }

  function ClaimStatus(state: MaterializedState, labels: seq<Label>, i: nat, id: ClaimId): EpistemicStatus {
    StatusFor(LabelAt(labels, i), StancesOn(state, id))
  }

  /** Entering the statuses one after another; a later one replaces an earlier one of the same claim. */
  function Assigned(index: seq<ClaimId>, statuses: seq<EpistemicStatus>): (m: map<ClaimId, EpistemicStatus>)
    requires |index| == |statuses|
  {
    if index == [] then map[]
    else
      var n := |index| - 1;
      Assigned(index[..n], statuses[..n])[index[n] := statuses[n]]
  }

  lemma {:induction false} AssignedKeys(index: seq<ClaimId>, statuses: seq<EpistemicStatus>)
    requires |index| == |statuses|
    ensures forall id :: id in Assigned(index, statuses) <==> id in index
  {
    if index != [] {
      var n := |index| - 1;
      AssignedKeys(index[..n], statuses[..n]);
      assert index == index[..n] + [index[n]];
    }
  }

  lemma {:induction false} AssignedKeepsLast(index: seq<ClaimId>, statuses: seq<EpistemicStatus>, i: nat)
    requires |index| == |statuses| && i < |index| && LastAmong(index, i, |index|)
    ensures Lookup(Assigned(index, statuses), index[i]) == Some(statuses[i])
    decreases |index|
  {
    var n := |index| - 1;
    if i < n {
      assert index[n] != index[i];
      AssignedKeepsLast(index[..n], statuses[..n], i);
    }
  }

  method ComputeAll(state: MaterializedState, labels: seq<Label>, index: seq<ClaimId>)
      returns (result: map<ClaimId, EpistemicStatus>)
    ensures forall id :: id in result <==> id in index
    ensures forall i :: 0 <= i < |index| && LastAmong(index, i, |index|) ==>
      Lookup(result, index[i]) == Some(ClaimStatus(state, labels, i, index[i]))
  {
    result := map[];
    ghost var statuses := [];
    for k := 0 to |index|
      invariant |statuses| == k && result == Assigned(index[..k], statuses)
      invariant forall i :: 0 <= i < k ==> statuses[i] == ClaimStatus(state, labels, i, index[i])
    {
      var status := ClaimStatus(state, labels, k, index[k]);
      result := result[index[k] := status];
      statuses := statuses + [status];
      assert index[..k + 1][..k] == index[..k] && statuses[..k] + [status] == statuses;
    }
    assert index[..|index|] == index;
    AssignedKeys(index, statuses);
    forall i | 0 <= i < |index| && LastAmong(index, i, |index|)
      ensures Lookup(result, index[i]) == Some(ClaimStatus(state, labels, i, index[i]))
    {
      AssignedKeepsLast(index, statuses, i);
    }
  }

  /**
   The whole pipeline: replay, extract the graph, solve, combine with stances.  `order` is the
   order in which the hash map of claims happens to be walked; it has no influence on the result.
   */
  method MaterializeEntries(entries: seq<Entry>, order: seq<ClaimId>)
      returns (state: MaterializedState, statuses: map<ClaimId, EpistemicStatus>)
    requires Enumerates(order, Replay(entries).claims.Keys)
    ensures state == Replay(entries)
    ensures statuses == StatusMap(state)
  {
    state := Replay(entries);
    var graph, index := ToGraph(state, order);
    var labels := ComputeGroundedLabelling(graph);
    assert |labels| == |index|;  // the default label of `LabelAt` is never taken
    statuses := ComputeAll(state, labels, index);
    GraphIsIsomorphic(graph, index, state);
    forall id | id in ActiveClaims(state) ensures id in statuses && statuses[id] == StatusMap(state)[id] {
      var i :| 0 <= i < |index| && index[i] == id;
      assert LastAmong(index, i, |index|);
    }
  }

  /** Any two walks of the claim map give isomorphic graphs with corresponding labels. */
  lemma EnumerationIndependence(state: MaterializedState, g: Graph, gIndex: seq<ClaimId>, h: Graph, hIndex: seq<ClaimId>)
    requires Represents(g, gIndex, state) && Represents(h, hIndex, state)
    ensures |gIndex| == |hIndex| && forall id :: id in gIndex <==> id in hIndex
    ensures forall i, j :: 0 <= i < |gIndex| && 0 <= j < |hIndex| && gIndex[i] == hIndex[j] ==>
      && Names(g.attackedBy[i], gIndex) == Names(h.attackedBy[j], hIndex)
      && Names(g.supportedBy[i], gIndex) == Names(h.supportedBy[j], hIndex)
      && g.LabelOf(i) == h.LabelOf(j)
  {
    GraphIsIsomorphic(g, gIndex, state);
    GraphIsIsomorphic(h, hIndex, state);
    SameLength(gIndex, hIndex);
  }

  lemma SameLength(p: seq<ClaimId>, q: seq<ClaimId>)
    requires Distinct(p) && Distinct(q) && forall id :: id in p <==> id in q
    ensures |p| == |q|
  {
    DistinctCount(p);
    DistinctCount(q);
    assert (set id | id in p) == (set id | id in q);
  }

  lemma {:induction false} DistinctCount(p: seq<ClaimId>)
    requires Distinct(p)
    ensures |set id | id in p| == |p|
  {
    if p != [] {
      var n := |p| - 1;
      DistinctCount(p[..n]);
      assert (set id | id in p) == (set id | id in p[..n]) + {p[n]};
    }
  }
}
