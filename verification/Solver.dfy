/** The argumentation graph over dense node numbers, and the in-place grounded solver. */
module Solver {
  import opened Argumentation

  type NodeId = nat

  /** `attackedBy[t]` lists the attackers of `t`, with multiplicity; the solver ignores `supportedBy`. */
  datatype Graph = Graph(nodeCount: nat, attackedBy: seq<seq<NodeId>>, supportedBy: seq<seq<NodeId>>) {

    function Attackers(t: NodeId): seq<NodeId> {
      if t < |attackedBy| then attackedBy[t] else []
    }

    ghost function Framework(): (af: Framework<NodeId>)
      ensures forall i :: i in af <==> 0 <= i < nodeCount
      ensures forall i, a :: i in af ==> (a in af[i] <==> a in Attackers(i))
    {
      map i | 0 <= i < nodeCount :: set a | a in Attackers(i)
    }

    ghost function Grounded(): set<NodeId> {
      GroundedSet<NodeId>(Framework())
    }

    ghost function LabelOf(i: NodeId): Label {
      GroundedLabel<NodeId>(Framework(), i)
    }
  }

  type Edge = (NodeId, NodeId)

  /** The sources of the edges into `t`, in the order the edges were added. */
  function SourcesInto(edges: seq<Edge>, t: NodeId): seq<NodeId> {
    if edges == [] then []
    else
      var rest := SourcesInto(edges[..|edges| - 1], t);
      var e := edges[|edges| - 1];
      if e.1 == t then rest + [e.0] else rest
  }

  class GraphBuilder {
    const nodeCount: nat
    var attacks: seq<Edge>
    var supports: seq<Edge>

    constructor (nodeCount: nat)
      ensures this.nodeCount == nodeCount && attacks == [] && supports == []
    {
      this.nodeCount := nodeCount;
      attacks := [];
      supports := [];
    }

    method Attack(source: NodeId, target: NodeId)
      modifies this`attacks
      ensures attacks == old(attacks) + [(source, target)]
    {
      attacks := attacks + [(source, target)];
    }

    method Support(source: NodeId, target: NodeId)
      modifies this`supports
      ensures supports == old(supports) + [(source, target)]
    {
      supports := supports + [(source, target)];
    }

    /** Edges into nodes outside the graph are dropped; edges from outside are kept. */
    method Build() returns (g: Graph)
      ensures g.nodeCount == nodeCount == |g.attackedBy| == |g.supportedBy|
      ensures forall t :: 0 <= t < nodeCount ==> g.attackedBy[t] == SourcesInto(attacks, t)
      ensures forall t :: 0 <= t < nodeCount ==> g.supportedBy[t] == SourcesInto(supports, t)
    {
      var attackedBy := Adjacency(nodeCount, attacks);
      var supportedBy := Adjacency(nodeCount, supports);
      g := Graph(nodeCount, attackedBy, supportedBy);
    }
  }

  /** One pass of `Build`: push the source of every edge onto the list of its target. */
  method Adjacency(n: nat, edges: seq<Edge>) returns (lists: seq<seq<NodeId>>)
    ensures |lists| == n
    ensures forall t :: 0 <= t < n ==> lists[t] == SourcesInto(edges, t)
  {
    var adjacency := new seq<NodeId>[n](_ => []);
    for k := 0 to |edges|
      invariant forall t :: 0 <= t < n ==> adjacency[t] == SourcesInto(edges[..k], t)
    {
      var (source, target) := edges[k];
      assert edges[..k + 1][..k] == edges[..k];
      if target < n {
        adjacency[target] := adjacency[target] + [source];
      }
    }
    assert edges[..|edges|] == edges;
    lists := adjacency[..];
  }

  // ------------------------------------------------------------------------- solver

  /** The label of a node, if it has one: reading past the vector yields nothing. */
  predicate LabelIs(labels: seq<Label>, a: NodeId, value: Label) {
    a < |labels| && labels[a] == value
  }

  predicate AllOut(labels: seq<Label>, attackers: seq<NodeId>) {
    forall a :: a in attackers ==> LabelIs(labels, a, Out)
  }

  predicate AnyIn(labels: seq<Label>, attackers: seq<NodeId>) {
    exists a :: a in attackers && LabelIs(labels, a, In)
  }

  ghost function UndecCount(labels: seq<Label>): nat {
    if labels == [] then 0
    else UndecCount(labels[1..]) + if labels[0] == Undec then 1 else 0
  }

  lemma {:induction false} DecidingShrinksUndec(labels: seq<Label>, i: nat, value: Label)
    requires i < |labels| && labels[i] == Undec && value != Undec
    ensures UndecCount(labels[i := value]) + 1 == UndecCount(labels)
  {
    if i > 0 {
      DecidingShrinksUndec(labels[1..], i - 1, value);
      assert labels[i := value][1..] == labels[1..][i - 1 := value];
    }
  }

  /** The labels decided so far are justified by each other, and no in-node lies outside the grounded set. */
  ghost predicate Justified(g: Graph, labels: seq<Label>) {
    && |labels| == g.nodeCount
    && forall i :: 0 <= i < |labels| ==>
      && (labels[i] == In ==> AllOut(labels, g.Attackers(i)) && i in g.Grounded())
      && (labels[i] == Out ==> AnyIn(labels, g.Attackers(i)))
  }

  /** Deciding one undecided node leaves every earlier decision justified. */
  lemma JustifiedStep(g: Graph, labels: seq<Label>, i: nat, value: Label)
    requires Justified(g, labels) && i < |labels| && labels[i] == Undec
    requires value == In ==> AllOut(labels, g.Attackers(i))
    requires value == Out ==> AnyIn(labels, g.Attackers(i))
    requires value != Undec
    ensures Justified(g, labels[i := value])
  {
    var after := labels[i := value];
    forall j | 0 <= j < |labels|
      ensures AllOut(labels, g.Attackers(j)) ==> AllOut(after, g.Attackers(j))
      ensures AnyIn(labels, g.Attackers(j)) ==> AnyIn(after, g.Attackers(j))
    {
      DecisionsPersist(labels, i, value, g.Attackers(j));
    }
    if value == In {
      AllOutIsGrounded(g, labels, i);
    }
  }

  lemma DecisionsPersist(labels: seq<Label>, i: nat, value: Label, attackers: seq<NodeId>)
    requires i < |labels| && labels[i] == Undec
    ensures AllOut(labels, attackers) ==> AllOut(labels[i := value], attackers)
    ensures AnyIn(labels, attackers) ==> AnyIn(labels[i := value], attackers)
  {
    if AnyIn(labels, attackers) {
      var a :| a in attackers && LabelIs(labels, a, In);
      assert LabelIs(labels[i := value], a, In);
    }
  }

  /** If every attacker is out, for a justified reason, the node is in the grounded set. */
  lemma AllOutIsGrounded(g: Graph, labels: seq<Label>, i: nat)
    requires Justified(g, labels) && i < |labels| && AllOut(labels, g.Attackers(i))
    ensures i in g.Grounded()
  {
    var af := g.Framework();
    var s := g.Grounded();
    forall b | b in af[i] ensures AttackedFrom<NodeId>(af, b, s) {
      assert LabelIs(labels, b, Out);
      var c :| c in g.Attackers(b) && LabelIs(labels, c, In);
      assert c in af[b] && c in s;
    }
    GroundedIsLeastFixpoint<NodeId>(af);
    assert i in Characteristic<NodeId>(af, s);
  }

  /** Node `i` needs no further decision. */
  ghost predicate Settled(g: Graph, labels: seq<Label>, i: nat)
    requires i < |labels|
  {
    labels[i] == Undec ==> !AllOut(labels, g.Attackers(i)) && !AnyIn(labels, g.Attackers(i))
  }

  ghost function AsLabelling(labels: seq<Label>): Labelling<NodeId> {
    map i | 0 <= i < |labels| :: labels[i]
  }

  /** Once nothing is left to decide, the labels are the grounded ones. */
  lemma SettledIsGrounded(g: Graph, labels: seq<Label>)
    requires Justified(g, labels)
    requires forall i :: 0 <= i < |labels| ==> Settled(g, labels, i)
    ensures forall i :: 0 <= i < |labels| ==> labels[i] == g.LabelOf(i)
  {
    var af, l := g.Framework(), AsLabelling(labels);
    forall i | i in af
      ensures l[i] == In <==> forall b :: b in af[i] ==> Has<NodeId>(l, b, Out)
      ensures l[i] == Out <==> exists b :: b in af[i] && Has<NodeId>(l, b, In)
    {
      SettledNode(g, labels, i);
    }
    forall i | i in InSet<NodeId>(l) ensures i in g.Grounded() {
    }
    CompleteWithinGrounded<NodeId>(af, l);
    forall i | 0 <= i < |labels| ensures labels[i] == g.LabelOf(i) {
      assert i in af;
    }
  }

  lemma SettledNode(g: Graph, labels: seq<Label>, i: nat)
    requires Justified(g, labels) && i < |labels| && Settled(g, labels, i)
    ensures labels[i] == In <==> forall b :: b in g.Framework()[i] ==> Has<NodeId>(AsLabelling(labels), b, Out)
    ensures labels[i] == Out <==> exists b :: b in g.Framework()[i] && Has<NodeId>(AsLabelling(labels), b, In)
  {
    var l, attackers := AsLabelling(labels), g.Attackers(i);
    assert forall b :: b in g.Framework()[i] <==> b in attackers;
    if AnyIn(labels, attackers) {
      var a :| a in attackers && LabelIs(labels, a, In);
      assert !LabelIs(labels, a, Out);
      assert Has<NodeId>(l, a, In);
    }
    assert AllOut(labels, attackers) <==> forall b :: b in g.Framework()[i] ==> Has<NodeId>(l, b, Out);
    assert AnyIn(labels, attackers) <==> exists b :: b in g.Framework()[i] && Has<NodeId>(l, b, In);
  }

  /**
   Labels change while a pass is still running, so later nodes of the pass already see them.
   The result is nevertheless the grounded labelling, on every graph: an attacker outside
   the graph merely keeps its victim from being in.
   */
  method ComputeGroundedLabelling(g: Graph) returns (result: seq<Label>)
    ensures |result| == g.nodeCount
    ensures forall i :: 0 <= i < g.nodeCount ==> result[i] == g.LabelOf(i)
  {
    var n := g.nodeCount;
    var labels := new Label[n](_ => Undec);

    while true
      invariant Justified(g, labels[..])
      decreases UndecCount(labels[..])
    {
      var changed := false;
      ghost var before := labels[..];
      for node := 0 to n
        invariant Justified(g, labels[..])
        invariant !changed ==> labels[..] == before
        invariant !changed ==> forall i :: 0 <= i < node ==> Settled(g, labels[..], i)
        invariant changed ==> UndecCount(labels[..]) < UndecCount(before)
      {
        if labels[node] != Undec {
          continue;
        }
        ghost var current := labels[..];
        var attackers := g.Attackers(node);
        var allOut := forall a :: a in attackers ==> LabelIs(labels[..], a, Out);
        if allOut {
          JustifiedStep(g, current, node, In);
          DecidingShrinksUndec(current, node, In);
          labels[node] := In;
          changed := true;
          assert labels[..] == current[node := In];
          continue;
        }
        var anyIn := exists a :: a in attackers && LabelIs(labels[..], a, In);
        if anyIn {
          JustifiedStep(g, current, node, Out);
          DecidingShrinksUndec(current, node, Out);
          labels[node] := Out;
          changed := true;
          assert labels[..] == current[node := Out];
        }
      }
      if !changed {
        break;
      }
    }
    SettledIsGrounded(g, labels[..]);
    result := labels[..];
  }

  // ------------------------------------------------------------ directionality on graphs

  /** The nodes of `u` have the same attackers in both graphs, all of them in `u`. */
  ghost predicate AgreeOnNodes(f: Graph, g: Graph, u: set<NodeId>) {
    forall i :: i in u ==>
      && i < f.nodeCount && i < g.nodeCount
      && (forall a :: a in f.Attackers(i) <==> a in g.Attackers(i))
      && (forall a :: a in f.Attackers(i) ==> a in u)
  }

  /** Whatever else two graphs contain, an unattacked part is labelled the same in both. */
  lemma GraphDirectionality(f: Graph, g: Graph, u: set<NodeId>)
    requires AgreeOnNodes(f, g, u)
    ensures forall i :: i in u ==> f.LabelOf(i) == g.LabelOf(i)
  {
    forall i | i in u
      ensures i in f.Framework() && i in g.Framework()
      ensures f.Framework()[i] == g.Framework()[i] && f.Framework()[i] <= u
    {
    }
    Directionality<NodeId>(f.Framework(), g.Framework(), u);
  }
}
