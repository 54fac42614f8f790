/** The local draft list: entries not yet submitted, which may refer to each other. */
module Drafts {
  import opened Types

  type DraftId = nat

  datatype ClaimRef = Committed(claimId: ClaimId) | Local(draftId: DraftId)

  datatype DraftContent =
    | DraftClaim(body: string, kind: ClaimKind, parent: Option<ClaimRef>)
    | DraftRelation(source: ClaimRef, target: ClaimRef, relation: RelationKind)
    | DraftStance(target: ClaimRef, position: Position)
    | DraftResolve(claim: ClaimRef, outcome: Outcome)
    | DraftComment(about: Option<ClaimRef>, text: string)
  {
    /** The claim references of a draft, in the order they are validated. */
    function References(): seq<ClaimRef> {
      match this
      case DraftClaim(_, _, parent) => if parent.Some? then [parent.value] else []
      case DraftRelation(source, target, _) => [source, target]
      case DraftStance(target, _) => [target]
      case DraftResolve(claim, _) => [claim]
      case DraftComment(about, _) => if about.Some? then [about.value] else []
    }

    predicate RefersTo(id: DraftId) {
      Local(id) in References()
    }
  }

  datatype DraftEntry = DraftEntry(id: DraftId, content: DraftContent)

  datatype EngineError =
    | DraftNotFound(id: DraftId)
    | DraftReferenceMustTargetClaim(id: DraftId)
    | DraftReferenced(id: DraftId, referencedBy: DraftId)

  datatype State = State(drafts: seq<DraftEntry>, nextDraftId: DraftId, notice: Option<EngineError>)

  const INIT: State := State([], 0, None)

  // -------------------------------------------------------------------------- operations

  /** The position of the draft with this id, or the length of the list. */
  function IndexOf(drafts: seq<DraftEntry>, id: DraftId): (p: nat)
    ensures p <= |drafts|
    ensures forall i :: 0 <= i < p ==> drafts[i].id != id
    ensures p < |drafts| ==> drafts[p].id == id
  {
    if drafts == [] || drafts[0].id == id then 0 else 1 + IndexOf(drafts[1..], id)
  }

  function ValidateRef(drafts: seq<DraftEntry>, r: ClaimRef): Option<EngineError> {
    match r
    case Committed(_) => None
    case Local(id) =>
      var p := IndexOf(drafts, id);
      if p == |drafts| then Some(DraftNotFound(id))
      else if drafts[p].content.DraftClaim? then None
      else Some(DraftReferenceMustTargetClaim(id))
  }

  function ValidateAll(drafts: seq<DraftEntry>, refs: seq<ClaimRef>): Option<EngineError> {
    if refs == [] then None
    else
      var first := ValidateRef(drafts, refs[0]);
      if first.Some? then first else ValidateAll(drafts, refs[1..])
  }

  /** Drafting a claim, relation, stance, resolution or comment: validate its references, then append it. */
  function AddDraft(s: State, content: DraftContent): Result<(State, DraftId), EngineError> {
    var error := ValidateAll(s.drafts, content.References());
    if error.Some? then Err(error.value)
    else
      var id := s.nextDraftId;
      Ok((s.(drafts := s.drafts + [DraftEntry(id, content)], nextDraftId := id + 1), id))
  }

  /** The first draft other than `id` that refers to `id`. */
  function FirstReferrer(drafts: seq<DraftEntry>, id: DraftId): (r: Option<DraftId>)
    ensures r.None? <==> forall d :: d in drafts && d.id != id ==> !d.content.RefersTo(id)
    ensures r.Some? ==> exists d :: d in drafts && d.id == r.value && d.id != id && d.content.RefersTo(id)
  {
    if drafts == [] then None
    else if drafts[0].id != id && drafts[0].content.RefersTo(id) then Some(drafts[0].id)
    else FirstReferrer(drafts[1..], id)
  }

  function RemoveDraft(s: State, id: DraftId): Result<State, EngineError> {
    var p := IndexOf(s.drafts, id);
    if p == |s.drafts| then Err(DraftNotFound(id))
    else
      var referrer := FirstReferrer(s.drafts, id);
      if s.drafts[p].content.DraftClaim? && referrer.Some? then Err(DraftReferenced(id, referrer.value))
      else Ok(s.(drafts := Without(s.drafts, p)))
  }

  function ClearDrafts(s: State): State {
    s.(drafts := [])
  }

  datatype Event = AddRequested(content: DraftContent) | RemoveRequested(draftId: DraftId)

  /** User events keep the old state on an error and leave a notice; success clears the notice. */
  function Reduce(s: State, event: Event): State {
    match event
    case AddRequested(content) =>
      (match AddDraft(s, content)
       case Ok((next, _)) => next.(notice := None)
       case Err(error) => s.(notice := Some(error)))
    case RemoveRequested(id) =>
      (match RemoveDraft(s, id)
       case Ok(next) => next.(notice := None)
       case Err(error) => s.(notice := Some(error)))
  }

  // --------------------------------------------------------------- referential integrity

  ghost predicate Ascending(drafts: seq<DraftEntry>) {
    forall i, j :: 0 <= i < j < |drafts| ==> drafts[i].id < drafts[j].id
  }

  /** Some claim draft among the first `n` has this id. */
  ghost predicate ClaimBefore(drafts: seq<DraftEntry>, n: nat, id: DraftId)
    requires n <= |drafts|
  {
    exists j :: 0 <= j < n && drafts[j].id == id && drafts[j].content.DraftClaim?
  }

  ghost predicate RefersBackwards(drafts: seq<DraftEntry>) {
    forall i, id :: 0 <= i < |drafts| && drafts[i].content.RefersTo(id) ==> ClaimBefore(drafts, i, id)
  }

  ghost predicate WellFormed(s: State) {
    && Ascending(s.drafts)
    && (forall i :: 0 <= i < |s.drafts| ==> s.drafts[i].id < s.nextDraftId)
    && RefersBackwards(s.drafts)
  }

  lemma IndexUnique(drafts: seq<DraftEntry>, i: nat)
    requires Ascending(drafts) && i < |drafts|
    ensures IndexOf(drafts, drafts[i].id) == i
  {
    var p := IndexOf(drafts, drafts[i].id);
    assert p <= i && drafts[p].id == drafts[i].id;
  }

  /** A reference is accepted exactly when it is committed or names a claim draft of the list. */
  lemma RefAccepted(drafts: seq<DraftEntry>, r: ClaimRef)
    requires Ascending(drafts)
    ensures ValidateRef(drafts, r) == None <==> r.Committed? || ClaimBefore(drafts, |drafts|, r.draftId)
  {
    if r.Local? && ClaimBefore(drafts, |drafts|, r.draftId) {
      var j :| 0 <= j < |drafts| && drafts[j].id == r.draftId && drafts[j].content.DraftClaim?;
      IndexUnique(drafts, j);
    }
  }

  lemma {:induction false} AllRefsAccepted(drafts: seq<DraftEntry>, refs: seq<ClaimRef>)
    ensures ValidateAll(drafts, refs) == None <==> forall r :: r in refs ==> ValidateRef(drafts, r) == None
  {
    if refs != [] {
      AllRefsAccepted(drafts, refs[1..]);
      assert refs == [refs[0]] + refs[1..];
    }
  }

  lemma AddKeepsWellFormed(s: State, content: DraftContent)
    requires WellFormed(s)
    ensures AddDraft(s, content).Ok? <==>
      forall id :: content.RefersTo(id) ==> ClaimBefore(s.drafts, |s.drafts|, id)
    ensures AddDraft(s, content).Ok? ==>
      && WellFormed(AddDraft(s, content).value.0)
      && AddDraft(s, content).value.0.drafts == s.drafts + [DraftEntry(s.nextDraftId, content)]
  {
    AllRefsAccepted(s.drafts, content.References());
    forall r | r in content.References()
      ensures ValidateRef(s.drafts, r) == None <==> r.Committed? || ClaimBefore(s.drafts, |s.drafts|, r.draftId)
    {
      RefAccepted(s.drafts, r);
    }
    if AddDraft(s, content).Ok? {
      forall id | content.RefersTo(id) ensures ClaimBefore(s.drafts, |s.drafts|, id) {
        assert Local(id).Local?;
      }
      var after := AddDraft(s, content).value.0.drafts;
      forall i, id | 0 <= i < |after| && after[i].content.RefersTo(id) ensures ClaimBefore(after, i, id) {
        assert ClaimBefore(s.drafts, i, id);
        var j :| 0 <= j < i && s.drafts[j].id == id && s.drafts[j].content.DraftClaim?;
        assert after[j] == s.drafts[j];
      }
    }
  }

  /** Removal takes out exactly the named draft, and is refused exactly when something still refers to it. */
  lemma RemoveKeepsWellFormed(s: State, id: DraftId)
    requires WellFormed(s)
    ensures RemoveDraft(s, id).Ok? <==>
      && (exists d :: d in s.drafts && d.id == id)
      && (forall d :: d in s.drafts ==> !d.content.RefersTo(id))
    ensures RemoveDraft(s, id).Ok? ==> WellFormed(RemoveDraft(s, id).value)
    ensures RemoveDraft(s, id).Ok? ==> forall d :: d in RemoveDraft(s, id).value.drafts <==> d in s.drafts && d.id != id
  {
    var drafts, p := s.drafts, IndexOf(s.drafts, id);
    if p < |drafts| {
      NoSelfReference(drafts, p);
      if !drafts[p].content.DraftClaim? {
        OnlyClaimsAreReferenced(drafts, p);
      }
      if RemoveDraft(s, id).Ok? {
        RemovalKeepsReferences(drafts, p);
        RemovalKeepsOthers(drafts, p);
      }
    }
  }

  lemma NoSelfReference(drafts: seq<DraftEntry>, p: nat)
    requires Ascending(drafts) && RefersBackwards(drafts) && p < |drafts|
    ensures forall d :: d in drafts && d.id == drafts[p].id ==> !d.content.RefersTo(drafts[p].id)
  {
    forall d | d in drafts && d.id == drafts[p].id ensures !d.content.RefersTo(drafts[p].id) {
      var i :| 0 <= i < |drafts| && drafts[i] == d;
    }
  }

  lemma OnlyClaimsAreReferenced(drafts: seq<DraftEntry>, p: nat)
    requires Ascending(drafts) && RefersBackwards(drafts) && p < |drafts|
    requires !drafts[p].content.DraftClaim?
    ensures forall d :: d in drafts ==> !d.content.RefersTo(drafts[p].id)
  {
    forall d | d in drafts ensures !d.content.RefersTo(drafts[p].id) {
      var i :| 0 <= i < |drafts| && drafts[i] == d;
    }
  }

  /** The list without its `p`-th draft, and where its `i`-th draft stood before. */
  function Without(drafts: seq<DraftEntry>, p: nat): seq<DraftEntry>
    requires p < |drafts|
  {
    drafts[..p] + drafts[p + 1..]
  }

  function Before(p: nat, i: nat): nat {
    if i < p then i else i + 1
  }

  lemma WithoutAt(drafts: seq<DraftEntry>, p: nat)
    requires p < |drafts|
    ensures |Without(drafts, p)| == |drafts| - 1
    ensures forall i :: 0 <= i < |drafts| - 1 ==> Without(drafts, p)[i] == drafts[Before(p, i)]
  {
  }

  lemma ClaimStillBefore(drafts: seq<DraftEntry>, p: nat, i: nat, id: DraftId)
    requires p < |drafts| && i < |drafts| - 1 && id != drafts[p].id
    requires ClaimBefore(drafts, Before(p, i), id)
    ensures ClaimBefore(Without(drafts, p), i, id)
  {
    WithoutAt(drafts, p);
    var j :| 0 <= j < Before(p, i) && drafts[j].id == id && drafts[j].content.DraftClaim?;
    var k := if j < p then j else j - 1;
    assert Without(drafts, p)[k] == drafts[j];
  }

  lemma RemovalKeepsReferences(drafts: seq<DraftEntry>, p: nat)
    requires Ascending(drafts) && RefersBackwards(drafts) && p < |drafts|
    requires forall d :: d in drafts ==> !d.content.RefersTo(drafts[p].id)
    ensures Ascending(Without(drafts, p)) && RefersBackwards(Without(drafts, p))
  {
    var after := Without(drafts, p);
    WithoutAt(drafts, p);
    forall i, id | 0 <= i < |after| && after[i].content.RefersTo(id) ensures ClaimBefore(after, i, id) {
      var d := drafts[Before(p, i)];
      assert d in drafts && d.content.RefersTo(id);
      ClaimStillBefore(drafts, p, i, id);
    }
  }

  lemma RemovalKeepsOthers(drafts: seq<DraftEntry>, p: nat)
    requires Ascending(drafts) && p < |drafts|
    ensures forall d :: d in Without(drafts, p) <==> d in drafts && d.id != drafts[p].id
  {
    var after := Without(drafts, p);
    WithoutAt(drafts, p);
    forall d ensures d in after <==> d in drafts && d.id != drafts[p].id {
      if d in drafts && d.id != drafts[p].id {
        var i :| 0 <= i < |drafts| && drafts[i] == d;
        assert after[if i < p then i else i - 1] == d;
      }
      if d in after {
        var i :| 0 <= i < |after| && after[i] == d;
        assert drafts[Before(p, i)] == d;
      }
    }
  }

  /** Every local operation, whether requested by the user or by a tool call. */
  datatype Operation = Add(content: DraftContent) | Remove(id: DraftId) | Clear | UserEvent(event: Event)

  function Perform(s: State, op: Operation): State {
    match op
    case Add(content) => (match AddDraft(s, content) case Ok((next, _)) => next case Err(_) => s)
    case Remove(id) => (match RemoveDraft(s, id) case Ok(next) => next case Err(_) => s)
    case Clear => ClearDrafts(s)
    case UserEvent(event) => Reduce(s, event)
  }

  function PerformAll(s: State, ops: seq<Operation>): State {
    if ops == [] then s else Perform(PerformAll(s, ops[..|ops| - 1]), ops[|ops| - 1])
  }

  lemma PerformKeepsWellFormed(s: State, op: Operation)
    requires WellFormed(s)
    ensures WellFormed(Perform(s, op)) && Perform(s, op).nextDraftId >= s.nextDraftId
  {
    match op
    case Add(content) => AddKeepsWellFormed(s, content);
    case Remove(id) => RemoveKeepsWellFormed(s, id);
    case Clear =>
    case UserEvent(AddRequested(content)) => AddKeepsWellFormed(s, content);
    case UserEvent(RemoveRequested(id)) => RemoveKeepsWellFormed(s, id);
  }

  /** In every reachable draft list ids ascend and references point back to earlier claim drafts. */
  lemma {:induction false} ReachableIsWellFormed(ops: seq<Operation>)
    ensures WellFormed(PerformAll(INIT, ops))
  {
    if ops != [] {
      ReachableIsWellFormed(ops[..|ops| - 1]);
      PerformKeepsWellFormed(PerformAll(INIT, ops[..|ops| - 1]), ops[|ops| - 1]);
    }
  }

  /** The notice tells the truth about why an event was refused. */
  ghost predicate Truthful(drafts: seq<DraftEntry>, error: EngineError) {
    match error
    case DraftNotFound(id) => forall d :: d in drafts ==> d.id != id
    case DraftReferenceMustTargetClaim(id) => exists d :: d in drafts && d.id == id && !d.content.DraftClaim?
    case DraftReferenced(id, referrer) =>
      (exists d :: d in drafts && d.id == id) && exists d :: d in drafts && d.id == referrer && d.content.RefersTo(id)
  }

  /** A reference a new draft may make. */
  ghost predicate Acceptable(drafts: seq<DraftEntry>, r: ClaimRef) {
    r.Committed? || ClaimBefore(drafts, |drafts|, r.draftId)
  }

  /** The error names the first reference that is not acceptable. */
  ghost predicate Blames(drafts: seq<DraftEntry>, refs: seq<ClaimRef>, error: EngineError) {
    !error.DraftReferenced? && exists j :: BlamesAt(drafts, refs, error, j)
  }

  ghost predicate BlamesAt(drafts: seq<DraftEntry>, refs: seq<ClaimRef>, error: EngineError, j: int) {
    && 0 <= j < |refs| && refs[j] == Local(error.id) && !Acceptable(drafts, refs[j])
    && forall k :: 0 <= k < j ==> Acceptable(drafts, refs[k])
  }

  /** A refused reference is the first that is not acceptable, and the error says truly what is wrong with it. */
  lemma {:induction false} RefusalIsTruthful(drafts: seq<DraftEntry>, refs: seq<ClaimRef>)
    requires Ascending(drafts)
    ensures ValidateAll(drafts, refs).Some? ==> Truthful(drafts, ValidateAll(drafts, refs).value)
    ensures ValidateAll(drafts, refs).Some? ==> Blames(drafts, refs, ValidateAll(drafts, refs).value)
  {
    if refs != [] {
      RefAccepted(drafts, refs[0]);
      if ValidateRef(drafts, refs[0]).Some? {
        var error := ValidateRef(drafts, refs[0]).value;
        var p := IndexOf(drafts, refs[0].draftId);
        if p < |drafts| {
          assert drafts[p] in drafts;
        }
        assert BlamesAt(drafts, refs, error, 0);
      } else {
        RefusalIsTruthful(drafts, refs[1..]);
        if ValidateAll(drafts, refs[1..]).Some? {
          var error := ValidateAll(drafts, refs[1..]).value;
          var j :| BlamesAt(drafts, refs[1..], error, j);
          assert forall k :: 1 <= k < j + 1 ==> refs[k] == refs[1..][k - 1];
          assert BlamesAt(drafts, refs, error, j + 1);
        }
      }
    }
  }

  /** Drafting succeeds iff every reference is acceptable; the draft is appended under the next id, which is reported. */
  lemma AddOutcome(s: State, content: DraftContent)
    requires WellFormed(s)
    ensures match AddDraft(s, content)
            case Ok((next, id)) =>
              && (forall r :: r in content.References() ==> Acceptable(s.drafts, r))
              && next == State(s.drafts + [DraftEntry(s.nextDraftId, content)], s.nextDraftId + 1, s.notice)
              && id == s.nextDraftId
            case Err(error) => Truthful(s.drafts, error) && Blames(s.drafts, content.References(), error)
  {
    RefusalIsTruthful(s.drafts, content.References());
    AllRefsAccepted(s.drafts, content.References());
    forall r | r in content.References() ensures ValidateRef(s.drafts, r) == None <==> Acceptable(s.drafts, r) {
      RefAccepted(s.drafts, r);
    }
  }

  /** Removal succeeds iff the draft is there and nothing refers to it; then it alone goes. */
  lemma RemoveOutcome(s: State, id: DraftId)
    requires WellFormed(s)
    ensures match RemoveDraft(s, id)
            case Ok(next) =>
              && (exists d :: d in s.drafts && d.id == id) && (forall d :: d in s.drafts ==> !d.content.RefersTo(id))
              && WellFormed(next) && next == s.(drafts := next.drafts)
              && forall d :: d in next.drafts <==> d in s.drafts && d.id != id
            case Err(error) =>
              Truthful(s.drafts, error) && error.id == id && !error.DraftReferenceMustTargetClaim?
  {
    RemoveKeepsWellFormed(s, id);
    var p := IndexOf(s.drafts, id);
    if p < |s.drafts| {
      assert s.drafts[p] in s.drafts;
    }
  }

  /**
   A user event is carried out exactly when the notice is clear afterwards; otherwise the drafts stay as
   they were and the notice says why.
   */
  lemma UserEventOutcome(s: State, event: Event)
    requires WellFormed(s)
    ensures Reduce(s, event).notice.Some? ==>
      && Reduce(s, event) == s.(notice := Reduce(s, event).notice)
      && Truthful(s.drafts, Reduce(s, event).notice.value)
    ensures match event
            case AddRequested(content) =>
              if Reduce(s, event).notice.None? then
                Reduce(s, event) == State(s.drafts + [DraftEntry(s.nextDraftId, content)], s.nextDraftId + 1, None)
              else Blames(s.drafts, content.References(), Reduce(s, event).notice.value)
            case RemoveRequested(id) =>
              if Reduce(s, event).notice.None? then
                && Reduce(s, event).nextDraftId == s.nextDraftId && Ascending(Reduce(s, event).drafts)
                && forall d :: d in Reduce(s, event).drafts <==> d in s.drafts && d.id != id
              else Reduce(s, event).notice.value.id == id
  {
    match event
    case AddRequested(content) => AddOutcome(s, content);
    case RemoveRequested(id) => RemoveOutcome(s, id);
  }
}
