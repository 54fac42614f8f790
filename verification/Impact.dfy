/** Impact analysis: what the drafts would change, computed from the preview. */
module Impact {
  import opened Types
  import opened Reducer
  import opened Status
  import opened Renaming
  import opened Drafts
  import opened Preview
  import opened Sorting

  datatype NewClaim = NewClaim(draftId: DraftId, body: string, author: Author, kind: ClaimKind, status: Option<EpistemicStatus>)

  datatype StatusChange = StatusChange(
    claimId: ClaimId, body: string, before: Option<EpistemicStatus>, after: Option<EpistemicStatus>)

  datatype Analysis = Analysis(newClaims: seq<NewClaim>, statusChanges: seq<StatusChange>)

  type Statuses = map<ClaimId, EpistemicStatus>

  /** `n` describes draft `d`, a claim, with the status its provisional id has in the preview. */
  ghost predicate Describes(n: NewClaim, d: DraftEntry, author: Author, after: Statuses) {
    && d.content.DraftClaim?
    && n == NewClaim(d.id, d.content.body, author, d.content.kind, Lookup(after, PreviewId(d.id)))
  }

  /** The claim drafts among `drafts`, in order. */
  function ClaimDrafts(drafts: seq<DraftEntry>): seq<DraftEntry> {
    if drafts == [] then []
    else
      var rest := ClaimDrafts(drafts[..|drafts| - 1]);
      var d := drafts[|drafts| - 1];
      if d.content.DraftClaim? then rest + [d] else rest
  }

  ghost predicate ListsNewClaims(news: seq<NewClaim>, drafts: seq<DraftEntry>, author: Author, after: Statuses) {
    && |news| == |ClaimDrafts(drafts)|
    && forall i :: 0 <= i < |news| ==> Describes(news[i], ClaimDrafts(drafts)[i], author, after)
  }

  /** The claim drafts of a list, described in order. */
  function NewClaimsOf(drafts: seq<DraftEntry>, author: Author, after: Statuses): seq<NewClaim> {
    if drafts == [] then []
    else
      var rest := NewClaimsOf(drafts[..|drafts| - 1], author, after);
      var d := drafts[|drafts| - 1];
      if d.content.DraftClaim? then
        rest + [NewClaim(d.id, d.content.body, author, d.content.kind, Lookup(after, PreviewId(d.id)))]
      else rest
  }

  lemma {:induction false} NewClaimsAreListed(drafts: seq<DraftEntry>, author: Author, after: Statuses)
    ensures ListsNewClaims(NewClaimsOf(drafts, author, after), drafts, author, after)
  {
    if drafts != [] {
      NewClaimsAreListed(drafts[..|drafts| - 1], author, after);
    }
  }

  /** The text shown for a claim: as previewed if it is there, else as committed. */
  function ShownBody(committed: MaterializedState, preview: MaterializedState, id: ClaimId): string {
    if id in preview.claims then preview.claims[id].body
    else if id in committed.claims then committed.claims[id].body
    else ""
  }

  function ByDraft(): Key<NewClaim> {
    (n: NewClaim) => n.draftId
  }

  /** The claim drafts sorted by id, each described with its status. */
  ghost predicate SortsNewClaims(sorted: seq<NewClaim>, drafts: seq<DraftEntry>, author: Author, after: Statuses) {
    && AscendingBy(sorted, ByDraft())
    && exists news ::
      ListsNewClaims(news, drafts, author, after) && sorted == SortedBy(news, ByDraft()) && multiset(sorted) == multiset(news)
  }

  ghost predicate Listed(changes: seq<StatusChange>, id: ClaimId) {
    exists c :: c in changes && c.claimId == id
  }

  /** `c` is a change of status of a committed claim. */
  ghost predicate IsChange(c: StatusChange, committed: MaterializedState, before: Statuses, preview: MaterializedState, after: Statuses) {
    && c.claimId in committed.claims
    && c == StatusChange(c.claimId, ShownBody(committed, preview, c.claimId), Lookup(before, c.claimId), Lookup(after, c.claimId))
    && c.before != c.after
  }

  ghost predicate SortedByClaim(changes: seq<StatusChange>) {
    forall i, j :: 0 <= i < j < |changes| ==> Precedes(changes[i].claimId.text, changes[j].claimId.text)
  }

  /** `changes` lists exactly the committed claims whose status differs, once each, sorted by id. */
  ghost predicate ComparesStatuses(changes: seq<StatusChange>, committed: MaterializedState, before: Statuses,
                                   preview: MaterializedState, after: Statuses)
  {
    && (forall c :: c in changes ==> IsChange(c, committed, before, preview, after))
    && (forall id :: id in committed.claims && Lookup(before, id) != Lookup(after, id) ==> Listed(changes, id))
    && SortedByClaim(changes)
  }

  /** The changes among the claims of `ids`, in their order. */
  function ChangesAmong(ids: seq<ClaimId>, committed: MaterializedState, before: Statuses, preview: MaterializedState,
                        after: Statuses): seq<StatusChange>
  {
    if ids == [] then []
    else
      var rest := ChangesAmong(ids[..|ids| - 1], committed, before, preview, after);
      var id := ids[|ids| - 1];
      var was, will := Lookup(before, id), Lookup(after, id);
      if id in committed.claims && was != will then rest + [StatusChange(id, ShownBody(committed, preview, id), was, will)]
      else rest
  }

  lemma {:induction false} ChangesMeaning(ids: seq<ClaimId>, committed: MaterializedState, before: Statuses,
                                          preview: MaterializedState, after: Statuses)
    ensures forall c :: c in ChangesAmong(ids, committed, before, preview, after) <==>
      c.claimId in ids && IsChange(c, committed, before, preview, after)
  {
    if ids != [] {
      var front := ids[..|ids| - 1];
      assert ids == front + [ids[|ids| - 1]];
      ChangesMeaning(front, committed, before, preview, after);
    }
  }

  lemma {:induction false} ChangesAreSorted(ids: seq<ClaimId>, committed: MaterializedState, before: Statuses,
                                            preview: MaterializedState, after: Statuses)
    requires SortedIds(ids)
    ensures SortedByClaim(ChangesAmong(ids, committed, before, preview, after))
  {
    if ids != [] {
      var n := |ids| - 1;
      var rest := ChangesAmong(ids[..n], committed, before, preview, after);
      ChangesAreSorted(ids[..n], committed, before, preview, after);
      ChangesMeaning(ids[..n], committed, before, preview, after);
      forall i | 0 <= i < |rest| ensures Precedes(rest[i].claimId.text, ids[n].text) {
        assert rest[i] in rest;
        var j :| 0 <= j < n && ids[j] == rest[i].claimId;
      }
    }
  }

  lemma ChangesCompare(ids: seq<ClaimId>, committed: MaterializedState, before: Statuses, preview: MaterializedState, after: Statuses)
    requires SortedIds(ids) && forall id :: id in committed.claims ==> id in ids
    ensures ComparesStatuses(ChangesAmong(ids, committed, before, preview, after), committed, before, preview, after)
  {
    var changes := ChangesAmong(ids, committed, before, preview, after);
    ChangesMeaning(ids, committed, before, preview, after);
    ChangesAreSorted(ids, committed, before, preview, after);
    forall id | id in committed.claims && Lookup(before, id) != Lookup(after, id) ensures Listed(changes, id) {
      var c := StatusChange(id, ShownBody(committed, preview, id), Lookup(before, id), Lookup(after, id));
      assert IsChange(c, committed, before, preview, after);
    }
  }

  method BuildImpactAnalysis(drafts: seq<DraftEntry>, author: Author, committed: MaterializedState, before: Statuses,
                             preview: MaterializedState, after: Statuses)
      returns (impact: Analysis)
    ensures SortsNewClaims(impact.newClaims, drafts, author, after)
    ensures Ascending(drafts) ==> ListsNewClaims(impact.newClaims, drafts, author, after)
    ensures ComparesStatuses(impact.statusChanges, committed, before, preview, after)
  {
    var newClaims: seq<NewClaim> := [];
    for k := 0 to |drafts|
      invariant newClaims == NewClaimsOf(drafts[..k], author, after)
    {
      assert drafts[..k + 1][..k] == drafts[..k];
      match drafts[k].content {
        case DraftClaim(body, kind, _) =>
          newClaims := newClaims + [NewClaim(drafts[k].id, body, author, kind, Lookup(after, PreviewId(drafts[k].id)))];
        case _ =>
      }
    }
    assert drafts[..|drafts|] == drafts;

    var ids := SortIds(committed.claims.Keys + preview.claims.Keys);
    var changes: seq<StatusChange> := [];
    for k := 0 to |ids|
      invariant changes == ChangesAmong(ids[..k], committed, before, preview, after)
    {
      var id := ids[k];
      assert ids[..k + 1][..k] == ids[..k];
      if id !in committed.claims {
        continue;
      }
      var was, will := Lookup(before, id), Lookup(after, id);
      if was != will {
        changes := changes + [StatusChange(id, ShownBody(committed, preview, id), was, will)];
      }
    }
    assert ids[..|ids|] == ids;
    SortingListed(drafts, author, after);
    ChangesCompare(ids, committed, before, preview, after);
    // The changes are in the order of `ids` already: sorting them once more would change nothing.
    impact := Analysis(SortedBy(newClaims, ByDraft()), changes);
  }

  lemma SortingListed(drafts: seq<DraftEntry>, author: Author, after: Statuses)
    ensures SortsNewClaims(SortedBy(NewClaimsOf(drafts, author, after), ByDraft()), drafts, author, after)
    ensures Ascending(drafts) ==> ListsNewClaims(SortedBy(NewClaimsOf(drafts, author, after), ByDraft()), drafts, author, after)
  {
    var news := NewClaimsOf(drafts, author, after);
    NewClaimsAreListed(drafts, author, after);
    SortingSorts(news, ByDraft());
    if Ascending(drafts) {
      ClaimDraftsAscend(drafts);
      assert AscendingBy(news, ByDraft());
    }
  }

  lemma {:induction false} ClaimDraftsAscend(drafts: seq<DraftEntry>)
    requires Ascending(drafts)
    ensures forall i, j :: 0 <= i < j < |ClaimDrafts(drafts)| ==> ClaimDrafts(drafts)[i].id < ClaimDrafts(drafts)[j].id
  {
    if drafts != [] {
      var n := |drafts| - 1;
      ClaimDraftsAscend(drafts[..n]);
      ClaimDraftsMeaning(drafts[..n]);
      forall i | 0 <= i < |ClaimDrafts(drafts[..n])| ensures ClaimDrafts(drafts[..n])[i].id < drafts[n].id {
        assert ClaimDrafts(drafts[..n])[i] in drafts[..n];
      }
    }
  }

  lemma {:induction false} ClaimDraftsMeaning(drafts: seq<DraftEntry>)
    ensures forall d :: d in ClaimDrafts(drafts) <==> d in drafts && d.content.DraftClaim?
  {
    if drafts != [] {
      var n := |drafts| - 1;
      assert drafts == drafts[..n] + [drafts[n]];
      ClaimDraftsMeaning(drafts[..n]);
    }
  }

  lemma ClaimsAreMentioned(log: seq<Entry>, ids: set<ClaimId>)
    requires MentionsOnly(log, ids)
    ensures Replay(log).claims.Keys <= ids
  {
    forall id | id in Replay(log).claims ensures id in ids {
      ReplayClaims(log, id);
      var j :| 0 <= j < |log| && ClaimsId(log[j], id);
      assert log[j] in log && id in Mentions(log[j]);
    }
  }

  /**
   The analysis fails only if some draft cannot be materialized.  `committedOrder` and `previewOrder` are
   the orders in which the claim maps are walked.
   */
  method ImpactAnalysis(committed: seq<Entry>, drafts: seq<DraftEntry>, author: Author,
                        committedOrder: seq<ClaimId>, previewOrder: seq<ClaimId>)
      returns (r: Result<Analysis, EngineError>)
    requires Enumerates(committedOrder, Replay(committed).claims.Keys)
    requires PreviewEntries(drafts, author).Ok? ==>
      Enumerates(previewOrder, Replay(committed + PreviewEntries(drafts, author).value).claims.Keys)
    ensures r.Err? <==> PreviewEntries(drafts, author).Err?
    ensures r.Err? ==> r.error == PreviewEntries(drafts, author).error
    ensures r.Ok? ==> Analyses(r.value, committed, drafts, author)
  {
    var committedState, committedStatuses := MaterializeEntries(committed, committedOrder);
    match PreviewEntries(drafts, author) {
      case Err(e) => return Err(e);
      case Ok(entries) =>
        var previewState, previewStatuses := MaterializeEntries(committed + entries, previewOrder);
        var impact := BuildImpactAnalysis(drafts, author, committedState, committedStatuses, previewState, previewStatuses);
        return Ok(impact);
    }
  }

  /** The analysis compares the committed log with the log extended by the previewed drafts. */
  ghost predicate Analyses(impact: Analysis, committed: seq<Entry>, drafts: seq<DraftEntry>, author: Author) {
    && PreviewEntries(drafts, author).Ok?
    && var preview := Replay(committed + PreviewEntries(drafts, author).value);
    && SortsNewClaims(impact.newClaims, drafts, author, StatusMap(preview))
    && ComparesStatuses(impact.statusChanges, Replay(committed), StatusMap(Replay(committed)), preview, StatusMap(preview))
  }

  /**
   The analysis predicts the submission: a committed claim is listed exactly when submitting will change
   its status, with the status it will have, and exactly the draft claims are listed as new, each with the
   status its final id will have.
   */
  lemma ImpactPredictsSubmission(impact: Analysis, committed: seq<Entry>, drafts: seq<DraftEntry>, author: Author,
                                 next: nat -> ClaimId)
    requires IntactDrafts(drafts) && FreshNames(KnownIds(committed, drafts), drafts, next)
    requires Analyses(impact, committed, drafts, author)
    ensures SubmissionBundle(drafts, author, next).Ok?
    ensures Predicts(impact, Replay(committed), AssignIds(drafts, next), StatusMap(Replay(committed)),
                     StatusMap(Replay(committed + SubmissionBundle(drafts, author, next).value.entries)))
  {
    PreviewIsFaithful(committed, drafts, author, next);
    var previewed := StatusMap(Replay(committed + PreviewEntries(drafts, author).value));
    var submitted := StatusMap(Replay(committed + SubmissionBundle(drafts, author, next).value.entries));
    var known, finals := KnownIds(committed, drafts), AssignIds(drafts, next);
    assert MentionsOnly(committed, known);
    ClaimsAreMentioned(committed, known);
    AssignedIds(drafts, next);
    NewClaimsAreClaimDrafts(impact.newClaims, drafts, author, previewed);
    forall n | n in impact.newClaims ensures n.draftId in finals && n.status == Lookup(submitted, finals[n.draftId]) {
      assert SameStatus(previewed, PreviewId(n.draftId), submitted, finals[n.draftId]);
    }
    PredictsChanges(impact, Replay(committed), StatusMap(Replay(committed)),
                    Replay(committed + PreviewEntries(drafts, author).value), previewed, submitted);
  }

  /** A claim keeps its text for good, so the text shown for a changed claim is the committed one. */
  lemma ShownTextIsCommitted(impact: Analysis, committed: seq<Entry>, drafts: seq<DraftEntry>, author: Author)
    requires Analyses(impact, committed, drafts, author)
    ensures forall c :: c in impact.statusChanges ==>
      c.claimId in Replay(committed).claims && c.body == Replay(committed).claims[c.claimId].body
  {
    var more := PreviewEntries(drafts, author).value;
    forall c | c in impact.statusChanges ensures c.body == Replay(committed).claims[c.claimId].body {
      ReplayAppend(EMPTY, committed, more);
      TextIsKept(Replay(committed), more, c.claimId);
    }
  }

  lemma {:induction false} TextIsKept(s: MaterializedState, more: seq<Entry>, id: ClaimId)
    requires id in s.claims
    ensures id in ReplayFrom(s, more).claims && ReplayFrom(s, more).claims[id].body == s.claims[id].body
    decreases more
  {
    if more != [] {
      TextIsKept(Reducer.Reduce(s, more[0]), more[1..], id);
    }
  }

  ghost predicate ListedAsNew(news: seq<NewClaim>, d: DraftId) {
    exists n :: n in news && n.draftId == d
  }

  ghost predicate Predicts(impact: Analysis, committed: MaterializedState, finals: map<DraftId, ClaimId>,
                           before: Statuses, after: Statuses)
  {
    && (forall d: DraftId :: ListedAsNew(impact.newClaims, d) <==> d in finals)
    && (forall n :: n in impact.newClaims ==> n.draftId in finals && n.status == Lookup(after, finals[n.draftId]))
    && (forall c :: c in impact.statusChanges ==> c.after == Lookup(after, c.claimId))
    && forall id :: id in committed.claims ==>
      (Listed(impact.statusChanges, id) <==> Lookup(before, id) != Lookup(after, id))
  }

  lemma PredictsChanges(impact: Analysis, committed: MaterializedState, before: Statuses,
                        preview: MaterializedState, previewed: Statuses, submitted: Statuses)
    requires forall id :: id in committed.claims ==> SameStatus(previewed, id, submitted, id)
    requires ComparesStatuses(impact.statusChanges, committed, before, preview, previewed)
    ensures forall c :: c in impact.statusChanges ==> c.after == Lookup(submitted, c.claimId)
    ensures forall id :: id in committed.claims ==>
      (Listed(impact.statusChanges, id) <==> Lookup(before, id) != Lookup(submitted, id))
  {
  }

  lemma NewClaimsAreClaimDrafts(sorted: seq<NewClaim>, drafts: seq<DraftEntry>, author: Author, after: Statuses)
    requires SortsNewClaims(sorted, drafts, author, after)
    ensures forall n :: n in sorted ==> n.status == Lookup(after, PreviewId(n.draftId))
    ensures forall d: DraftId :: ListedAsNew(sorted, d) <==> IsClaimDraft(drafts, d)
  {
    var news: seq<NewClaim> :|
      ListsNewClaims(news, drafts, author, after) && sorted == SortedBy(news, ByDraft()) && multiset(sorted) == multiset(news);
    forall n ensures n in sorted <==> n in news {
      assert n in sorted <==> n in multiset(sorted);
      assert n in news <==> n in multiset(news);
    }
    ListedAreClaimDrafts(news, drafts, author, after);
    forall d: DraftId | ListedAsNew(news, d) ensures ListedAsNew(sorted, d) {
      var n :| n in news && n.draftId == d;
      assert n in sorted;
    }
  }

  lemma ListedAreClaimDrafts(news: seq<NewClaim>, drafts: seq<DraftEntry>, author: Author, after: Statuses)
    requires ListsNewClaims(news, drafts, author, after)
    ensures forall n :: n in news ==> n.status == Lookup(after, PreviewId(n.draftId)) && IsClaimDraft(drafts, n.draftId)
    ensures forall d: DraftId :: IsClaimDraft(drafts, d) ==> ListedAsNew(news, d)
  {
    var claims := ClaimDrafts(drafts);
    ClaimDraftsMeaning(drafts);
    forall n | n in news ensures n.status == Lookup(after, PreviewId(n.draftId)) && IsClaimDraft(drafts, n.draftId) {
      var i :| 0 <= i < |news| && news[i] == n;
      assert Describes(n, claims[i], author, after) && claims[i] in claims;
      var j :| 0 <= j < |drafts| && drafts[j] == claims[i];
    }
    forall d: DraftId | IsClaimDraft(drafts, d) ensures ListedAsNew(news, d) {
      var j :| 0 <= j < |drafts| && drafts[j].id == d && drafts[j].content.DraftClaim?;
      assert drafts[j] in claims;
      var i :| 0 <= i < |claims| && claims[i] == drafts[j];
      assert Describes(news[i], claims[i], author, after) && news[i] in news;
    }
  }

  /** Freshness is needed: a committed claim that already bears a provisional id hides the draft from the preview. */
  lemma ProvisionalIdClash(body: string)
    ensures
      var committed := [Claim(PreviewId(0), "alice", body, Fact, None)];
      var drafts := [DraftEntry(0, DraftClaim("new", Fact, None))];
      && IntactDrafts(drafts)
      && PreviewEntries(drafts, "bob").Ok?
      && |Replay(committed + PreviewEntries(drafts, "bob").value).claims| == 1
      && (forall next: nat -> ClaimId :: next(0) != PreviewId(0) ==>
            && SubmissionBundle(drafts, "bob", next).Ok?
            && |Replay(committed + SubmissionBundle(drafts, "bob", next).value.entries).claims| == 2)
  {
    var c := Claim(PreviewId(0), "alice", body, Fact, None);
    var d := DraftEntry(0, DraftClaim("new", Fact, None));
    var drafts := [d];
    assert d.content.References() == [];
    PreviewNeverFails(drafts, "bob");
    var p := PreviewEntries(drafts, "bob").value;
    assert p == [Claim(PreviewId(0), "bob", "new", Fact, None)];
    ReplayTwo(c, p[0]);
    assert [c] + p == [c, p[0]];
    forall next: nat -> ClaimId | next(0) != PreviewId(0)
      ensures SubmissionBundle(drafts, "bob", next).Ok?
      ensures |Replay([c] + SubmissionBundle(drafts, "bob", next).value.entries).claims| == 2
    {
      assert drafts[..0] == [] && AssignIds([], next) == map[];
      assert AssignIds(drafts, next) == map[0 := next(0)];
      var e := Claim(next(0), "bob", "new", Fact, None);
      assert Materialize(drafts, "bob", ByMap(AssignIds(drafts, next)), d) == Ok(e);
      assert drafts[1..] == [] && [e] + [] == [e];
      assert MaterializeAll(drafts, "bob", ByMap(AssignIds(drafts, next)), []) == Ok([]);
      assert MaterializeAll(drafts, "bob", ByMap(AssignIds(drafts, next)), drafts) == Ok([e]);
      assert [c] + [e] == [c, e];
      ReplayTwo(c, e);
      assert Replay([c, e]).claims.Keys == {PreviewId(0), next(0)};
    }
  }

  lemma ReplayTwo(c: Entry, d: Entry)
    ensures Replay([c, d]) == Reducer.Reduce(Reducer.Reduce(EMPTY, c), d)
  {
    assert [c, d][1..] == [d] && [d][1..] == [];
    assert ReplayFrom(EMPTY, [c, d]) == ReplayFrom(Reducer.Reduce(EMPTY, c), [d]);
    assert ReplayFrom(Reducer.Reduce(EMPTY, c), [d]) == ReplayFrom(Reducer.Reduce(Reducer.Reduce(EMPTY, c), d), []);
  }
}
