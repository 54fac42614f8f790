/** The engine object: the committed log and the draft buffer, updated in place. */
module Engine {
  import opened Types
  import opened Drafts
  import opened Preview

  class ConsensusEngine {
    var log: seq<Entry>
    var drafts: seq<DraftEntry>
    var nextDraftId: DraftId
    const draftAuthor: Author

    /** The draft buffer as a value. */
    ghost function Local(): State
      reads this
    {
      State(drafts, nextDraftId, None)
    }

    constructor (draftAuthor: Author)
      ensures log == [] && Local() == INIT && this.draftAuthor == draftAuthor
    {
      this.draftAuthor := draftAuthor;
      log, drafts, nextDraftId := [], [], 0;
    }

    method Append(entry: Entry)
      modifies this`log
      ensures log == old(log) + [entry]
    {
      log := log + [entry];
    }

    /** The five drafting methods; they differ only in the content they append. */
    method AddDraft(content: DraftContent) returns (r: Result<DraftId, EngineError>)
      modifies this`drafts, this`nextDraftId
      ensures match Drafts.AddDraft(old(Local()), content)
              case Ok((next, id)) => r == Ok(id) && Local() == next
              case Err(e) => r == Err(e) && Local() == old(Local())
    {
      var error := ValidateAll(drafts, content.References());
      if error.Some? {
        return Err(error.value);
      }
      var id := nextDraftId;
      nextDraftId := nextDraftId + 1;
      drafts := drafts + [DraftEntry(id, content)];
      return Ok(id);
    }

    method RemoveDraft(id: DraftId) returns (r: Result<(), EngineError>)
      modifies this`drafts
      ensures match Drafts.RemoveDraft(old(Local()), id)
              case Ok(next) => r == Ok(()) && Local() == next
              case Err(e) => r == Err(e) && Local() == old(Local())
    {
      var pos := IndexOf(drafts, id);
      if pos == |drafts| {
        return Err(DraftNotFound(id));
      }
      if drafts[pos].content.DraftClaim? {
        var referrer := FirstReferrer(drafts, id);
        if referrer.Some? {
          return Err(DraftReferenced(id, referrer.value));
        }
      }
      drafts := drafts[..pos] + drafts[pos + 1..];
      return Ok(());
    }

    method ClearDrafts()
      modifies this`drafts
      ensures drafts == [] && Local() == Drafts.ClearDrafts(old(Local()))
    {
      drafts := [];
    }

    /** Hand out the drafts under their provisional ids and drop them; on an error nothing is dropped. */
    method SubmitDrafts() returns (r: Result<seq<Entry>, EngineError>)
      modifies this`drafts
      ensures r == PreviewEntries(old(drafts), draftAuthor)
      ensures drafts == if r.Ok? then [] else old(drafts)
    {
      r := PreviewEntries(drafts, draftAuthor);
      if r.Ok? {
        drafts := [];
      }
    }

    /** `next(k)` is what the `k`-th call of the id generator returns. */
    method SubmissionBundle(next: nat -> ClaimId) returns (r: Result<Bundle, EngineError>)
      ensures r == Preview.SubmissionBundle(drafts, draftAuthor, next)
    {
      var claimIds: map<DraftId, ClaimId> := map[];
      for k := 0 to |drafts|
        invariant claimIds == AssignIds(drafts[..k], next)
      {
        assert drafts[..k + 1][..k] == drafts[..k];
        var draft := drafts[k];
        if draft.content.DraftClaim? && draft.id !in claimIds {
          claimIds := claimIds[draft.id := next(|claimIds|)];
        }
      }
      assert drafts[..|drafts|] == drafts;

      var draftIds: seq<DraftId>, entries: seq<Entry> := [], [];
      ghost var whole := MaterializeAll(drafts, draftAuthor, ByMap(claimIds), drafts);
      PrependNothing(whole);
      for k := 0 to |drafts|
        invariant draftIds == Ids(drafts[..k])
        invariant whole == Prepend(entries, MaterializeAll(drafts, draftAuthor, ByMap(claimIds), drafts[k..]))
      {
        assert drafts[k..][1..] == drafts[k + 1..];
        draftIds := draftIds + [drafts[k].id];
        var entry := Materialize(drafts, draftAuthor, ByMap(claimIds), drafts[k]);
        if entry.Err? {
          return Err(entry.error);
        }
        PrependOne(entries, entry.value, MaterializeAll(drafts, draftAuthor, ByMap(claimIds), drafts[k + 1..]));
        entries := entries + [entry.value];
      }
      assert drafts[|drafts|..] == [] && entries + [] == entries;
      return Ok(Bundle(draftIds, entries, claimIds));
    }
  }

  function Prepend(entries: seq<Entry>, r: Result<seq<Entry>, EngineError>): Result<seq<Entry>, EngineError> {
    match r case Ok(rest) => Ok(entries + rest) case Err(e) => Err(e)
  }

  lemma PrependNothing(r: Result<seq<Entry>, EngineError>)
    ensures Prepend([], r) == r
  {
    if r.Ok? {
      assert [] + r.value == r.value;
    }
  }

  lemma PrependOne(entries: seq<Entry>, e: Entry, r: Result<seq<Entry>, EngineError>)
    ensures Prepend(entries, Prepend([e], r)) == Prepend(entries + [e], r)
  {
    if r.Ok? {
      assert entries + ([e] + r.value) == (entries + [e]) + r.value;
    }
  }
}
