/** Turning drafts into log entries, for preview under provisional ids and for submission under final ids. */
module Preview {
  import opened Types
  import opened Reducer
  import opened Status
  import opened Renaming
  import opened Drafts

  // ---------------------------------------------------------------------- provisional ids

  function Decimal(n: nat): string {
    if n < 10 then [Digit(n)] else Decimal(n / 10) + [Digit(n % 10)]
  }

  function Digit(d: nat): char
    requires d < 10
  {
    (d as char) + '0'
  }

  /** The number a string of decimal digits stands for. */
  function NumberOf(s: string): int {
    if s == "" then 0 else 10 * NumberOf(s[..|s| - 1]) + (s[|s| - 1] as int - '0' as int)
  }

  /** A draft number is printed in decimal digits, without leading zeros. */
  lemma {:induction false} DecimalReadsBack(n: nat)
    ensures NumberOf(Decimal(n)) == n
    ensures Decimal(n) != "" && (forall c :: c in Decimal(n) ==> '0' <= c <= '9') && (n > 0 ==> Decimal(n)[0] != '0')
  {
    var s := Decimal(n);
    if n >= 10 {
      DecimalReadsBack(n / 10);
      assert s[..|s| - 1] == Decimal(n / 10) && s[0] == Decimal(n / 10)[0];
    } else {
      assert s[..0] == "";
    }
  }

  /** The id a draft claim carries in a preview. */
  function PreviewId(id: DraftId): ClaimId {
    ClaimId("draft-" + Decimal(id))
  }

  lemma PreviewIdInjective(m: DraftId, n: DraftId)
    requires PreviewId(m) == PreviewId(n)
    ensures m == n
  {
    assert ("draft-" + Decimal(m))[6..] == Decimal(m);
    assert ("draft-" + Decimal(n))[6..] == Decimal(n);
    DecimalReadsBack(m);
    DecimalReadsBack(n);
  }

  // ----------------------------------------------------------------------- materialization

  /** The claim id a draft claim is to be given, if any. */
  type Naming = DraftId -> Option<ClaimId>

  function ResolveRef(drafts: seq<DraftEntry>, ids: Naming, r: ClaimRef): Result<ClaimId, EngineError> {
    match r
    case Committed(id) => Ok(id)
    case Local(d) =>
      var error := ValidateRef(drafts, r);
      if error.Some? then Err(error.value)
      else match ids(d) case Some(id) => Ok(id) case None => Err(DraftNotFound(d))
  }

  function ResolveOptional(drafts: seq<DraftEntry>, ids: Naming, r: Option<ClaimRef>): Result<Option<ClaimId>, EngineError> {
    if r.None? then Ok(None)
    else match ResolveRef(drafts, ids, r.value) case Ok(id) => Ok(Some(id)) case Err(e) => Err(e)
  }

  function Materialize(drafts: seq<DraftEntry>, author: Author, ids: Naming, draft: DraftEntry): Result<Entry, EngineError> {
    match draft.content
    case DraftClaim(body, kind, parent) =>
      if ids(draft.id).None? then Err(DraftNotFound(draft.id))
      else
        (match ResolveOptional(drafts, ids, parent)
         case Err(e) => Err(e)
         case Ok(parentId) => Ok(Claim(ids(draft.id).value, author, body, kind, parentId)))
    case DraftRelation(source, target, kind) =>
      (match ResolveRef(drafts, ids, source)
       case Err(e) => Err(e)
       case Ok(sourceId) =>
         match ResolveRef(drafts, ids, target)
         case Err(e) => Err(e)
         case Ok(targetId) => Ok(Relation(sourceId, targetId, kind, author)))
    case DraftStance(target, position) =>
      (match ResolveRef(drafts, ids, target)
       case Err(e) => Err(e)
       case Ok(targetId) => Ok(Stance(targetId, author, position)))
    case DraftResolve(claim, outcome) =>
      (match ResolveRef(drafts, ids, claim)
       case Err(e) => Err(e)
       case Ok(claimId) => Ok(Resolve(claimId, author, outcome)))
    case DraftComment(about, text) =>
      (match ResolveOptional(drafts, ids, about)
       case Err(e) => Err(e)
       case Ok(aboutId) => Ok(Comment(aboutId, author, text)))
  }

  /** Materialize `todo`, drafts of the list `drafts`, stopping at the first error. */
  function MaterializeAll(drafts: seq<DraftEntry>, author: Author, ids: Naming, todo: seq<DraftEntry>): Result<seq<Entry>, EngineError> {
    if todo == [] then Ok([])
    else
      match Materialize(drafts, author, ids, todo[0])
      case Err(e) => Err(e)
      case Ok(entry) =>
        match MaterializeAll(drafts, author, ids, todo[1..])
        case Err(e) => Err(e)
        case Ok(entries) => Ok([entry] + entries)
  }

  function PreviewNaming(): Naming {
    (d: DraftId) => Some(PreviewId(d))
  }

  function PreviewEntries(drafts: seq<DraftEntry>, author: Author): Result<seq<Entry>, EngineError> {
    MaterializeAll(drafts, author, PreviewNaming(), drafts)
  }

  function ByMap(finals: map<DraftId, ClaimId>): Naming {
    (d: DraftId) => if d in finals then Some(finals[d]) else None
  }

  /** Give each claim draft the next generated id; `next(k)` is the result of the `k`-th call. */
  function AssignIds(drafts: seq<DraftEntry>, next: nat -> ClaimId): map<DraftId, ClaimId> {
    if drafts == [] then map[]
    else
      var m := AssignIds(drafts[..|drafts| - 1], next);
      var d := drafts[|drafts| - 1];
      if d.content.DraftClaim? && d.id !in m then m[d.id := next(|m|)] else m
  }

  datatype Bundle = Bundle(draftIds: seq<DraftId>, entries: seq<Entry>, claimIds: map<DraftId, ClaimId>)

  function Ids(drafts: seq<DraftEntry>): seq<DraftId> {
    seq(|drafts|, i requires 0 <= i < |drafts| => drafts[i].id)
  }

  function SubmissionBundle(drafts: seq<DraftEntry>, author: Author, next: nat -> ClaimId): Result<Bundle, EngineError> {
    var finals := AssignIds(drafts, next);
    match MaterializeAll(drafts, author, ByMap(finals), drafts)
    case Err(e) => Err(e)
    case Ok(entries) => Ok(Bundle(Ids(drafts), entries, finals))
  }

  // --------------------------------------------------------- materialization cannot fail

  /** What a draft means once every draft claim `d` is called `name(d)`. */
  ghost function NameRef(name: DraftId -> ClaimId, r: ClaimRef): ClaimId {
    match r case Committed(id) => id case Local(d) => name(d)
  }

  ghost function NameOptional(name: DraftId -> ClaimId, r: Option<ClaimRef>): Option<ClaimId> {
    if r.None? then None else Some(NameRef(name, r.value))
  }

  ghost function Rendered(author: Author, name: DraftId -> ClaimId, d: DraftEntry): Entry {
    match d.content
    case DraftClaim(body, kind, parent) => Claim(name(d.id), author, body, kind, NameOptional(name, parent))
    case DraftRelation(source, target, kind) => Relation(NameRef(name, source), NameRef(name, target), kind, author)
    case DraftStance(target, position) => Stance(NameRef(name, target), author, position)
    case DraftResolve(claim, outcome) => Resolve(NameRef(name, claim), author, outcome)
    case DraftComment(about, text) => Comment(NameOptional(name, about), author, text)
  }

  ghost function RenderedAll(author: Author, name: DraftId -> ClaimId, drafts: seq<DraftEntry>): seq<Entry> {
    seq(|drafts|, i requires 0 <= i < |drafts| => Rendered(author, name, drafts[i]))
  }

  ghost predicate IntactDrafts(drafts: seq<DraftEntry>) {
    Ascending(drafts) && RefersBackwards(drafts)
  }

  ghost predicate IsClaimDraft(drafts: seq<DraftEntry>, d: DraftId) {
    ClaimBefore(drafts, |drafts|, d)
  }

  ghost predicate NamesClaims(drafts: seq<DraftEntry>, ids: Naming, name: DraftId -> ClaimId) {
    forall d: DraftId :: IsClaimDraft(drafts, d) ==> ids(d) == Some(name(d))
  }

  lemma RefRendered(drafts: seq<DraftEntry>, ids: Naming, name: DraftId -> ClaimId, i: nat, r: ClaimRef)
    requires IntactDrafts(drafts) && NamesClaims(drafts, ids, name) && i < |drafts|
    requires r in drafts[i].content.References()
    ensures ResolveRef(drafts, ids, r) == Ok(NameRef(name, r))
  {
    if r.Local? {
      assert drafts[i].content.RefersTo(r.draftId);
      assert ClaimBefore(drafts, i, r.draftId);
      assert IsClaimDraft(drafts, r.draftId);
      RefAccepted(drafts, r);
    }
  }

  lemma DraftRendered(drafts: seq<DraftEntry>, author: Author, ids: Naming, name: DraftId -> ClaimId, i: nat)
    requires IntactDrafts(drafts) && NamesClaims(drafts, ids, name) && i < |drafts|
    ensures Materialize(drafts, author, ids, drafts[i]) == Ok(Rendered(author, name, drafts[i]))
  {
    forall r | r in drafts[i].content.References() ensures ResolveRef(drafts, ids, r) == Ok(NameRef(name, r)) {
      RefRendered(drafts, ids, name, i, r);
    }
    match drafts[i].content
    case DraftClaim(_, _, _) => assert IsClaimDraft(drafts, drafts[i].id);
    case DraftRelation(source, target, _) =>
      assert drafts[i].content.References()[0] == source && drafts[i].content.References()[1] == target;
    case _ =>
  }

  lemma {:induction false} AllRendered(drafts: seq<DraftEntry>, author: Author, ids: Naming, name: DraftId -> ClaimId, from: nat)
    requires IntactDrafts(drafts) && NamesClaims(drafts, ids, name) && from <= |drafts|
    ensures MaterializeAll(drafts, author, ids, drafts[from..]) == Ok(RenderedAll(author, name, drafts[from..]))
    decreases |drafts| - from
  {
    if from < |drafts| {
      DraftRendered(drafts, author, ids, name, from);
      AllRendered(drafts, author, ids, name, from + 1);
      assert drafts[from..][1..] == drafts[from + 1..];
      assert RenderedAll(author, name, drafts[from..])
          == [Rendered(author, name, drafts[from])] + RenderedAll(author, name, drafts[from + 1..]);
    }
  }

  ghost predicate OneToOne(m: map<DraftId, ClaimId>) {
    forall c, d :: c in m && d in m && m[c] == m[d] ==> c == d
  }

  ghost predicate NeverRepeats(next: nat -> ClaimId) {
    forall i: nat, j: nat :: next(i) == next(j) ==> i == j
  }

  ghost predicate FreshBelow(next: nat -> ClaimId, n: nat, id: ClaimId) {
    exists k: nat :: k < n && next(k) == id
  }

  /** All ids come from the first `|m|` calls. */
  ghost predicate NamedBelow(m: map<DraftId, ClaimId>, next: nat -> ClaimId) {
    forall d :: d in m ==> FreshBelow(next, |m|, m[d])
  }

  lemma NameOneMore(m: map<DraftId, ClaimId>, next: nat -> ClaimId, d: DraftId)
    requires NamedBelow(m, next) && d !in m
    ensures NamedBelow(m[d := next(|m|)], next)
    ensures NeverRepeats(next) && OneToOne(m) ==> OneToOne(m[d := next(|m|)])
  {
    var after := m[d := next(|m|)];
    assert |after| == |m| + 1;
    forall c | c in after ensures FreshBelow(next, |after|, after[c]) {
      if c != d {
        var k: nat :| k < |m| && next(k) == m[c];
      }
    }
    forall c | NeverRepeats(next) && c in m ensures m[c] != next(|m|) {
      var k: nat :| k < |m| && next(k) == m[c];
    }
  }

  /** The claim drafts, and only they, are given generated ids, all different if the generator never repeats one. */
  lemma {:induction false} AssignedIds(drafts: seq<DraftEntry>, next: nat -> ClaimId)
    ensures forall d: DraftId :: d in AssignIds(drafts, next) <==> IsClaimDraft(drafts, d)
    ensures NamedBelow(AssignIds(drafts, next), next)
    ensures NeverRepeats(next) ==> OneToOne(AssignIds(drafts, next))
  {
    if drafts != [] {
      var n := |drafts| - 1;
      var prev, last := drafts[..n], drafts[n];
      var before := AssignIds(prev, next);
      AssignedIds(prev, next);
      forall d: DraftId ensures IsClaimDraft(drafts, d) <==> IsClaimDraft(prev, d) || (last.id == d && last.content.DraftClaim?) {
        if IsClaimDraft(prev, d) {
          var j :| 0 <= j < n && prev[j].id == d && prev[j].content.DraftClaim?;
          assert drafts[j] == prev[j];
        }
      }
      if last.content.DraftClaim? && last.id !in before {
        NameOneMore(before, next, last.id);
      }
    }
  }

  // ------------------------------------------------------------- what the entries say

  /** `id` is what the reference refers to: the committed claim, or the claim made from that draft. */
  ghost predicate Resolves(entries: seq<Entry>, drafts: seq<DraftEntry>, r: ClaimRef, id: ClaimId)
    requires |entries| == |drafts|
  {
    match r
    case Committed(c) => id == c
    case Local(d) => exists j :: 0 <= j < |drafts| && drafts[j].id == d && entries[j].Claim? && entries[j].claimId == id
  }

  ghost predicate ResolvesOptional(entries: seq<Entry>, drafts: seq<DraftEntry>, r: Option<ClaimRef>, id: Option<ClaimId>)
    requires |entries| == |drafts|
  {
    (r.Some? <==> id.Some?) && (r.Some? ==> Resolves(entries, drafts, r.value, id.value))
  }

  /** The `i`-th entry says, in the author's name, what the `i`-th draft says. */
  ghost predicate Says(entries: seq<Entry>, drafts: seq<DraftEntry>, author: Author, i: nat)
    requires |entries| == |drafts| && i < |drafts|
  {
    entries[i].author == author
    && match drafts[i].content
       case DraftClaim(body, kind, parent) =>
         && entries[i].Claim? && entries[i].body == body && entries[i].kind == kind
         && ResolvesOptional(entries, drafts, parent, entries[i].parent)
       case DraftRelation(source, target, kind) =>
         && entries[i].Relation? && entries[i].relation == kind
         && Resolves(entries, drafts, source, entries[i].source) && Resolves(entries, drafts, target, entries[i].target)
       case DraftStance(target, position) =>
         entries[i].Stance? && entries[i].position == position && Resolves(entries, drafts, target, entries[i].target)
       case DraftResolve(claim, outcome) =>
         entries[i].Resolve? && entries[i].outcome == outcome && Resolves(entries, drafts, claim, entries[i].claimId)
       case DraftComment(about, text) =>
         entries[i].Comment? && entries[i].body == text && ResolvesOptional(entries, drafts, about, entries[i].about)
  }

  ghost predicate SaysAll(entries: seq<Entry>, drafts: seq<DraftEntry>, author: Author) {
    |entries| == |drafts| && forall i :: 0 <= i < |drafts| ==> Says(entries, drafts, author, i)
  }

  lemma RenderedSays(author: Author, name: DraftId -> ClaimId, drafts: seq<DraftEntry>)
    requires IntactDrafts(drafts)
    ensures SaysAll(RenderedAll(author, name, drafts), drafts, author)
  {
    var entries := RenderedAll(author, name, drafts);
    forall i | 0 <= i < |drafts| ensures Says(entries, drafts, author, i) {
      var refs := drafts[i].content.References();
      forall r | r in refs ensures Resolves(entries, drafts, r, NameRef(name, r)) {
        if r.Local? {
          assert drafts[i].content.RefersTo(r.draftId);
          assert ClaimBefore(drafts, i, r.draftId);
          var j :| 0 <= j < i && drafts[j].id == r.draftId && drafts[j].content.DraftClaim?;
          assert entries[j].Claim? && entries[j].claimId == name(r.draftId);
        }
      }
      assert |refs| > 0 ==> refs[0] in refs;
      assert |refs| > 1 ==> refs[1] in refs;
    }
  }

  lemma PreviewNeverFails(drafts: seq<DraftEntry>, author: Author)
    requires IntactDrafts(drafts)
    ensures PreviewEntries(drafts, author) == Ok(RenderedAll(author, PreviewId, drafts))
    ensures SaysAll(PreviewEntries(drafts, author).value, drafts, author)
    ensures forall i :: 0 <= i < |drafts| && drafts[i].content.DraftClaim? ==>
      PreviewEntries(drafts, author).value[i].claimId == PreviewId(drafts[i].id)
  {
    AllRendered(drafts, author, PreviewNaming(), PreviewId, 0);
    assert drafts[0..] == drafts;
    RenderedSays(author, PreviewId, drafts);
  }

  ghost function FinalName(finals: map<DraftId, ClaimId>, d: DraftId): ClaimId {
    if d in finals then finals[d] else PreviewId(d)
  }

  ghost function FinalNames(finals: map<DraftId, ClaimId>): DraftId -> ClaimId {
    (d: DraftId) => FinalName(finals, d)
  }

  function ClaimsAmong(drafts: seq<DraftEntry>): nat {
    if drafts == [] then 0
    else ClaimsAmong(drafts[..|drafts| - 1]) + if drafts[|drafts| - 1].content.DraftClaim? then 1 else 0
  }

  /** The claim drafts take the generated ids in the order of the list. */
  lemma {:induction false} AssignedInOrder(drafts: seq<DraftEntry>, next: nat -> ClaimId, i: nat)
    requires Ascending(drafts) && i < |drafts| && drafts[i].content.DraftClaim?
    ensures drafts[i].id in AssignIds(drafts, next) && AssignIds(drafts, next)[drafts[i].id] == next(ClaimsAmong(drafts[..i]))
    decreases |drafts|
  {
    var n := |drafts| - 1;
    if i < n {
      AssignedInOrder(drafts[..n], next, i);
      assert drafts[..n][..i] == drafts[..i];
      AssignedStays(drafts, next, drafts[i].id);
    } else {
      AssignedCount(drafts[..n], next);
      assert !IsClaimDraft(drafts[..n], drafts[n].id);
    }
  }

  lemma AssignedStays(drafts: seq<DraftEntry>, next: nat -> ClaimId, d: DraftId)
    requires drafts != [] && d in AssignIds(drafts[..|drafts| - 1], next)
    ensures d in AssignIds(drafts, next) && AssignIds(drafts, next)[d] == AssignIds(drafts[..|drafts| - 1], next)[d]
  {
  }

  lemma {:induction false} AssignedCount(drafts: seq<DraftEntry>, next: nat -> ClaimId)
    requires Ascending(drafts)
    ensures |AssignIds(drafts, next)| == ClaimsAmong(drafts)
    ensures forall d: DraftId :: d in AssignIds(drafts, next) ==> IsClaimDraft(drafts, d)
  {
    AssignedIds(drafts, next);
    if drafts != [] {
      var n := |drafts| - 1;
      AssignedCount(drafts[..n], next);
      assert !IsClaimDraft(drafts[..n], drafts[n].id);
    }
  }

  lemma SubmissionNeverFails(drafts: seq<DraftEntry>, author: Author, next: nat -> ClaimId)
    requires IntactDrafts(drafts)
    ensures SubmissionBundle(drafts, author, next).Ok?
    ensures SubmissionBundle(drafts, author, next).value.draftIds == Ids(drafts)
    ensures SubmissionBundle(drafts, author, next).value.entries
         == RenderedAll(author, FinalNames(AssignIds(drafts, next)), drafts)
    ensures SaysAll(SubmissionBundle(drafts, author, next).value.entries, drafts, author)
  {
    var finals := AssignIds(drafts, next);
    AssignedIds(drafts, next);
    RenderedSays(author, FinalNames(finals), drafts);
    AllRendered(drafts, author, ByMap(finals), FinalNames(finals), 0);
    assert drafts[0..] == drafts;
  }

  /** The bundle's id map names exactly the claims of the bundle, which take the generated ids in order. */
  lemma BundleNamesItsClaims(drafts: seq<DraftEntry>, author: Author, next: nat -> ClaimId)
    requires IntactDrafts(drafts)
    ensures
      var r := SubmissionBundle(drafts, author, next);
      && r.Ok? && |r.value.entries| == |drafts|
      && (forall d: DraftId :: d in r.value.claimIds <==> IsClaimDraft(drafts, d))
      && forall i :: 0 <= i < |drafts| && drafts[i].content.DraftClaim? ==>
        && drafts[i].id in r.value.claimIds && r.value.entries[i].Claim?
        && r.value.claimIds[drafts[i].id] == r.value.entries[i].claimId == next(ClaimsAmong(drafts[..i]))
  {
    SubmissionNeverFails(drafts, author, next);
    AssignedIds(drafts, next);
    var finals := AssignIds(drafts, next);
    var entries := RenderedAll(author, FinalNames(finals), drafts);
    forall i | 0 <= i < |drafts| && drafts[i].content.DraftClaim?
      ensures drafts[i].id in finals && finals[drafts[i].id] == entries[i].claimId == next(ClaimsAmong(drafts[..i]))
    {
      AssignedInOrder(drafts, next, i);
      assert entries[i] == Rendered(author, FinalNames(finals), drafts[i]);
    }
  }

  // ------------------------------------------------------------------ preview faithfulness

  /** The committed ids in sight: those the log mentions and those the drafts refer to. */
  ghost function KnownIds(committed: seq<Entry>, drafts: seq<DraftEntry>): set<ClaimId> {
    (set e, id | e in committed && id in Mentions(e) :: id)
    + (set d, r | d in drafts && r in d.content.References() && r.Committed? :: r.claimId)
  }

  ghost predicate Avoids(next: nat -> ClaimId, known: set<ClaimId>) {
    forall k: nat :: next(k) !in known
  }

  /** No provisional id of a claim draft occurs among the known ids. */
  ghost predicate NoClash(known: set<ClaimId>, drafts: seq<DraftEntry>) {
    forall d: DraftId :: IsClaimDraft(drafts, d) ==> PreviewId(d) !in known
  }

  /** Generated ids never repeat, and neither they nor the provisional ids occur among the known ids. */
  ghost predicate FreshNames(known: set<ClaimId>, drafts: seq<DraftEntry>, next: nat -> ClaimId) {
    NeverRepeats(next) && Avoids(next, known) && NoClash(known, drafts)
  }

  /** Rename provisional ids to final ones and leave every other id alone. */
  ghost function ToFinal(finals: map<DraftId, ClaimId>, c: ClaimId): ClaimId {
    if exists d :: d in finals && PreviewId(d) == c then
      var d :| d in finals && PreviewId(d) == c;
      finals[d]
    else c
  }

  ghost function ToFinals(finals: map<DraftId, ClaimId>): Rename {
    (c: ClaimId) => ToFinal(finals, c)
  }

  ghost function ProvisionalIds(drafts: seq<DraftEntry>): set<ClaimId> {
    set d | d in drafts && d.content.DraftClaim? :: PreviewId(d.id)
  }

  lemma ToFinalReads(finals: map<DraftId, ClaimId>, d: DraftId)
    ensures d in finals ==> ToFinal(finals, PreviewId(d)) == finals[d]
  {
    if d in finals {
      var c :| c in finals && PreviewId(c) == PreviewId(d) && ToFinal(finals, PreviewId(d)) == finals[c];
      PreviewIdInjective(c, d);
    }
  }

  /** The renaming leaves the known ids alone exactly when none of them is the provisional id of a claim draft. */
  lemma KnownIdsKept(known: set<ClaimId>, drafts: seq<DraftEntry>, next: nat -> ClaimId)
    requires Avoids(next, known)
    ensures (forall c :: c in known ==> ToFinal(AssignIds(drafts, next), c) == c) <==> NoClash(known, drafts)
  {
    var finals := AssignIds(drafts, next);
    AssignedIds(drafts, next);
    forall d: DraftId | d in finals ensures ToFinal(finals, PreviewId(d)) == finals[d] && finals[d] !in known {
      ToFinalReads(finals, d);
      assert FreshBelow(next, |finals|, finals[d]);
    }
    if NoClash(known, drafts) {
      forall c | c in known ensures ToFinal(finals, c) == c {
        assert forall d: DraftId :: d in finals ==> PreviewId(d) != c;
      }
    }
  }

  lemma RenamingIsOneToOne(known: set<ClaimId>, drafts: seq<DraftEntry>, next: nat -> ClaimId, finals: map<DraftId, ClaimId>)
    requires FreshNames(known, drafts, next) && finals == AssignIds(drafts, next)
    ensures InjectiveOn(ToFinals(finals), known + ProvisionalIds(drafts))
    ensures forall c :: c in known ==> ToFinal(finals, c) == c
  {
    AssignedIds(drafts, next);
    KnownIdsKept(known, drafts, next);
    forall p | p in ProvisionalIds(drafts)
      ensures exists d: DraftId :: d in finals && PreviewId(d) == p && ToFinal(finals, p) == finals[d] && finals[d] !in known
    {
      var e :| e in drafts && e.content.DraftClaim? && PreviewId(e.id) == p;
      var i :| 0 <= i < |drafts| && drafts[i] == e;
      assert IsClaimDraft(drafts, e.id);
      ToFinalReads(finals, e.id);
      assert FreshBelow(next, |finals|, finals[e.id]);
    }
    var rho := ToFinals(finals);
    forall a, b | a in known + ProvisionalIds(drafts) && b in known + ProvisionalIds(drafts) && rho(a) == rho(b)
      ensures a == b
    {
    }
  }

  /** The committed ids a draft refers to. */
  ghost predicate RefersToCommitted(d: DraftEntry, c: ClaimId) {
    Committed(c) in d.content.References()
  }

  /** A previewed draft is renamed into the submitted one exactly when the ids it takes from the log are left alone. */
  lemma EntryRenamed(drafts: seq<DraftEntry>, author: Author, finals: map<DraftId, ClaimId>, i: nat)
    requires IntactDrafts(drafts) && i < |drafts|
    requires forall d: DraftId :: IsClaimDraft(drafts, d) ==> d in finals
    ensures RenameEntry(ToFinals(finals), Rendered(author, PreviewId, drafts[i])) == Rendered(author, FinalNames(finals), drafts[i])
       <==> forall c :: RefersToCommitted(drafts[i], c) ==> ToFinal(finals, c) == c
  {
    var name, refs := FinalNames(finals), drafts[i].content.References();
    forall d: DraftId | drafts[i].content.RefersTo(d) || (drafts[i].id == d && drafts[i].content.DraftClaim?)
      ensures ToFinal(finals, PreviewId(d)) == name(d)
    {
      assert drafts[i].content.RefersTo(d) ==> ClaimBefore(drafts, i, d);
      assert IsClaimDraft(drafts, d);
      ToFinalReads(finals, d);
    }
    forall r | r in refs
      ensures ToFinal(finals, NameRef(PreviewId, r)) == NameRef(name, r) <==> r.Committed? ==> ToFinal(finals, r.claimId) == r.claimId
    {
      assert r.Local? ==> drafts[i].content.RefersTo(r.draftId);
    }
    assert (forall c :: RefersToCommitted(drafts[i], c) ==> ToFinal(finals, c) == c)
      <==> forall r :: r in refs && r.Committed? ==> ToFinal(finals, r.claimId) == r.claimId by {
      assert forall r: ClaimRef :: r.Committed? ==> r == Committed(r.claimId);
      assert forall r :: r in refs && r.Committed? ==> RefersToCommitted(drafts[i], r.claimId);
    }
    RenamedReferences(ToFinals(finals), author, PreviewId, name, drafts[i]);
  }

  /** Renaming a rendered draft renames its own id, if it is a claim, and its references. */
  lemma RenamedReferences(rho: Rename, author: Author, name: DraftId -> ClaimId, other: DraftId -> ClaimId, d: DraftEntry)
    requires d.content.DraftClaim? ==> rho(name(d.id)) == other(d.id)
    ensures RenameEntry(rho, Rendered(author, name, d)) == Rendered(author, other, d)
       <==> forall r :: r in d.content.References() ==> rho(NameRef(name, r)) == NameRef(other, r)
  {
    var refs := d.content.References();
    assert |refs| > 0 ==> refs[0] in refs;
    assert |refs| > 1 ==> refs[1] in refs;
    assert forall r :: r in refs ==> r == refs[0] || (|refs| > 1 && r == refs[1]);
  }

  /** An entry is left alone exactly when every id it mentions is. */
  lemma EntryUnchanged(rho: Rename, e: Entry)
    ensures RenameEntry(rho, e) == e <==> forall c :: c in Mentions(e) ==> rho(c) == c
  {
    match e
    case Claim(id, _, _, _, parent) => assert id in Mentions(e) && (parent.Some? ==> parent.value in Mentions(e));
    case Relation(source, target, _, _) => assert source in Mentions(e) && target in Mentions(e);
    case Stance(target, _, _) => assert target in Mentions(e);
    case Resolve(id, _, _) => assert id in Mentions(e);
    case Comment(about, _, _) => assert about.Some? ==> about.value in Mentions(e);
  }

  lemma PreviewMentions(committed: seq<Entry>, drafts: seq<DraftEntry>, author: Author)
    requires IntactDrafts(drafts)
    ensures MentionsOnly(committed + RenderedAll(author, PreviewId, drafts), KnownIds(committed, drafts) + ProvisionalIds(drafts))
  {
    var ids := KnownIds(committed, drafts) + ProvisionalIds(drafts);
    forall i | 0 <= i < |drafts| ensures Mentions(Rendered(author, PreviewId, drafts[i])) <= ids {
      DraftMentions(committed, drafts, author, i);
    }
    var pre := RenderedAll(author, PreviewId, drafts);
    forall e | e in committed + pre ensures Mentions(e) <= ids {
      if e in pre {
        var i :| 0 <= i < |pre| && pre[i] == e;
      }
    }
  }

  lemma DraftMentions(committed: seq<Entry>, drafts: seq<DraftEntry>, author: Author, i: nat)
    requires IntactDrafts(drafts) && i < |drafts|
    ensures Mentions(Rendered(author, PreviewId, drafts[i])) <= KnownIds(committed, drafts) + ProvisionalIds(drafts)
  {
    var refs := drafts[i].content.References();
    assert drafts[i] in drafts;
    forall r | r in refs ensures NameRef(PreviewId, r) in KnownIds(committed, drafts) + ProvisionalIds(drafts) {
      if r.Local? {
        assert drafts[i].content.RefersTo(r.draftId);
        assert ClaimBefore(drafts, i, r.draftId);
        var j :| 0 <= j < i && drafts[j].id == r.draftId && drafts[j].content.DraftClaim?;
        assert drafts[j] in drafts;
      }
    }
    assert |refs| > 0 ==> refs[0] in refs;
    assert |refs| > 1 ==> refs[1] in refs;
  }

  /**
   Submitting is previewing with the provisional ids renamed, exactly when no provisional id of a claim
   draft is mentioned in the log or referred to as committed by a draft.
   */
  lemma SubmissionIsRenamedPreview(committed: seq<Entry>, drafts: seq<DraftEntry>, author: Author, next: nat -> ClaimId)
    requires IntactDrafts(drafts) && Avoids(next, KnownIds(committed, drafts))
    ensures PreviewEntries(drafts, author).Ok? && SubmissionBundle(drafts, author, next).Ok?
    ensures MentionsOnly(committed + PreviewEntries(drafts, author).value,
                         KnownIds(committed, drafts) + ProvisionalIds(drafts))
    ensures committed + SubmissionBundle(drafts, author, next).value.entries
         == RenameAll(ToFinals(AssignIds(drafts, next)), committed + PreviewEntries(drafts, author).value)
       <==> NoClash(KnownIds(committed, drafts), drafts)
  {
    PreviewNeverFails(drafts, author);
    SubmissionNeverFails(drafts, author, next);
    PreviewMentions(committed, drafts, author);
    AssignedIds(drafts, next);
    KnownIdsKept(KnownIds(committed, drafts), drafts, next);
    RenamedIffKnownIdsKept(committed, drafts, author, AssignIds(drafts, next));
  }

  lemma RenamedIffKnownIdsKept(committed: seq<Entry>, drafts: seq<DraftEntry>, author: Author, finals: map<DraftId, ClaimId>)
    requires IntactDrafts(drafts) && forall d: DraftId :: IsClaimDraft(drafts, d) ==> d in finals
    ensures committed + RenderedAll(author, FinalNames(finals), drafts)
         == RenameAll(ToFinals(finals), committed + RenderedAll(author, PreviewId, drafts))
       <==> forall c :: c in KnownIds(committed, drafts) ==> ToFinal(finals, c) == c
  {
    var rho := ToFinals(finals);
    var pre, sub := RenderedAll(author, PreviewId, drafts), RenderedAll(author, FinalNames(finals), drafts);
    ConcatRenamed(rho, committed, pre, sub);
    forall i | 0 <= i < |committed|
      ensures RenameEntry(rho, committed[i]) == committed[i] <==> forall c :: c in Mentions(committed[i]) ==> ToFinal(finals, c) == c
    {
      EntryUnchanged(rho, committed[i]);
    }
    forall i | 0 <= i < |drafts|
      ensures RenameEntry(rho, pre[i]) == sub[i] <==> forall c :: RefersToCommitted(drafts[i], c) ==> ToFinal(finals, c) == c
    {
      EntryRenamed(drafts, author, finals, i);
    }
    KnownIdsAre(committed, drafts);
  }

  /** The known ids, one source at a time. */
  lemma KnownIdsAre(committed: seq<Entry>, drafts: seq<DraftEntry>)
    ensures forall c :: c in KnownIds(committed, drafts) <==>
      || (exists i :: 0 <= i < |committed| && c in Mentions(committed[i]))
      || exists i :: 0 <= i < |drafts| && RefersToCommitted(drafts[i], c)
  {
    forall c ensures c in KnownIds(committed, drafts) <==>
      || (exists i :: 0 <= i < |committed| && c in Mentions(committed[i]))
      || exists i :: 0 <= i < |drafts| && RefersToCommitted(drafts[i], c)
    {
      if i :| 0 <= i < |drafts| && RefersToCommitted(drafts[i], c) {
        assert drafts[i] in drafts && Committed(c) in drafts[i].content.References() && Committed(c).Committed?;
      }
      if d, r :| d in drafts && r in d.content.References() && r.Committed? && r.claimId == c {
        var i :| 0 <= i < |drafts| && drafts[i] == d;
        assert r == Committed(c) && RefersToCommitted(drafts[i], c);
      }
    }
  }

  lemma ConcatRenamed(rho: Rename, committed: seq<Entry>, pre: seq<Entry>, sub: seq<Entry>)
    requires |pre| == |sub|
    ensures committed + sub == RenameAll(rho, committed + pre) <==>
      && (forall i :: 0 <= i < |committed| ==> RenameEntry(rho, committed[i]) == committed[i])
      && forall i :: 0 <= i < |pre| ==> RenameEntry(rho, pre[i]) == sub[i]
  {
    var all, renamed := committed + sub, RenameAll(rho, committed + pre);
    assert forall i :: 0 <= i < |committed| ==> all[i] == committed[i] && renamed[i] == RenameEntry(rho, committed[i]);
    assert forall i :: 0 <= i < |pre| ==> all[|committed| + i] == sub[i] && renamed[|committed| + i] == RenameEntry(rho, pre[i]);
  }

  /**
   The state and the statuses a preview shows are those the log will have after submission,
   once provisional ids are read as the final ones.
   */
  lemma PreviewIsFaithful(committed: seq<Entry>, drafts: seq<DraftEntry>, author: Author, next: nat -> ClaimId)
    requires IntactDrafts(drafts) && FreshNames(KnownIds(committed, drafts), drafts, next)
    ensures PreviewEntries(drafts, author).Ok? && SubmissionBundle(drafts, author, next).Ok?
    ensures RenamedState(ToFinals(AssignIds(drafts, next)), KnownIds(committed, drafts) + ProvisionalIds(drafts),
                         Replay(committed + PreviewEntries(drafts, author).value),
                         Replay(committed + SubmissionBundle(drafts, author, next).value.entries))
    ensures forall id :: id in KnownIds(committed, drafts) ==>
      SameStatus(StatusMap(Replay(committed + PreviewEntries(drafts, author).value)), id,
                 StatusMap(Replay(committed + SubmissionBundle(drafts, author, next).value.entries)), id)
    ensures forall d: DraftId :: IsClaimDraft(drafts, d) ==>
      && d in AssignIds(drafts, next)
      && SameStatus(StatusMap(Replay(committed + PreviewEntries(drafts, author).value)), PreviewId(d),
                    StatusMap(Replay(committed + SubmissionBundle(drafts, author, next).value.entries)), AssignIds(drafts, next)[d])
  {
    var known, finals := KnownIds(committed, drafts), AssignIds(drafts, next);
    var rho, ids := ToFinals(finals), known + ProvisionalIds(drafts);
    SubmissionIsRenamedPreview(committed, drafts, author, next);
    AssignedIds(drafts, next);
    RenamingIsOneToOne(known, drafts, next, finals);
    RenamedLog(rho, ids, committed + PreviewEntries(drafts, author).value);
    forall id | id in known ensures id in ids && rho(id) == id {
    }
    forall d: DraftId | IsClaimDraft(drafts, d) ensures PreviewId(d) in ids && d in finals && rho(PreviewId(d)) == finals[d] {
      var j :| 0 <= j < |drafts| && drafts[j].id == d && drafts[j].content.DraftClaim?;
      assert drafts[j] in drafts;
      ToFinalReads(finals, d);
    }
  }
}
