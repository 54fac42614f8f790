/** Reassembling a streamed chat completion from its delta chunks. */
module Response {
  import opened Types

  datatype FinishReason = Stop | Length | ContentFilter | ToolCalls | FunctionCall | Unknown(text: string)

  function ParseFinishReason(reason: string): FinishReason {
    if reason == "stop" then Stop
    else if reason == "length" then Length
    else if reason == "content_filter" then ContentFilter
    else if reason == "tool_calls" then ToolCalls
    else if reason == "function_call" then FunctionCall
    else Unknown(reason)
  }

  datatype RawToolCall = RawToolCall(id: string, callType: string, name: string, arguments: string)

  datatype AssistantMessage = AssistantMessage(
    content: Option<string>, toolCalls: seq<RawToolCall>, finishReason: Option<FinishReason>)

  datatype AssemblerError =
    | NoChunks
    | MissingChoices(index: nat)
    | EmptyChoices(index: nat)
    | UnexpectedRole(role: string)

  /** One fragment of a tool call; a missing index means index 0. */
  datatype ToolDelta = ToolDelta(
    index: Option<nat>, id: Option<string>, callType: Option<string>, name: Option<string>, arguments: Option<string>)
  {
    function Index(): nat {
      if index.Some? then index.value else 0
    }
  }

  datatype Delta = Delta(role: Option<string>, content: Option<string>, toolCalls: seq<ToolDelta>)

  datatype Choice = Choice(delta: Option<Delta>, finishReason: Option<string>)

  datatype Chunk = Chunk(choices: Option<seq<Choice>>)

  // --------------------------------------------------------------- what a stream means

  /** The first string present and not empty, or the empty string. */
  function FirstNonEmpty(values: seq<Option<string>>): string {
    if values == [] then ""
    else
      var earlier := FirstNonEmpty(values[..|values| - 1]);
      var last := values[|values| - 1];
      if earlier != "" || last.None? then earlier else last.value
  }

  /** The strings present, joined. */
  function Joined(values: seq<Option<string>>): string {
    if values == [] then ""
    else
      var last := values[|values| - 1];
      Joined(values[..|values| - 1]) + if last.Some? then last.value else ""
  }

  predicate AnyPresent(values: seq<Option<string>>) {
    exists v :: v in values && v.Some?
  }

  function Last(values: seq<Option<string>>): Option<string> {
    if values == [] then None
    else if values[|values| - 1].Some? then values[|values| - 1]
    else Last(values[..|values| - 1])
  }

  /** The value kept once a further, possibly absent or empty, value has been seen. */
  function Keep(current: string, v: Option<string>): string {
    if v.Some? && v.value != "" && current == "" then v.value else current
  }

  /** The content so far with a further, possibly absent, fragment. */
  function WithContent(content: Option<string>, fragment: Option<string>): Option<string> {
    if fragment.None? then content
    else Some((if content.Some? then content.value else "") + fragment.value)
  }

  predicate Readable(c: Chunk) {
    c.choices.Some? && c.choices.value != []
  }

  /** A chunk without a delta contributes nothing, not even its finish reason. */
  predicate Contributes(c: Chunk) {
    Readable(c) && c.choices.value[0].delta.Some?
  }

  function Contributing(chunks: seq<Chunk>): seq<Choice> {
    if chunks == [] then []
    else
      var rest := Contributing(chunks[..|chunks| - 1]);
      var c := chunks[|chunks| - 1];
      if Contributes(c) then rest + [c.choices.value[0]] else rest
  }

  function Roles(cs: seq<Choice>): seq<Option<string>> {
    seq(|cs|, i requires 0 <= i < |cs| => if cs[i].delta.Some? then cs[i].delta.value.role else None)
  }

  function Contents(cs: seq<Choice>): seq<Option<string>> {
    seq(|cs|, i requires 0 <= i < |cs| => if cs[i].delta.Some? then cs[i].delta.value.content else None)
  }

  function FinishReasons(cs: seq<Choice>): seq<Option<string>> {
    seq(|cs|, i requires 0 <= i < |cs| => cs[i].finishReason)
  }

  function Present(values: seq<Option<string>>): Option<string> {
    if AnyPresent(values) then Some(Joined(values)) else None
  }

  function ContentOf(cs: seq<Choice>): Option<string> {
    Present(Contents(cs))
  }

  function FinishOf(cs: seq<Choice>): Option<FinishReason> {
    if Last(FinishReasons(cs)).Some? then Some(ParseFinishReason(Last(FinishReasons(cs)).value)) else None
  }

  /** All tool call fragments of a stream, in order of arrival. */
  function ToolDeltas(cs: seq<Choice>): seq<ToolDelta> {
    if cs == [] then []
    else
      var last := cs[|cs| - 1];
      ToolDeltas(cs[..|cs| - 1]) + if last.delta.Some? then last.delta.value.toolCalls else []
  }

  /** The fragments of one call, whatever they are interleaved with. */
  function Projection(ds: seq<ToolDelta>, index: nat): seq<ToolDelta> {
    if ds == [] then []
    else
      var rest := Projection(ds[..|ds| - 1], index);
      if ds[|ds| - 1].Index() == index then rest + [ds[|ds| - 1]] else rest
  }

  function CallIds(ds: seq<ToolDelta>): seq<Option<string>> {
    seq(|ds|, i requires 0 <= i < |ds| => ds[i].id)
  }

  function CallTypes(ds: seq<ToolDelta>): seq<Option<string>> {
    seq(|ds|, i requires 0 <= i < |ds| => ds[i].callType)
  }

  function CallNames(ds: seq<ToolDelta>): seq<Option<string>> {
    seq(|ds|, i requires 0 <= i < |ds| => ds[i].name)
  }

  function Arguments(ds: seq<ToolDelta>): seq<Option<string>> {
    seq(|ds|, i requires 0 <= i < |ds| => ds[i].arguments)
  }

  /** The call that a sequence of fragments adds up to. */
  function CallOf(ds: seq<ToolDelta>): RawToolCall {
    RawToolCall(
      FirstNonEmpty(CallIds(ds)),
      FirstNonEmpty(CallTypes(ds)),
      FirstNonEmpty(CallNames(ds)),
      Joined(Arguments(ds)))
  }

  /** A bound on the call indices in use. */
  function IndexBound(ds: seq<ToolDelta>): (n: nat)
    ensures forall d :: d in ds ==> d.Index() < n
  {
    if ds == [] then 0
    else
      var rest, last := IndexBound(ds[..|ds| - 1]), ds[|ds| - 1].Index();
      assert ds == ds[..|ds| - 1] + [ds[|ds| - 1]];
      if last < rest then rest else last + 1
  }

  /** The call at an index, if it has any fragments. */
  function CallAt(ds: seq<ToolDelta>, index: nat): Option<RawToolCall> {
    if Projection(ds, index) == [] then None else Some(CallOf(Projection(ds, index)))
  }

  /** The values present, in order. */
  function Compact<T>(slots: seq<Option<T>>): seq<T> {
    if slots == [] then []
    else
      var last := slots[|slots| - 1];
      Compact(slots[..|slots| - 1]) + if last.Some? then [last.value] else []
  }

  function CallSlots(ds: seq<ToolDelta>, n: nat): seq<Option<RawToolCall>> {
    seq(n, i requires 0 <= i < n => CallAt(ds, i))
  }

  /** All calls in index order, each assembled from its own fragments. */
  function Calls(ds: seq<ToolDelta>): seq<RawToolCall> {
    Compact(CallSlots(ds, IndexBound(ds)))
  }

  function FirstUnreadable(chunks: seq<Chunk>): (n: nat)
    ensures n <= |chunks|
    ensures forall i :: 0 <= i < n ==> Readable(chunks[i])
    ensures n < |chunks| ==> !Readable(chunks[n])
  {
    if chunks == [] || !Readable(chunks[0]) then 0 else 1 + FirstUnreadable(chunks[1..])
  }

  function Assembled(chunks: seq<Chunk>): Result<AssistantMessage, AssemblerError> {
    var bad := FirstUnreadable(chunks);
    var cs := Contributing(chunks);
    var role := FirstNonEmpty(Roles(cs));
    var ds := ToolDeltas(cs);
    if chunks == [] then Err(NoChunks)
    else if bad < |chunks| then
      Err(if chunks[bad].choices.None? then MissingChoices(bad) else EmptyChoices(bad))
    else if role != "" && role != "assistant" then Err(UnexpectedRole(role))
    else
      Ok(AssistantMessage(ContentOf(cs), Calls(ds), FinishOf(cs)))
  }

  // ----------------------------------------------------------------------- the assembler

  lemma ContributingSnoc(chunks: seq<Chunk>, c: Chunk)
    ensures Contributing(chunks + [c]) == Contributing(chunks) + if Contributes(c) then [c.choices.value[0]] else []
  {
    assert (chunks + [c])[..|chunks|] == chunks;
  }

  lemma StreamSnoc(cs: seq<Choice>, c: Choice)
    requires c.delta.Some?
    ensures Roles(cs + [c]) == Roles(cs) + [c.delta.value.role]
    ensures Contents(cs + [c]) == Contents(cs) + [c.delta.value.content]
    ensures FinishReasons(cs + [c]) == FinishReasons(cs) + [c.finishReason]
    ensures ToolDeltas(cs + [c]) == ToolDeltas(cs) + c.delta.value.toolCalls
  {
    assert (cs + [c])[..|cs|] == cs;
  }

  lemma ValuesSnoc(values: seq<Option<string>>, v: Option<string>)
    ensures FirstNonEmpty(values + [v]) == Keep(FirstNonEmpty(values), v)
    ensures Joined(values + [v]) == Joined(values) + if v.Some? then v.value else ""
    ensures AnyPresent(values + [v]) <==> AnyPresent(values) || v.Some?
    ensures Last(values + [v]) == if v.Some? then v else Last(values)
  {
    assert (values + [v])[..|values|] == values;
    assert v in values + [v];
    assert forall w :: w in values ==> w in values + [v];
  }

  lemma {:induction false} NothingJoined(values: seq<Option<string>>)
    requires !AnyPresent(values)
    ensures Joined(values) == ""
  {
    if values != [] {
      var n := |values| - 1;
      assert values == values[..n] + [values[n]];
      ValuesSnoc(values[..n], values[n]);
      NothingJoined(values[..n]);
    }
  }

  lemma PresentSnoc(values: seq<Option<string>>, v: Option<string>)
    ensures Present(values + [v]) == WithContent(Present(values), v)
  {
    ValuesSnoc(values, v);
    if !AnyPresent(values) {
      NothingJoined(values);
    }
    assert v.None? ==> Joined(values) + "" == Joined(values);
  }

  /** Feeding one more fragment to the accumulator of its call. */
  function Absorbed(call: RawToolCall, d: ToolDelta): RawToolCall {
    RawToolCall(
      Keep(call.id, d.id),
      Keep(call.callType, d.callType),
      Keep(call.name, d.name),
      call.arguments + if d.arguments.Some? then d.arguments.value else "")
  }

  lemma CallOfSnoc(ds: seq<ToolDelta>, d: ToolDelta)
    ensures CallOf(ds + [d]) == Absorbed(CallOf(ds), d)
  {
    var all := ds + [d];
    assert CallIds(all) == CallIds(ds) + [d.id];
    assert CallTypes(all) == CallTypes(ds) + [d.callType];
    assert CallNames(all) == CallNames(ds) + [d.name];
    assert Arguments(all) == Arguments(ds) + [d.arguments];
    ValuesSnoc(CallIds(ds), d.id);
    ValuesSnoc(CallTypes(ds), d.callType);
    ValuesSnoc(CallNames(ds), d.name);
    ValuesSnoc(Arguments(ds), d.arguments);
  }

  /** The accumulators hold, for every index seen, the call its fragments add up to so far. */
  ghost predicate Accumulates(accs: map<nat, RawToolCall>, ds: seq<ToolDelta>) {
    forall i :: (i in accs <==> i >= 0 && Projection(ds, i) != []) && (i in accs ==> accs[i] == CallOf(Projection(ds, i)))
  }

  lemma AccumulateOne(accs: map<nat, RawToolCall>, ds: seq<ToolDelta>, d: ToolDelta)
    requires Accumulates(accs, ds)
    ensures
      var acc := if d.Index() in accs then accs[d.Index()] else RawToolCall("", "", "", "");
      Accumulates(accs[d.Index() := Absorbed(acc, d)], ds + [d])
  {
    assert (ds + [d])[..|ds|] == ds;
    CallOfSnoc(Projection(ds, d.Index()), d);
  }

  /** What one more contributing chunk changes. */
  lemma StreamStep(cs: seq<Choice>, c: Choice)
    requires c.delta.Some?
    ensures FirstNonEmpty(Roles(cs + [c])) == Keep(FirstNonEmpty(Roles(cs)), c.delta.value.role)
    ensures ContentOf(cs + [c]) == WithContent(ContentOf(cs), c.delta.value.content)
    ensures FinishOf(cs + [c]) == if c.finishReason.None? then FinishOf(cs) else Some(ParseFinishReason(c.finishReason.value))
    ensures ToolDeltas(cs + [c]) == ToolDeltas(cs) + c.delta.value.toolCalls
  {
    StreamSnoc(cs, c);
    ValuesSnoc(Roles(cs), c.delta.value.role);
    PresentSnoc(Contents(cs), c.delta.value.content);
    ValuesSnoc(FinishReasons(cs), c.finishReason);
  }

  /** What the assembler knows after the chunks `seen`. */
  ghost predicate Digested(seen: seq<Chunk>, role: string, content: Option<string>, finish: Option<FinishReason>,
                           accs: map<nat, RawToolCall>)
  {
    var cs := Contributing(seen);
    && role == FirstNonEmpty(Roles(cs)) && content == ContentOf(cs) && finish == FinishOf(cs)
    && Accumulates(accs, ToolDeltas(cs))
  }

  lemma DigestSkip(seen: seq<Chunk>, c: Chunk, role: string, content: Option<string>, finish: Option<FinishReason>,
                   accs: map<nat, RawToolCall>)
    requires Digested(seen, role, content, finish, accs) && !Contributes(c)
    ensures Digested(seen + [c], role, content, finish, accs)
  {
    ContributingSnoc(seen, c);
    assert Contributing(seen + [c]) == Contributing(seen);
  }

  lemma DigestOne(seen: seq<Chunk>, c: Chunk, role: string, content: Option<string>, finish: Option<FinishReason>,
                  accs: map<nat, RawToolCall>, more: map<nat, RawToolCall>)
    requires Digested(seen, role, content, finish, accs) && Contributes(c)
    requires Accumulates(more, ToolDeltas(Contributing(seen)) + c.choices.value[0].delta.value.toolCalls)
    ensures
      var choice := c.choices.value[0];
      Digested(seen + [c], Keep(role, choice.delta.value.role), WithContent(content, choice.delta.value.content),
               if choice.finishReason.Some? then Some(ParseFinishReason(choice.finishReason.value)) else finish, more)
  {
    ContributingSnoc(seen, c);
    StreamStep(Contributing(seen), c.choices.value[0]);
  }

  lemma AssembledIsDigested(chunks: seq<Chunk>, role: string, content: Option<string>, finish: Option<FinishReason>,
                            accs: map<nat, RawToolCall>)
    requires chunks != [] && Digested(chunks, role, content, finish, accs)
    requires forall i :: 0 <= i < |chunks| ==> Readable(chunks[i])
    ensures Assembled(chunks) ==
      if role != "" && role != "assistant" then Err(UnexpectedRole(role))
      else Ok(AssistantMessage(content, Listed(accs, IndexBound(ToolDeltas(Contributing(chunks)))), finish))
  {
    var ds := ToolDeltas(Contributing(chunks));
    ListedCalls(accs, ds, IndexBound(ds));
  }

  lemma AssembledStopsAt(chunks: seq<Chunk>, k: nat)
    requires k < |chunks| && !Readable(chunks[k]) && forall i :: 0 <= i < k ==> Readable(chunks[i])
    ensures Assembled(chunks) == Err(if chunks[k].choices.None? then MissingChoices(k) else EmptyChoices(k))
  {
    assert FirstUnreadable(chunks) == k;
  }

  method Assemble(chunks: seq<Chunk>) returns (r: Result<AssistantMessage, AssemblerError>)
    ensures r == Assembled(chunks)
  {
    if chunks == [] {
      return Err(NoChunks);
    }
    var role := "";
    var content: Option<string> := None;
    var finishReason: Option<FinishReason> := None;
    var accs: map<nat, RawToolCall> := map[];

    for k := 0 to |chunks|
      invariant forall i :: 0 <= i < k ==> Readable(chunks[i])
      invariant Digested(chunks[..k], role, content, finishReason, accs)
    {
      ghost var seen := chunks[..k];
      assert chunks[..k + 1] == seen + [chunks[k]];
      if !Readable(chunks[k]) {
        AssembledStopsAt(chunks, k);
      }
      if chunks[k].choices.None? {
        return Err(MissingChoices(k));
      }
      if chunks[k].choices.value == [] {
        return Err(EmptyChoices(k));
      }
      var choice := chunks[k].choices.value[0];
      if choice.delta.None? {
        DigestSkip(seen, chunks[k], role, content, finishReason, accs);
        continue;
      }
      var delta := choice.delta.value;
      var more := AbsorbAll(accs, ToolDeltas(Contributing(seen)), delta.toolCalls);
      DigestOne(seen, chunks[k], role, content, finishReason, accs, more);
      role := Keep(role, delta.role);
      content := WithContent(content, delta.content);
      accs := more;
      if choice.finishReason.Some? {
        finishReason := Some(ParseFinishReason(choice.finishReason.value));
      }
    }
    assert chunks[..|chunks|] == chunks;
    AssembledIsDigested(chunks, role, content, finishReason, accs);
    if role != "" && role != "assistant" {
      return Err(UnexpectedRole(role));
    }
    AccumulatedBelowBound(accs, ToolDeltas(Contributing(chunks)));
    var calls := InKeyOrder(accs);
    return Ok(AssistantMessage(content, calls, finishReason));
  }

  /** The inner loop over the tool call fragments of one delta. */
  method AbsorbAll(before: map<nat, RawToolCall>, ghost ds: seq<ToolDelta>, fragments: seq<ToolDelta>)
      returns (accs: map<nat, RawToolCall>)
    requires Accumulates(before, ds)
    ensures Accumulates(accs, ds + fragments)
  {
    accs := before;
    ghost var seen := ds;
    for k := 0 to |fragments|
      invariant seen == ds + fragments[..k] && Accumulates(accs, seen)
    {
      var d := fragments[k];
      AccumulateOne(accs, seen, d);
      seen := seen + [d];
      var acc := if d.Index() in accs then accs[d.Index()] else RawToolCall("", "", "", "");
      accs := accs[d.Index() := Absorbed(acc, d)];
    }
    assert seen == ds + fragments;
  }

  /** What is left of the accumulators from index `k` on. */
  ghost predicate Unlisted(remaining: set<nat>, accs: map<nat, RawToolCall>, k: nat) {
    forall i :: i in remaining <==> i in accs && i >= k
  }

  /** The accumulators with an index below `n`, in index order. */
  ghost function Listed(accs: map<nat, RawToolCall>, n: nat): seq<RawToolCall> {
    if n == 0 then []
    else if n - 1 in accs then Listed(accs, n - 1) + [accs[n - 1]]
    else Listed(accs, n - 1)
  }

  /** The accumulated calls in ascending order of their index. */
  method InKeyOrder(accs: map<nat, RawToolCall>) returns (calls: seq<RawToolCall>)
    ensures forall n: nat :: (forall i :: i in accs ==> i < n) ==> calls == Listed(accs, n)
  {
    calls := [];
    var remaining := accs.Keys;
    ghost var k: nat := 0;
    while remaining != {}
      invariant Unlisted(remaining, accs, k)
      invariant calls == Listed(accs, k)
      decreases |remaining|
    {
      var next := Least(remaining);
      GapAddsNothing(accs, k, next);
      calls := calls + [accs[next]];
      remaining := remaining - {next};
      k := next + 1;
    }
    forall n: nat | forall i :: i in accs ==> i < n ensures calls == Listed(accs, n) {
      if k <= n {
        GapAddsNothing(accs, k, n);
      } else {
        GapAddsNothing(accs, n, k);
      }
    }
  }

  lemma {:induction false} GapAddsNothing(accs: map<nat, RawToolCall>, k: nat, next: nat)
    requires k <= next && forall i :: k <= i < next ==> i !in accs
    ensures Listed(accs, next) == Listed(accs, k)
    decreases next - k
  {
    if k < next {
      GapAddsNothing(accs, k, next - 1);
    }
  }

  method Least(s: set<nat>) returns (m: nat)
    requires s != {}
    ensures m in s && forall x :: x in s ==> m <= x
  {
    m :| m in s;
    var todo := s;
    while todo != {}
      invariant m in s && todo <= s
      invariant forall x :: x in s && x !in todo ==> m <= x
      decreases |todo|
    {
      var x :| x in todo;
      if x < m {
        m := x;
      }
      todo := todo - {x};
    }
  }

  lemma {:induction false} ListedCalls(accs: map<nat, RawToolCall>, ds: seq<ToolDelta>, n: nat)
    requires Accumulates(accs, ds)
    ensures Listed(accs, n) == Compact(CallSlots(ds, n))
  {
    if n > 0 {
      ListedCalls(accs, ds, n - 1);
      assert CallSlots(ds, n)[..n - 1] == CallSlots(ds, n - 1);
      assert n - 1 in accs <==> Projection(ds, n - 1) != [];
    }
  }

  lemma AccumulatedBelowBound(accs: map<nat, RawToolCall>, ds: seq<ToolDelta>)
    requires Accumulates(accs, ds)
    ensures forall i :: i in accs ==> i < IndexBound(ds)
  {
    forall i | i in accs ensures i < IndexBound(ds) {
      ProjectionMember(ds, i);
    }
  }

  /** The fragments of a call are those with its index; one without an index belongs to call 0. */
  lemma {:induction false} ProjectionMeaning(ds: seq<ToolDelta>, index: nat)
    ensures forall d :: d in Projection(ds, index) <==> d in ds && (d.index == Some(index) || (d.index == None && index == 0))
  {
    if ds != [] {
      var n := |ds| - 1;
      ProjectionMeaning(ds[..n], index);
      assert ds == ds[..n] + [ds[n]];
    }
  }

  lemma {:induction false} ProjectionMember(ds: seq<ToolDelta>, index: nat)
    requires Projection(ds, index) != []
    ensures exists d :: d in ds && d.Index() == index
  {
    var n := |ds| - 1;
    if ds[n].Index() == index {
      assert ds[n] in ds;
    } else {
      ProjectionMember(ds[..n], index);
      var d :| d in ds[..n] && d.Index() == index;
      assert d in ds;
    }
  }

  // ----------------------------------------------------------- fragmentation round trip

  predicate Blank(value: Option<string>) {
    value == None || value == Some("")
  }

  ghost predicate NamedAt(values: seq<Option<string>>, v: string, p: int) {
    0 <= p < |values| && values[p] == Some(v) && forall q :: 0 <= q < p ==> Blank(values[q])
  }

  /** `v` is named at some point, and nothing but absent or empty values comes before. */
  ghost predicate Names(values: seq<Option<string>>, v: string) {
    exists p :: NamedAt(values, v, p)
  }

  lemma {:induction false} FirstNonEmptyIsNamed(values: seq<Option<string>>, v: string)
    requires v != ""
    ensures FirstNonEmpty(values) == v <==> Names(values, v)
  {
    if values != [] {
      var n := |values| - 1;
      FirstNonEmptyIsNamed(values[..n], v);
      NamedInPrefix(values, v);
      BlankIfEmpty(values[..n]);
      if forall q :: 0 <= q < n ==> Blank(values[q]) {
        AllBlank(values[..n]);
      }
    }
  }

  lemma NamedInPrefix(values: seq<Option<string>>, v: string)
    requires values != [] && v != ""
    ensures
      var n := |values| - 1;
      Names(values, v) <==> Names(values[..n], v) || NamedAt(values, v, n)
  {
    var n := |values| - 1;
    if Names(values, v) {
      var p :| NamedAt(values, v, p);
      assert p < n ==> NamedAt(values[..n], v, p);
    }
    if Names(values[..n], v) {
      var p :| NamedAt(values[..n], v, p);
      assert forall q :: 0 <= q < p ==> values[q] == values[..n][q];
      assert NamedAt(values, v, p);
    }
  }

  lemma {:induction false} AllBlank(values: seq<Option<string>>)
    requires forall q :: 0 <= q < |values| ==> Blank(values[q])
    ensures FirstNonEmpty(values) == ""
  {
    if values != [] {
      AllBlank(values[..|values| - 1]);
    }
  }

  lemma {:induction false} BlankIfEmpty(values: seq<Option<string>>)
    ensures FirstNonEmpty(values) == "" ==> forall q :: 0 <= q < |values| ==> Blank(values[q])
  {
    if values != [] {
      BlankIfEmpty(values[..|values| - 1]);
    }
  }

  /** `ds` is some way of cutting `call` into fragments. */
  ghost predicate Cuts(ds: seq<ToolDelta>, call: RawToolCall) {
    && call.id != "" && call.callType != "" && call.name != ""
    && Names(CallIds(ds), call.id)
    && Names(CallTypes(ds), call.callType)
    && Names(CallNames(ds), call.name)
    && Joined(Arguments(ds)) == call.arguments
  }

  /** The indices carrying calls, ascending; fragments of the calls are interleaved in `ds` in any way. */
  ghost predicate Interleaves(ds: seq<ToolDelta>, calls: seq<RawToolCall>, indices: seq<nat>) {
    && |indices| == |calls|
    && (forall i, j :: 0 <= i < j < |indices| ==> indices[i] < indices[j])
    && (forall d :: d in ds ==> d.Index() in indices)
    && forall j :: 0 <= j < |calls| ==> Cuts(Projection(ds, indices[j]), calls[j])
  }

  lemma CutsToCall(ds: seq<ToolDelta>, call: RawToolCall)
    requires Cuts(ds, call)
    ensures CallOf(ds) == call && ds != []
  {
    FirstNonEmptyIsNamed(CallIds(ds), call.id);
    FirstNonEmptyIsNamed(CallTypes(ds), call.callType);
    FirstNonEmptyIsNamed(CallNames(ds), call.name);
  }

  /** The values stand at the given positions, and nothing else is present. */
  ghost predicate StandAt<T>(slots: seq<Option<T>>, values: seq<T>, at: seq<nat>) {
    && |at| == |values|
    && (forall i, j :: 0 <= i < j < |at| ==> at[i] < at[j])
    && (forall j :: 0 <= j < |at| ==> at[j] < |slots| && slots[at[j]] == Some(values[j]))
    && (forall i :: 0 <= i < |slots| && i !in at ==> slots[i] == None)
  }

  lemma {:induction false} CompactRecovers<T>(slots: seq<Option<T>>, values: seq<T>, at: seq<nat>)
    requires StandAt(slots, values, at)
    ensures Compact(slots) == values
    decreases slots
  {
    assert at == [] || at[0] < |slots|;
    if slots != [] {
      var n := |slots| - 1;
      if n in at {
        LastPresent(slots, values, at);
        CompactRecovers(slots[..n], values[..|values| - 1], at[..|at| - 1]);
      } else {
        LastAbsent(slots, values, at);
        CompactRecovers(slots[..n], values, at);
      }
    }
  }

  lemma LastPresent<T>(slots: seq<Option<T>>, values: seq<T>, at: seq<nat>)
    requires StandAt(slots, values, at) && slots != [] && |slots| - 1 in at
    ensures values != [] && slots[|slots| - 1] == Some(values[|values| - 1])
    ensures StandAt(slots[..|slots| - 1], values[..|values| - 1], at[..|at| - 1])
    ensures values == values[..|values| - 1] + [values[|values| - 1]]
  {
    var n, m := |slots| - 1, |at| - 1;
    var k :| 0 <= k < |at| && at[k] == n;
    assert at[k] <= at[m] <= n;
    assert at[m] == n;
    forall i | 0 <= i < n && i !in at[..m] ensures slots[i] == None {
      assert at == at[..m] + [at[m]];
      assert i !in at;
    }
  }

  lemma LastAbsent<T>(slots: seq<Option<T>>, values: seq<T>, at: seq<nat>)
    requires StandAt(slots, values, at) && slots != [] && |slots| - 1 !in at
    ensures slots[|slots| - 1] == None
    ensures StandAt(slots[..|slots| - 1], values, at)
  {
    forall j | 0 <= j < |at| ensures at[j] < |slots| - 1 {
      assert at[j] in at;
    }
  }

  lemma InterleavedCalls(ds: seq<ToolDelta>, calls: seq<RawToolCall>, indices: seq<nat>)
    requires Interleaves(ds, calls, indices)
    ensures StandAt(CallSlots(ds, IndexBound(ds)), calls, indices)
  {
    forall j | 0 <= j < |calls| ensures CallAt(ds, indices[j]) == Some(calls[j]) && indices[j] < IndexBound(ds) {
      CutsToCall(Projection(ds, indices[j]), calls[j]);
      ProjectionMember(ds, indices[j]);
    }
    forall i: nat | i !in indices ensures CallAt(ds, i) == None {
      if Projection(ds, i) != [] {
        ProjectionMember(ds, i);
      }
    }
  }

  predicate CarriesContent(c: Chunk) {
    Contributes(c) && c.choices.value[0].delta.value.content.Some?
  }

  lemma {:induction false} ContentPresent(chunks: seq<Chunk>)
    ensures AnyPresent(Contents(Contributing(chunks))) <==> exists c :: c in chunks && CarriesContent(c)
  {
    if chunks != [] {
      var n := |chunks| - 1;
      var prev, c := chunks[..n], chunks[n];
      assert chunks == prev + [c];
      ContentPresent(prev);
      ContributingSnoc(prev, c);
      if Contributes(c) {
        StreamSnoc(Contributing(prev), c.choices.value[0]);
        ValuesSnoc(Contents(Contributing(prev)), c.choices.value[0].delta.value.content);
      }
      assert CarriesContent(c) ==> c in chunks;
      assert forall x :: x in chunks <==> x in prev || x == c;
    }
  }

  /** The assembled message has content, possibly empty, exactly when some fragment carried any. */
  lemma ContentIffCarried(chunks: seq<Chunk>)
    requires Assembled(chunks).Ok?
    ensures Assembled(chunks).value.content.Some? <==> exists c :: c in chunks && CarriesContent(c)
  {
    ContentPresent(chunks);
  }

  // ------------------------------------------------------------------ how streams compose

  lemma {:induction false} JoinedComposes(a: seq<Option<string>>, b: seq<Option<string>>)
    ensures Joined(a + b) == Joined(a) + Joined(b)
    decreases b
  {
    if b == [] {
      assert a + b == a;
    } else {
      assert (a + b)[..|a + b| - 1] == a + b[..|b| - 1];
      JoinedComposes(a, b[..|b| - 1]);
    }
  }

  lemma {:induction false} ToolDeltasCompose(a: seq<Choice>, b: seq<Choice>)
    ensures ToolDeltas(a + b) == ToolDeltas(a) + ToolDeltas(b)
    decreases b
  {
    if b == [] {
      assert a + b == a;
    } else {
      assert (a + b)[..|a + b| - 1] == a + b[..|b| - 1];
      ToolDeltasCompose(a, b[..|b| - 1]);
    }
  }

  lemma {:induction false} ContributingComposes(a: seq<Chunk>, b: seq<Chunk>)
    ensures Contributing(a + b) == Contributing(a) + Contributing(b)
    decreases b
  {
    if b == [] {
      assert a + b == a;
    } else {
      assert (a + b)[..|a + b| - 1] == a + b[..|b| - 1];
      ContributingComposes(a, b[..|b| - 1]);
    }
  }

  /** The text content of a chunk: that of its first choice's delta. */
  function TextIn(c: Chunk): string {
    if CarriesContent(c) then c.choices.value[0].delta.value.content.value else ""
  }

  function TextOf(m: AssistantMessage): string {
    if m.content.Some? then m.content.value else ""
  }

  /** The text of a longer stream is the text of its parts, one after the other. */
  lemma TextComposes(a: seq<Chunk>, b: seq<Chunk>)
    requires Assembled(a).Ok? && Assembled(b).Ok? && Assembled(a + b).Ok?
    ensures TextOf(Assembled(a + b).value) == TextOf(Assembled(a).value) + TextOf(Assembled(b).value)
  {
    AssembledText(a);
    AssembledText(b);
    AssembledText(a + b);
    ContributingComposes(a, b);
    ContentsCompose(Contributing(a), Contributing(b));
    JoinedComposes(Contents(Contributing(a)), Contents(Contributing(b)));
  }

  lemma ContentsCompose(x: seq<Choice>, y: seq<Choice>)
    ensures Contents(x + y) == Contents(x) + Contents(y)
  {
  }

  lemma AssembledText(chunks: seq<Chunk>)
    requires Assembled(chunks).Ok?
    ensures TextOf(Assembled(chunks).value) == Joined(Contents(Contributing(chunks)))
  {
    TextIsJoined(Contributing(chunks));
  }

  /** One chunk gives its own text. */
  lemma TextOfOneChunk(c: Chunk)
    requires Assembled([c]).Ok?
    ensures TextOf(Assembled([c]).value) == TextIn(c)
  {
    AssembledText([c]);
    assert [c][..0] == [];
    if Contributes(c) {
      var choice := c.choices.value[0];
      assert Contributing([c]) == [choice];
      assert Contents([choice]) == [choice.delta.value.content];
      assert [choice.delta.value.content][..0] == [];
    }
  }

  lemma TextIsJoined(cs: seq<Choice>)
    ensures Joined(Contents(cs)) == if ContentOf(cs).Some? then ContentOf(cs).value else ""
  {
    if !AnyPresent(Contents(cs)) {
      NothingJoined(Contents(cs));
    }
  }

  // ------------------------------------------------------------------------------ failures

  /** Which errors assembly gives, and that it gives no others. */
  lemma AssemblyErrors(chunks: seq<Chunk>)
    ensures Assembled(chunks) == Err(NoChunks) <==> chunks == []
    ensures forall k: nat :: Assembled(chunks) == Err(MissingChoices(k)) <==>
      k < |chunks| && chunks[k].choices == None && forall i :: 0 <= i < k ==> Readable(chunks[i])
    ensures forall k: nat :: Assembled(chunks) == Err(EmptyChoices(k)) <==>
      k < |chunks| && chunks[k].choices == Some([]) && forall i :: 0 <= i < k ==> Readable(chunks[i])
    ensures forall role: string :: Assembled(chunks) == Err(UnexpectedRole(role)) <==>
      && chunks != [] && (forall c :: c in chunks ==> Readable(c))
      && role != "" && role != "assistant" && Names(Roles(Contributing(chunks)), role)
  {
    var bad, roles := FirstUnreadable(chunks), Roles(Contributing(chunks));
    forall k: nat | k < |chunks| && !Readable(chunks[k]) && forall i :: 0 <= i < k ==> Readable(chunks[i])
      ensures bad == k
    {
    }
    assert (forall c :: c in chunks ==> Readable(c)) <==> bad == |chunks| by {
      if bad < |chunks| {
        assert chunks[bad] in chunks;
      }
    }
    forall role: string | role != "" ensures FirstNonEmpty(roles) == role <==> Names(roles, role) {
      FirstNonEmptyIsNamed(roles, role);
    }
  }

  /** The text a finish reason stands for. */
  function ReasonText(reason: FinishReason): string {
    match reason
    case Stop => "stop"
    case Length => "length"
    case ContentFilter => "content_filter"
    case ToolCalls => "tool_calls"
    case FunctionCall => "function_call"
    case Unknown(text) => text
  }

  /** Parsing a finish reason loses nothing, and calls unknown only what has no constructor of its own. */
  lemma FinishReasonReadsBack(text: string)
    ensures ReasonText(ParseFinishReason(text)) == text
    ensures ParseFinishReason(text).Unknown? <==> text !in {"stop", "length", "content_filter", "tool_calls", "function_call"}
  {
  }

  // ------------------------------------------------------------------------- finish reasons

  /** The finish reason a chunk carries, if any, whether or not it has a delta. */
  function ReasonIn(c: Chunk): Option<string> {
    if Readable(c) then c.choices.value[0].finishReason else None
  }

  ghost predicate LastCarrier(chunks: seq<Chunk>, k: int) {
    0 <= k < |chunks| && ReasonIn(chunks[k]).Some? && forall j :: k < j < |chunks| ==> ReasonIn(chunks[j]).None?
  }

  /** Chunk `k` is the last one with a delta to carry a finish reason. */
  ghost predicate LastHeeded(chunks: seq<Chunk>, k: int) {
    && 0 <= k < |chunks| && Contributes(chunks[k]) && ReasonIn(chunks[k]).Some?
    && forall j :: k < j < |chunks| && Contributes(chunks[j]) ==> ReasonIn(chunks[j]).None?
  }

  /** The assembled finish reason is that of the last chunk with a delta to carry one. */
  lemma {:induction false} FinishIsHeeded(chunks: seq<Chunk>)
    ensures forall k :: LastHeeded(chunks, k) ==> FinishOf(Contributing(chunks)) == Some(ParseFinishReason(ReasonIn(chunks[k]).value))
    ensures FinishOf(Contributing(chunks)).Some? <==> exists k :: LastHeeded(chunks, k)
  {
    if chunks != [] {
      var n := |chunks| - 1;
      var prev, c := chunks[..n], chunks[n];
      assert chunks == prev + [c];
      FinishIsHeeded(prev);
      ContributingSnoc(prev, c);
      if Contributes(c) {
        StreamSnoc(Contributing(prev), c.choices.value[0]);
        ValuesSnoc(FinishReasons(Contributing(prev)), c.choices.value[0].finishReason);
      }
      if Contributes(c) && ReasonIn(c).Some? {
        assert LastHeeded(chunks, n);
      } else {
        forall k ensures LastHeeded(chunks, k) <==> LastHeeded(prev, k) {
        }
      }
    }
  }

  /**
   It is that of the last chunk in the stream to carry one exactly when that chunk has a delta, or repeats
   the reason of the last one that has.
   */
  lemma FinishIsLastIff(chunks: seq<Chunk>, k: int)
    requires LastCarrier(chunks, k)
    ensures FinishOf(Contributing(chunks)) == Some(ParseFinishReason(ReasonIn(chunks[k]).value)) <==>
      || Contributes(chunks[k])
      || exists j :: LastHeeded(chunks, j) && ParseFinishReason(ReasonIn(chunks[j]).value) == ParseFinishReason(ReasonIn(chunks[k]).value)
  {
    FinishIsHeeded(chunks);
    assert Contributes(chunks[k]) ==> LastHeeded(chunks, k);
  }

  /** A stream whose last chunk reports a finish reason that the assembled message lacks. */
  lemma FinishWithoutDeltaIsLost(reason: string)
    ensures Assembled([Chunk(Some([Choice(None, Some(reason))]))]) == Ok(AssistantMessage(None, [], None))
  {
    var c := Chunk(Some([Choice(None, Some(reason))]));
    var chunks := [c];
    assert chunks[..0] == [] && !Contributes(c);
    assert Contributing(chunks) == [];
    assert FirstUnreadable(chunks) == 1;
  }

  /** A stream carries a message: some cutting of its content and calls, interleaved in any way. */
  ghost predicate Carries(chunks: seq<Chunk>, m: AssistantMessage, indices: seq<nat>) {
    var cs := Contributing(chunks);
    && chunks != [] && (forall c :: c in chunks ==> Readable(c))
    && (FirstNonEmpty(Roles(cs)) == "" || FirstNonEmpty(Roles(cs)) == "assistant")
    && (m.content.Some? <==> exists c :: c in chunks && CarriesContent(c))
    && (m.content.Some? ==> Joined(Contents(cs)) == m.content.value)
    && Interleaves(ToolDeltas(cs), m.toolCalls, indices)
    && m.finishReason == FinishOf(cs)
  }

  /** However a message was cut and interleaved, assembling gives the message back. */
  lemma FragmentationRoundTrip(chunks: seq<Chunk>, m: AssistantMessage, indices: seq<nat>)
    requires Carries(chunks, m, indices)
    ensures Assembled(chunks) == Ok(m)
  {
    var cs := Contributing(chunks);
    var ds := ToolDeltas(cs);
    ContentPresent(chunks);
    InterleavedCalls(ds, m.toolCalls, indices);
    CompactRecovers(CallSlots(ds, IndexBound(ds)), m.toolCalls, indices);
  }
}
