/** The chat history and its truncation at safe points. */
module Conversation {
  import opened Types
  import opened Response

  datatype Message =
    | User(content: string)
    | Assistant(reply: Option<string>, toolCalls: seq<RawToolCall>)
    | Tool(callId: string, result: string)

  datatype ToolResult = ToolResult(callId: string, content: string)

  datatype Event = UserPrompt(content: string) | Completion(chunks: seq<Chunk>)

  datatype Intent = NoRequest | RequestCompletion | ExecuteToolCalls(calls: seq<RawToolCall>)

  datatype Transition = Transition(history: seq<Message>, error: Option<AssemblerError>, intent: Intent)

  function ReduceEvent(history: seq<Message>, event: Event): Transition {
    match event
    case UserPrompt(content) => Transition(history + [User(content)], None, RequestCompletion)
    case Completion(chunks) =>
      match Assembled(chunks)
      case Err(error) => Transition(history, Some(error), NoRequest)
      case Ok(m) =>
        Transition(history + [Assistant(m.content, m.toolCalls)], None,
                   if m.toolCalls == [] then NoRequest else ExecuteToolCalls(m.toolCalls))
  }

  function WithToolResults(history: seq<Message>, results: seq<ToolResult>): seq<Message> {
    history + ToolMessages(results)
  }

  function ToolMessages(results: seq<ToolResult>): (ms: seq<Message>)
    ensures |ms| == |results|
    ensures forall i :: 0 <= i < |results| ==> ms[i] == Tool(results[i].callId, results[i].content)
  {
    seq(|results|, i requires 0 <= i < |results| => Tool(results[i].callId, results[i].content))
  }

  // ------------------------------------------------------------------ the chat protocol

  /** `ms` starts with the answers to `calls`: one tool message per call, ids in order. */
  ghost predicate Answers(ms: seq<Message>, calls: seq<RawToolCall>) {
    |calls| <= |ms| && forall j :: 0 <= j < |calls| ==> ms[j].Tool? && ms[j].callId == calls[j].id
  }

  /** Tool messages stand only where they answer, one by one, the calls of the assistant message before them. */
  ghost predicate WellFormed(h: seq<Message>)
    decreases |h|
  {
    h == []
    || (h[0].User? && WellFormed(h[1..]))
    || (h[0].Assistant? && Answers(h[1..], h[0].toolCalls) && WellFormed(h[1 + |h[0].toolCalls|..]))
  }

  /** The number of messages in the group that opens a history: a message and the answers to its calls. */
  ghost function GroupSize(m: Message): nat {
    if m.Assistant? then 1 + |m.toolCalls| else 1
  }

  lemma {:induction false} WellFormedAppend(a: seq<Message>, b: seq<Message>)
    requires WellFormed(a) && WellFormed(b)
    ensures WellFormed(a + b)
    decreases |a|
  {
    if a == [] {
      assert a + b == b;
    } else {
      var n := GroupSize(a[0]);
      WellFormedAppend(a[n..], b);
      assert (a + b)[n..] == a[n..] + b;
      assert forall j :: 0 <= j < n - 1 ==> (a + b)[1..][j] == a[1..][j];
    }
  }

  /** An assistant message followed by one result per call is a well-formed group. */
  lemma AnsweredGroup(h: seq<Message>, reply: Option<string>, calls: seq<RawToolCall>, results: seq<ToolResult>)
    requires WellFormed(h)
    requires |results| == |calls| && forall j :: 0 <= j < |calls| ==> results[j].callId == calls[j].id
    ensures WellFormed(WithToolResults(h + [Assistant(reply, calls)], results))
  {
    var m, answers := Assistant(reply, calls), ToolMessages(results);
    GroupIsWellFormed(m, answers);
    WellFormedAppend(h, [m] + answers);
    Regrouped(h, m, answers);
  }

  lemma Regrouped(h: seq<Message>, m: Message, answers: seq<Message>)
    ensures h + [m] + answers == h + ([m] + answers)
  {
  }

  lemma GroupIsWellFormed(m: Message, answers: seq<Message>)
    requires m.Assistant? && |answers| == |m.toolCalls| && Answers(answers, m.toolCalls)
    ensures WellFormed([m] + answers)
  {
    var group := [m] + answers;
    assert group[1..] == answers;
    assert group[1 + |m.toolCalls|..] == [];
  }

  predicate IsSafe(m: Message) {
    m.User? || (m.Assistant? && m.toolCalls == [])
  }

  /** Cutting a well-formed history before any message that is not an answer leaves a well-formed history. */
  lemma {:induction false} SuffixWellFormed(h: seq<Message>, c: nat)
    requires WellFormed(h) && c < |h| && !h[c].Tool?
    ensures WellFormed(h[c..])
    decreases |h|
  {
    if c > 0 {
      var n := GroupSize(h[0]);
      assert h[1..][c - 1] == h[c];
      if c >= n {
        SuffixWellFormed(h[n..], c - n);
        assert h[n..][c - n..] == h[c..];
      }
    } else {
      assert h[0..] == h;
    }
  }

  // ------------------------------------------------------------------------- truncation

  /** The first safe position from `from` on, or the length. */
  function FirstSafe(h: seq<Message>, from: nat): (cut: nat)
    requires from <= |h|
    ensures from <= cut <= |h|
    ensures forall i :: from <= i < cut ==> !IsSafe(h[i])
    ensures cut < |h| ==> IsSafe(h[cut])
    decreases |h| - from
  {
    if from == |h| || IsSafe(h[from]) then from else FirstSafe(h, from + 1)
  }

  function Truncated(h: seq<Message>, max: nat): seq<Message> {
    if |h| <= max then h
    else
      var cut := FirstSafe(h, |h| - max);
      if 0 < cut < |h| then h[cut..] else h
  }

  method TruncateHistory(h: seq<Message>, max: nat) returns (r: seq<Message>)
    ensures r == Truncated(h, max)
  {
    if |h| <= max {
      return h;
    }
    var cut := |h| - max;
    while cut < |h|
      invariant |h| - max <= cut <= |h|
      invariant FirstSafe(h, cut) == FirstSafe(h, |h| - max)
    {
      var plain := h[cut].User? || (h[cut].Assistant? && h[cut].toolCalls == []);
      if plain {
        break;
      }
      cut := cut + 1;
    }
    if cut > 0 && cut < |h| {
      r := h[cut..];
    } else {
      r := h;
    }
  }

  ghost predicate SafeFrom(h: seq<Message>, from: int) {
    exists i :: from <= i < |h| && 0 <= i && IsSafe(h[i])
  }

  /** `c` is the earliest safe point that leaves at most `max` messages. */
  ghost predicate EarliestCut(h: seq<Message>, max: nat, c: int) {
    && 0 < c < |h| && |h| - max <= c && IsSafe(h[c])
    && forall i :: |h| - max <= i < c && i >= 0 ==> !IsSafe(h[i])
  }

  /**
   Truncation keeps a suffix: everything, or what follows from the earliest safe point that fits.
   It stays within `max` exactly when the history already does or has a safe point among its last `max` messages.
   */
  lemma TruncationKeepsSafeSuffix(h: seq<Message>, max: nat)
    ensures Truncated(h, max) == h || exists c :: EarliestCut(h, max, c) && Truncated(h, max) == h[c..]
    ensures |Truncated(h, max)| <= max <==> |h| <= max || SafeFrom(h, |h| - max)
    ensures WellFormed(h) ==> WellFormed(Truncated(h, max))
  {
    if |h| > max {
      var cut := FirstSafe(h, |h| - max);
      if cut < |h| {
        assert EarliestCut(h, max, cut);
        if WellFormed(h) {
          SuffixWellFormed(h, cut);
        }
      }
    }
  }

  lemma TruncatedIsSuffix(h: seq<Message>, max: nat) returns (c: nat)
    requires h != []
    ensures c < |h| && Truncated(h, max) == h[c..]
  {
    c := if |h| <= max then 0 else FirstSafe(h, |h| - max);
    if c == |h| {
      c := 0;
    }
  }

  /** A limit of zero is never kept to, unless there is nothing to keep. */
  lemma ZeroLimitKeepsAll(h: seq<Message>)
    ensures Truncated(h, 0) == h
  {
    assert FirstSafe(h, |h|) == |h|;
  }
}
