/**
 * The answer side of langchain/agent.py: `extract_json` pulls a JSON value
 * out of the agent's final text, `run_attempt` streams one agent run and
 * keeps the last AI message that is an answer, and `run` retries a bounded
 * number of times, adding a corrective user message from the second attempt
 * on, until some attempt yields a truthy value.
 *
 * `json.loads` is a parameter (a partial function from text to a JSON
 * value), and so is the agent: a function from the attempt number and the
 * messages sent to the stream of updates it produces, or to the exception
 * it raises, which `run` does not catch.
 */
module Agent {
  import opened Wrappers
  import opened PyStr

  /**
   * A value `json.loads` can return. `JNull` is Python's `None`, which
   * parsing the text `null` yields; `JNonFinite` is a `NaN` or an infinity,
   * which the parser also accepts.
   */
  datatype Json =
    | JNull
    | JBool(b: bool)
    | JInt(i: int)
    | JFloat(x: real)
    | JNonFinite
    | JString(s: string)
    | JArray(items: seq<Json>)
    | JObject(members: seq<(string, Json)>)

  /** Python truthiness: `None`, `False`, zero, and empty strings, lists and objects are false. */
  predicate Truthy(j: Json) {
    match j
    case JNull => false
    case JBool(b) => b
    case JInt(i) => i != 0
    case JFloat(x) => x != 0.0
    case JNonFinite => true
    case JString(s) => s != ""
    case JArray(items) => items != []
    case JObject(members) => members != []
  }

  /** The text from the first `{` to the last `}` inclusive, when that `}` comes after that `{`. */
  function BraceSpan(text: string): (span: Option<string>)
    ensures span.Some? ==> |span.value| >= 2 && span.value[0] == '{' && span.value[|span.value| - 1] == '}'
  {
    var start := Find(text, '{');
    var end := RFind(text, '}');
    if start != -1 && end != -1 && end > start then Some(text[start..end + 1]) else None
  }

  /** `extract_json`: the parse of the whole text if it parses, else the parse of its brace span, else nothing. */
  function ExtractJson(text: string, parse: string -> Option<Json>): (r: Option<Json>)
    ensures parse(text).Some? ==> r == parse(text)
    ensures r.Some? && parse(text).None? ==> BraceSpan(text).Some? && r == parse(BraceSpan(text).value)
  {
    if parse(text).Some? then parse(text)
    else
      match BraceSpan(text)
      case None => None
      case Some(span) => parse(span)
  }

  /** `i` is the position of the first `c` in `text`. */
  predicate FirstAt(text: string, c: char, i: int) {
    0 <= i < |text| && text[i] == c && c !in text[..i]
  }

  /** `j` is the position of the last `c` in `text`. */
  predicate LastAt(text: string, c: char, j: int) {
    0 <= j < |text| && text[j] == c && c !in text[j + 1..]
  }

  lemma FindIsFirst(text: string, c: char, i: int)
    requires FirstAt(text, c, i)
    ensures Find(text, c) == i
  {
  }

  lemma RFindIsLast(text: string, c: char, j: int)
    requires LastAt(text, c, j)
    ensures RFind(text, c) == j
  {
  }

  /** Any `{` before any `}` gives a brace span. */
  lemma BracePairSpan(text: string, i: int, j: int)
    requires 0 <= i < j < |text| && text[i] == '{' && text[j] == '}'
    ensures BraceSpan(text).Some?
  {
    assert text[i] in text && text[j] in text;
  }

  /** The brace span exists exactly when some `{` comes before some `}`. */
  lemma BraceSpanExists(text: string)
    ensures BraceSpan(text).None? <==>
      forall i, j | 0 <= i < j < |text| :: !(text[i] == '{' && text[j] == '}')
  {
    forall i, j | 0 <= i < j < |text| && text[i] == '{' && text[j] == '}'
      ensures BraceSpan(text).Some?
    {
      BracePairSpan(text, i, j);
    }
  }

  /**
   * `extract_json` returns the whole text's parse whenever there is one;
   * otherwise it parses exactly the span from the first `{` to the last `}`
   * when some `{` precedes some `}`, and returns nothing when none does.
   */
  lemma ExtractJsonCases(text: string, parse: string -> Option<Json>)
    ensures parse(text).Some? ==> ExtractJson(text, parse) == parse(text)
    ensures parse(text).None? && (forall i, j | 0 <= i < j < |text| :: !(text[i] == '{' && text[j] == '}')) ==>
      ExtractJson(text, parse) == None
    ensures forall i, j | i < j && FirstAt(text, '{', i) && LastAt(text, '}', j) ::
      parse(text).None? ==> ExtractJson(text, parse) == parse(text[i..j + 1])
  {
    BraceSpanExists(text);
    forall i, j | i < j && FirstAt(text, '{', i) && LastAt(text, '}', j)
      ensures BraceSpan(text) == Some(text[i..j + 1])
    {
      FindIsFirst(text, '{', i);
      RFindIsLast(text, '}', j);
    }
  }

  /** An entry of an AI message's `tool_calls`: the tool's name and its arguments. */
  datatype ToolCall = ToolCall(name: string, args: seq<(string, string)>)

  /** A message in a streamed update. */
  datatype StreamMessage =
    | AIMessage(content: string, toolCalls: seq<ToolCall>)
    | ToolMessage(content: string)
    | OtherMessage

  /** One node's entry in a streamed chunk: the messages it produced (none when it reported no `messages`). */
  datatype NodeUpdate = NodeUpdate(node: string, messages: seq<StreamMessage>)

  /** One chunk of `agent.stream(..., stream_mode="updates")`: the node updates in order. */
  type Chunk = seq<NodeUpdate>

  /** A message that sets `last_ai_content`: an AI message with content and no tool calls. */
  predicate IsAnswer(m: StreamMessage) {
    m.AIMessage? && m.toolCalls == [] && m.content != ""
  }

  /** The messages of a chunk's node updates, in order. */
  function UpdateMessages(updates: Chunk): seq<StreamMessage> {
    if updates == [] then []
    else UpdateMessages(updates[..|updates| - 1]) + updates[|updates| - 1].messages
  }

  /** The messages of a whole stream, in order. */
  function StreamMessages(stream: seq<Chunk>): seq<StreamMessage> {
    if stream == [] then []
    else StreamMessages(stream[..|stream| - 1]) + UpdateMessages(stream[|stream| - 1])
  }

  /** The content of the last answer among `msgs`, `""` if there is none. */
  function LastAnswer(msgs: seq<StreamMessage>): (answer: string)
    ensures answer != "" ==> exists k | 0 <= k < |msgs| :: IsAnswer(msgs[k]) && msgs[k].content == answer
  {
    if msgs == [] then ""
    else if IsAnswer(msgs[|msgs| - 1]) then msgs[|msgs| - 1].content
    else LastAnswer(msgs[..|msgs| - 1])
  }

  lemma LastAnswerSnoc(msgs: seq<StreamMessage>, m: StreamMessage)
    ensures LastAnswer(msgs + [m]) == if IsAnswer(m) then m.content else LastAnswer(msgs)
  {
    assert (msgs + [m])[..|msgs|] == msgs;
  }

  /**
   * The last answer is the content of an answer that no later answer
   * follows, and `""` exactly when no message is an answer.
   */
  lemma {:induction false} LastAnswerSpec(msgs: seq<StreamMessage>)
    ensures (forall k | 0 <= k < |msgs| :: !IsAnswer(msgs[k])) ==> LastAnswer(msgs) == ""
    ensures forall k | 0 <= k < |msgs| && IsAnswer(msgs[k]) && (forall l | k < l < |msgs| :: !IsAnswer(msgs[l])) ::
      LastAnswer(msgs) == msgs[k].content
    ensures LastAnswer(msgs) == "" <==> forall k | 0 <= k < |msgs| :: !IsAnswer(msgs[k])
  {
    if msgs != [] {
      var init := msgs[..|msgs| - 1];
      LastAnswerSpec(init);
      assert forall k | 0 <= k < |init| :: init[k] == msgs[k];
    }
  }

  /** Messages that are not answers (tool calls, tool results, others) leave the last answer as it was. */
  lemma {:induction false} LastAnswerIgnores(msgs: seq<StreamMessage>, more: seq<StreamMessage>)
    requires forall k | 0 <= k < |more| :: !IsAnswer(more[k])
    ensures LastAnswer(msgs + more) == LastAnswer(msgs)
  {
    if more != [] {
      var init := more[..|more| - 1];
      assert forall k | 0 <= k < |init| :: init[k] == more[k];
      assert msgs + more == (msgs + init) + [more[|more| - 1]];
      assert !IsAnswer(more[|more| - 1]);
      LastAnswerSnoc(msgs + init, more[|more| - 1]);
      LastAnswerIgnores(msgs, init);
    } else {
      assert msgs + more == msgs;
    }
  }

  lemma LastAnswerStep(seen: seq<StreamMessage>, msgs: seq<StreamMessage>, m: nat)
    requires m < |msgs|
    ensures LastAnswer(seen + msgs[..m + 1]) == if IsAnswer(msgs[m]) then msgs[m].content else LastAnswer(seen + msgs[..m])
  {
    assert seen + msgs[..m + 1] == (seen + msgs[..m]) + [msgs[m]];
    LastAnswerSnoc(seen + msgs[..m], msgs[m]);
  }

  lemma UpdateMessagesStep(before: seq<StreamMessage>, chunk: Chunk, u: nat)
    requires u < |chunk|
    ensures var msgs := chunk[u].messages;
      (before + UpdateMessages(chunk[..u])) + msgs[..|msgs|] == before + UpdateMessages(chunk[..u + 1])
  {
    assert chunk[..u + 1][..u] == chunk[..u];
    assert chunk[u].messages[..|chunk[u].messages|] == chunk[u].messages;
  }

  lemma StreamMessagesStep(stream: seq<Chunk>, c: nat)
    requires c < |stream|
    ensures StreamMessages(stream[..c]) + UpdateMessages(stream[c][..|stream[c]|]) == StreamMessages(stream[..c + 1])
  {
    assert stream[..c + 1][..c] == stream[..c];
    assert stream[c][..|stream[c]|] == stream[c];
  }

  /**
   * `run_attempt`: walks the streamed chunks, their node updates and their
   * messages in order, keeping the content of the last answer, and extracts
   * JSON from it at the end.
   */
  method RunAttempt(stream: seq<Chunk>, parse: string -> Option<Json>) returns (parsed: Option<Json>)
    ensures parsed == ExtractJson(LastAnswer(StreamMessages(stream)), parse)
  {
    var lastAiContent := "";
    for c := 0 to |stream|
      invariant lastAiContent == LastAnswer(StreamMessages(stream[..c]))
    {
      var chunk := stream[c];
      ghost var before := StreamMessages(stream[..c]);
      assert before + UpdateMessages(chunk[..0]) == before by {
        assert chunk[..0] == [];
      }
      for u := 0 to |chunk|
        invariant lastAiContent == LastAnswer(before + UpdateMessages(chunk[..u]))
      {
        var msgs := chunk[u].messages;
        ghost var seen := before + UpdateMessages(chunk[..u]);
        assert seen + msgs[..0] == seen by {
          assert msgs[..0] == [];
        }
        for m := 0 to |msgs|
          invariant lastAiContent == LastAnswer(seen + msgs[..m])
        {
          var msg := msgs[m];
          LastAnswerStep(seen, msgs, m);
          if msg.AIMessage? && msg.toolCalls != [] {
            // each tool call is reported on standard error
          } else if msg.ToolMessage? {
            // reported on standard error in verbose mode
          } else if msg.AIMessage? && msg.content != "" {
            lastAiContent := msg.content;
          }
        }
        UpdateMessagesStep(before, chunk, u);
      }
      StreamMessagesStep(stream, c);
    }
    assert stream[..|stream|] == stream;
    parsed := ExtractJson(lastAiContent, parse);
  }

  /** The user message `run` adds from the second attempt on. */
  const Corrective: string :=
    "Your previous answer was not valid JSON. Please try again and respond with ONLY a JSON object."

  /** A chat message sent to the agent. */
  datatype ChatMessage = ChatMessage(role: string, content: string)

  /** The messages attempt `attempt` sends: the task, and the corrective message after the first attempt. */
  function AttemptMessages(task: string, attempt: nat): (messages: seq<ChatMessage>)
    ensures |messages| == if attempt > 1 then 2 else 1
    ensures messages[0] == ChatMessage("user", task)
    ensures forall k | 1 <= k < |messages| :: messages[k] == ChatMessage("user", Corrective)
  {
    [ChatMessage("user", task)] + if attempt > 1 then [ChatMessage("user", Corrective)] else []
  }

  /**
   * What `agent.stream` does for one attempt: it either yields its chunks, or
   * raises part-way. Chunks streamed before a raise only produce log lines,
   * so a raise is the same whatever came before it.
   */
  datatype AgentStream = Streamed(chunks: seq<Chunk>) | Raised

  /** How one attempt ends: `run_attempt` returns a parse, or the agent's exception propagates out of it. */
  datatype AttemptOutcome = Parsed(value: Option<Json>) | Crashed

  /** What attempt `attempt` yields from the agent's stream. */
  function AttemptResult(task: string, agent: (nat, seq<ChatMessage>) -> AgentStream, parse: string -> Option<Json>, attempt: nat): AttemptOutcome {
    match agent(attempt, AttemptMessages(task, attempt))
    case Raised => Crashed
    case Streamed(chunks) => Parsed(ExtractJson(LastAnswer(StreamMessages(chunks)), parse))
  }

  /** What each attempt yields, as a function of the attempt number. */
  function Results(task: string, agent: (nat, seq<ChatMessage>) -> AgentStream, parse: string -> Option<Json>): nat -> AttemptOutcome {
    (attempt: nat) => AttemptResult(task, agent, parse, attempt)
  }

  /**
   * `results` gives every attempt what it yields. The trigger keeps the
   * comparison to the attempts whose result is already under discussion.
   */
  ghost predicate Realizes(task: string, agent: (nat, seq<ChatMessage>) -> AgentStream, parse: string -> Option<Json>, results: nat -> AttemptOutcome) {
    forall a {:trigger AttemptResult(task, agent, parse, a)} :: results(a) == AttemptResult(task, agent, parse, a)
  }

  lemma ResultsRealize(task: string, agent: (nat, seq<ChatMessage>) -> AgentStream, parse: string -> Option<Json>)
    ensures Realizes(task, agent, parse, Results(task, agent, parse))
  {
  }

  /** Attempt `a` ends the run: it yields a truthy value. */
  predicate Succeeds(results: nat -> AttemptOutcome, a: nat) {
    results(a).Parsed? && results(a).value.Some? && Truthy(results(a).value.value)
  }

  /** Attempt `a` completes without a value that ends the run, so `run` goes on. */
  predicate Retries(results: nat -> AttemptOutcome, a: nat) {
    results(a).Parsed? && !Succeeds(results, a)
  }

  /**
   * How a run ends: what it returns, how many attempts it made, and whether
   * the agent's exception ended it (then it returns nothing).
   */
  datatype Outcome = Outcome(result: Option<Json>, attempts: nat, raised: bool)

  /**
   * The attempts numbered `a` to `maxAttempts`, stopping at the first that
   * succeeds or raises.
   */
  function RunFrom(maxAttempts: int, results: nat -> AttemptOutcome, a: nat): (o: Outcome)
    ensures o.attempts <= if a > maxAttempts then 0 else maxAttempts - a + 1
    ensures o.result.Some? ==> Truthy(o.result.value) && !o.raised
    ensures o.raised ==> o.attempts >= 1 && o.result.None?
    decreases maxAttempts - a + 1
  {
    if a > maxAttempts then Outcome(None, 0, false)
    else if results(a).Crashed? then Outcome(None, 1, true)
    else if Succeeds(results, a) then Outcome(results(a).value, 1, false)
    else
      var rest := RunFrom(maxAttempts, results, a + 1);
      Outcome(rest.result, rest.attempts + 1, rest.raised)
  }

  /** Result functions that agree on attempts `a` to `maxAttempts` give the same run. */
  lemma {:induction false} RunFromAgree(maxAttempts: int, r1: nat -> AttemptOutcome, r2: nat -> AttemptOutcome, a: nat)
    requires forall j | a <= j <= maxAttempts :: r1(j) == r2(j)
    ensures RunFrom(maxAttempts, r1, a) == RunFrom(maxAttempts, r2, a)
    decreases maxAttempts - a + 1
  {
    if a <= maxAttempts {
      RunFromAgree(maxAttempts, r1, r2, a + 1);
    }
  }

  lemma RealizedRun(maxAttempts: int, task: string, agent: (nat, seq<ChatMessage>) -> AgentStream, parse: string -> Option<Json>, results: nat -> AttemptOutcome)
    requires Realizes(task, agent, parse, results)
    ensures RunFrom(maxAttempts, results, 1) == RunFrom(maxAttempts, Results(task, agent, parse), 1)
  {
    forall j | 1 <= j <= maxAttempts
      ensures results(j) == Results(task, agent, parse)(j)
    {
      assert results(j) == AttemptResult(task, agent, parse, j);
    }
    RunFromAgree(maxAttempts, results, Results(task, agent, parse), 1);
  }

  /**
   * One attempt of `run`: the user message with the task, the corrective
   * message after the first attempt, and `run_attempt` on the stream the
   * agent produces for them, unless the agent raises.
   */
  method Attempt(task: string, agent: (nat, seq<ChatMessage>) -> AgentStream, parse: string -> Option<Json>, attempt: nat, ghost results: nat -> AttemptOutcome)
    returns (messages: seq<ChatMessage>, outcome: AttemptOutcome)
    requires Realizes(task, agent, parse, results)
    ensures messages == AttemptMessages(task, attempt) && outcome == results(attempt)
  {
    messages := [ChatMessage("user", task)];
    if attempt > 1 {
      messages := messages + [ChatMessage("user", Corrective)];
    }
    assert messages == AttemptMessages(task, attempt);
    var stream := agent(attempt, messages);
    if stream.Raised? {
      outcome := Crashed;
    } else {
      var parsed := RunAttempt(stream.chunks, parse);
      outcome := Parsed(parsed);
    }
    assert outcome == AttemptResult(task, agent, parse, attempt);
  }

  /** A run's outcome as seen from `d` attempts earlier. */
  function Shifted(o: Outcome, d: nat): Outcome {
    Outcome(o.result, o.attempts + d, o.raised)
  }

  /** Attempt `a` ends the run when it raises or succeeds, and otherwise hands over to attempt `a + 1`. */
  lemma RunFromStep(maxAttempts: int, results: nat -> AttemptOutcome, a: nat)
    requires a <= maxAttempts
    ensures results(a).Crashed? ==> RunFrom(maxAttempts, results, a) == Outcome(None, 1, true)
    ensures Succeeds(results, a) ==> RunFrom(maxAttempts, results, a) == Outcome(results(a).value, 1, false)
    ensures Retries(results, a) ==> RunFrom(maxAttempts, results, a) == Shifted(RunFrom(maxAttempts, results, a + 1), 1)
  {
  }

  /**
   * `run`: attempts 1 to `maxAttempts`, each sending a freshly built message
   * list, returning the first truthy result; an exception from the agent
   * ends the run at once (`raised`), with no further attempt.
   */
  method Run(maxAttempts: int, task: string, agent: (nat, seq<ChatMessage>) -> AgentStream, parse: string -> Option<Json>)
    returns (result: Option<Json>, raised: bool, sent: seq<seq<ChatMessage>>)
    ensures var o := RunFrom(maxAttempts, Results(task, agent, parse), 1);
      result == o.result && raised == o.raised && |sent| == o.attempts
    ensures forall k | 0 <= k < |sent| :: sent[k] == AttemptMessages(task, k + 1)
  {
    ResultsRealize(task, agent, parse);
    ghost var results: nat -> AttemptOutcome :| Realizes(task, agent, parse, results);
    RealizedRun(maxAttempts, task, agent, parse, results);
    result, raised, sent := RunLoop(maxAttempts, task, agent, parse, results);
  }

  /** The loop of `run`, against what each attempt yields. */
  method RunLoop(maxAttempts: int, task: string, agent: (nat, seq<ChatMessage>) -> AgentStream, parse: string -> Option<Json>, ghost results: nat -> AttemptOutcome)
    returns (result: Option<Json>, raised: bool, sent: seq<seq<ChatMessage>>)
    requires Realizes(task, agent, parse, results)
    ensures var o := RunFrom(maxAttempts, results, 1);
      result == o.result && raised == o.raised && |sent| == o.attempts
    ensures forall k | 0 <= k < |sent| :: sent[k] == AttemptMessages(task, k + 1)
  {
    ghost var target := RunFrom(maxAttempts, results, 1);
    sent := [];
    var attempt := 1;
    while attempt <= maxAttempts
      invariant 1 <= attempt && |sent| == attempt - 1
      invariant forall k | 0 <= k < |sent| :: sent[k] == AttemptMessages(task, k + 1)
      invariant target == Shifted(RunFrom(maxAttempts, results, attempt), attempt - 1)
      decreases maxAttempts - attempt
    {
      var messages, outcome := Attempt(task, agent, parse, attempt, results);
      sent := sent + [messages];
      RunFromStep(maxAttempts, results, attempt);
      if outcome.Crashed? {
        return None, true, sent;
      }
      if outcome.value.Some? && Truthy(outcome.value.value) {
        return outcome.value, false, sent;
      }
      attempt := attempt + 1;
    }
    return None, false, sent;
  }

  /**
   * A run that returns a value returns a truthy one, from its last attempt,
   * after attempts that all completed and failed; falsy results such as `{}`
   * or `0` are retried.
   */
  lemma {:induction false} RunFromSucceeded(maxAttempts: int, results: nat -> AttemptOutcome, a: nat)
    requires RunFrom(maxAttempts, results, a).result.Some?
    ensures var o := RunFrom(maxAttempts, results, a);
      var last := a + o.attempts - 1;
      && o.attempts >= 1 && last <= maxAttempts && !o.raised
      && Truthy(o.result.value) && results(last) == Parsed(o.result)
      && forall j | a <= j < last :: Retries(results, j)
    decreases maxAttempts - a + 1
  {
    if !Succeeds(results, a) {
      RunFromSucceeded(maxAttempts, results, a + 1);
    }
  }

  /**
   * A run that ends in the agent's exception ends at the attempt that
   * raised: every attempt before it completed without success, and no
   * attempt follows it.
   */
  lemma {:induction false} RunFromRaised(maxAttempts: int, results: nat -> AttemptOutcome, a: nat)
    requires RunFrom(maxAttempts, results, a).raised
    ensures var o := RunFrom(maxAttempts, results, a);
      var last := a + o.attempts - 1;
      && o.attempts >= 1 && last <= maxAttempts && o.result.None?
      && results(last).Crashed?
      && forall j | a <= j < last :: Retries(results, j)
    decreases maxAttempts - a + 1
  {
    if a <= maxAttempts && !results(a).Crashed? && !Succeeds(results, a) {
      RunFromRaised(maxAttempts, results, a + 1);
    }
  }

  /**
   * A run that returns nothing without raising made every attempt up to
   * `maxAttempts`, and each completed without success.
   */
  lemma {:induction false} RunFromFailed(maxAttempts: int, results: nat -> AttemptOutcome, a: nat)
    requires RunFrom(maxAttempts, results, a).result.None? && !RunFrom(maxAttempts, results, a).raised
    ensures var o := RunFrom(maxAttempts, results, a);
      && o.attempts == (if a > maxAttempts then 0 else maxAttempts - a + 1)
      && forall j | a <= j <= maxAttempts :: Retries(results, j)
    decreases maxAttempts - a + 1
  {
    if a <= maxAttempts {
      RunFromFailed(maxAttempts, results, a + 1);
    }
  }

  /**
   * When attempt `k` is the first not to retry, the run ends there after
   * exactly `k` attempts: with its value if it succeeded, raising if it
   * crashed.
   */
  lemma RunFirstStop(maxAttempts: int, results: nat -> AttemptOutcome, k: nat)
    requires 1 <= k <= maxAttempts && !Retries(results, k)
    requires forall j | 1 <= j < k :: Retries(results, j)
    ensures var o := RunFrom(maxAttempts, results, 1);
      o.attempts == k && o.raised == results(k).Crashed?
      && (results(k).Parsed? ==> o.result == results(k).value)
  {
    var o := RunFrom(maxAttempts, results, 1);
    if o.raised {
      RunFromRaised(maxAttempts, results, 1);
      assert !Retries(results, o.attempts);
    } else if o.result.None? {
      RunFromFailed(maxAttempts, results, 1);
    } else {
      RunFromSucceeded(maxAttempts, results, 1);
      assert !Retries(results, o.attempts);
    }
  }
}
