/** The bounded tool loop (gateway/app/inference_backend.py, `complete_with_tools`). */
module ToolLoop {
  import opened Wrappers
  import Text

  /** A parsed argument object; only the empty one matters here. */
  datatype Json = EmptyObject | OtherJson(text: string)

  /** Arguments arrive as JSON text, or already structured (empty ones count as absent). */
  datatype Arguments = RawText(raw: string) | Structured(value: Json)

  datatype Call = Call(id: Option<string>, name: Option<string>, arguments: Option<Arguments>) {
    function Id(): string { if id.Some? then id.value else "" }
    function Name(): string { if name.Some? then name.value else "" }
    function Raw(): Arguments { if arguments.Some? then arguments.value else RawText("{}") }
  }

  datatype Message =
    | Given(text: string)
    | Assistant(calls: seq<Call>, content: Option<string>)
    | ToolResult(id: string, name: string, result: string)

  datatype Reply = RequestFails | NoMessage | Reply(calls: seq<Call>, content: Option<string>)

  datatype Execution = Done(text: string) | Raised(description: string) {
    function Text(): string { if Done? then text else "tool error: " + description }
  }

  datatype Step = Step(tool: string, args: Json, result: string)

  datatype Outcome =
    | Answer(text: string, log: seq<Step>)
    | RequestError
    | MissingMessage
    | EmptyContent
    | StepsExceeded

  /**
   Everything outside the loop. The first argument counts the requests, or the executions, made
   before this one, so that any behaviour over a run is covered.
   */
  datatype World = World(
    provider: (nat, seq<Message>) -> Reply,
    parse: string -> Option<Json>,
    execute: (nat, string, Json) -> Execution)

  /** `str.strip` leaves nothing. */
  predicate Blank(s: string) {
    forall c | c in s :: Text.IsWhitespace(c) || 0x1C <= c as int <= 0x1F
  }

  function ArgsOf(w: World, call: Call): Json {
    match call.Raw()
    case RawText(raw) =>
      (match w.parse(raw)
       case Some(value) => value
       case None => EmptyObject)
    case Structured(value) => value
  }

  function StepOf(w: World, n: nat, call: Call): Step {
    Step(call.Name(), ArgsOf(w, call), w.execute(n, call.Name(), ArgsOf(w, call)).Text())
  }

  /** The log entries of one assistant turn whose first execution is the n-th. */
  function StepsOf(w: World, n: nat, calls: seq<Call>): (steps: seq<Step>)
    ensures |steps| == |calls|
  {
    seq(|calls|, j requires 0 <= j < |calls| => StepOf(w, n + j, calls[j]))
  }

  function ResultsOf(calls: seq<Call>, steps: seq<Step>): (messages: seq<Message>)
    requires |steps| == |calls|
    ensures |messages| == |calls|
  {
    seq(|calls|, j requires 0 <= j < |calls| => ToolResult(calls[j].Id(), calls[j].Name(), steps[j].result))
  }

  /** An assistant turn that calls tools, with its results. */
  function Turn(w: World, n: nat, calls: seq<Call>, content: Option<string>): seq<Message> {
    [Assistant(calls, content)] + ResultsOf(calls, StepsOf(w, n, calls))
  }

  predicate CallsTools(reply: Reply) { reply.Reply? && reply.calls != [] }

  datatype State = State(convo: seq<Message>, log: seq<Step>)

  /** The conversation and log after k turns that all called tools. */
  function StateAfter(w: World, messages: seq<Message>, k: nat): State {
    if k == 0 then State(messages, [])
    else
      var before := StateAfter(w, messages, k - 1);
      var reply := w.provider(k - 1, before.convo);
      if CallsTools(reply) then
        State(before.convo + Turn(w, |before.log|, reply.calls, reply.content),
              before.log + StepsOf(w, |before.log|, reply.calls))
      else before
  }

  /** What the loop makes of its last reply. */
  predicate Concludes(w: World, maxSteps: int, requests: seq<seq<Message>>, log: seq<Step>, outcome: Outcome) {
    if requests == [] then maxSteps <= 0 && outcome == StepsExceeded
    else
      match w.provider(|requests| - 1, requests[|requests| - 1])
      case RequestFails => outcome == RequestError
      case NoMessage => outcome == MissingMessage
      case Reply(calls, content) =>
        if calls != [] then |requests| == maxSteps && outcome == StepsExceeded
        else if content.None? || Blank(content.value) then outcome == EmptyContent
        else outcome == Answer(content.value, log)
  }

  /** The requests are the successive conversations, each but the last answered with tool calls. */
  ghost predicate Sent(w: World, messages: seq<Message>, requests: seq<seq<Message>>) {
    && (forall i | 0 <= i < |requests| :: requests[i] == StateAfter(w, messages, i).convo)
    && (forall i | 0 <= i < |requests| - 1 :: CallsTools(w.provider(i, requests[i])))
  }

  /** `requests` are the conversations sent, in order, and `outcome` is how the loop ended. */
  ghost predicate IsRun(w: World, messages: seq<Message>, maxSteps: int,
                        requests: seq<seq<Message>>, outcome: Outcome) {
    && (|requests| == 0 || |requests| <= maxSteps)
    && Sent(w, messages, requests)
    && Concludes(w, maxSteps, requests,
                 StateAfter(w, messages, if requests == [] then 0 else |requests| - 1).log, outcome)
  }

  /** The inner loop: run every call of a turn and append its result. */
  method ExecuteCalls(w: World, calls: seq<Call>, content: Option<string>, convo: seq<Message>, log: seq<Step>)
    returns (convo': seq<Message>, log': seq<Step>)
    ensures convo' == convo + Turn(w, |log|, calls, content)
    ensures log' == log + StepsOf(w, |log|, calls)
  {
    hide ArgsOf;
    ghost var steps := StepsOf(w, |log|, calls);
    ghost var results := ResultsOf(calls, steps);
    convo', log' := convo + [Assistant(calls, content)], log;
    for j := 0 to |calls|
      invariant log' == log + steps[..j]
      invariant convo' == convo + [Assistant(calls, content)] + results[..j]
    {
      var call := calls[j];
      var args := ArgsOf(w, call);
      var result := w.execute(|log'|, call.Name(), args).Text();
      log' := log' + [Step(call.Name(), args, result)];
      convo' := convo' + [ToolResult(call.Id(), call.Name(), result)];
      assert steps[..j + 1] == steps[..j] + [steps[j]];
      assert results[..j + 1] == results[..j] + [results[j]];
    }
    assert results[..|calls|] == results && steps[..|calls|] == steps;
  }

  ghost predicate Looping(w: World, messages: seq<Message>, step: nat, requests: seq<seq<Message>>,
                          convo: seq<Message>, log: seq<Step>) {
    && |requests| == step && Sent(w, messages, requests)
    && (step > 0 ==> CallsTools(w.provider(step - 1, requests[step - 1])))
    && State(convo, log) == StateAfter(w, messages, step)
  }

  lemma RequestSent(w: World, messages: seq<Message>, step: nat, requests: seq<seq<Message>>,
                    convo: seq<Message>, log: seq<Step>)
    requires Looping(w, messages, step, requests, convo, log)
    ensures |requests| == step && Sent(w, messages, requests + [convo])
    ensures State(convo, log) == StateAfter(w, messages, step)
  {
  }

  lemma TurnTaken(w: World, messages: seq<Message>, step: nat, sent: seq<seq<Message>>,
                  convo: seq<Message>, log: seq<Step>, convo': seq<Message>, log': seq<Step>)
    requires |sent| == step + 1 && Sent(w, messages, sent) && sent[step] == convo
    requires State(convo, log) == StateAfter(w, messages, step)
    requires CallsTools(w.provider(step, convo))
    requires var reply := w.provider(step, convo);
             && convo' == convo + Turn(w, |log|, reply.calls, reply.content)
             && log' == log + StepsOf(w, |log|, reply.calls)
    ensures Looping(w, messages, step + 1, sent, convo', log')
  {
    hide Turn, StepsOf;
  }

  lemma OutOfSteps(w: World, messages: seq<Message>, step: nat, requests: seq<seq<Message>>,
                   convo: seq<Message>, log: seq<Step>, maxSteps: int)
    requires Looping(w, messages, step, requests, convo, log)
    requires step >= maxSteps && (step == 0 || step <= maxSteps)
    ensures IsRun(w, messages, maxSteps, requests, StepsExceeded)
  {
    hide StateAfter;
  }

  lemma StartLooping(w: World, messages: seq<Message>)
    ensures Looping(w, messages, 0, [], messages, [])
  {
  }

  method CompleteWithTools(w: World, messages: seq<Message>, maxSteps: int)
    returns (outcome: Outcome, requests: seq<seq<Message>>)
    ensures IsRun(w, messages, maxSteps, requests, outcome)
  {
    hide ArgsOf, StepOf, StepsOf, ResultsOf, Turn, Blank, Looping, Sent, StateAfter;
    var convo, log := messages, [];
    var step: nat := 0;
    requests := [];
    StartLooping(w, messages);
    while step < maxSteps
      invariant step == 0 || step <= maxSteps
      invariant Looping(w, messages, step, requests, convo, log)
    {
      RequestSent(w, messages, step, requests, convo, log);
      requests := requests + [convo];
      var reply := w.provider(step, convo);
      match reply {
        case RequestFails => return RequestError, requests;
        case NoMessage => return MissingMessage, requests;
        case Reply(calls, content) =>
          if calls == [] {
            if content.None? || Blank(content.value) {
              return EmptyContent, requests;
            }
            return Answer(content.value, log), requests;
          }
          var convo', log' := ExecuteCalls(w, calls, content, convo, log);
          TurnTaken(w, messages, step, requests, convo, log, convo', log');
          convo, log := convo', log';
      }
      step := step + 1;
    }
    OutOfSteps(w, messages, step, requests, convo, log, maxSteps);
    return StepsExceeded, requests;
  }

  // ---- What the conversation of a run looks like.

  predicate Answers(m: Message, call: Call) { m.ToolResult? && m.id == call.Id() && m.name == call.Name() }

  /** The sequence starts with an assistant turn and one result per call, in order, with its id and name. */
  ghost predicate FirstAnswered(s: seq<Message>)
    requires s != [] && s[0].Assistant?
  {
    && s[0].calls != [] && |s| > |s[0].calls|
    && forall j | 0 <= j < |s[0].calls| :: Answers(s[1 + j], s[0].calls[j])
  }

  /** Nothing but such turns. */
  ghost predicate Answered(s: seq<Message>) {
    s == [] || (s[0].Assistant? && FirstAnswered(s) && Answered(s[1 + |s[0].calls|..]))
  }

  /** The calls of a conversation's assistant turns, in order. */
  function CallsOf(s: seq<Message>): seq<Call> {
    if s == [] then []
    else CallsOf(s[..|s| - 1]) + (if s[|s| - 1].Assistant? then s[|s| - 1].calls else [])
  }

  /** The tool messages of a conversation, in order. */
  function ToolMessages(s: seq<Message>): seq<Message> {
    if s == [] then []
    else ToolMessages(s[..|s| - 1]) + (if s[|s| - 1].ToolResult? then [s[|s| - 1]] else [])
  }

  /** The arguments a call stands for: its parsed text, none if it does not parse; absent text reads as "{}". */
  predicate ArgumentsAre(w: World, call: Call, args: Json) {
    match call.arguments
    case Some(Structured(value)) => args == value
    case Some(RawText(raw)) => w.parse(raw) == Some(args) || (w.parse(raw) == None && args == EmptyObject)
    case None => w.parse("{}") == Some(args) || (w.parse("{}") == None && args == EmptyObject)
  }

  /** The k-th execution was of this call, and the log entry and the tool message both carry what it gave. */
  predicate Genuine(w: World, k: nat, call: Call, step: Step, m: Message) {
    && step.tool == (if call.name.Some? then call.name.value else "")
    && ArgumentsAre(w, call, step.args)
    && (match w.execute(k, step.tool, step.args)
        case Done(text) => step.result == text
        case Raised(description) => step.result == "tool error: " + description)
    && m == ToolResult(if call.id.Some? then call.id.value else "", step.tool, step.result)
  }

  /** The log is, execution by execution, that of the conversation's calls and tool messages. */
  ghost predicate Logged(w: World, s: seq<Message>, log: seq<Step>) {
    && |CallsOf(s)| == |log| == |ToolMessages(s)|
    && forall k: nat | k < |log| :: Genuine(w, k, CallsOf(s)[k], log[k], ToolMessages(s)[k])
  }

  lemma {:induction false} AnsweredConcat(s: seq<Message>, t: seq<Message>)
    requires Answered(s) && Answered(t)
    ensures Answered(s + t)
  {
    if s == [] {
      assert s + t == t;
    } else {
      AnsweredConcat(s[1 + |s[0].calls|..], t);
      assert (s + t)[1 + |s[0].calls|..] == s[1 + |s[0].calls|..] + t;
    }
  }

  lemma {:induction false} ReadConcat(s: seq<Message>, t: seq<Message>)
    ensures CallsOf(s + t) == CallsOf(s) + CallsOf(t)
    ensures ToolMessages(s + t) == ToolMessages(s) + ToolMessages(t)
  {
    if t == [] {
      assert s + t == s;
    } else {
      assert (s + t)[..|s + t| - 1] == s + t[..|t| - 1];
      ReadConcat(s, t[..|t| - 1]);
    }
  }

  lemma {:induction false} ReadResults(results: seq<Message>)
    requires forall m | m in results :: m.ToolResult?
    ensures CallsOf(results) == [] && ToolMessages(results) == results
  {
    if results != [] {
      ReadResults(results[..|results| - 1]);
      assert results[|results| - 1] in results;
      assert results == results[..|results| - 1] + [results[|results| - 1]];
    }
  }

  lemma TurnIsAnswered(w: World, n: nat, calls: seq<Call>, content: Option<string>)
    requires calls != []
    ensures Answered(Turn(w, n, calls, content))
  {
    hide StepOf;
    var turn := Turn(w, n, calls, content);
    assert turn[1 + |calls|..] == [];
    var results := ResultsOf(calls, StepsOf(w, n, calls));
    forall j | 0 <= j < |calls| ensures Answers(turn[1 + j], calls[j]) {
      assert turn[1 + j] == results[j];
    }
  }

  lemma TurnIsRead(w: World, n: nat, calls: seq<Call>, content: Option<string>)
    ensures CallsOf(Turn(w, n, calls, content)) == calls
    ensures ToolMessages(Turn(w, n, calls, content)) == ResultsOf(calls, StepsOf(w, n, calls))
  {
    hide StepOf;
    var results := ResultsOf(calls, StepsOf(w, n, calls));
    ReadConcat([Assistant(calls, content)], results);
    ReadResults(results);
    assert [Assistant(calls, content)][..0] == [];
  }

  lemma StepIsGenuine(w: World, n: nat, call: Call)
    ensures var step := StepOf(w, n, call);
            Genuine(w, n, call, step, ToolResult(call.Id(), call.Name(), step.result))
  {
  }

  lemma TurnIsLogged(w: World, s: seq<Message>, log: seq<Step>, calls: seq<Call>, content: Option<string>)
    requires Logged(w, s, log)
    ensures Logged(w, s + Turn(w, |log|, calls, content), log + StepsOf(w, |log|, calls))
  {
    hide StepOf, Genuine, Turn, CallsOf, ToolMessages;
    var n, turn, steps := |log|, Turn(w, |log|, calls, content), StepsOf(w, |log|, calls);
    TurnIsRead(w, n, calls, content);
    ReadConcat(s, turn);
    var results := ResultsOf(calls, steps);
    forall k: nat | k < n + |calls|
      ensures Genuine(w, k, (CallsOf(s) + calls)[k], (log + steps)[k], (ToolMessages(s) + results)[k])
    {
      if k >= n {
        StepIsGenuine(w, k, calls[k - n]);
        assert steps[k - n] == StepOf(w, k, calls[k - n]);
        assert results[k - n] == ToolResult(calls[k - n].Id(), calls[k - n].Name(), steps[k - n].result);
      }
    }
  }

  lemma {:induction false} StateIsAnswered(w: World, messages: seq<Message>, k: nat)
    ensures var s := StateAfter(w, messages, k);
            && messages <= s.convo && Answered(s.convo[|messages|..])
            && Logged(w, s.convo[|messages|..], s.log)
  {
    hide Turn, Answered, Logged, StepsOf;
    var s := StateAfter(w, messages, k);
    if k == 0 {
      assert Answered([]) && Logged(w, [], []) by { NothingYet(w); }
      assert s.convo[|messages|..] == [];
    } else {
      StateIsAnswered(w, messages, k - 1);
      var before := StateAfter(w, messages, k - 1);
      var reply := w.provider(k - 1, before.convo);
      if CallsTools(reply) {
        var suffix, added := before.convo[|messages|..], Turn(w, |before.log|, reply.calls, reply.content);
        TurnIsAnswered(w, |before.log|, reply.calls, reply.content);
        assert s.convo[|messages|..] == suffix + added;
        AnsweredConcat(suffix, added);
        TurnIsLogged(w, suffix, before.log, reply.calls, reply.content);
      }
    }
  }

  lemma NothingYet(w: World)
    ensures Answered([]) && Logged(w, [], [])
  {
  }

  lemma {:induction false} StatesExtend(w: World, messages: seq<Message>, i: nat, j: nat)
    requires i < j
    requires forall k | i <= k < j :: CallsTools(w.provider(k, StateAfter(w, messages, k).convo))
    ensures StateAfter(w, messages, i).convo < StateAfter(w, messages, j).convo
  {
    if i < j - 1 {
      StatesExtend(w, messages, i, j - 1);
    }
  }

  // ---- Main results.

  /** The conversation adds assistant turns answered call by call, with what executing the calls gave. */
  ghost predicate Extends(w: World, messages: seq<Message>, convo: seq<Message>) {
    && messages <= convo && Answered(convo[|messages|..])
    && exists log :: Logged(w, convo[|messages|..], log)
  }

  /**
   Whatever the provider and the tools do: at most max_steps requests are made, the first sends the
   given messages, every later one strictly extends all earlier ones, and what was added is
   assistant turns each answered call by call with what executing the call gave.
   */
  lemma RequestsAreWellFormed(w: World, messages: seq<Message>, maxSteps: int,
                              requests: seq<seq<Message>>, outcome: Outcome)
    requires IsRun(w, messages, maxSteps, requests, outcome)
    ensures |requests| <= (if maxSteps > 0 then maxSteps else 0)
    ensures maxSteps > 0 ==> requests != [] && requests[0] == messages
    ensures forall i, j | 0 <= i < j < |requests| :: requests[i] < requests[j]
    ensures forall i | 0 <= i < |requests| :: Extends(w, messages, requests[i])
  {
    forall i, j | 0 <= i < j < |requests| ensures requests[i] < requests[j] {
      StatesExtend(w, messages, i, j);
    }
    forall i | 0 <= i < |requests| ensures Extends(w, messages, requests[i]) {
      StateIsAnswered(w, messages, i);
    }
  }

  /**
   A returned answer is non-blank, and its log is, execution by execution, the name, the arguments and
   the result of the calls in the conversation it answers, which carries the same results.
   */
  lemma AnswerIsGenuine(w: World, messages: seq<Message>, maxSteps: int,
                        requests: seq<seq<Message>>, outcome: Outcome)
    requires IsRun(w, messages, maxSteps, requests, outcome) && outcome.Answer?
    ensures requests != [] && !Blank(outcome.text)
    ensures w.provider(|requests| - 1, requests[|requests| - 1]) == Reply([], Some(outcome.text))
    ensures messages <= requests[|requests| - 1]
    ensures Logged(w, requests[|requests| - 1][|messages|..], outcome.log)
  {
    StateIsAnswered(w, messages, |requests| - 1);
  }

  /** The loop gives up on its step count exactly when every one of max_steps replies called tools. */
  lemma StepsExceededIff(w: World, messages: seq<Message>, maxSteps: int,
                         requests: seq<seq<Message>>, outcome: Outcome)
    requires IsRun(w, messages, maxSteps, requests, outcome)
    ensures outcome == StepsExceeded <==>
            forall k: nat | k < maxSteps :: CallsTools(w.provider(k, StateAfter(w, messages, k).convo))
  {
    if outcome != StepsExceeded {
      var last := |requests| - 1;
      assert !CallsTools(w.provider(last, StateAfter(w, messages, last).convo));
    }
  }

  /** How the loop ends, by what the last request was answered. */
  lemma OutcomeIff(w: World, messages: seq<Message>, maxSteps: int,
                   requests: seq<seq<Message>>, outcome: Outcome)
    requires IsRun(w, messages, maxSteps, requests, outcome) && requests != []
    ensures var reply := w.provider(|requests| - 1, requests[|requests| - 1]);
            && (outcome == RequestError <==> reply == RequestFails)
            && (outcome == MissingMessage <==> reply == NoMessage)
            && (outcome == StepsExceeded <==> reply.Reply? && reply.calls != [])
            && (outcome == EmptyContent <==>
                  reply.Reply? && reply.calls == [] && (reply.content == None || Blank(reply.content.value)))
            && (outcome.Answer? <==> reply.Reply? && reply.calls == [] && reply.content.Some? && !Blank(reply.content.value))
  {
  }
}
