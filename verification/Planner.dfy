/** The planning conversation with a language model: a bounded loop of completions and tool results. */
module Planner {
  import opened Wrappers
  import opened Bytes
  import opened Utf8
  import CanonicalJson
  import opened Replacing
  import Sanitize
  import opened AnsiStrip

  type Json = CanonicalJson.Json

  type Text = s: seq<byte> | WellFormed(s) witness []

  const INTENT_MAX_BYTES := 2048

  datatype Role = User | Assistant

  datatype Call = Call(id: Text, callId: Option<Text>, name: Text, input: Json)

  /** The planner's own words to the model; the wording is left to the program. */
  datatype Notice =
    | PlanRejected(reason: Text)
    | EmptyFact | SensitiveFact | NotConfigured
    | PreferenceSaved(fact: Text) | PreferenceRemoved(fact: Text) | PreferenceNotFound(fact: Text)
    | PreferenceError(message: Text)
    | MissingParam(message: Text)
    | UnknownTool(name: Text)

  /** A tool result is either such a notice or text from outside in its envelope. */
  datatype Content = Own(notice: Notice) | Wrapped(envelope: seq<byte>)

  datatype Block =
    | TextBlock(text: Text)
    | ToolUse(call: Call)
    | ToolResult(toolUseId: Text, callId: Option<Text>, content: Content, isError: bool)

  datatype Message = Message(role: Role, content: seq<Block>)

  datatype StopReason = EndTurn | ToolUseStop | MaxTokens

  datatype Completion = Completion(content: seq<Block>, stopReason: StopReason)

  datatype Plan = Plan(body: Json)

  datatype PlanningError =
    | EmptyIntent | IntentTooLong(len: nat) | IntentContainsSensitiveData | RateLimitExceeded(retryAfter: nat)
    | StateUnavailable(message: Text) | PlannerStuck | NoPlanProposed | Provider(message: Text)

  datatype Outcome = Planned(plan: Plan) | Failed(error: PlanningError) | Panicked

  datatype QueryAnswer = Answered(output: Text) | QueryFailed(message: Text) | NoParam(message: Text) | NoSuchTool

  /** Everything the loop asks for, as any function of the moment it is asked. */
  datatype World = World(
    complete: (nat, seq<Message>) -> Result<Completion, Text>,
    curatedState: (nat, nat) -> Result<Text, PlanningError>,
    currentUser: (nat, nat) -> Result<Text, Text>,
    query: (nat, nat, Text, Json) -> QueryAnswer,
    parsePlan: (Text, Json) -> Result<Plan, Text>,
    fact: Json -> Text,
    sensitive: Text -> bool,
    append: (nat, nat, Text) -> Option<Result<(), Text>>,
    remove: (nat, nat, Text) -> Option<Result<bool, Text>>,
    nfc: seq<byte> -> seq<byte>,
    correction: Text)

  datatype Tool = GetSystemState | ProposePlan | Remember | Forget | QueryCurrentUser | Other

  function ToolOf(name: Text): Tool {
    if name == Ascii("get_system_state") then GetSystemState
    else if name == Ascii("propose_plan") then ProposePlan
    else if name == Ascii("remember") then Remember
    else if name == Ascii("forget") then Forget
    else if name == Ascii("query_current_user") then QueryCurrentUser
    else Other
  }

  datatype Step = Replied(result: Block) | Stopped(outcome: Outcome)

  function Reply(call: Call, notice: Notice, isError: bool): Step {
    Replied(ToolResult(call.id, call.callId, Own(notice), isError))
  }

  function Wrap(w: World, call: Call, raw: Text, isError: bool): Step {
    match Sanitize.Sanitized(w.nfc, call.name, raw)
    case None => Stopped(Panicked)
    case Some(envelope) => Replied(ToolResult(call.id, call.callId, Wrapped(envelope), isError))
  }

  function RememberFact(w: World, t: nat, k: nat, fact: Text): (Notice, bool) {
    if fact == [] then (EmptyFact, true)
    else if w.sensitive(fact) then (SensitiveFact, true)
    else
      match w.append(t, k, fact)
      case None => (NotConfigured, true)
      case Some(Ok(_)) => (PreferenceSaved(fact), false)
      case Some(Err(e)) => (PreferenceError(e), true)
  }

  function ForgetFact(w: World, t: nat, k: nat, fact: Text): (Notice, bool) {
    if fact == [] then (EmptyFact, true)
    else
      match w.remove(t, k, fact)
      case None => (NotConfigured, true)
      case Some(Ok(found)) => (if found then PreferenceRemoved(fact) else PreferenceNotFound(fact), false)
      case Some(Err(e)) => (PreferenceError(e), true)
  }

  /** One tool call of turn `t`, the `k`-th. */
  function Dispatch(w: World, intent: Text, t: nat, k: nat, call: Call): Step {
    DispatchTo(ToolOf(call.name), w, intent, t, k, call)
  }

  function DispatchTo(tool: Tool, w: World, intent: Text, t: nat, k: nat, call: Call): Step {
    match tool
    case GetSystemState =>
      (match w.curatedState(t, k)
       case Err(e) => Stopped(Failed(e))
       case Ok(state) => Wrap(w, call, state, false))
    case ProposePlan =>
      (match w.parsePlan(intent, call.input)
       case Ok(plan) => Stopped(Planned(plan))
       case Err(reason) => Reply(call, PlanRejected(reason), true))
    case Remember =>
      var (notice, isError) := RememberFact(w, t, k, w.fact(call.input));
      Reply(call, notice, isError)
    case Forget =>
      var (notice, isError) := ForgetFact(w, t, k, w.fact(call.input));
      Reply(call, notice, isError)
    case QueryCurrentUser =>
      (match w.currentUser(t, k)
       case Ok(user) => Wrap(w, call, user, false)
       case Err(message) => Wrap(w, call, message, true))
    case Other =>
      (match w.query(t, k, call.name, call.input)
       case Answered(output) => Wrap(w, call, output, false)
       case QueryFailed(message) => Wrap(w, call, message, true)
       case NoParam(message) => Reply(call, MissingParam(message), true)
       case NoSuchTool => Reply(call, UnknownTool(call.name), true))
  }

  function ToolCalls(content: seq<Block>): seq<Call> {
    if content == [] then []
    else
      var before := ToolCalls(content[..|content| - 1]);
      var last := content[|content| - 1];
      if last.ToolUse? then before + [last.call] else before
  }

  predicate HasText(content: seq<Block>) { exists i | 0 <= i < |content| :: content[i].TextBlock? }

  datatype Answering = Results(results: seq<Block>) | Ended(outcome: Outcome)

  /** The results of the first `k` calls, unless one of them ended the run. */
  function Answers(w: World, intent: Text, t: nat, calls: seq<Call>, k: nat): (a: Answering)
    requires k <= |calls|
  {
    if k == 0 then Results([])
    else
      match Answers(w, intent, t, calls, k - 1)
      case Ended(outcome) => Ended(outcome)
      case Results(results) =>
        match Dispatch(w, intent, t, k - 1, calls[k - 1])
        case Replied(result) => Results(results + [result])
        case Stopped(outcome) => Ended(outcome)
  }

  datatype Progress = Going(messages: seq<Message>) | Done(outcome: Outcome)

  function Turn(w: World, maxTurns: nat, intent: Text, t: nat, messages: seq<Message>): Progress {
    match w.complete(t, messages)
    case Err(e) => Done(Failed(Provider(e)))
    case Ok(completion) =>
      var asked := messages + [Message(Assistant, completion.content)];
      match completion.stopReason
      case MaxTokens => Done(Failed(NoPlanProposed))
      case EndTurn =>
        if HasText(completion.content) && t + 1 < maxTurns then
          Going(asked + [Message(User, [TextBlock(w.correction)])])
        else Done(Failed(NoPlanProposed))
      case ToolUseStop =>
        var calls := ToolCalls(completion.content);
        if calls == [] then Done(Failed(NoPlanProposed))
        else
          match Answers(w, intent, t, calls, |calls|)
          case Ended(outcome) => Done(outcome)
          case Results(results) => Going(asked + [Message(User, results)])
  }

  /** The conversation after `t` turns, or how it ended before. */
  function Run(w: World, maxTurns: nat, intent: Text, t: nat): Progress {
    if t == 0 then Going([Message(User, [TextBlock(intent)])])
    else
      match Run(w, maxTurns, intent, t - 1)
      case Done(outcome) => Done(outcome)
      case Going(messages) => Turn(w, maxTurns, intent, t - 1, messages)
  }

  /** Whether the limiter is asked and lets the intent through. */
  predicate Admitted(w: World, intent: Text, limiter: Result<(), nat>) {
    intent != [] && |intent| <= INTENT_MAX_BYTES && !w.sensitive(intent) && limiter.Ok?
  }

  function AfterAll(w: World, maxTurns: nat, intent: Text): Outcome {
    match Run(w, maxTurns, intent, maxTurns)
    case Done(outcome) => outcome
    case Going(_) => Failed(PlannerStuck)
  }

  /** What `plan_intent` returns for a trimmed intent, given what the limiter says. */
  function Concluded(w: World, maxTurns: nat, intent: Text, limiter: Result<(), nat>): Outcome {
    if intent == [] then Failed(EmptyIntent)
    else if |intent| > INTENT_MAX_BYTES then Failed(IntentTooLong(|intent|))
    else if w.sensitive(intent) then Failed(IntentContainsSensitiveData)
    else
      match limiter
      case Err(retryAfter) => Failed(RateLimitExceeded(retryAfter))
      case Ok(_) => AfterAll(w, maxTurns, intent)
  }

  /** The checks in front of the conversation, in their order. */
  lemma RefusedExactly(w: World, maxTurns: nat, intent: Text, limiter: Result<(), nat>)
    ensures Admitted(w, intent, limiter) <==> 0 < |intent| <= 2048 && !w.sensitive(intent) && limiter.Ok?
    ensures var o := Concluded(w, maxTurns, intent, limiter);
            && (|intent| == 0 ==> o == Failed(EmptyIntent))
            && (|intent| > 2048 ==> o == Failed(IntentTooLong(|intent|)))
            && (0 < |intent| <= 2048 && w.sensitive(intent) ==> o == Failed(IntentContainsSensitiveData))
            && (0 < |intent| <= 2048 && !w.sensitive(intent) && limiter.Err? ==>
                  o == Failed(RateLimitExceeded(limiter.error)))
  {
  }

  // ---- The loop as it runs ----

  lemma {:induction false} EndedStays(w: World, intent: Text, t: nat, calls: seq<Call>, k: nat, n: nat)
    requires k <= n <= |calls| && Answers(w, intent, t, calls, k).Ended?
    ensures Answers(w, intent, t, calls, n) == Answers(w, intent, t, calls, k)
  {
    if k < n { EndedStays(w, intent, t, calls, k, n - 1); }
  }

  method AnswerCalls(w: World, intent: Text, t: nat, calls: seq<Call>) returns (a: Answering)
    ensures a == Answers(w, intent, t, calls, |calls|)
  {
    var results: seq<Block> := [];
    for k := 0 to |calls|
      invariant Answers(w, intent, t, calls, k) == Results(results)
    {
      var step := Dispatch(w, intent, t, k, calls[k]);
      match step {
        case Stopped(outcome) =>
          EndedStays(w, intent, t, calls, k + 1, |calls|);
          return Ended(outcome);
        case Replied(result) =>
          results := results + [result];
      }
    }
    return Results(results);
  }

  lemma {:induction false} DoneStays(w: World, maxTurns: nat, intent: Text, t: nat, n: nat)
    requires t <= n && Run(w, maxTurns, intent, t).Done?
    ensures Run(w, maxTurns, intent, n) == Run(w, maxTurns, intent, t)
  {
    if t < n { DoneStays(w, maxTurns, intent, t, n - 1); }
  }

  /** One pass through the loop: the provider is asked once. */
  method TakeTurn(w: World, maxTurns: nat, intent: Text, turn: nat, messages: seq<Message>) returns (p: Progress)
    ensures p == Turn(w, maxTurns, intent, turn, messages)
    ensures p.Going? ==> |p.messages| == |messages| + 2
  {
    var reply := w.complete(turn, messages);
    if reply.Err? {
      return Done(Failed(Provider(reply.error)));
    }
    var completion := reply.value;
    var asked := messages + [Message(Assistant, completion.content)];
    match completion.stopReason {
      case MaxTokens =>
        return Done(Failed(NoPlanProposed));
      case EndTurn =>
        if HasText(completion.content) && turn + 1 < maxTurns {
          return Going(asked + [Message(User, [TextBlock(w.correction)])]);
        }
        return Done(Failed(NoPlanProposed));
      case ToolUseStop =>
        var calls := ToolCalls(completion.content);
        if |calls| == 0 {
          return Done(Failed(NoPlanProposed));
        }
        var answering := AnswerCalls(w, intent, turn, calls);
        if answering.Ended? {
          return Done(answering.outcome);
        }
        return Going(asked + [Message(User, answering.results)]);
    }
  }

  ghost predicate IsHead(w: World, maxTurns: nat, intent: Text, t: nat, messages: seq<Message>) {
    Run(w, maxTurns, intent, t) == Going(messages) && |messages| == 2 * t + 1
  }

  /** The conversations given to the provider, one a turn. */
  ghost predicate AreHeads(w: World, maxTurns: nat, intent: Text, asked: seq<seq<Message>>) {
    forall t | 0 <= t < |asked| :: IsHead(w, maxTurns, intent, t, asked[t])
  }

  lemma NextHead(w: World, maxTurns: nat, intent: Text, t: nat, messages: seq<Message>)
    requires Run(w, maxTurns, intent, t) == Going(messages)
    ensures Run(w, maxTurns, intent, t + 1) == Turn(w, maxTurns, intent, t, messages)
  {
  }

  lemma HeadAfter(w: World, maxTurns: nat, intent: Text, t: nat, messages: seq<Message>, p: Progress)
    requires IsHead(w, maxTurns, intent, t, messages) && p == Turn(w, maxTurns, intent, t, messages)
    requires p.Going? ==> |p.messages| == |messages| + 2
    ensures p.Going? ==> IsHead(w, maxTurns, intent, t + 1, p.messages)
    ensures p.Done? && t < maxTurns ==> AfterAll(w, maxTurns, intent) == p.outcome
  {
    NextHead(w, maxTurns, intent, t, messages);
    if p.Done? && t < maxTurns {
      DoneStays(w, maxTurns, intent, t + 1, maxTurns);
    }
  }

  lemma HeadsGrow(w: World, maxTurns: nat, intent: Text, asked: seq<seq<Message>>, messages: seq<Message>)
    requires AreHeads(w, maxTurns, intent, asked) && IsHead(w, maxTurns, intent, |asked|, messages)
    ensures AreHeads(w, maxTurns, intent, asked + [messages])
  {
  }

  /** The bounded loop; `asked` records the conversation every provider call was given. */
  method Converse(w: World, maxTurns: nat, intent: Text) returns (outcome: Outcome, ghost asked: seq<seq<Message>>)
    ensures outcome == AfterAll(w, maxTurns, intent)
    ensures |asked| <= maxTurns && AreHeads(w, maxTurns, intent, asked)
  {
    asked := [];
    var messages := [Message(User, [TextBlock(intent)])];
    for turn := 0 to maxTurns
      invariant IsHead(w, maxTurns, intent, turn, messages)
      invariant |asked| == turn && AreHeads(w, maxTurns, intent, asked)
    {
      HeadsGrow(w, maxTurns, intent, asked, messages);
      asked := asked + [messages];
      var progress := TakeTurn(w, maxTurns, intent, turn, messages);
      HeadAfter(w, maxTurns, intent, turn, messages, progress);
      if progress.Done? {
        return progress.outcome, asked;
      }
      messages := progress.messages;
    }
    return Failed(PlannerStuck), asked;
  }

  /** `plan_intent`: at most one provider call a turn, each with the conversation so far. */
  method PlanIntent(w: World, maxTurns: nat, intent: Text, limiter: Result<(), nat>)
    returns (outcome: Outcome, ghost asked: seq<seq<Message>>)
    requires maxTurns >= 1
    ensures outcome == Concluded(w, maxTurns, intent, limiter)
    ensures |asked| <= maxTurns && AreHeads(w, maxTurns, intent, asked)
    ensures !Admitted(w, intent, limiter) ==> asked == []
  {
    asked := [];
    if intent == [] {
      return Failed(EmptyIntent), asked;
    }
    if |intent| > INTENT_MAX_BYTES {
      return Failed(IntentTooLong(|intent|)), asked;
    }
    if w.sensitive(intent) {
      return Failed(IntentContainsSensitiveData), asked;
    }
    if limiter.Err? {
      return Failed(RateLimitExceeded(limiter.error)), asked;
    }
    outcome, asked := Converse(w, maxTurns, intent);
  }

  // ---- What every conversation keeps ----

  /** The text from outside that a call brings in, if any. */
  function Foreign(w: World, t: nat, k: nat, call: Call): Option<Text> {
    match ToolOf(call.name)
    case GetSystemState => var r := w.curatedState(t, k); if r.Ok? then Some(r.value) else None
    case QueryCurrentUser => var r := w.currentUser(t, k); Some(if r.Ok? then r.value else r.error)
    case Other =>
      (match w.query(t, k, call.name, call.input)
       case Answered(output) => Some(output)
       case QueryFailed(message) => Some(message)
       case _ => None)
    case _ => None
  }

  /** A text that opens and closes the untrusted envelope exactly once, at its ends. */
  ghost predicate Enveloped(s: seq<byte>) {
    forall i: nat ::
      && (OccursAt(s, Sanitize.OpenTagSpace(), i) <==> i == 0)
      && (OccursAt(s, Sanitize.CloseTag(), i) <==> i == |s| - |Sanitize.CloseTag()|)
  }

  /** The result answers the call: same identifiers, and text from outside, sanitised, in its envelope. */
  ghost predicate Responds(w: World, t: nat, k: nat, call: Call, result: Block) {
    && result.ToolResult?
    && result.toolUseId == call.id && result.callId == call.callId
    && match Foreign(w, t, k, call)
       case None => result.content.Own?
       case Some(raw) =>
         && result.content.Wrapped?
         && Sanitize.Sanitized(w.nfc, call.name, raw) == Some(result.content.envelope)
         && Enveloped(result.content.envelope)
  }

  ghost predicate AllAnswered(w: World, t: nat, calls: seq<Call>, results: seq<Block>) {
    |results| == |calls| && forall k | 0 <= k < |calls| :: Responds(w, t, k, calls[k], results[k])
  }

  lemma WrapAnswers(w: World, t: nat, k: nat, call: Call, raw: Text, isError: bool)
    requires Foreign(w, t, k, call) == Some(raw)
    ensures var s := Wrap(w, call, raw, isError);
            if CutsNoCharacter(raw) then s.Replied? && Responds(w, t, k, call, s.result) else s == Stopped(Panicked)
  {
    Sanitize.EnvelopeCannotBeSpoofed(w.nfc, call.name, raw);
  }

  lemma DispatchAnswers(w: World, intent: Text, t: nat, k: nat, call: Call)
    ensures var s := Dispatch(w, intent, t, k, call);
            s.Replied? ==> Responds(w, t, k, call, s.result)
  {
    var foreign := Foreign(w, t, k, call);
    if foreign.Some? {
      WrapAnswers(w, t, k, call, foreign.value, true);
      WrapAnswers(w, t, k, call, foreign.value, false);
    }
  }

  lemma {:induction false} AnswersAll(w: World, intent: Text, t: nat, calls: seq<Call>, k: nat)
    requires k <= |calls| && Answers(w, intent, t, calls, k).Results?
    ensures AllAnswered(w, t, calls[..k], Answers(w, intent, t, calls, k).results)
  {
    if k > 0 {
      AnswersAll(w, intent, t, calls, k - 1);
      DispatchAnswers(w, intent, t, k - 1, calls[k - 1]);
      assert calls[..k][..k - 1] == calls[..k - 1];
      var before, all := Answers(w, intent, t, calls, k - 1).results, Answers(w, intent, t, calls, k).results;
      forall j | 0 <= j < k ensures Responds(w, t, j, calls[..k][j], all[j]) {
        if j < k - 1 { assert Responds(w, t, j, calls[..k - 1][j], before[j]); }
      }
    }
  }

  /** Turn `s` of a conversation: the completion asked for with everything before it, and the answer to it. */
  ghost predicate TurnOk(w: World, ms: seq<Message>, s: nat)
    requires 2 * s + 2 < |ms|
  {
    var reply := w.complete(s, ms[..2 * s + 1]);
    && reply.Ok?
    && ms[2 * s + 1] == Message(Assistant, reply.value.content)
    && ms[2 * s + 2].role == User
    && match reply.value.stopReason
       case MaxTokens => false
       case EndTurn => HasText(reply.value.content) && ms[2 * s + 2].content == [TextBlock(w.correction)]
       case ToolUseStop =>
         ToolCalls(reply.value.content) != []
         && AllAnswered(w, s, ToolCalls(reply.value.content), ms[2 * s + 2].content)
  }

  ghost predicate ConversationOk(w: World, intent: Text, ms: seq<Message>, t: nat) {
    && |ms| == 2 * t + 1
    && ms[0] == Message(User, [TextBlock(intent)])
    && (forall i | 0 <= i < |ms| :: ms[i].role == if i % 2 == 0 then User else Assistant)
    && forall s | 0 <= s < t :: TurnOk(w, ms, s)
  }

  lemma TurnKept(w: World, ms: seq<Message>, more: seq<Message>, s: nat)
    requires 2 * s + 2 < |ms| && TurnOk(w, ms, s)
    ensures TurnOk(w, ms + more, s)
  {
    assert (ms + more)[..2 * s + 1] == ms[..2 * s + 1];
  }

  lemma TurnAdds(w: World, maxTurns: nat, intent: Text, t: nat, ms: seq<Message>)
    requires |ms| == 2 * t + 1 && Turn(w, maxTurns, intent, t, ms).Going?
    ensures var ms' := Turn(w, maxTurns, intent, t, ms).messages;
            |ms'| == 2 * t + 3 && ms' == ms + ms'[2 * t + 1..] && TurnOk(w, ms', t)
            && ms'[2 * t + 1].role == Assistant && ms'[2 * t + 2].role == User
  {
    var ms' := Turn(w, maxTurns, intent, t, ms).messages;
    var completion := w.complete(t, ms).value;
    assert ms' == ms + [Message(Assistant, completion.content)] + [ms'[2 * t + 2]];
    assert ms'[..2 * t + 1] == ms;
    if completion.stopReason.ToolUseStop? {
      var calls := ToolCalls(completion.content);
      AnswersAll(w, intent, t, calls, |calls|);
      assert calls[..|calls|] == calls;
    }
  }

  lemma ConversationStep(w: World, intent: Text, ms: seq<Message>, more: seq<Message>, t: nat)
    requires ConversationOk(w, intent, ms, t)
    requires |more| == 2 && more[0].role == Assistant && more[1].role == User && TurnOk(w, ms + more, t)
    ensures ConversationOk(w, intent, ms + more, t + 1)
  {
    forall s | 0 <= s < t + 1 ensures TurnOk(w, ms + more, s) {
      if s < t { TurnKept(w, ms, more, s); }
    }
  }

  lemma TurnKeepsConversation(w: World, maxTurns: nat, intent: Text, t: nat, ms: seq<Message>)
    requires ConversationOk(w, intent, ms, t) && Turn(w, maxTurns, intent, t, ms).Going?
    ensures ConversationOk(w, intent, Turn(w, maxTurns, intent, t, ms).messages, t + 1)
  {
    TurnAdds(w, maxTurns, intent, t, ms);
    ConversationStep(w, intent, ms, Turn(w, maxTurns, intent, t, ms).messages[2 * t + 1..], t);
  }

  /** For any model and any world: at the head of turn `t` the conversation alternates, every completion that
      stopped for tools has been answered call by call with its own identifiers, and text from outside
      only ever entered it in an envelope. */
  lemma {:induction false} EveryConversationIsOk(w: World, maxTurns: nat, intent: Text, t: nat, ms: seq<Message>)
    requires Run(w, maxTurns, intent, t) == Going(ms)
    ensures ConversationOk(w, intent, ms, t)
  {
    if t > 0 {
      var before := Run(w, maxTurns, intent, t - 1).messages;
      EveryConversationIsOk(w, maxTurns, intent, t - 1, before);
      NextHead(w, maxTurns, intent, t - 1, before);
      TurnKeepsConversation(w, maxTurns, intent, t - 1, before);
    }
  }

  lemma TurnGrows(w: World, maxTurns: nat, intent: Text, t: nat, ms: seq<Message>)
    requires Turn(w, maxTurns, intent, t, ms).Going?
    ensures var ms' := Turn(w, maxTurns, intent, t, ms).messages; ms <= ms' && |ms'| == |ms| + 2
  {
  }

  /** The later conversation goes on from the earlier one, with two messages a turn. */
  ghost predicate Continues(a: Progress, b: Progress, turns: nat) {
    a.Going? && b.Going? && a.messages <= b.messages && |b.messages| == |a.messages| + 2 * turns
  }

  lemma ContinuesTwice(a: Progress, b: Progress, c: Progress, m: nat, n: nat)
    requires Continues(a, b, m) && Continues(b, c, n)
    ensures Continues(a, c, m + n)
  {
    PrefixOfPrefix(a.messages, b.messages, c.messages);
  }

  lemma TurnContinues(w: World, maxTurns: nat, intent: Text, n: nat)
    requires Run(w, maxTurns, intent, n + 1).Going?
    ensures Continues(Run(w, maxTurns, intent, n), Run(w, maxTurns, intent, n + 1), 1)
  {
    var before := Run(w, maxTurns, intent, n);
    assert before.Going?;
    NextHead(w, maxTurns, intent, n, before.messages);
    TurnGrows(w, maxTurns, intent, n, before.messages);
  }

  /** Later turns only add to the conversation. */
  lemma {:induction false} ConversationGrows(w: World, maxTurns: nat, intent: Text, t: nat, n: nat)
    requires t <= n && Run(w, maxTurns, intent, n).Going?
    ensures Continues(Run(w, maxTurns, intent, t), Run(w, maxTurns, intent, n), n - t)
    decreases n
  {
    if t < n {
      TurnContinues(w, maxTurns, intent, n - 1);
      ConversationGrows(w, maxTurns, intent, t, n - 1);
      ContinuesTwice(Run(w, maxTurns, intent, t), Run(w, maxTurns, intent, n - 1), Run(w, maxTurns, intent, n),
                     n - 1 - t, 1);
    }
  }

  lemma PrefixOfPrefix(a: seq<Message>, b: seq<Message>, c: seq<Message>)
    requires a <= b && b <= c
    ensures a <= c
  {
  }

  // ---- How a run can end ----

  lemma NoTurnIsStuck(w: World, maxTurns: nat, intent: Text, t: nat)
    requires forall a, b :: w.curatedState(a, b) != Err(PlannerStuck)
    ensures Run(w, maxTurns, intent, t) != Done(Failed(PlannerStuck))
  {
    RunEnds(w, maxTurns, intent, t, Failed(PlannerStuck));
  }

  /** The planner is stuck exactly when every turn was used up, and then the last completion stopped for
      tools, none of whose calls proposed an acceptable plan. */
  lemma StuckExactly(w: World, maxTurns: nat, intent: Text, limiter: Result<(), nat>)
    requires maxTurns >= 1
    requires forall a, b :: w.curatedState(a, b) != Err(PlannerStuck)
    ensures Concluded(w, maxTurns, intent, limiter) == Failed(PlannerStuck)
            <==> Admitted(w, intent, limiter) && Run(w, maxTurns, intent, maxTurns).Going?
    ensures Run(w, maxTurns, intent, maxTurns).Going? ==>
              var head := Run(w, maxTurns, intent, maxTurns - 1);
              head.Going? &&
              var reply := w.complete(maxTurns - 1, head.messages);
              reply.Ok? && reply.value.stopReason == ToolUseStop
              && NoPlanIn(w, intent, ToolCalls(reply.value.content))
  {
    NoTurnIsStuck(w, maxTurns, intent, maxTurns);
    if Run(w, maxTurns, intent, maxTurns).Going? {
      var head := Run(w, maxTurns, intent, maxTurns - 1).messages;
      var calls := ToolCalls(w.complete(maxTurns - 1, head).value.content);
      if w.complete(maxTurns - 1, head).value.stopReason == ToolUseStop {
        AnsweredHaveNoPlan(w, intent, maxTurns - 1, calls, |calls|);
        assert calls[..|calls|] == calls;
      }
    }
  }

  /** No call of the list proposes a plan that passes validation. */
  ghost predicate NoPlanIn(w: World, intent: Text, calls: seq<Call>) {
    forall k | 0 <= k < |calls| :: ToolOf(calls[k].name).ProposePlan? ==> w.parsePlan(intent, calls[k].input).Err?
  }

  lemma {:induction false} AnsweredHaveNoPlan(w: World, intent: Text, t: nat, calls: seq<Call>, k: nat)
    requires k <= |calls| && Answers(w, intent, t, calls, k).Results?
    ensures NoPlanIn(w, intent, calls[..k])
  {
    if k > 0 {
      AnsweredHaveNoPlan(w, intent, t, calls, k - 1);
      assert calls[..k] == calls[..k - 1] + [calls[k - 1]];
    }
  }

  lemma {:induction false} AnswersPlan(w: World, intent: Text, t: nat, calls: seq<Call>, n: nat, plan: Plan)
      returns (k: nat)
    requires n <= |calls| && Answers(w, intent, t, calls, n) == Ended(Planned(plan))
    ensures k < n && ToolOf(calls[k].name).ProposePlan? && w.parsePlan(intent, calls[k].input) == Ok(plan)
    ensures NoPlanIn(w, intent, calls[..k])
  {
    if Answers(w, intent, t, calls, n - 1).Ended? {
      k := AnswersPlan(w, intent, t, calls, n - 1, plan);
    } else {
      k := n - 1;
      AnsweredHaveNoPlan(w, intent, t, calls, k);
      DispatchPlans(w, intent, t, k, calls[k], plan);
    }
  }

  lemma DispatchPlans(w: World, intent: Text, t: nat, k: nat, call: Call, plan: Plan)
    ensures Dispatch(w, intent, t, k, call) == Stopped(Planned(plan))
            <==> ToolOf(call.name).ProposePlan? && w.parsePlan(intent, call.input) == Ok(plan)
  {
  }

  /** The completion of turn `t`, when the conversation reaches it. */
  ghost predicate CallsOfTurn(w: World, maxTurns: nat, intent: Text, t: nat, calls: seq<Call>) {
    var head := Run(w, maxTurns, intent, t);
    head.Going? &&
    var reply := w.complete(t, head.messages);
    reply.Ok? && reply.value.stopReason == ToolUseStop && calls == ToolCalls(reply.value.content)
  }

  lemma {:induction false} RunPlan(w: World, maxTurns: nat, intent: Text, n: nat, plan: Plan)
      returns (t: nat, calls: seq<Call>, k: nat)
    requires Run(w, maxTurns, intent, n) == Done(Planned(plan))
    ensures t < n && CallsOfTurn(w, maxTurns, intent, t, calls) && k < |calls|
    ensures ToolOf(calls[k].name).ProposePlan? && w.parsePlan(intent, calls[k].input) == Ok(plan)
    ensures NoPlanIn(w, intent, calls[..k])
  {
    var before := Run(w, maxTurns, intent, n - 1);
    if before.Done? {
      t, calls, k := RunPlan(w, maxTurns, intent, n - 1, plan);
    } else {
      t := n - 1;
      calls := ToolCalls(w.complete(t, before.messages).value.content);
      k := AnswersPlan(w, intent, t, calls, |calls|, plan);
    }
  }

  lemma EarlierTurnsHaveNoPlan(w: World, maxTurns: nat, intent: Text, s: nat, t: nat, calls: seq<Call>)
    requires s < t && Run(w, maxTurns, intent, t).Going? && CallsOfTurn(w, maxTurns, intent, s, calls)
    ensures NoPlanIn(w, intent, calls)
  {
    ConversationGrows(w, maxTurns, intent, s + 1, t);
    ConversationGrows(w, maxTurns, intent, s, t);
    NextHead(w, maxTurns, intent, s, Run(w, maxTurns, intent, s).messages);
    AnsweredHaveNoPlan(w, intent, s, calls, |calls|);
    assert calls[..|calls|] == calls;
  }

  /** A plan that is returned is the first one proposed, in any turn, that passes validation. */
  lemma FirstValidPlanWins(w: World, maxTurns: nat, intent: Text, limiter: Result<(), nat>, plan: Plan)
      returns (t: nat, calls: seq<Call>, k: nat)
    requires Concluded(w, maxTurns, intent, limiter) == Planned(plan)
    ensures t < maxTurns && CallsOfTurn(w, maxTurns, intent, t, calls) && k < |calls|
    ensures ToolOf(calls[k].name).ProposePlan? && w.parsePlan(intent, calls[k].input) == Ok(plan)
    ensures NoPlanIn(w, intent, calls[..k])
    ensures forall s, earlier | 0 <= s < t && CallsOfTurn(w, maxTurns, intent, s, earlier) ::
              NoPlanIn(w, intent, earlier)
  {
    t, calls, k := RunPlan(w, maxTurns, intent, maxTurns, plan);
    forall s, earlier | 0 <= s < t && CallsOfTurn(w, maxTurns, intent, s, earlier)
      ensures NoPlanIn(w, intent, earlier)
    {
      EarlierTurnsHaveNoPlan(w, maxTurns, intent, s, t, earlier);
    }
  }

  // ---- What a reply about a preference means ----

  /** The call was answered by that notice. */
  ghost predicate Notified(w: World, intent: Text, t: nat, k: nat, call: Call, notice: Notice, isError: bool) {
    Dispatch(w, intent, t, k, call) == Replied(ToolResult(call.id, call.callId, Own(notice), isError))
  }

  lemma ToolNames(name: Text)
    ensures ToolOf(name).GetSystemState? <==> name == Ascii("get_system_state")
    ensures ToolOf(name).ProposePlan? <==> name == Ascii("propose_plan")
    ensures ToolOf(name).Remember? <==> name == Ascii("remember")
    ensures ToolOf(name).Forget? <==> name == Ascii("forget")
    ensures ToolOf(name).QueryCurrentUser? <==> name == Ascii("query_current_user")
  {
  }

  lemma RepliesOf(tool: Tool, w: World, intent: Text, t: nat, k: nat, call: Call, f: Text, isError: bool)
    ensures var fact := w.fact(call.input);
            var step := DispatchTo(tool, w, intent, t, k, call);
            && (step == Reply(call, PreferenceSaved(f), isError)
                <==> && !isError && tool.Remember? && fact != [] && !w.sensitive(fact) && f == fact
                     && w.append(t, k, f).Some? && w.append(t, k, f).value.Ok?)
            && (step == Reply(call, PreferenceRemoved(f), isError)
                <==> !isError && tool.Forget? && fact != [] && f == fact && w.remove(t, k, f) == Some(Ok(true)))
            && (step == Reply(call, PreferenceNotFound(f), isError)
                <==> !isError && tool.Forget? && fact != [] && f == fact && w.remove(t, k, f) == Some(Ok(false)))
  {
  }

  /** The model is told that a fact was saved, removed or not there exactly when it asked for that by name, the fact is
      not empty (nor sensitive, to be saved), and the preferences file says so; and none of these is an error. */
  lemma PreferenceReplies(w: World, intent: Text, t: nat, k: nat, call: Call, f: Text, isError: bool)
    ensures var fact := w.fact(call.input);
            var remembers := call.name == Ascii("remember") && fact != [] && !w.sensitive(fact) && f == fact;
            var forgets := call.name == Ascii("forget") && fact != [] && f == fact;
            && (Notified(w, intent, t, k, call, PreferenceSaved(f), isError)
                <==> !isError && remembers && w.append(t, k, f).Some? && w.append(t, k, f).value.Ok?)
            && (Notified(w, intent, t, k, call, PreferenceRemoved(f), isError)
                <==> !isError && forgets && w.remove(t, k, f) == Some(Ok(true)))
            && (Notified(w, intent, t, k, call, PreferenceNotFound(f), isError)
                <==> !isError && forgets && w.remove(t, k, f) == Some(Ok(false)))
  {
    ToolNames(call.name);
    RepliesOf(ToolOf(call.name), w, intent, t, k, call, f, isError);
  }

  /** What the world said about the call that brought in a text was a failure. */
  ghost predicate ForeignFailed(w: World, t: nat, k: nat, call: Call) {
    if call.name == Ascii("get_system_state") then false
    else if call.name == Ascii("query_current_user") then w.currentUser(t, k).Err?
    else w.query(t, k, call.name, call.input).QueryFailed?
  }

  predicate AboutPreference(notice: Notice) {
    notice.PreferenceSaved? || notice.PreferenceRemoved? || notice.PreferenceNotFound?
  }

  lemma WrapMarks(w: World, call: Call, raw: Text, isError: bool)
    ensures var s := Wrap(w, call, raw, isError);
            s.Replied? ==> s.result.ToolResult? && s.result.content.Wrapped? && s.result.isError == isError
  {
  }

  lemma MarksOf(tool: Tool, w: World, intent: Text, t: nat, k: nat, call: Call)
    ensures var s := DispatchTo(tool, w, intent, t, k, call);
            s.Replied? ==>
              && s.result.ToolResult?
              && (s.result.content.Own? ==> (s.result.isError <==> !AboutPreference(s.result.content.notice)))
              && (s.result.content.Wrapped? && tool.GetSystemState? ==> !s.result.isError)
              && (s.result.content.Wrapped? && tool.QueryCurrentUser? ==>
                    (s.result.isError <==> w.currentUser(t, k).Err?))
              && (s.result.content.Wrapped? && !tool.GetSystemState? && !tool.QueryCurrentUser? ==>
                    (s.result.isError <==> w.query(t, k, call.name, call.input).QueryFailed?))
  {
    forall raw, isError ensures var s := Wrap(w, call, raw, isError);
      s.Replied? ==> s.result.ToolResult? && s.result.content.Wrapped? && s.result.isError == isError
    {
      WrapMarks(w, call, raw, isError);
    }
  }

  /** A result is marked as an error exactly when the world reported a failure, or, if it is the planner's own notice,
      unless it says what became of a preference. */
  lemma ErrorsAreMarked(w: World, intent: Text, t: nat, k: nat, call: Call)
    ensures var s := Dispatch(w, intent, t, k, call);
            s.Replied? ==>
              && s.result.ToolResult?
              && (s.result.isError <==>
                    if s.result.content.Wrapped? then ForeignFailed(w, t, k, call)
                    else !AboutPreference(s.result.content.notice))
  {
    ToolNames(call.name);
    MarksOf(ToolOf(call.name), w, intent, t, k, call);
  }

  /** The model is told that its plan was rejected exactly when it proposed one that fails validation, and why. */
  lemma RejectionsAreReported(w: World, intent: Text, t: nat, k: nat, call: Call, reason: Text)
    ensures Notified(w, intent, t, k, call, PlanRejected(reason), true)
            <==> call.name == Ascii("propose_plan") && w.parsePlan(intent, call.input) == Err(reason)
  {
    ToolNames(call.name);
    RejectionOf(ToolOf(call.name), w, intent, t, k, call, reason);
  }

  lemma RejectionOf(tool: Tool, w: World, intent: Text, t: nat, k: nat, call: Call, reason: Text)
    ensures DispatchTo(tool, w, intent, t, k, call) == Reply(call, PlanRejected(reason), true)
            <==> tool.ProposePlan? && w.parsePlan(intent, call.input) == Err(reason)
  {
  }

  // ---- Every way in which a run ends ----

  /** The call ends the run with that outcome: a valid plan, a state that cannot be read, or a text from outside
      inside one of whose characters the escape stripper cuts. */
  ghost predicate CallEnds(w: World, intent: Text, t: nat, k: nat, call: Call, o: Outcome) {
    || (call.name == Ascii("propose_plan") && o.Planned? && w.parsePlan(intent, call.input) == Ok(o.plan))
    || (call.name == Ascii("get_system_state") && o.Failed? && w.curatedState(t, k) == Err(o.error))
    || (o.Panicked? && Foreign(w, t, k, call).Some? && !CutsNoCharacter(Foreign(w, t, k, call).value))
  }

  /** Call `k` is dispatched: no earlier one ends the run. */
  ghost predicate Reached(w: World, intent: Text, t: nat, calls: seq<Call>, k: nat) {
    k <= |calls| && forall j, o | 0 <= j < k :: !CallEnds(w, intent, t, j, calls[j], o)
  }

  ghost predicate EndsAtCall(w: World, intent: Text, t: nat, calls: seq<Call>, k: nat, o: Outcome) {
    k < |calls| && Reached(w, intent, t, calls, k) && CallEnds(w, intent, t, k, calls[k], o)
  }

  /** One of the first `n` calls ends the run. */
  ghost predicate CallsEnd(w: World, intent: Text, t: nat, calls: seq<Call>, n: nat, o: Outcome) {
    exists k: nat :: k < n && EndsAtCall(w, intent, t, calls, k, o)
  }

  lemma DispatchEnds(w: World, intent: Text, t: nat, k: nat, call: Call, o: Outcome)
    ensures Dispatch(w, intent, t, k, call) == Stopped(o) <==> CallEnds(w, intent, t, k, call, o)
  {
    var foreign := Foreign(w, t, k, call);
    if foreign.Some? {
      WrapAnswers(w, t, k, call, foreign.value, true);
      WrapAnswers(w, t, k, call, foreign.value, false);
    }
  }

  lemma ReachedNext(w: World, intent: Text, t: nat, calls: seq<Call>, n: nat)
    requires n < |calls| && Reached(w, intent, t, calls, n)
    ensures Reached(w, intent, t, calls, n + 1) <==> Dispatch(w, intent, t, n, calls[n]).Replied?
  {
    var step := Dispatch(w, intent, t, n, calls[n]);
    if step.Stopped? {
      DispatchEnds(w, intent, t, n, calls[n], step.outcome);
    } else {
      forall o ensures !CallEnds(w, intent, t, n, calls[n], o) {
        DispatchEnds(w, intent, t, n, calls[n], o);
      }
    }
  }

  lemma ReachedStep(w: World, intent: Text, t: nat, calls: seq<Call>, n: nat)
    requires n < |calls| && (Answers(w, intent, t, calls, n).Results? <==> Reached(w, intent, t, calls, n))
    ensures Answers(w, intent, t, calls, n + 1).Results? <==> Reached(w, intent, t, calls, n + 1)
  {
    if Reached(w, intent, t, calls, n) {
      ReachedNext(w, intent, t, calls, n);
    } else {
      ReachedEarlier(w, intent, t, calls, n);
    }
  }

  lemma ReachedEarlier(w: World, intent: Text, t: nat, calls: seq<Call>, n: nat)
    requires n < |calls| && !Reached(w, intent, t, calls, n)
    ensures !Reached(w, intent, t, calls, n + 1)
  {
  }

  lemma {:induction false} ReachedExactly(w: World, intent: Text, t: nat, calls: seq<Call>, n: nat)
    requires n <= |calls|
    ensures Answers(w, intent, t, calls, n).Results? <==> Reached(w, intent, t, calls, n)
  {
    if n > 0 {
      ReachedExactly(w, intent, t, calls, n - 1);
      ReachedStep(w, intent, t, calls, n - 1);
    }
  }

  lemma CallsEndNext(w: World, intent: Text, t: nat, calls: seq<Call>, n: nat, o: Outcome)
    ensures CallsEnd(w, intent, t, calls, n + 1, o)
            <==> CallsEnd(w, intent, t, calls, n, o) || EndsAtCall(w, intent, t, calls, n, o)
  {
  }

  lemma NextAnswerEnds(w: World, intent: Text, t: nat, calls: seq<Call>, n: nat, o: Outcome)
    requires n < |calls|
    ensures Answers(w, intent, t, calls, n + 1) == Ended(o)
            <==> Answers(w, intent, t, calls, n) == Ended(o) || EndsAtCall(w, intent, t, calls, n, o)
  {
    ReachedExactly(w, intent, t, calls, n);
    DispatchEnds(w, intent, t, n, calls[n], o);
  }

  lemma AnswersEndUpTo(w: World, intent: Text, t: nat, calls: seq<Call>, n: nat, o: Outcome)
    requires n < |calls|
    requires Answers(w, intent, t, calls, n) == Ended(o) <==> CallsEnd(w, intent, t, calls, n, o)
    ensures Answers(w, intent, t, calls, n + 1) == Ended(o) <==> CallsEnd(w, intent, t, calls, n + 1, o)
  {
    NextAnswerEnds(w, intent, t, calls, n, o);
    CallsEndNext(w, intent, t, calls, n, o);
  }

  lemma {:induction false} AnswersEnd(w: World, intent: Text, t: nat, calls: seq<Call>, n: nat, o: Outcome)
    requires n <= |calls|
    ensures Answers(w, intent, t, calls, n) == Ended(o) <==> CallsEnd(w, intent, t, calls, n, o)
  {
    if n > 0 {
      AnswersEnd(w, intent, t, calls, n - 1, o);
      AnswersEndUpTo(w, intent, t, calls, n - 1, o);
    }
  }

  /** The completion has a tool call in it. */
  ghost predicate Calls(content: seq<Block>) {
    exists i :: 0 <= i < |content| && content[i].ToolUse?
  }

  lemma {:induction false} NoCalls(content: seq<Block>)
    ensures ToolCalls(content) == [] <==> !Calls(content)
  {
    if content != [] {
      var before := content[..|content| - 1];
      NoCalls(before);
      assert forall i | 0 <= i < |before| :: content[i] == before[i];
    }
  }

  /** The tool calls of a completion are its tool blocks, each once and in their order. */
  lemma {:induction false} ToolCallsInOrder(content: seq<Block>, i: nat)
    requires i < |content| && content[i].ToolUse?
    ensures var k := |ToolCalls(content[..i])|;
            && k < |ToolCalls(content)| && ToolCalls(content)[k] == content[i].call
            && |ToolCalls(content[..i + 1])| == k + 1
  {
    var n := |content| - 1;
    assert content[..i + 1][..i] == content[..i];
    if i < n {
      ToolCallsInOrder(content[..n], i);
      assert content[..n][..i] == content[..i];
    } else {
      assert content[..i + 1] == content;
    }
  }

  /** What the provider says in turn `t` ends the run with that outcome. */
  ghost predicate ReplyEnds(w: World, maxTurns: nat, intent: Text, t: nat, reply: Result<Completion, Text>,
                            o: Outcome) {
    match reply
    case Err(e) => o == Failed(Provider(e))
    case Ok(completion) =>
      match completion.stopReason
      case MaxTokens => o == Failed(NoPlanProposed)
      case EndTurn =>
        o == Failed(NoPlanProposed)
        && !((exists i :: 0 <= i < |completion.content| && completion.content[i].TextBlock?) && t + 1 < maxTurns)
      case ToolUseStop =>
        if Calls(completion.content) then
          var calls := ToolCalls(completion.content);
          CallsEnd(w, intent, t, calls, |calls|, o)
        else o == Failed(NoPlanProposed)
  }

  lemma TurnEnds(w: World, maxTurns: nat, intent: Text, t: nat, messages: seq<Message>, o: Outcome)
    ensures Turn(w, maxTurns, intent, t, messages) == Done(o)
            <==> ReplyEnds(w, maxTurns, intent, t, w.complete(t, messages), o)
  {
    var reply := w.complete(t, messages);
    if reply.Ok? {
      var calls := ToolCalls(reply.value.content);
      NoCalls(reply.value.content);
      AnswersEnd(w, intent, t, calls, |calls|, o);
    }
  }

  /** The conversation reaches turn `t`, and the completion it gets there ends the run with that outcome. */
  ghost predicate EndsAt(w: World, maxTurns: nat, intent: Text, t: nat, o: Outcome) {
    var head := Run(w, maxTurns, intent, t);
    head.Going? && ReplyEnds(w, maxTurns, intent, t, w.complete(t, head.messages), o)
  }

  ghost predicate EndsBefore(w: World, maxTurns: nat, intent: Text, n: nat, o: Outcome) {
    exists t: nat :: t < n && EndsAt(w, maxTurns, intent, t, o)
  }

  lemma EndsBeforeNext(w: World, maxTurns: nat, intent: Text, n: nat, o: Outcome)
    ensures EndsBefore(w, maxTurns, intent, n + 1, o)
            <==> EndsBefore(w, maxTurns, intent, n, o) || EndsAt(w, maxTurns, intent, n, o)
  {
  }

  lemma NextEnds(w: World, maxTurns: nat, intent: Text, n: nat, o: Outcome)
    ensures Run(w, maxTurns, intent, n + 1) == Done(o)
            <==> Run(w, maxTurns, intent, n) == Done(o) || EndsAt(w, maxTurns, intent, n, o)
  {
    var before := Run(w, maxTurns, intent, n);
    if before.Going? {
      NextHead(w, maxTurns, intent, n, before.messages);
      TurnEnds(w, maxTurns, intent, n, before.messages, o);
    } else {
      assert Run(w, maxTurns, intent, n + 1) == before;
    }
  }

  lemma EndsBeforeNone(w: World, maxTurns: nat, intent: Text, o: Outcome)
    ensures Run(w, maxTurns, intent, 0) != Done(o) && !EndsBefore(w, maxTurns, intent, 0, o)
  {
  }

  lemma {:induction false} RunEnds(w: World, maxTurns: nat, intent: Text, n: nat, o: Outcome)
    ensures Run(w, maxTurns, intent, n) == Done(o) <==> EndsBefore(w, maxTurns, intent, n, o)
  {
    if n == 0 {
      EndsBeforeNone(w, maxTurns, intent, o);
    } else {
      RunEnds(w, maxTurns, intent, n - 1, o);
      EndsUpTo(w, maxTurns, intent, n - 1, o);
    }
  }

  lemma EndsUpTo(w: World, maxTurns: nat, intent: Text, n: nat, o: Outcome)
    requires Run(w, maxTurns, intent, n) == Done(o) <==> EndsBefore(w, maxTurns, intent, n, o)
    ensures Run(w, maxTurns, intent, n + 1) == Done(o) <==> EndsBefore(w, maxTurns, intent, n + 1, o)
  {
    NextEnds(w, maxTurns, intent, n, o);
    EndsBeforeNext(w, maxTurns, intent, n, o);
  }

  /** For every outcome: an admitted run has it exactly when some turn is reached whose completion ends the run
      with it, or when it is `PlannerStuck` and no turn ends the run. */
  lemma EndsExactly(w: World, maxTurns: nat, intent: Text, limiter: Result<(), nat>, o: Outcome)
    requires Admitted(w, intent, limiter)
    ensures Concluded(w, maxTurns, intent, limiter) == o
            <==> || EndsBefore(w, maxTurns, intent, maxTurns, o)
                 || (o == Failed(PlannerStuck) && forall other :: !EndsBefore(w, maxTurns, intent, maxTurns, other))
  {
    RunEnds(w, maxTurns, intent, maxTurns, o);
    var last := Run(w, maxTurns, intent, maxTurns);
    if last.Going? {
      forall other ensures !EndsBefore(w, maxTurns, intent, maxTurns, other) {
        RunEnds(w, maxTurns, intent, maxTurns, other);
      }
    } else {
      RunEnds(w, maxTurns, intent, maxTurns, last.outcome);
    }
  }

  /** The completion that turn `t` gets breaks off, ends in words when no turn is left for a correction, ends without
      words, or stops for tools without calling any. */
  ghost predicate GivesUpAt(w: World, maxTurns: nat, intent: Text, t: nat) {
    var head := Run(w, maxTurns, intent, t);
    head.Going? && w.complete(t, head.messages).Ok? &&
    var c := w.complete(t, head.messages).value;
    || c.stopReason == MaxTokens
    || (c.stopReason == EndTurn && (t + 1 == maxTurns || forall i | 0 <= i < |c.content| :: !c.content[i].TextBlock?))
    || (c.stopReason == ToolUseStop && forall i | 0 <= i < |c.content| :: !c.content[i].ToolUse?)
  }

  lemma GivesUpIsEnd(w: World, maxTurns: nat, intent: Text, t: nat)
    requires t < maxTurns && forall a, b :: w.curatedState(a, b) != Err(NoPlanProposed)
    ensures GivesUpAt(w, maxTurns, intent, t) <==> EndsAt(w, maxTurns, intent, t, Failed(NoPlanProposed))
  {
  }

  /** Without the state client's help the planner reports that no plan was proposed exactly when an admitted run gets
      such a completion: an answer in words is corrected and asked for again as long as a turn is left. */
  lemma NoPlanExactly(w: World, maxTurns: nat, intent: Text, limiter: Result<(), nat>)
    requires forall a, b :: w.curatedState(a, b) != Err(NoPlanProposed)
    ensures Concluded(w, maxTurns, intent, limiter) == Failed(NoPlanProposed)
            <==> Admitted(w, intent, limiter) && exists t: nat :: t < maxTurns && GivesUpAt(w, maxTurns, intent, t)
  {
    if Admitted(w, intent, limiter) {
      EndsExactly(w, maxTurns, intent, limiter, Failed(NoPlanProposed));
      forall t: nat | t < maxTurns
        ensures GivesUpAt(w, maxTurns, intent, t) <==> EndsAt(w, maxTurns, intent, t, Failed(NoPlanProposed))
      {
        GivesUpIsEnd(w, maxTurns, intent, t);
      }
    }
  }

  /** Turn `t` is reached, stops for tools, and dispatches a call that brings in a text inside one of whose
      characters the escape stripper cuts. */
  ghost predicate PanicsAt(w: World, maxTurns: nat, intent: Text, t: nat) {
    exists calls, k: nat ::
      && CallsOfTurn(w, maxTurns, intent, t, calls) && k < |calls| && Reached(w, intent, t, calls, k)
      && Foreign(w, t, k, calls[k]).Some? && !CutsNoCharacter(Foreign(w, t, k, calls[k]).value)
  }

  lemma PanicIsEnd(w: World, maxTurns: nat, intent: Text, t: nat)
    ensures PanicsAt(w, maxTurns, intent, t) <==> EndsAt(w, maxTurns, intent, t, Panicked)
  {
    if EndsAt(w, maxTurns, intent, t, Panicked) {
      var calls := ToolCalls(w.complete(t, Run(w, maxTurns, intent, t).messages).value.content);
      var k: nat :| k < |calls| && EndsAtCall(w, intent, t, calls, k, Panicked);
      assert CallsOfTurn(w, maxTurns, intent, t, calls);
    }
    if PanicsAt(w, maxTurns, intent, t) {
      var calls, k: nat :|
        && CallsOfTurn(w, maxTurns, intent, t, calls) && k < |calls| && Reached(w, intent, t, calls, k)
        && Foreign(w, t, k, calls[k]).Some? && !CutsNoCharacter(Foreign(w, t, k, calls[k]).value);
      assert EndsAtCall(w, intent, t, calls, k, Panicked);
      NoCalls(w.complete(t, Run(w, maxTurns, intent, t).messages).value.content);
    }
  }

  /** The planner panics exactly when an admitted run dispatches a call that brings in a text inside one of
      whose characters the escape stripper cuts. */
  lemma PanicsExactly(w: World, maxTurns: nat, intent: Text, limiter: Result<(), nat>)
    ensures Concluded(w, maxTurns, intent, limiter) == Panicked
            <==> Admitted(w, intent, limiter) && exists t: nat :: t < maxTurns && PanicsAt(w, maxTurns, intent, t)
  {
    if Admitted(w, intent, limiter) {
      EndsExactly(w, maxTurns, intent, limiter, Panicked);
      forall t: nat | t < maxTurns
        ensures PanicsAt(w, maxTurns, intent, t) <==> EndsAt(w, maxTurns, intent, t, Panicked)
      {
        PanicIsEnd(w, maxTurns, intent, t);
      }
    }
  }
}
