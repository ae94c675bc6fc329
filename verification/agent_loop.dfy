/**
 The bounded tool loop that answers one chat prompt. The model API is an oracle
 (`Env.respond`), and so are the network and the code sandbox the tools use;
 the loop itself, the tool gating, the handling of each content item and the
 final update of the session's message list are modelled exactly.
 */
module AgentLoop {
  import opened Wrappers
  import Search
  import PageText

  /** At most this many model calls answer one prompt. */
  const MaxIterations := 5

  datatype Role = User | Assistant

  /** One entry of the conversation sent to the model. */
  datatype Message = Message(role: Role, content: string)

  /** The keys of a tool call's input that the tools read, each absent when the model left it out. */
  datatype ToolInput = ToolInput(query: Option<string>, numResults: Option<int>, url: Option<string>, code: Option<string>)

  /** One content item of a model response. */
  datatype ContentItem =
    | TextItem(text: string)
    | ToolUse(name: string, input: ToolInput)

  /** A model response, or an exception raised by the client call. */
  datatype Reply = Replied(content: seq<ContentItem>) | Raised

  /**
   The world outside the loop:
   `respond` answers call number `n` given the messages and whether tools are offered;
   `searchPage` is the parsed result page for a request URL (`None` when the request raises);
   `fetchPage` is what `read_webpage` obtains for a URL (`None` is a missing `url` key);
   `runCode` is the log text `execute_code` returns.
   */
  datatype Env = Env(
    respond: (nat, seq<Message>, bool) -> Reply,
    searchPage: string -> Option<seq<Search.Container>>,
    fetchPage: Option<string> -> PageText.PageFetch,
    runCode: string -> string)

  /** The state the loop carries from item to item: the local message list and the session's last executed code. */
  datatype State = State(messages: seq<Message>, lastCode: Option<string>)

  /** The outcome of handling some content items: the new state, or an exception, raised after `lastCode` reached the given value. */
  datatype Handled = Done(state: State) | Failed(lastCode: Option<string>)

  /** Told to the model instead of running the same code again. */
  const AlreadyExecuted := "The specified code has already been executed."

  /** The context message that carries a code run's log. */
  function CodeResultBlock(log: string): string {
    "\U{1F4BB} **Code Execution Result**\n```\n" + log + "\n```"
  }

  /** The context message that carries a page's text. */
  function PageContext(url: Option<string>, content: string): string {
    "Content from " + Search.ShowOption(url) + ": " + content
  }

  /** Whether the response asked for any tool (the loop's stopping test). */
  predicate HasToolUse(items: seq<ContentItem>) {
    exists k :: 0 <= k < |items| && items[k].ToolUse?
  }

  /** A truthy code string. */
  predicate RunnableCode(code: Option<string>) {
    code.Some? && code.value != ""
  }

  /** The item is a call of the named tool. */
  predicate IsTool(item: ContentItem, name: string) {
    item.ToolUse? && item.name == name
  }

  /** The state with one more message at the end of the local list. */
  function Appended(st: State, m: Message): State {
    State(st.messages + [m], st.lastCode)
  }

  /**
   Handling of one content item: a text is kept as an assistant message; each
   known tool adds at most one user message with its output; only a web search
   can raise (a missing query makes `quote` raise, and so does a failed request).
   */
  function HandleItem(env: Env, item: ContentItem, st: State): (r: Handled)
    ensures r.Done? ==> |st.messages| <= |r.state.messages| <= |st.messages| + 1
    ensures r.Done? ==> r.state.messages[..|st.messages|] == st.messages
    ensures item.TextItem? ==> r == Done(State(st.messages + [Message(Assistant, item.text)], st.lastCode))
    ensures r.Failed? ==> item.ToolUse? && item.name == "web_search" && r.lastCode == st.lastCode
    ensures r.Done? && r.state.lastCode != st.lastCode ==>
      item.ToolUse? && item.name == "execute_code" && RunnableCode(item.input.code) && r.state.lastCode == item.input.code
    // web_search: the search block of the query and its results, or an exception without a query or a page
    ensures IsTool(item, "web_search") ==> var q := item.input.query;
      if q.None? || env.searchPage(Search.SearchUrl(q.value)).None? then r == Failed(st.lastCode)
      else
        var results := Search.ExtractResults(env.searchPage(Search.SearchUrl(q.value)).value,
                                             item.input.numResults.GetOr(Search.DefaultNumResults));
        r == Done(Appended(st, Message(User, Search.SearchBlock(q.value, results))))
    // read_webpage: the text read from the URL, introduced by the URL
    ensures IsTool(item, "read_webpage") ==>
      r == Done(Appended(st, Message(User, PageContext(item.input.url, PageText.ReadWebpage(env.fetchPage(item.input.url))))))
    // execute_code: nothing without code; the dedup notice for the last code run; otherwise the run's log, and the code is remembered
    ensures IsTool(item, "execute_code") && !RunnableCode(item.input.code) ==> r == Done(st)
    ensures IsTool(item, "execute_code") && RunnableCode(item.input.code) && st.lastCode == item.input.code ==>
      r == Done(Appended(st, Message(User, AlreadyExecuted)))
    ensures IsTool(item, "execute_code") && RunnableCode(item.input.code) && st.lastCode != item.input.code ==>
      r == Done(State(st.messages + [Message(User, CodeResultBlock(env.runCode(item.input.code.value)))], item.input.code))
    // any other tool name: nothing happens
    ensures item.ToolUse? && item.name !in {"web_search", "read_webpage", "execute_code"} ==> r == Done(st)
  {
    match item
    case TextItem(t) => Done(State(st.messages + [Message(Assistant, t)], st.lastCode))
    case ToolUse(name, input) =>
      if name == "web_search" then
        match input.query
        case None => Failed(st.lastCode)
        case Some(q) =>
          match env.searchPage(Search.SearchUrl(q))
          case None => Failed(st.lastCode)
          case Some(cs) =>
            var results := Search.ExtractResults(cs, input.numResults.GetOr(Search.DefaultNumResults));
            Done(State(st.messages + [Message(User, Search.SearchBlock(q, results))], st.lastCode))
      else if name == "read_webpage" then
        var content := PageText.ReadWebpage(env.fetchPage(input.url));
        Done(State(st.messages + [Message(User, PageContext(input.url, content))], st.lastCode))
      else if name == "execute_code" then
        if !RunnableCode(input.code) then Done(st)
        else if st.lastCode == input.code then
          Done(State(st.messages + [Message(User, AlreadyExecuted)], st.lastCode))
        else
          Done(State(st.messages + [Message(User, CodeResultBlock(env.runCode(input.code.value)))], input.code))
      else
        Done(st)
  }

  /** The content items of one response, handled in order; an exception stops the handling. */
  function HandleItems(env: Env, items: seq<ContentItem>, st: State): (r: Handled)
    ensures r.Done? ==> |st.messages| <= |r.state.messages| <= |st.messages| + |items|
    ensures r.Done? ==> r.state.messages[..|st.messages|] == st.messages
  {
    if items == [] then Done(st)
    else
      match HandleItem(env, items[0], st)
      case Failed(lc) => Failed(lc)
      case Done(next) => HandleItems(env, items[1..], next)
  }

  /** One model call as the loop made it. */
  datatype Call = Call(number: nat, toolsOffered: bool, sent: seq<Message>, reply: Reply)

  /** The loop stops after a call whose response asked for no tool. */
  predicate AskedForTools(c: Call) {
    c.reply.Replied? && HasToolUse(c.reply.content)
  }

  /** How the loop ended: normally with its final state, or by an exception. Either way, with the calls it made. */
  datatype Outcome =
    | Completed(state: State, calls: seq<Call>)
    | Aborted(lastCode: Option<string>, calls: seq<Call>)

  function WithFirstCall(c: Call, o: Outcome): Outcome {
    match o
    case Completed(st, calls) => Completed(st, [c] + calls)
    case Aborted(lc, calls) => Aborted(lc, [c] + calls)
  }

  /** Call number `count + 1`: it offers the tools only while its number is below `MaxIterations - 1`. */
  function CallAt(respond: Responder, st: State, count: nat): Call {
    var number := count + 1;
    var offered := number < MaxIterations - 1;
    Call(number, offered, st.messages, respond(number, st.messages, offered))
  }

  /** The handling of a whole reply: an exception of the client call, or its items in order. */
  function HandleReply(env: Env, reply: Reply, st: State): Handled {
    match reply
    case Raised => Failed(st.lastCode)
    case Replied(items) => HandleItems(env, items, st)
  }

  /** The model API: the reply to call number `n`, given the messages and whether the tools are offered. */
  type Responder = (nat, seq<Message>, bool) -> Reply

  /** What is done with a reply in the state the loop is in. */
  type Handler = (Reply, State) -> Handled

  /** The handler the application uses. */
  function AppHandler(env: Env): Handler {
    (reply: Reply, st: State) => HandleReply(env, reply, st)
  }

  /** Handling `reply` in `st`, when it succeeds, only appends messages. */
  predicate AppendsOn(handle: Handler, reply: Reply, st: State) {
    handle(reply, st).Done? ==> Extends(handle(reply, st).state.messages, st.messages)
  }

  /** A handler that only ever appends messages. */
  ghost predicate OnlyAppends(handle: Handler) {
    forall reply, st :: AppendsOn(handle, reply, st)
  }

  /**
   The loop from `count` calls made so far: the next call is made, its reply
   handled, and the loop goes on only when a tool was asked for and the bound
   is not reached. The loop is written for any reply handler; `HandlePrompt`
   runs it with the application's.
   */
  function RunLoop(respond: Responder, handle: Handler, st: State, count: nat): (o: Outcome)
    decreases MaxIterations - count
  {
    if count >= MaxIterations then Completed(st, [])
    else
      var call := CallAt(respond, st, count);
      match handle(call.reply, st)
      case Failed(lc) => Aborted(lc, [call])
      case Done(next) =>
        if !AskedForTools(call) then Completed(next, [call])
        else WithFirstCall(call, RunLoop(respond, handle, next, count + 1))
  }

  /** The session state that outlives one prompt. */
  datatype Session = Session(messages: seq<Message>, lastCode: Option<string>)

  /**
   One prompt: an empty prompt does nothing. Otherwise the user message is added to the session, the loop runs on a copy,
   and on normal completion the messages the loop added are appended to the session.
   After an exception the session keeps only the prompt, but the last executed
   code, which lives in the session, keeps whatever the loop stored.
   */
  function HandlePrompt(env: Env, s: Session, prompt: string): (r: (Session, Outcome))
  {
    if prompt == "" then (s, Completed(State(s.messages, s.lastCode), [])) else
    var start := s.messages + [Message(User, prompt)];
    var o := RunLoop(env.respond, AppHandler(env), State(start, s.lastCode), 0);
    match o
    case Completed(st, _) =>
      AppHandlerOnlyAppends(env);
      LoopFinalExtends(env.respond, AppHandler(env), State(start, s.lastCode), 0);
      (Session(start + st.messages[|start|..], st.lastCode), o)
    case Aborted(lc, _) => (Session(start, lc), o)
  }

  // ---------------------------------------------------------------------------
  // Properties of the loop

  /** `a` is a prefix of `b`. */
  predicate Extends(b: seq<Message>, a: seq<Message>) {
    |a| <= |b| && b[..|a|] == a
  }

  /** The loop goes on after a call exactly when the call's items were handled and it asked for tools. */
  predicate Continues(respond: Responder, handle: Handler, st: State, count: nat) {
    count < MaxIterations && handle(CallAt(respond, st, count).reply, st).Done? && AskedForTools(CallAt(respond, st, count))
  }

  /** The state the next iteration starts from. */
  function NextState(respond: Responder, handle: Handler, st: State, count: nat): State
    requires Continues(respond, handle, st, count)
  {
    handle(CallAt(respond, st, count).reply, st).state
  }

  /** One turn of the loop that goes on: this call, then the calls of the rest of the loop. */
  lemma LoopStep(respond: Responder, handle: Handler, st: State, count: nat)
    requires Continues(respond, handle, st, count)
    ensures RunLoop(respond, handle, st, count) == WithFirstCall(CallAt(respond, st, count), RunLoop(respond, handle, NextState(respond, handle, st, count), count + 1))
    ensures RunLoop(respond, handle, st, count).calls == [CallAt(respond, st, count)] + RunLoop(respond, handle, NextState(respond, handle, st, count), count + 1).calls
    ensures RunLoop(respond, handle, st, count).Completed? == RunLoop(respond, handle, NextState(respond, handle, st, count), count + 1).Completed?
    ensures RunLoop(respond, handle, st, count).Completed? ==> RunLoop(respond, handle, st, count).state == RunLoop(respond, handle, NextState(respond, handle, st, count), count + 1).state
  {
  }

  /** A turn of the loop that stops: this call is the last one. */
  lemma LoopHalts(respond: Responder, handle: Handler, st: State, count: nat)
    requires count < MaxIterations && !Continues(respond, handle, st, count)
    ensures RunLoop(respond, handle, st, count).calls == [CallAt(respond, st, count)]
    ensures RunLoop(respond, handle, st, count).Completed? ==>
      && handle(CallAt(respond, st, count).reply, st).Done?
      && !AskedForTools(CallAt(respond, st, count))
      && RunLoop(respond, handle, st, count).state == handle(CallAt(respond, st, count).reply, st).state
  {
  }

  /** The calls are numbered `first`, `first + 1`, ... */
  predicate NumberedFrom(calls: seq<Call>, first: nat) {
    forall i :: 0 <= i < |calls| ==> calls[i].number == first + i
  }

  /** Call numbers run on from `count + 1`, and there are no more than the bound leaves. */
  lemma {:induction false} LoopCallNumbers(respond: Responder, handle: Handler, st: State, count: nat)
    ensures var calls := RunLoop(respond, handle, st, count).calls;
      && |calls| <= (if count >= MaxIterations then 0 else MaxIterations - count)
      && (count < MaxIterations ==> |calls| >= 1)
      && NumberedFrom(calls, count + 1)
    decreases MaxIterations - count
  {
    if Continues(respond, handle, st, count) {
      LoopStep(respond, handle, st, count);
      LoopCallNumbers(respond, handle, NextState(respond, handle, st, count), count + 1);
      NumberedStep(CallAt(respond, st, count), RunLoop(respond, handle, NextState(respond, handle, st, count), count + 1).calls);
    } else if count < MaxIterations {
      LoopHalts(respond, handle, st, count);
    }
  }

  lemma NumberedStep(call: Call, rest: seq<Call>)
    requires NumberedFrom(rest, call.number + 1)
    ensures NumberedFrom([call] + rest, call.number)
  {
    var calls := [call] + rest;
    forall i | 0 < i < |calls| ensures calls[i] == rest[i - 1] {
    }
  }

  /** A call offers the tools exactly when its number is below `MaxIterations - 1`. */
  predicate Gated(c: Call) {
    c.toolsOffered <==> c.number < MaxIterations - 1
  }

  /** Each call offers the tools exactly when its number is below `MaxIterations - 1`. */
  lemma {:induction false} LoopToolGating(respond: Responder, handle: Handler, st: State, count: nat)
    ensures var calls := RunLoop(respond, handle, st, count).calls;
      forall i :: 0 <= i < |calls| ==> Gated(calls[i])
    decreases MaxIterations - count
  {
    var call := CallAt(respond, st, count);
    assert Gated(call);
    if Continues(respond, handle, st, count) {
      var next := NextState(respond, handle, st, count);
      LoopStep(respond, handle, st, count);
      LoopToolGating(respond, handle, next, count + 1);
      GatedStep(call, RunLoop(respond, handle, next, count + 1).calls);
    } else if count < MaxIterations {
      LoopHalts(respond, handle, st, count);
    }
  }

  lemma GatedStep(call: Call, rest: seq<Call>)
    requires Gated(call) && forall i :: 0 <= i < |rest| ==> Gated(rest[i])
    ensures forall i :: 0 <= i < |[call] + rest| ==> Gated(([call] + rest)[i])
  {
    var calls := [call] + rest;
    forall i | 0 < i < |calls| ensures calls[i] == rest[i - 1] {
    }
  }

  /** Every call but the last asked for tools. */
  predicate OnlyLastAnswers(calls: seq<Call>) {
    forall i :: 0 <= i < |calls| - 1 ==> AskedForTools(calls[i])
  }

  /** A last call made before the bound did not ask for tools. */
  predicate EndsOnAnswer(calls: seq<Call>) {
    |calls| > 0 && calls[|calls| - 1].number < MaxIterations ==> !AskedForTools(calls[|calls| - 1])
  }

  /** The loop goes on only after a tool request: every call but the last asked for tools. */
  lemma {:induction false} LoopOnlyLastAnswers(respond: Responder, handle: Handler, st: State, count: nat)
    ensures OnlyLastAnswers(RunLoop(respond, handle, st, count).calls)
    decreases MaxIterations - count
  {
    if Continues(respond, handle, st, count) {
      LoopStep(respond, handle, st, count);
      LoopOnlyLastAnswers(respond, handle, NextState(respond, handle, st, count), count + 1);
      var rest := RunLoop(respond, handle, NextState(respond, handle, st, count), count + 1).calls;
      var calls := RunLoop(respond, handle, st, count).calls;
      forall i | 0 <= i < |calls| - 1 ensures AskedForTools(calls[i]) {
        if i > 0 {
          assert calls[i] == rest[i - 1];
        }
      }
    } else if count < MaxIterations {
      LoopHalts(respond, handle, st, count);
    }
  }

  /** A normal end before the bound comes from a response without a tool request. */
  lemma {:induction false} LoopEndsOnAnswer(respond: Responder, handle: Handler, st: State, count: nat)
    ensures RunLoop(respond, handle, st, count).Completed? ==> EndsOnAnswer(RunLoop(respond, handle, st, count).calls)
    decreases MaxIterations - count
  {
    if Continues(respond, handle, st, count) {
      LoopStep(respond, handle, st, count);
      LoopEndsOnAnswer(respond, handle, NextState(respond, handle, st, count), count + 1);
      LoopCallNumbers(respond, handle, NextState(respond, handle, st, count), count + 1);
      var rest := RunLoop(respond, handle, NextState(respond, handle, st, count), count + 1).calls;
      var calls := RunLoop(respond, handle, st, count).calls;
      if rest != [] {
        assert calls[|calls| - 1] == rest[|rest| - 1];
      } else {
        assert count + 1 >= MaxIterations;
        assert calls == [CallAt(respond, st, count)];
      }
    } else if count < MaxIterations {
      LoopHalts(respond, handle, st, count);
    }
  }

  /** Each call sends an extension of the starting list and of the previous call's list. */
  predicate SentGrow(calls: seq<Call>, start: seq<Message>) {
    && (forall i :: 0 <= i < |calls| ==> Extends(calls[i].sent, start))
    && (forall i :: 0 <= i < |calls| - 1 ==> Extends(calls[i + 1].sent, calls[i].sent))
  }

  /** Through one extension, every extension of the longer list extends the shorter. */
  lemma ExtendsTrans(mid: seq<Message>, a: seq<Message>)
    requires Extends(mid, a)
    ensures forall b :: Extends(b, mid) ==> Extends(b, a)
  {
    forall b | Extends(b, mid) ensures Extends(b, a) {
      assert b[..|a|] == b[..|mid|][..|a|];
    }
  }

  /** The application's handler only appends messages. */
  lemma AppHandlerOnlyAppends(env: Env)
    ensures OnlyAppends(AppHandler(env))
  {
    forall reply, st ensures AppendsOn(AppHandler(env), reply, st) {
    }
  }

  /** The next state's messages extend the current ones. */
  lemma NextStateExtends(respond: Responder, handle: Handler, st: State, count: nat)
    requires OnlyAppends(handle)
    requires Continues(respond, handle, st, count)
    ensures Extends(NextState(respond, handle, st, count).messages, st.messages)
  {
    assert AppendsOn(handle, CallAt(respond, st, count).reply, st);
  }

  /** The messages only grow from call to call. */
  lemma {:induction false} LoopSentGrow(respond: Responder, handle: Handler, st: State, count: nat)
    requires OnlyAppends(handle)
    ensures SentGrow(RunLoop(respond, handle, st, count).calls, st.messages)
    ensures RunLoop(respond, handle, st, count).calls != [] ==> RunLoop(respond, handle, st, count).calls[0].sent == st.messages
    decreases MaxIterations - count
  {
    if Continues(respond, handle, st, count) {
      var next := NextState(respond, handle, st, count);
      LoopStep(respond, handle, st, count);
      LoopSentGrow(respond, handle, next, count + 1);
      NextStateExtends(respond, handle, st, count);
      SentGrowStep(CallAt(respond, st, count), RunLoop(respond, handle, next, count + 1).calls, st.messages, next.messages);
    } else if count < MaxIterations {
      LoopHalts(respond, handle, st, count);
    }
  }

  lemma SentGrowStep(call: Call, rest: seq<Call>, start: seq<Message>, next: seq<Message>)
    requires call.sent == start && Extends(next, start)
    requires SentGrow(rest, next) && (rest != [] ==> rest[0].sent == next)
    ensures SentGrow([call] + rest, start)
  {
    var calls := [call] + rest;
    ExtendsTrans(next, start);
    forall i | 0 < i < |calls| ensures calls[i] == rest[i - 1] {
    }
  }

  /** On a normal end the final list extends the starting list and every list a call sent. */
  lemma {:induction false} LoopFinalExtends(respond: Responder, handle: Handler, st: State, count: nat)
    requires OnlyAppends(handle)
    ensures var o := RunLoop(respond, handle, st, count);
      o.Completed? ==> Extends(o.state.messages, st.messages) && forall i :: 0 <= i < |o.calls| ==> Extends(o.state.messages, o.calls[i].sent)
    decreases MaxIterations - count
  {
    if Continues(respond, handle, st, count) {
      var next := NextState(respond, handle, st, count);
      LoopStep(respond, handle, st, count);
      LoopFinalExtends(respond, handle, next, count + 1);
      NextStateExtends(respond, handle, st, count);
      var o := RunLoop(respond, handle, next, count + 1);
      if o.Completed? {
        FinalStep(CallAt(respond, st, count), o.calls, st.messages, next.messages, o.state.messages);
      }
    } else if count < MaxIterations {
      LoopHalts(respond, handle, st, count);
      assert AppendsOn(handle, CallAt(respond, st, count).reply, st);
    }
  }

  lemma FinalStep(call: Call, rest: seq<Call>, start: seq<Message>, next: seq<Message>, final: seq<Message>)
    requires call.sent == start && Extends(next, start) && Extends(final, next)
    requires forall i :: 0 <= i < |rest| ==> Extends(final, rest[i].sent)
    ensures Extends(final, start)
    ensures forall i :: 0 <= i < |[call] + rest| ==> Extends(final, ([call] + rest)[i].sent)
  {
    var calls := [call] + rest;
    ExtendsTrans(next, start);
    forall i | 0 < i < |calls| ensures calls[i] == rest[i - 1] {
    }
  }

  // ---------------------------------------------------------------------------
  // Properties of one prompt

  /** An empty prompt makes no call. Otherwise: one to five calls, numbered 1, 2, ...; the tools are offered on calls 1 to 3 only; the loop stops at the first answer without a tool request. */
  lemma PromptCalls(env: Env, s: Session, prompt: string)
    ensures prompt == "" ==> HandlePrompt(env, s, prompt).1.calls == []
    ensures var calls := HandlePrompt(env, s, prompt).1.calls;
      prompt != "" ==>
      && 1 <= |calls| <= MaxIterations
      && (forall i :: 0 <= i < |calls| ==> calls[i].number == i + 1)
      && (forall i :: 0 <= i < |calls| ==> (calls[i].toolsOffered <==> i < 3))
      && OnlyLastAnswers(calls)
      && (HandlePrompt(env, s, prompt).1.Completed? ==> EndsOnAnswer(calls))
  {
    if prompt != "" {
      var start := State(s.messages + [Message(User, prompt)], s.lastCode);
      var o := RunLoop(env.respond, AppHandler(env), start, 0);
      assert HandlePrompt(env, s, prompt).1 == o;
      LoopCallNumbers(env.respond, AppHandler(env), start, 0);
      LoopToolGating(env.respond, AppHandler(env), start, 0);
      LoopOnlyLastAnswers(env.respond, AppHandler(env), start, 0);
      LoopEndsOnAnswer(env.respond, AppHandler(env), start, 0);
      forall i | 0 <= i < |o.calls| ensures o.calls[i].toolsOffered <==> i < 3 {
        assert Gated(o.calls[i]);
      }
    }
  }

  /**
   An empty prompt leaves the session as it is. For any other prompt: after a normal end the session's list is the loop's local list, which extends
   the old list followed by the prompt; after an exception it is the old list
   followed by the prompt. Every call sent an extension of that list, the first
   call exactly that list.
   */
  lemma PromptSession(env: Env, s: Session, prompt: string)
    ensures prompt == "" ==> HandlePrompt(env, s, prompt).0 == s
    ensures var (after, o) := HandlePrompt(env, s, prompt);
      var start := s.messages + [Message(User, prompt)];
      prompt != "" ==>
      && (o.Completed? ==> after.messages == o.state.messages && after.lastCode == o.state.lastCode)
      && (o.Completed? ==> Extends(after.messages, start))
      && (o.Aborted? ==> after.messages == start && after.lastCode == o.lastCode)
      && o.calls != [] && o.calls[0].sent == start
      && (forall i :: 0 <= i < |o.calls| ==> Extends(o.calls[i].sent, start))
  {
    var start := s.messages + [Message(User, prompt)];
    var st := State(start, s.lastCode);
    AppHandlerOnlyAppends(env);
    LoopSentGrow(env.respond, AppHandler(env), st, 0);
    LoopFinalExtends(env.respond, AppHandler(env), st, 0);
    LoopCallNumbers(env.respond, AppHandler(env), st, 0);
    var o := RunLoop(env.respond, AppHandler(env), st, 0);
    assert o.calls[0].sent == start;
    if o.Completed? {
      var m := o.state.messages;
      assert m == start + m[|start|..];
    }
  }

  /** The assistant messages of a text-only response, in order. */
  function AssistantTexts(items: seq<ContentItem>): (ms: seq<Message>)
    requires forall k :: 0 <= k < |items| ==> items[k].TextItem?
  {
    seq(|items|, k requires 0 <= k < |items| => Message(Assistant, items[k].text))
  }

  /** A response made only of text appends its texts, in order, as assistant messages, and leaves the last executed code alone. */
  lemma {:induction false} TextOnlyReply(env: Env, items: seq<ContentItem>, st: State)
    requires forall k :: 0 <= k < |items| ==> items[k].TextItem?
    ensures !HasToolUse(items)
    ensures HandleItems(env, items, st) == Done(State(st.messages + AssistantTexts(items), st.lastCode))
    decreases |items|
  {
    if items != [] {
      var next := State(st.messages + [Message(Assistant, items[0].text)], st.lastCode);
      TextOnlyReply(env, items[1..], next);
      assert AssistantTexts(items) == [Message(Assistant, items[0].text)] + AssistantTexts(items[1..]);
    }
  }

  /** The same code requested twice in a row is run once; the second request only tells the model it already ran. */
  lemma SameCodeTwice(env: Env, input: ToolInput, st: State)
    requires RunnableCode(input.code) && st.lastCode != input.code
    ensures var items := [ToolUse("execute_code", input), ToolUse("execute_code", input)];
      HandleItems(env, items, st) ==
        Done(State(st.messages + [Message(User, CodeResultBlock(env.runCode(input.code.value))), Message(User, AlreadyExecuted)], input.code))
  {
    var items := [ToolUse("execute_code", input), ToolUse("execute_code", input)];
    var first := State(st.messages + [Message(User, CodeResultBlock(env.runCode(input.code.value)))], input.code);
    assert HandleItem(env, items[0], st) == Done(first);
    assert items[1..] == [ToolUse("execute_code", input)];
    assert HandleItems(env, items[1..], first) == HandleItems(env, [], State(first.messages + [Message(User, AlreadyExecuted)], input.code));
  }
}
