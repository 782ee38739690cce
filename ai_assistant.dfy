/**
 * The chat-history and completion bookkeeping of Noa's OpenAI client (AIAssistant.swift).
 *
 * The request payload's `messages` array is a sequence of role/content pairs whose
 * first element is always the system prompt. Networking is abstract: a started
 * `URLSessionTask` is its task identifier, responses arrive as already-parsed bodies,
 * and calling a completion handler appends a `Delivery` to a log. Each `send` owns
 * one completion handler, identified by a call number.
 */
module AIAssistant {
  import opened Wrappers

  /** Conservative context limit (line 25). */
  const MaxTokens: int := 2000

  const DefaultModel: string := "gpt-3.5-turbo"

  /** The system prompts of lines 35-36. */
  const AssistantPrompt: string :=
    "You are a smart assistant that answers all user queries, questions, and statements with a single sentence."
  const TranslatorPrompt: string :=
    "You are a smart assistant that translates user input to English. Translate as faithfully as you can and do not add any other commentary."

  /** `NetworkConfiguration` (lines 12-16). */
  datatype NetworkConfiguration = Normal | BackgroundData | BackgroundUpload

  /** `Mode` (lines 19-22). */
  datatype Mode = AssistantMode | TranslatorMode

  datatype Role = System | User | Assistant

  /** One `["role": ..., "content": ...]` dictionary of `payload["messages"]`. */
  datatype Message = Message(role: Role, content: string)

  /** The `AIError` cases the assistant reports. */
  datatype AIError =
    | DataFormatError
    | ApiError(message: string)
    | ResponsePayloadParseError
    | ClientSideNetworkError
    | UrlAuthenticationFailed

  /**
   * A response body as `JSONSerialization` sees it: not JSON at all, JSON that is not
   * an object, or an object with its optional `error.message`, first choice's
   * `message.content` and `usage.total_tokens`.
   */
  datatype ResponseBody =
    | Malformed
    | NonObject
    | Object(errorMessage: Option<string>, content: Option<string>, totalTokens: Option<int>)

  /** What `extractContent` returns: the JSON it keeps, an error and the content. */
  datatype Extracted = Extracted(json: Option<ResponseBody>, error: Option<AIError>, content: Option<string>)

  /** One call of a completion handler: the `send` it belongs to and its two arguments. */
  datatype Delivery = Delivery(call: nat, text: string, error: Option<AIError>)

  /**
   * A task handed to the session: a chat request with its task, the model and the
   * messages it carries, or the data task started for a redirect of task `from`
   * (which carries the platform's redirected request, not modelled).
   */
  datatype Request =
    | Request(task: int, model: string, messages: seq<Message>)
    | Redirect(task: int, from: int)

  function PromptFor(mode: Mode): string {
    if mode == AssistantMode then AssistantPrompt else TranslatorPrompt
  }

  /**
   * `extractContent` (lines 148-170). A body that is not JSON is a parse error; an
   * object carrying an error message is an API error and keeps the JSON; an object
   * carrying content yields it and keeps the JSON; anything else is an unknown API
   * error and drops the JSON.
   */
  function ExtractContent(body: ResponseBody): (r: Extracted)
    ensures r.content.Some? <==> r.error.None?
    ensures r.json.Some? <==> body.Object? && (body.errorMessage.Some? || body.content.Some?)
    ensures r.json.Some? ==> r.json.value == body
    ensures body.Malformed? ==> r.error == Some(ResponsePayloadParseError)
    ensures body.Object? && body.errorMessage.Some? ==> r.error == Some(ApiError(body.errorMessage.value))
    ensures body.Object? && body.errorMessage.None? && body.content.Some? ==> r.content == body.content
  {
    match body
    case Malformed => Extracted(None, Some(ResponsePayloadParseError), None)
    case Object(Some(message), _, _) => Extracted(Some(body), Some(ApiError(message)), None)
    case Object(None, Some(content), _) => Extracted(Some(body), None, Some(content))
    case _ => Extracted(None, Some(ApiError("Unknown error occurred")), None)
  }

  /** `extractTotalTokensUsed` (lines 173-180): the reported total, or 0 when there is none. */
  function ExtractTotalTokensUsed(json: Option<ResponseBody>): (tokens: int)
    ensures json.Some? && json.value.Object? && json.value.totalTokens.Some? ==> tokens == json.value.totalTokens.value
    ensures !(json.Some? && json.value.Object? && json.value.totalTokens.Some?) ==> tokens == 0
  {
    match json
    case Some(Object(_, _, Some(total))) => total
    case _ => 0
  }

  /** A response whose body yields no content never counts any tokens, whatever its `usage` says. */
  lemma UnknownResponseCountsNoTokens(body: ResponseBody)
    requires !(body.Object? && (body.errorMessage.Some? || body.content.Some?))
    ensures ExtractTotalTokensUsed(ExtractContent(body).json) == 0
  {
  }

  /** `clearHistory` (lines 76-83): only the system message is kept. */
  function Cleared(messages: seq<Message>): (r: seq<Message>)
    requires |messages| >= 1
    ensures |r| == 1 && r[0] == messages[0]
    ensures |messages| == 1 ==> r == messages
  {
    if |messages| > 1 then messages[..1] else messages
  }

  /** `setSystemPrompt` (lines 123-129): only the content of the first message changes. */
  function WithSystemPrompt(messages: seq<Message>, mode: Mode): (r: seq<Message>)
    requires |messages| >= 1
    ensures |r| == |messages| && r[0].role == messages[0].role && r[0].content == PromptFor(mode)
    ensures forall i | 1 <= i < |r| :: r[i] == messages[i]
  {
    messages[0 := messages[0].(content := PromptFor(mode))]
  }

  /**
   * The history effect of a data response (lines 298-313): when the reported tokens
   * reach the limit the history is cleared and the response dropped; otherwise a
   * response with content is appended as the assistant's turn.
   */
  function HistoryAfterResponse(messages: seq<Message>, body: ResponseBody): (r: seq<Message>)
    requires |messages| >= 1
    ensures var e := ExtractContent(body);
      && (ExtractTotalTokensUsed(e.json) >= MaxTokens ==> r == Cleared(messages))
      && (ExtractTotalTokensUsed(e.json) < MaxTokens && e.content.Some? ==>
            r == messages + [Message(Assistant, e.content.value)])
      && (ExtractTotalTokensUsed(e.json) < MaxTokens && e.content.None? ==> r == messages)
  {
    var e := ExtractContent(body);
    if ExtractTotalTokensUsed(e.json) >= MaxTokens then Cleared(messages)
    else if e.content.Some? then messages + [Message(Assistant, e.content.value)]
    else messages
  }

  /** Whatever the response, the system message stays first. */
  lemma ResponseKeepsSystemMessage(messages: seq<Message>, body: ResponseBody)
    requires |messages| >= 1
    ensures |HistoryAfterResponse(messages, body)| >= 1
    ensures HistoryAfterResponse(messages, body)[0] == messages[0]
  {
  }

  /** A response reporting at least 2000 tokens leaves only the system message, and the response content is not kept. */
  lemma TokenLimitResets(messages: seq<Message>, errorMessage: Option<string>, content: Option<string>, total: int)
    requires |messages| >= 1 && total >= MaxTokens && (errorMessage.Some? || content.Some?)
    ensures HistoryAfterResponse(messages, Object(errorMessage, content, Some(total))) == [messages[0]]
  {
  }

  /** `completionByTask[old]` moves to `new`; every other task keeps its handler. */
  function Redirected(completions: map<int, nat>, oldTask: int, newTask: int): (r: map<int, nat>)
    ensures oldTask in completions ==> r.Keys == completions.Keys - {oldTask} + {newTask}
    ensures oldTask in completions ==> r[newTask] == completions[oldTask]
    ensures forall t | t in r && t != newTask :: t in completions && r[t] == completions[t]
    ensures oldTask !in completions ==> r == completions
  {
    if oldTask in completions then (completions - {oldTask})[newTask := completions[oldTask]] else completions
  }

  /** No two tasks hold the same handler. */
  ghost predicate Injective(completions: map<int, nat>) {
    forall t, u | t in completions && u in completions && t != u :: completions[t] != completions[u]
  }

  /** A redirect keeps the handlers distinct. */
  lemma RedirectKeepsInjective(completions: map<int, nat>, oldTask: int, newTask: int)
    requires Injective(completions)
    ensures Injective(Redirected(completions, oldTask, newTask))
  {
    var r := Redirected(completions, oldTask, newTask);
    forall t, u | t in r && u in r && t != u
      ensures r[t] != r[u]
    {
      if oldTask in completions {
        if t == newTask {
          assert r[u] == completions[u] && u != oldTask;
        } else if u == newTask {
          assert r[t] == completions[t] && t != oldTask;
        }
      }
    }
  }

  /** Some element of a non-empty set of task identifiers: Swift's dictionary order is unspecified. */
  method AnyTask(tasks: set<int>) returns (task: int)
    requires tasks != {}
    ensures task in tasks
  {
    NoTasksMeansEmpty(tasks);
    task :| task in tasks;
  }

  lemma NoTasksMeansEmpty(tasks: set<int>)
    ensures (forall t :: t !in tasks) ==> tasks == {}
  {
    if forall t :: t !in tasks {
      assert forall t :: t in tasks <==> t in {};
    }
  }

  class Assistant {
    /** Whether the session was configured for background uploads through a temporary file (lines 56-58). */
    const usesTempFile: bool

    var model: string
    var messages: seq<Message>
    var completionByTask: map<int, nat>

    /** Handler calls, oldest first. */
    var deliveries: seq<Delivery>
    /** Tasks handed to the session, oldest first. */
    var requests: seq<Request>
    /** Number of `send` calls so far; call k owns handler k. */
    var calls: nat

    ghost predicate Valid()
      reads this
    {
      && |messages| >= 1 && messages[0].role == System
      && Injective(completionByTask)
      && (forall t | t in completionByTask :: completionByTask[t] < calls)
      // a stored handler has not been called yet
      && (forall t, i | t in completionByTask && 0 <= i < |deliveries| :: deliveries[i].call != completionByTask[t])
      // and no handler is called twice
      && (forall i, j | 0 <= i < j < |deliveries| :: deliveries[i].call != deliveries[j].call)
      && (forall i | 0 <= i < |deliveries| :: deliveries[i].call < calls)
    }

    /** `init` (lines 45-49): the model and an empty system message, no outstanding task. */
    constructor (configuration: NetworkConfiguration, model: string)
      ensures Valid()
      ensures usesTempFile == (configuration == BackgroundUpload)
      ensures this.model == model && messages == [Message(System, "")]
      ensures completionByTask == map[] && deliveries == [] && requests == [] && calls == 0
    {
      usesTempFile := configuration == BackgroundUpload;
      this.model := model;
      messages := [Message(System, "")];
      completionByTask := map[];
      deliveries := [];
      requests := [];
      calls := 0;
    }

    /** `clearHistory` (lines 76-83). */
    method ClearHistory()
      requires Valid()
      modifies this`messages
      ensures Valid()
      ensures messages == Cleared(old(messages))
    {
      if |messages| > 1 {
        messages := messages[..1];
      }
    }

    /** `setSystemPrompt` (lines 123-129). */
    method SetSystemPrompt(mode: Mode)
      requires Valid()
      modifies this`messages
      ensures Valid()
      ensures messages == WithSystemPrompt(old(messages), mode)
    {
      messages := messages[0 := messages[0].(content := PromptFor(mode))];
    }

    /** `appendUserQueryToChatSession` (lines 132-137). */
    method AppendUserQuery(query: string)
      requires Valid()
      modifies this`messages
      ensures Valid()
      ensures messages == old(messages) + [Message(User, query)]
    {
      messages := messages + [Message(User, query)];
    }

    /** `appendAIResponseToChatSession` (lines 140-145). */
    method AppendAIResponse(response: string)
      requires Valid()
      modifies this`messages
      ensures Valid()
      ensures messages == old(messages) + [Message(Assistant, response)]
    {
      messages := messages + [Message(Assistant, response)];
    }

    /** Calls handler `call` once with `text` and `error`. */
    method Deliver(call: nat, text: string, error: Option<AIError>)
      modifies this`deliveries
      ensures deliveries == old(deliveries) + [Delivery(call, text, error)]
    {
      deliveries := deliveries + [Delivery(call, text, error)];
    }

    /**
     * `prepareAndStartTask` (lines 101-120) for the handler of `call` and the identifier
     * `task` the session gives the new task. With a temporary file whose write fails
     * (`writeFails`) the handler is called at once with a data-format error and nothing
     * is stored; otherwise the request is started and the handler stored under `task`.
     */
    method PrepareAndStartTask(call: nat, task: int, writeFails: bool)
      requires Valid() && call == calls - 1
      requires forall i | 0 <= i < |deliveries| :: deliveries[i].call != call
      requires forall t | t in completionByTask :: completionByTask[t] != call
      modifies this`completionByTask, this`deliveries, this`requests
      ensures Valid()
      ensures usesTempFile && writeFails ==>
        && deliveries == old(deliveries) + [Delivery(call, "", Some(DataFormatError))]
        && completionByTask == old(completionByTask) && requests == old(requests)
      ensures !(usesTempFile && writeFails) ==>
        && completionByTask == old(completionByTask)[task := call]
        && requests == old(requests) + [Request(task, model, messages)]
        && deliveries == old(deliveries)
    {
      if usesTempFile && writeFails {
        Deliver(call, "", Some(DataFormatError));
        return;
      }
      completionByTask := completionByTask[task := call];
      requests := requests + [Request(task, model, messages)];
    }

    /**
     * `send` (lines 86-98): set the model, overwrite the system prompt, append the query
     * as the last user message and start the task. Returns the number of the new handler.
     */
    method Send(mode: Mode, query: string, model: string, task: int, writeFails: bool) returns (call: nat)
      requires Valid()
      modifies this
      ensures Valid()
      ensures call == old(calls) && calls == old(calls) + 1
      ensures this.model == model
      ensures messages == WithSystemPrompt(old(messages), mode) + [Message(User, query)]
      ensures usesTempFile && writeFails ==>
        && deliveries == old(deliveries) + [Delivery(call, "", Some(DataFormatError))]
        && completionByTask == old(completionByTask) && requests == old(requests)
      ensures !(usesTempFile && writeFails) ==>
        && completionByTask == old(completionByTask)[task := call]
        && requests == old(requests) + [Request(task, model, messages)]
        && deliveries == old(deliveries)
    {
      call := calls;
      calls := calls + 1;
      this.model := model;
      SetSystemPrompt(mode);
      AppendUserQuery(query);
      PrepareAndStartTask(call, task, writeFails);
    }

    /** Calls and then forgets the handler stored for `task`, if there is one. */
    method DeliverAndRemove(task: int, text: string, error: Option<AIError>)
      requires Valid()
      modifies this`deliveries, this`completionByTask
      ensures Valid()
      ensures task in old(completionByTask) ==>
        deliveries == old(deliveries) + [Delivery(old(completionByTask)[task], text, error)]
      ensures task !in old(completionByTask) ==> deliveries == old(deliveries)
      ensures completionByTask == old(completionByTask) - {task}
    {
      if task in completionByTask {
        var call := completionByTask[task];
        Deliver(call, text, error);
        completionByTask := completionByTask - {task};
      } else {
        completionByTask := completionByTask - {task};
      }
    }

    /**
     * The data callback (lines 297-323): update the history by the token rule, then call
     * and remove the task's handler with the content (or "") and the extraction error.
     */
    method DidReceiveData(task: int, body: ResponseBody)
      requires Valid()
      modifies this`messages, this`deliveries, this`completionByTask
      ensures Valid()
      ensures messages == HistoryAfterResponse(old(messages), body)
      ensures var e := ExtractContent(body);
        && (task in old(completionByTask) ==>
              deliveries == old(deliveries) + [Delivery(old(completionByTask)[task], e.content.GetOr(""), e.error)])
        && (task !in old(completionByTask) ==> deliveries == old(deliveries))
      ensures completionByTask == old(completionByTask) - {task}
    {
      var extracted := ExtractContent(body);
      var responseString := extracted.content.GetOr("");
      var totalTokensUsed := ExtractTotalTokensUsed(extracted.json);
      if totalTokensUsed >= MaxTokens {
        ClearHistory();
      } else if extracted.content.Some? {
        AppendAIResponse(extracted.content.value);
      }
      DeliverAndRemove(task, responseString, extracted.error);
    }

    /** `didCompleteWithError` (lines 265-283): a handler still stored gets a network error. */
    method DidCompleteWithError(task: int)
      requires Valid()
      modifies this`deliveries, this`completionByTask
      ensures Valid()
      ensures task in old(completionByTask) ==>
        deliveries == old(deliveries) + [Delivery(old(completionByTask)[task], "", Some(ClientSideNetworkError))]
      ensures task !in old(completionByTask) ==> deliveries == old(deliveries)
      ensures completionByTask == old(completionByTask) - {task}
    {
      DeliverAndRemove(task, "", Some(ClientSideNetworkError));
    }

    /**
     * The task-level authentication challenge (lines 223-239): without a server trust the
     * task's handler gets an authentication error; with one nothing is recorded here.
     */
    method DidReceiveTaskChallenge(task: int, hasServerTrust: bool)
      requires Valid()
      modifies this`deliveries, this`completionByTask
      ensures Valid()
      ensures hasServerTrust ==> deliveries == old(deliveries) && completionByTask == old(completionByTask)
      ensures !hasServerTrust && task in old(completionByTask) ==>
        deliveries == old(deliveries) + [Delivery(old(completionByTask)[task], "", Some(UrlAuthenticationFailed))]
      ensures !hasServerTrust && task !in old(completionByTask) ==> deliveries == old(deliveries)
      ensures !hasServerTrust ==> completionByTask == old(completionByTask) - {task}
    {
      if !hasServerTrust {
        DeliverAndRemove(task, "", Some(UrlAuthenticationFailed));
      }
    }

    /**
     * `willPerformHTTPRedirection` (lines 241-263): a new data task `newTask` is always
     * created and resumed for the redirected request, and the handler of `oldTask`, if
     * any, moves to it.
     */
    method WillPerformRedirection(oldTask: int, newTask: int)
      requires Valid()
      modifies this`completionByTask, this`requests
      ensures Valid()
      ensures completionByTask == Redirected(old(completionByTask), oldTask, newTask)
      ensures requests == old(requests) + [Redirect(newTask, oldTask)]
    {
      requests := requests + [Redirect(newTask, oldTask)];
      RedirectKeepsInjective(completionByTask, oldTask, newTask);
      if oldTask in completionByTask {
        var completion := completionByTask[oldTask];
        completionByTask := completionByTask - {oldTask};
        completionByTask := completionByTask[newTask := completion];
      }
    }

    /**
     * The loop of lines 191-193: each handler stored in `completionByTask` is called with
     * a network error, in the (unspecified) order of `order`.
     */
    method CallAllWithNetworkError() returns (ghost order: seq<int>)
      modifies this`deliveries
      ensures |order| == |completionByTask| && (forall t :: t in order <==> t in completionByTask)
      ensures forall i, j | 0 <= i < j < |order| :: order[i] != order[j]
      ensures |deliveries| == |old(deliveries)| + |order| && deliveries[..|old(deliveries)|] == old(deliveries)
      ensures forall i | 0 <= i < |order| ::
        order[i] in completionByTask &&
        deliveries[|old(deliveries)| + i] == Delivery(completionByTask[order[i]], "", Some(ClientSideNetworkError))
    {
      var pending := completionByTask.Keys;
      order := [];
      while pending != {}
        invariant pending <= completionByTask.Keys
        invariant forall t :: t in order <==> t in completionByTask && t !in pending
        invariant forall i, j | 0 <= i < j < |order| :: order[i] != order[j]
        invariant |order| + |pending| == |completionByTask|
        invariant |deliveries| == |old(deliveries)| + |order| && deliveries[..|old(deliveries)|] == old(deliveries)
        invariant forall i | 0 <= i < |order| ::
          order[i] in completionByTask &&
          deliveries[|old(deliveries)| + i] == Delivery(completionByTask[order[i]], "", Some(ClientSideNetworkError))
        decreases |pending|
      {
        var task := AnyTask(pending);
        Deliver(completionByTask[task], "", Some(ClientSideNetworkError));
        pending := pending - {task};
        order := order + [task];
      }
    }

    /**
     * `didBecomeInvalidWithError` (lines 184-196): every outstanding handler is called
     * once with a network error, in some order, and the map is left empty.
     */
    method DidBecomeInvalid() returns (ghost order: seq<int>)
      requires Valid()
      modifies this`deliveries, this`completionByTask
      ensures Valid()
      ensures completionByTask == map[]
      ensures |order| == |old(completionByTask)| && (forall t :: t in order <==> t in old(completionByTask))
      ensures |deliveries| == |old(deliveries)| + |order| && deliveries[..|old(deliveries)|] == old(deliveries)
      ensures forall i | 0 <= i < |order| ::
        order[i] in old(completionByTask) &&
        deliveries[|old(deliveries)| + i] == Delivery(old(completionByTask)[order[i]], "", Some(ClientSideNetworkError))
    {
      ghost var before := deliveries;
      order := CallAllWithNetworkError();
      forall i, j | 0 <= i < j < |deliveries|
        ensures deliveries[i].call != deliveries[j].call
      {
        if i >= |before| {
          var t, u := order[i - |before|], order[j - |before|];
          assert t != u && completionByTask[t] != completionByTask[u];
        } else if j >= |before| {
          var u := order[j - |before|];
          assert deliveries[i] == before[i] && u in completionByTask;
        } else {
          assert deliveries[i] == before[i] && deliveries[j] == before[j];
        }
      }
      forall i | 0 <= i < |deliveries|
        ensures deliveries[i].call < calls
      {
        if i >= |before| {
          assert order[i - |before|] in completionByTask;
        } else {
          assert deliveries[i] == before[i];
        }
      }
      completionByTask := map[];
    }
  }
}
