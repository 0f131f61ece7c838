/** The DeepSeek plugin: settings under the `deepseek_reviewer_` prefix,
    including `max_tokens`, a chat-completions request with one user message
    whose content is the prompt, bearer authentication, any 2xx status
    accepted, and the content of the first choice's message. */
module DeepseekReviewer {
  import opened Wrappers
  import opened GoInt
  import opened Json
  import opened Plugin

  const DefaultModel: string := "deepseek-chat"
  const DefaultEndpoint: string := "https://api.deepseek.com/chat/completions"
  const DefaultMaxTokens: Int := 1024
  /** The compiled-in review instructions; their wording is not modelled. */
  const DefaultPrompt: string

  const ApiKeyVar: string := "deepseek_reviewer_api_key"
  const ModelVar: string := "deepseek_reviewer_model"
  const PromptVar: string := "deepseek_reviewer_prompt"
  const EndpointVar: string := "deepseek_reviewer_endpoint"
  const MaxTokensVar: string := "deepseek_reviewer_max_tokens"

  function VarKeys(): Keys {
    Keys(ApiKeyVar, ModelVar, PromptVar, EndpointVar, "DEEPSEEK_REVIEWER_API_KEY")
  }

  function VarDefaults(): Defaults {
    Defaults(DefaultModel, DefaultPrompt, DefaultEndpoint)
  }

  /** The resolved configuration of one review. */
  datatype Config = Config(settings: Settings, maxTokens: Int)

  /** Settings as in every plugin, plus `max_tokens`: 1024 when absent or
      not a valid Go `int`, the parsed value otherwise. */
  function ResolveConfig(vars: map<string, string>): (r: Result<Config, Error>)
    ensures r.Failure? <==> ApiKeyVar !in vars
    ensures r.Failure? ==> r.error == MissingApiKey("DEEPSEEK_REVIEWER_API_KEY")
    ensures r.Success? ==> r.value.settings == ResolveSettings(vars, VarKeys(), VarDefaults()).value
    ensures r.Success? && MaxTokensVar !in vars ==> r.value.maxTokens == 1024
    ensures r.Success? && MaxTokensVar in vars && Atoi(vars[MaxTokensVar]).Some? ==> r.value.maxTokens == Atoi(vars[MaxTokensVar]).value
    ensures r.Success? && MaxTokensVar in vars && Atoi(vars[MaxTokensVar]).None? ==> r.value.maxTokens == 1024
  {
    var s :- ResolveSettings(vars, VarKeys(), VarDefaults());
    Success(Config(s, MaxTokens(vars, MaxTokensVar, DefaultMaxTokens)))
  }

  // ---------------------------------------------------------------------
  // Request

  datatype Message = Message(role: string, content: string)
  datatype DeepseekRequest = DeepseekRequest(model: string, maxTokens: Int, messages: seq<Message>)

  /** The request body `review` builds: exactly one message, from the user,
      whose content is the whole prompt. */
  function NewDeepseekRequest(prompt: string, model: string, maxTokens: Int): (r: DeepseekRequest)
    ensures r.model == model && r.maxTokens == maxTokens
    ensures r.messages == [Message("user", prompt)]
  {
    DeepseekRequest(model, maxTokens, [Message("user", prompt)])
  }

  function EncodeMessage(m: Message): JVal {
    JObj([("role", JStr(m.role)), ("content", JStr(m.content))])
  }

  /** `json.Marshal` of a `DeepseekRequest`: fields in declaration order,
      `max_tokens` as a decimal number and left out when it is 0
      (`omitempty`), and one encoded message per message, in order. */
  function EncodeRequest(req: DeepseekRequest): (r: JVal)
    ensures Get(r, ["model"]) == Some(JStr(req.model))
    ensures req.maxTokens != 0 ==> Get(r, ["max_tokens"]) == Some(JNum(FormatInt(req.maxTokens)))
    ensures req.maxTokens == 0 ==> Get(r, ["max_tokens"]) == None
    ensures |GetArray(r, ["messages"])| == |req.messages|
    ensures forall i :: 0 <= i < |req.messages| ==> GetArray(r, ["messages"])[i] == EncodeMessage(req.messages[i])
  {
    var tokens: seq<(string, JVal)> := if req.maxTokens != 0 then [("max_tokens", JNum(FormatInt(req.maxTokens)))] else [];
    var messages := seq(|req.messages|, i requires 0 <= i < |req.messages| => EncodeMessage(req.messages[i]));
    MembersReadBack(req.model, tokens, JArr(messages));
    JObj([("model", JStr(req.model))] + tokens + [("messages", JArr(messages))])
  }

  /** The request's members read back at their keys; `tokens` is either
      empty or the one `max_tokens` member. */
  lemma MembersReadBack(model: string, tokens: seq<(string, JVal)>, messages: JVal)
    requires tokens == [] || (|tokens| == 1 && tokens[0].0 == "max_tokens")
    ensures var o := JObj([("model", JStr(model))] + tokens + [("messages", messages)]);
            && Get(o, ["model"]) == Some(JStr(model))
            && Get(o, ["messages"]) == Some(messages)
            && (tokens == [] ==> Get(o, ["max_tokens"]) == None)
            && (tokens != [] ==> Get(o, ["max_tokens"]) == Some(tokens[0].1))
  {
    var m0, m2 := ("model", JStr(model)), ("messages", messages);
    var noMembers: seq<(string, JVal)> := [];
    assert [m0] + tokens + [m2] == noMembers + [m0] + (tokens + [m2]);
    FieldStep(noMembers, "model", JStr(model), tokens + [m2], []);
    assert [m0] + tokens + [m2] == ([m0] + tokens) + [m2] + noMembers;
    FieldStep([m0] + tokens, "messages", messages, noMembers, []);
    TokensMember(model, tokens, messages);
  }

  lemma TokensMember(model: string, tokens: seq<(string, JVal)>, messages: JVal)
    requires tokens == [] || (|tokens| == 1 && tokens[0].0 == "max_tokens")
    ensures var o := JObj([("model", JStr(model))] + tokens + [("messages", messages)]);
            && (tokens == [] ==> Get(o, ["max_tokens"]) == None)
            && (tokens != [] ==> Get(o, ["max_tokens"]) == Some(tokens[0].1))
  {
    var m0, m2 := ("model", JStr(model)), ("messages", messages);
    if tokens != [] {
      assert [m0] + tokens + [m2] == [m0] + [tokens[0]] + [m2];
      FieldStep([m0], "max_tokens", tokens[0].1, [m2], []);
    } else {
      assert [m0] + tokens + [m2] == [m0, m2];
    }
  }

  /** The JSON tree of the request `review` builds, written out. */
  lemma EncodedRequestShape(prompt: string, model: string, maxTokens: Int)
    ensures var tokens: seq<(string, JVal)> := if maxTokens != 0 then [("max_tokens", JNum(FormatInt(maxTokens)))] else [];
            EncodeRequest(NewDeepseekRequest(prompt, model, maxTokens)) ==
              JObj([("model", JStr(model))] + tokens + [("messages", JArr([EncodeMessage(Message("user", prompt))]))])
  {
    var req := NewDeepseekRequest(prompt, model, maxTokens);
    assert seq(|req.messages|, i requires 0 <= i < |req.messages| => EncodeMessage(req.messages[i])) == [EncodeMessage(Message("user", prompt))];
  }

  /** Reading the encoded request back with the same lookups gives the
      prompt, the role and the model; `max_tokens` reads back as its value,
      except that a `max_tokens` of 0 is not sent at all. */
  lemma EncodedRequestReadsBack(prompt: string, model: string, maxTokens: Int)
    ensures var body := EncodeRequest(NewDeepseekRequest(prompt, model, maxTokens));
            && Get(body, ["messages", "0", "content"]) == Some(JStr(prompt))
            && Get(body, ["messages", "0", "role"]) == Some(JStr("user"))
            && Get(body, ["model"]) == Some(JStr(model))
            && (maxTokens != 0 ==> Get(body, ["max_tokens"]) == Some(JNum(FormatInt(maxTokens)))
                                   && Atoi(FormatInt(maxTokens)) == Some(maxTokens))
            && (maxTokens == 0 ==> Get(body, ["max_tokens"]) == None)
  {
    var body := EncodeRequest(NewDeepseekRequest(prompt, model, maxTokens));
    assert GetArray(body, ["messages"])[0] == EncodeMessage(Message("user", prompt));
    assert ["messages", "0", "content"] == ["messages", "0"] + ["content"];
    FirstItem(body, "messages", ["content"]);
    assert ["messages", "0", "role"] == ["messages", "0"] + ["role"];
    FirstItem(body, "messages", ["role"]);
    MessageReadsBack("user", prompt);
    if maxTokens != 0 {
      AtoiFormatInt(maxTokens);
    }
  }

  /** An encoded message reads back its role and its content. */
  lemma MessageReadsBack(role: string, content: string)
    ensures Get(EncodeMessage(Message(role, content)), ["role"]) == Some(JStr(role))
    ensures Get(EncodeMessage(Message(role, content)), ["content"]) == Some(JStr(content))
  {
    var noMembers: seq<(string, JVal)> := [];
    var r, c := ("role", JStr(role)), ("content", JStr(content));
    assert [r, c] == noMembers + [r] + [c] == [r] + [c] + noMembers;
    assert ["role"] == ["role"] + [] && ["content"] == ["content"] + [];
    FieldStep(noMembers, "role", JStr(role), [c], []);
    FieldStep([r], "content", JStr(content), noMembers, []);
  }

  /** The request `review` sends: a POST to the endpoint with the API key
      as a bearer token, and the body above, which carries `max_tokens`
      unless it is 0. */
  function NewRequest(config: Config, prompt: string): (r: Request)
    ensures r.verb == "POST" && r.url == config.settings.endpoint
    ensures r.headers == map["Authorization" := "Bearer " + config.settings.apiKey, "Content-Type" := "application/json"]
    ensures GetString(r.body, ["messages", "0", "content"]) == prompt
    ensures GetString(r.body, ["messages", "0", "role"]) == "user"
    ensures GetString(r.body, ["model"]) == config.settings.model
    ensures config.maxTokens != 0 ==> Get(r.body, ["max_tokens"]) == Some(JNum(FormatInt(config.maxTokens)))
    ensures config.maxTokens != 0 ==> Atoi(Get(r.body, ["max_tokens"]).value.raw) == Some(config.maxTokens)
    ensures config.maxTokens == 0 ==> Get(r.body, ["max_tokens"]) == None
  {
    EncodedRequestReadsBack(prompt, config.settings.model, config.maxTokens);
    Request("POST", config.settings.endpoint,
            map["Authorization" := "Bearer " + config.settings.apiKey, "Content-Type" := "application/json"],
            EncodeRequest(NewDeepseekRequest(prompt, config.settings.model, config.maxTokens)))
  }

  // ---------------------------------------------------------------------
  // Reply

  /** The content of the first choice's message ("" when it has none), or
      `NoChoices` when `choices` is missing, not an array, or empty. */
  function ChoiceText(v: JVal): (r: Result<string, Error>)
    ensures var choices := GetArray(v, ["choices"]);
            && (r.Failure? <==> |choices| == 0)
            && (r.Failure? ==> r.error == NoChoices)
            && (r.Success? ==> r.value == GetString(choices[0], ["message", "content"]))
  {
    var choices := GetArray(v, ["choices"]);
    if |choices| == 0 then Failure(NoChoices)
    else Success(GetString(choices[0], ["message", "content"]))
  }

  /** What `review` makes of the reply: a status outside 200..299 is an
      error carrying the status and the body, an unparsable body is an
      error, and otherwise the result is the first choice's content. */
  function ReadReply(resp: Response): (r: Result<string, Error>)
    ensures !IsSuccessStatus(resp.status) ==> r == Failure(RequestFailed(resp.status, resp.body))
    ensures IsSuccessStatus(resp.status) && resp.parsed.None? ==> r == Failure(MalformedReply)
    ensures IsSuccessStatus(resp.status) && resp.parsed.Some? ==> r == ChoiceText(resp.parsed.value)
  {
    if !IsSuccessStatus(resp.status) then Failure(RequestFailed(resp.status, resp.body))
    else match resp.parsed
      case None => Failure(MalformedReply)
      case Some(v) => ChoiceText(v)
  }

  /** The smallest choice: an index and a message of the same shape as the
      messages of the request; the endpoint adds further members, which play
      no part. */
  function Choice(text: string): JVal {
    JObj([("index", JNum("0")), ("message", EncodeMessage(Message("assistant", text)))])
  }

  /** A reply whose first choice carries a message yields exactly that
      message's content, whatever the choice's other members, the further
      choices and the other members of the reply are. */
  lemma {:induction false} ChoiceTextOfReply(
    before: seq<(string, JVal)>, choice: JVal, text: string, more: seq<JVal>, after: seq<(string, JVal)>)
    requires forall i :: 0 <= i < |before| ==> before[i].0 != "choices"
    requires GetString(choice, ["message", "content"]) == text
    ensures ChoiceText(JObj(before + [("choices", JArr([choice] + more))] + after)) == Success(text)
  {
    var choices := [choice] + more;
    FieldStep(before, "choices", JArr(choices), after, []);
    assert GetArray(JObj(before + [("choices", JArr(choices))] + after), ["choices"]) == choices;
  }

  /** The smallest choice meets what `ChoiceTextOfReply` asks of the first
      choice. */
  lemma ChoiceMessageContent(text: string)
    ensures GetString(Choice(text), ["message", "content"]) == text
  {
    var msg := EncodeMessage(Message("assistant", text));
    var noMembers: seq<(string, JVal)> := [];
    var index := ("index", JNum("0"));
    var role := ("role", JStr("assistant"));
    assert [index] + [("message", msg)] + noMembers == [index, ("message", msg)];
    assert ["message", "content"] == ["message"] + ["content"];
    FieldStep([index], "message", msg, noMembers, ["content"]);
    assert [role] + [("content", JStr(text))] + noMembers == [role, ("content", JStr(text))];
    assert ["content"] == ["content"] + [];
    FieldStep([role], "content", JStr(text), noMembers, []);
  }

  /** A reply without a choice is an error: missing, empty, or not an array. */
  lemma NoChoicesInReply(other: JVal)
    requires !other.JArr?
    ensures ChoiceText(JObj([])) == Failure(NoChoices)
    ensures ChoiceText(JObj([("choices", JArr([]))])) == Failure(NoChoices)
    ensures ChoiceText(JObj([("choices", other)])) == Failure(NoChoices)
  {
    FieldStep([], "choices", JArr([]), [], []);
    FieldStep([], "choices", other, [], []);
  }

  // ---------------------------------------------------------------------
  // Review

  /** Everything `Review` does before the network call: nothing without the
      API key; otherwise the request for the resolved configuration and the
      assembled prompt. */
  function Prepare(input: Input): (r: Result<Request, Error>)
    ensures r.Failure? <==> ApiKeyVar !in input.vars
    ensures r.Failure? ==> r.error == MissingApiKey("DEEPSEEK_REVIEWER_API_KEY")
    ensures r.Success? ==>
      var c := ResolveConfig(input.vars).value;
      r.value == NewRequest(c, AssemblePrompt(c.settings.prompt, input, DiffFence))
  {
    var c :- ResolveConfig(input.vars);
    Success(NewRequest(c, AssemblePrompt(c.settings.prompt, input, DiffFence)))
  }

  /** `Review`: the comment is the reply text, unchanged; a missing key is
      reported whatever the network would have answered. */
  function Review(input: Input, send: Request -> Response): (r: Result<Output, Error>)
    ensures ApiKeyVar !in input.vars ==> r == Failure(MissingApiKey("DEEPSEEK_REVIEWER_API_KEY"))
    ensures ApiKeyVar in input.vars ==>
      var reply := ReadReply(send(Prepare(input).value));
      && (r.Success? <==> reply.Success?)
      && (r.Success? ==> r.value.comment == reply.value)
      && (r.Failure? ==> r.error == reply.error)
  {
    var request :- Prepare(input);
    var text :- ReadReply(send(request));
    Success(Output(text))
  }

  /** With the key present and any 2xx reply whose first choice carries a
      message, the comment is exactly that message's content, whatever the
      choice's other members, the further choices and the other members of
      the reply are. */
  lemma ReviewReturnsChoiceText(input: Input, send: Request -> Response, status: int, raw: string,
    before: seq<(string, JVal)>, choice: JVal, text: string, more: seq<JVal>, after: seq<(string, JVal)>)
    requires ApiKeyVar in input.vars && 200 <= status < 300
    requires forall i :: 0 <= i < |before| ==> before[i].0 != "choices"
    requires GetString(choice, ["message", "content"]) == text
    requires forall q :: send(q) == Response(status, raw, Some(JObj(before + [("choices", JArr([choice] + more))] + after)))
    ensures Review(input, send) == Success(Output(text))
  {
    ChoiceTextOfReply(before, choice, text, more, after);
    assert send(Prepare(input).value).parsed.Some?;
  }

  /** Any status outside 200..299 fails the review with that status and the body. */
  lemma ReviewRefusesStatus(input: Input, send: Request -> Response, status: int, raw: string, parsed: Option<JVal>)
    requires ApiKeyVar in input.vars && !(200 <= status < 300)
    requires forall q :: send(q) == Response(status, raw, parsed)
    ensures Review(input, send) == Failure(RequestFailed(status, raw))
  {
  }
}
