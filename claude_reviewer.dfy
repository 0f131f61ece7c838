/** The Claude plugin: settings under the `claude_reviewer_` prefix,
    including `max_tokens` and the protocol version, a messages request with
    one user message holding one text block, any 2xx status accepted, and
    the text of the reply's first content block. */
module ClaudeReviewer {
  import opened Wrappers
  import opened GoInt
  import opened Json
  import opened Plugin

  const DefaultModel: string := "claude-3-5-sonnet-20240620"
  const DefaultEndpoint: string := "https://api.anthropic.com/v1/messages"
  const DefaultMaxTokens: Int := 1024
  const DefaultAnthropicVersion: string := "2023-06-01"
  /** The compiled-in review instructions; their wording is not modelled. */
  const DefaultPrompt: string

  const ApiKeyVar: string := "claude_reviewer_api_key"
  const ModelVar: string := "claude_reviewer_model"
  const PromptVar: string := "claude_reviewer_prompt"
  const EndpointVar: string := "claude_reviewer_endpoint"
  const MaxTokensVar: string := "claude_reviewer_max_tokens"
  const VersionVar: string := "claude_reviewer_anthropic_version"

  function VarKeys(): Keys {
    Keys(ApiKeyVar, ModelVar, PromptVar, EndpointVar, "CLAUDE_REVIEWER_API_KEY")
  }

  function VarDefaults(): Defaults {
    Defaults(DefaultModel, DefaultPrompt, DefaultEndpoint)
  }

  /** The resolved configuration of one review. */
  datatype Config = Config(settings: Settings, maxTokens: Int, anthropicVersion: string)

  /** Settings as in every plugin, plus `max_tokens` (1024 when absent or
      not a valid Go `int`) and the protocol version ("2023-06-01" when
      absent). */
  function ResolveConfig(vars: map<string, string>): (r: Result<Config, Error>)
    ensures r.Failure? <==> ApiKeyVar !in vars
    ensures r.Failure? ==> r.error == MissingApiKey("CLAUDE_REVIEWER_API_KEY")
    ensures r.Success? ==> r.value.settings == ResolveSettings(vars, VarKeys(), VarDefaults()).value
    ensures r.Success? && MaxTokensVar !in vars ==> r.value.maxTokens == 1024
    ensures r.Success? && MaxTokensVar in vars && Atoi(vars[MaxTokensVar]).Some? ==> r.value.maxTokens == Atoi(vars[MaxTokensVar]).value
    ensures r.Success? && MaxTokensVar in vars && Atoi(vars[MaxTokensVar]).None? ==> r.value.maxTokens == 1024
    ensures r.Success? && VersionVar in vars ==> r.value.anthropicVersion == vars[VersionVar]
    ensures r.Success? && VersionVar !in vars ==> r.value.anthropicVersion == "2023-06-01"
  {
    var s :- ResolveSettings(vars, VarKeys(), VarDefaults());
    Success(Config(s, MaxTokens(vars, MaxTokensVar, DefaultMaxTokens), Setting(vars, VersionVar, DefaultAnthropicVersion)))
  }

  // ---------------------------------------------------------------------
  // Request

  datatype ContentBlock = ContentBlock(kind: string, text: string)
  datatype Message = Message(role: string, content: seq<ContentBlock>)
  /** `ClaudeRequest`; `system` and `stopSequences` are never set. */
  datatype ClaudeRequest = ClaudeRequest(model: string, maxTokens: Int, messages: seq<Message>, system: string, stopSequences: seq<string>)

  /** The request body `review` builds: exactly one message, from the user,
      holding exactly one text block with the whole prompt. */
  function NewClaudeRequest(prompt: string, model: string, maxTokens: Int): (r: ClaudeRequest)
    ensures r.model == model && r.maxTokens == maxTokens
    ensures |r.messages| == 1 && r.messages[0].role == "user"
    ensures r.messages[0].content == [ContentBlock("text", prompt)]
    ensures r.system == "" && r.stopSequences == []
  {
    ClaudeRequest(model, maxTokens, [Message("user", [ContentBlock("text", prompt)])], "", [])
  }

  function EncodeBlock(b: ContentBlock): JVal {
    JObj([("type", JStr(b.kind)), ("text", JStr(b.text))])
  }

  function EncodeMessage(m: Message): JVal {
    JObj([("role", JStr(m.role)), ("content", JArr(seq(|m.content|, i requires 0 <= i < |m.content| => EncodeBlock(m.content[i]))))])
  }

  /** `json.Marshal` of a `ClaudeRequest`: fields in declaration order,
      `max_tokens` as a decimal number, `system` and `stop_sequences`
      omitted when empty (`omitempty`). */
  function EncodeRequest(req: ClaudeRequest): (r: JVal)
    ensures Get(r, ["model"]) == Some(JStr(req.model))
    ensures Get(r, ["max_tokens"]) == Some(JNum(FormatInt(req.maxTokens)))
    ensures |GetArray(r, ["messages"])| == |req.messages|
    ensures forall i :: 0 <= i < |req.messages| ==> GetArray(r, ["messages"])[i] == EncodeMessage(req.messages[i])
    ensures req.system != "" ==> Get(r, ["system"]) == Some(JStr(req.system))
    ensures req.system == "" ==> Get(r, ["system"]) == None
    ensures |req.stopSequences| > 0 ==> |GetArray(r, ["stop_sequences"])| == |req.stopSequences|
    ensures |req.stopSequences| > 0 ==>
              forall i :: 0 <= i < |req.stopSequences| ==> GetArray(r, ["stop_sequences"])[i] == JStr(req.stopSequences[i])
    ensures |req.stopSequences| == 0 ==> Get(r, ["stop_sequences"]) == None
  {
    RequestMembersReadBack(req);
    JObj(RequestMembers(req))
  }

  function EncodeMessages(ms: seq<Message>): seq<JVal> {
    seq(|ms|, i requires 0 <= i < |ms| => EncodeMessage(ms[i]))
  }

  function SystemMember(system: string): seq<(string, JVal)> {
    if system != "" then [("system", JStr(system))] else []
  }

  function StopMember(stops: seq<string>): seq<(string, JVal)> {
    if |stops| > 0 then [("stop_sequences", JArr(seq(|stops|, i requires 0 <= i < |stops| => JStr(stops[i]))))] else []
  }

  /** The members of the encoded request, in declaration order. */
  function RequestMembers(req: ClaudeRequest): seq<(string, JVal)> {
    [("model", JStr(req.model)), ("max_tokens", JNum(FormatInt(req.maxTokens))), ("messages", JArr(EncodeMessages(req.messages)))]
    + SystemMember(req.system) + StopMember(req.stopSequences)
  }

  lemma RequestMembersReadBack(req: ClaudeRequest)
    ensures var r := JObj(RequestMembers(req));
            && Get(r, ["model"]) == Some(JStr(req.model))
            && Get(r, ["max_tokens"]) == Some(JNum(FormatInt(req.maxTokens)))
            && |GetArray(r, ["messages"])| == |req.messages|
            && (forall i :: 0 <= i < |req.messages| ==> GetArray(r, ["messages"])[i] == EncodeMessage(req.messages[i]))
            && (req.system != "" ==> Get(r, ["system"]) == Some(JStr(req.system)))
            && (req.system == "" ==> Get(r, ["system"]) == None)
            && (|req.stopSequences| > 0 ==> |GetArray(r, ["stop_sequences"])| == |req.stopSequences|)
            && (|req.stopSequences| > 0 ==>
                  forall i :: 0 <= i < |req.stopSequences| ==> GetArray(r, ["stop_sequences"])[i] == JStr(req.stopSequences[i]))
            && (|req.stopSequences| == 0 ==> Get(r, ["stop_sequences"]) == None)
  {
    var system, stop := SystemMember(req.system), StopMember(req.stopSequences);
    RequiredReadBack(req.model, JNum(FormatInt(req.maxTokens)), JArr(EncodeMessages(req.messages)), system + stop);
    assert RequestMembers(req) == [("model", JStr(req.model)), ("max_tokens", JNum(FormatInt(req.maxTokens))), ("messages", JArr(EncodeMessages(req.messages)))] + (system + stop);
    OptionalReadBack(req.model, JNum(FormatInt(req.maxTokens)), JArr(EncodeMessages(req.messages)), system, stop);
  }

  /** The three members that are always written read back at their keys,
      whatever follows them. */
  lemma RequiredReadBack(model: string, tokens: JVal, messages: JVal, rest: seq<(string, JVal)>)
    ensures var o := JObj([("model", JStr(model)), ("max_tokens", tokens), ("messages", messages)] + rest);
            && Get(o, ["model"]) == Some(JStr(model))
            && Get(o, ["max_tokens"]) == Some(tokens)
            && Get(o, ["messages"]) == Some(messages)
  {
    var m0, m1, m2 := ("model", JStr(model)), ("max_tokens", tokens), ("messages", messages);
    var noMembers: seq<(string, JVal)> := [];
    assert [m0, m1, m2] + rest == noMembers + [m0] + ([m1, m2] + rest);
    FieldStep(noMembers, "model", JStr(model), [m1, m2] + rest, []);
    assert [m0, m1, m2] + rest == [m0] + [m1] + ([m2] + rest);
    FieldStep([m0], "max_tokens", tokens, [m2] + rest, []);
    assert [m0, m1, m2] + rest == [m0, m1] + [m2] + rest;
    FieldStep([m0, m1], "messages", messages, rest, []);
  }

  /** The optional members read back when written and are absent when
      left out; `system` and `stop` are each empty or their one member. */
  lemma OptionalReadBack(model: string, tokens: JVal, messages: JVal, system: seq<(string, JVal)>, stop: seq<(string, JVal)>)
    requires system == [] || (|system| == 1 && system[0].0 == "system")
    requires stop == [] || (|stop| == 1 && stop[0].0 == "stop_sequences")
    ensures var o := JObj([("model", JStr(model)), ("max_tokens", tokens), ("messages", messages)] + system + stop);
            && (system != [] ==> Get(o, ["system"]) == Some(system[0].1))
            && (system == [] ==> Get(o, ["system"]) == None)
            && (stop != [] ==> Get(o, ["stop_sequences"]) == Some(stop[0].1))
            && (stop == [] ==> Get(o, ["stop_sequences"]) == None)
  {
    var front := [("model", JStr(model)), ("max_tokens", tokens), ("messages", messages)];
    if system != [] {
      assert front + system + stop == front + [system[0]] + stop;
      FieldStep(front, "system", system[0].1, stop, []);
    } else {
      assert forall i :: 0 <= i < |front + system + stop| ==> (front + system + stop)[i].0 != "system";
    }
    if stop != [] {
      assert front + system + stop == (front + system) + [stop[0]] + [];
      FieldStep(front + system, "stop_sequences", stop[0].1, [], []);
    } else {
      assert forall i :: 0 <= i < |front + system + stop| ==> (front + system + stop)[i].0 != "stop_sequences";
    }
  }

  /** The request `review` sends: a POST to the endpoint, the key in its own
      header beside the protocol version, and a body from which the prompt,
      the role, the model and `max_tokens` read back unchanged. */
  function NewRequest(config: Config, prompt: string): (r: Request)
    ensures r.verb == "POST" && r.url == config.settings.endpoint
    ensures r.headers == map["x-api-key" := config.settings.apiKey,
                             "anthropic-version" := config.anthropicVersion,
                             "Content-Type" := "application/json"]
    ensures GetString(r.body, ["messages", "0", "content", "0", "text"]) == prompt
    ensures GetString(r.body, ["messages", "0", "content", "0", "type"]) == "text"
    ensures GetString(r.body, ["messages", "0", "role"]) == "user"
    ensures GetString(r.body, ["model"]) == config.settings.model
    ensures Get(r.body, ["max_tokens"]).Some? && Get(r.body, ["max_tokens"]).value.JNum?
    ensures Atoi(Get(r.body, ["max_tokens"]).value.raw) == Some(config.maxTokens)
  {
    var req := NewClaudeRequest(prompt, config.settings.model, config.maxTokens);
    var body := EncodeRequest(req);
    EncodedRequestReadsBack(prompt, config.settings.model, config.maxTokens);
    Request("POST", config.settings.endpoint,
            map["x-api-key" := config.settings.apiKey,
                "anthropic-version" := config.anthropicVersion,
                "Content-Type" := "application/json"],
            body)
  }

  /** The JSON tree of the request `review` builds, written out. */
  lemma EncodedRequestShape(prompt: string, model: string, maxTokens: Int)
    ensures EncodeRequest(NewClaudeRequest(prompt, model, maxTokens)) ==
      JObj([("model", JStr(model)), ("max_tokens", JNum(FormatInt(maxTokens))),
            ("messages", JArr([JObj([("role", JStr("user")), ("content", JArr([EncodeBlock(ContentBlock("text", prompt))]))])]))])
  {
    var block := EncodeBlock(ContentBlock("text", prompt));
    var m := Message("user", [ContentBlock("text", prompt)]);
    var msg := EncodeMessage(m);
    assert seq(|m.content|, i requires 0 <= i < |m.content| => EncodeBlock(m.content[i])) == [block];
    var req := NewClaudeRequest(prompt, model, maxTokens);
    assert EncodeMessages(req.messages) == [msg];
    assert SystemMember(req.system) == [] && StopMember(req.stopSequences) == [];
    var front := [("model", JStr(model)), ("max_tokens", JNum(FormatInt(maxTokens))), ("messages", JArr([msg]))];
    assert RequestMembers(req) == front + [] + [];
    assert front + [] + [] == front;
  }

  /** `{k1: v1, k2: v2}` read at either key. */
  lemma PairReadsBack(k1: string, v1: JVal, k2: string, v2: JVal, rest: seq<string>)
    requires k1 != k2
    ensures Get(JObj([(k1, v1), (k2, v2)]), [k1] + rest) == Get(v1, rest)
    ensures Get(JObj([(k1, v1), (k2, v2)]), [k2] + rest) == Get(v2, rest)
  {
    var noMembers: seq<(string, JVal)> := [];
    assert [(k1, v1), (k2, v2)] == noMembers + [(k1, v1)] + [(k2, v2)];
    FieldStep(noMembers, k1, v1, [(k2, v2)], rest);
    assert [(k1, v1), (k2, v2)] == [(k1, v1)] + [(k2, v2)] + noMembers;
    FieldStep([(k1, v1)], k2, v2, noMembers, rest);
  }

  /** The block, the message and the top level each give back what was put in. */
  lemma BlockReadsBack(kind: string, text: string)
    ensures Get(EncodeBlock(ContentBlock(kind, text)), ["type"]) == Some(JStr(kind))
    ensures Get(EncodeBlock(ContentBlock(kind, text)), ["text"]) == Some(JStr(text))
  {
    PairReadsBack("type", JStr(kind), "text", JStr(text), []);
    assert ["type"] + [] == ["type"] && ["text"] + [] == ["text"];
  }

  lemma MessageReadsBack(block: JVal, key: string)
    ensures var msg := JObj([("role", JStr("user")), ("content", JArr([block]))]);
            Get(msg, ["content", "0", key]) == Get(block, [key])
  {
    PairReadsBack("role", JStr("user"), "content", JArr([block]), ["0", key]);
    assert ["content", "0", key] == ["content"] + (["0"] + [key]);
    IndexZero([block], [key]);
  }

  lemma MessageRole(block: JVal)
    ensures Get(JObj([("role", JStr("user")), ("content", JArr([block]))]), ["role"]) == Some(JStr("user"))
  {
    PairReadsBack("role", JStr("user"), "content", JArr([block]), []);
    assert ["role"] + [] == ["role"];
  }

  /** `{k0: v0, k1: v1, k2: v2}` read at each key. */
  lemma TripleReadsBack(k0: string, v0: JVal, k1: string, v1: JVal, k2: string, v2: JVal, key: string, v: JVal, rest: seq<string>)
    requires k0 != k1 && k0 != k2 && k1 != k2
    requires (key, v) == (k0, v0) || (key, v) == (k1, v1) || (key, v) == (k2, v2)
    ensures Get(JObj([(k0, v0), (k1, v1), (k2, v2)]), [key] + rest) == Get(v, rest)
  {
    var m0, m1, m2 := (k0, v0), (k1, v1), (k2, v2);
    var noMembers: seq<(string, JVal)> := [];
    if key == k0 {
      assert [m0, m1, m2] == noMembers + [m0] + [m1, m2];
      FieldStep(noMembers, k0, v0, [m1, m2], rest);
    } else if key == k1 {
      assert [m0, m1, m2] == [m0] + [m1] + [m2];
      FieldStep([m0], k1, v1, [m2], rest);
    } else {
      assert [m0, m1, m2] == [m0, m1] + [m2] + noMembers;
      FieldStep([m0, m1], k2, v2, noMembers, rest);
    }
  }

  /** Reading the encoded request back with the same lookups gives the
      prompt, the block type, the role, the model and `max_tokens`. */
  lemma EncodedRequestReadsBack(prompt: string, model: string, maxTokens: Int)
    ensures var body := EncodeRequest(NewClaudeRequest(prompt, model, maxTokens));
            && GetString(body, ["messages", "0", "content", "0", "text"]) == prompt
            && GetString(body, ["messages", "0", "content", "0", "type"]) == "text"
            && GetString(body, ["messages", "0", "role"]) == "user"
            && GetString(body, ["model"]) == model
            && Get(body, ["max_tokens"]) == Some(JNum(FormatInt(maxTokens)))
            && Atoi(FormatInt(maxTokens)) == Some(maxTokens)
  {
    EncodedRequestShape(prompt, model, maxTokens);
    RequestTreeReadsBack(prompt, model, JNum(FormatInt(maxTokens)));
    AtoiFormatInt(maxTokens);
  }

  /** The lookups of the request tree, with `max_tokens` any value. */
  lemma RequestTreeReadsBack(prompt: string, model: string, tokens: JVal)
    ensures var block := EncodeBlock(ContentBlock("text", prompt));
            var tree := JObj([("model", JStr(model)), ("max_tokens", tokens),
                              ("messages", JArr([JObj([("role", JStr("user")), ("content", JArr([block]))])]))]);
            && Get(tree, ["messages", "0", "content", "0", "text"]) == Some(JStr(prompt))
            && Get(tree, ["messages", "0", "content", "0", "type"]) == Some(JStr("text"))
            && Get(tree, ["messages", "0", "role"]) == Some(JStr("user"))
            && Get(tree, ["model"]) == Some(JStr(model))
            && Get(tree, ["max_tokens"]) == Some(tokens)
  {
    MessageTreeReadsBack(prompt, model, tokens);
    var block := EncodeBlock(ContentBlock("text", prompt));
    var messages := JArr([JObj([("role", JStr("user")), ("content", JArr([block]))])]);
    TripleReadsBack("model", JStr(model), "max_tokens", tokens, "messages", messages, "model", JStr(model), []);
    TripleReadsBack("model", JStr(model), "max_tokens", tokens, "messages", messages, "max_tokens", tokens, []);
    assert ["model"] + [] == ["model"] && ["max_tokens"] + [] == ["max_tokens"];
  }

  lemma MessageTreeReadsBack(prompt: string, model: string, tokens: JVal)
    ensures var block := EncodeBlock(ContentBlock("text", prompt));
            var tree := JObj([("model", JStr(model)), ("max_tokens", tokens),
                              ("messages", JArr([JObj([("role", JStr("user")), ("content", JArr([block]))])]))]);
            && Get(tree, ["messages", "0", "content", "0", "text"]) == Some(JStr(prompt))
            && Get(tree, ["messages", "0", "content", "0", "type"]) == Some(JStr("text"))
            && Get(tree, ["messages", "0", "role"]) == Some(JStr("user"))
  {
    var block := EncodeBlock(ContentBlock("text", prompt));
    BlockReadsBack("text", prompt);
    BlockThroughTree(block, model, tokens, "text");
    BlockThroughTree(block, model, tokens, "type");
    RoleThroughTree(block, model, tokens);
  }

  lemma BlockThroughTree(block: JVal, model: string, tokens: JVal, key: string)
    ensures var msg := JObj([("role", JStr("user")), ("content", JArr([block]))]);
            Get(JObj([("model", JStr(model)), ("max_tokens", tokens), ("messages", JArr([msg]))]),
                ["messages", "0", "content", "0", key]) == Get(block, [key])
  {
    var msg := JObj([("role", JStr("user")), ("content", JArr([block]))]);
    MessageReadsBack(block, key);
    MessagesStep(model, tokens, msg, ["content", "0", key]);
    assert ["messages", "0"] + ["content", "0", key] == ["messages", "0", "content", "0", key];
  }

  lemma RoleThroughTree(block: JVal, model: string, tokens: JVal)
    ensures var msg := JObj([("role", JStr("user")), ("content", JArr([block]))]);
            Get(JObj([("model", JStr(model)), ("max_tokens", tokens), ("messages", JArr([msg]))]),
                ["messages", "0", "role"]) == Some(JStr("user"))
  {
    var msg := JObj([("role", JStr("user")), ("content", JArr([block]))]);
    MessageRole(block);
    MessagesStep(model, tokens, msg, ["role"]);
    assert ["messages", "0"] + ["role"] == ["messages", "0", "role"];
  }

  /** The top level of the encoded request, read through `messages/0`. */
  lemma MessagesStep(model: string, tokens: JVal, msg: JVal, rest: seq<string>)
    ensures Get(JObj([("model", JStr(model)), ("max_tokens", tokens), ("messages", JArr([msg]))]), ["messages", "0"] + rest)
            == Get(msg, rest)
  {
    TripleReadsBack("model", JStr(model), "max_tokens", tokens, "messages", JArr([msg]), "messages", JArr([msg]), ["0"] + rest);
    assert ["messages", "0"] + rest == ["messages"] + (["0"] + rest);
    IndexZero([msg], rest);
  }

  // ---------------------------------------------------------------------
  // Reply

  /** The text of the reply's first content block ("" when it has none), or
      `NoContent` when `content` is missing, not an array, or empty. */
  function ContentText(v: JVal): (r: Result<string, Error>)
    ensures var content := GetArray(v, ["content"]);
            && (r.Failure? <==> |content| == 0)
            && (r.Failure? ==> r.error == NoContent)
            && (r.Success? ==> r.value == GetString(content[0], ["text"]))
  {
    var content := GetArray(v, ["content"]);
    if |content| == 0 then Failure(NoContent)
    else Success(GetString(content[0], ["text"]))
  }

  /** What `review` makes of the reply: a status outside 200..299 is an
      error carrying the status and the body, an unparsable body is an
      error, and otherwise the result is the content text. */
  function ReadReply(resp: Response): (r: Result<string, Error>)
    ensures !IsSuccessStatus(resp.status) ==> r == Failure(RequestFailed(resp.status, resp.body))
    ensures IsSuccessStatus(resp.status) && resp.parsed.None? ==> r == Failure(MalformedReply)
    ensures IsSuccessStatus(resp.status) && resp.parsed.Some? ==> r == ContentText(resp.parsed.value)
  {
    if !IsSuccessStatus(resp.status) then Failure(RequestFailed(resp.status, resp.body))
    else match resp.parsed
      case None => Failure(MalformedReply)
      case Some(v) => ContentText(v)
  }

  /** A reply whose `content` starts with a block holding `text` under
      `text` yields exactly that text, whatever other members of the block,
      further blocks and other members of the reply there are. */
  lemma {:induction false} ContentTextOfReply(
    before: seq<(string, JVal)>, block: JVal, text: string, more: seq<JVal>, after: seq<(string, JVal)>)
    requires forall i :: 0 <= i < |before| ==> before[i].0 != "content"
    requires GetString(block, ["text"]) == text
    ensures ContentText(JObj(before + [("content", JArr([block] + more))] + after)) == Success(text)
  {
    var blocks := [block] + more;
    FieldStep(before, "content", JArr(blocks), after, []);
    assert GetArray(JObj(before + [("content", JArr(blocks))] + after), ["content"]) == blocks;
  }

  /** A text block written the way the request writes its blocks meets
      what `ContentTextOfReply` asks of the first block. */
  lemma TextBlockText(text: string)
    ensures GetString(EncodeBlock(ContentBlock("text", text)), ["text"]) == text
  {
    BlockReadsBack("text", text);
  }

  /** A reply with no content block is an error: missing, empty, or not an array. */
  lemma NoContentBlocks(other: JVal)
    requires !other.JArr?
    ensures ContentText(JObj([])) == Failure(NoContent)
    ensures ContentText(JObj([("content", JArr([]))])) == Failure(NoContent)
    ensures ContentText(JObj([("content", other)])) == Failure(NoContent)
  {
    FieldStep([], "content", JArr([]), [], []);
    FieldStep([], "content", other, [], []);
  }

  // ---------------------------------------------------------------------
  // Review

  /** Everything `Review` does before the network call: nothing without the
      API key; otherwise the request for the resolved configuration and the
      assembled prompt. */
  function Prepare(input: Input): (r: Result<Request, Error>)
    ensures r.Failure? <==> ApiKeyVar !in input.vars
    ensures r.Failure? ==> r.error == MissingApiKey("CLAUDE_REVIEWER_API_KEY")
    ensures r.Success? ==>
      var c := ResolveConfig(input.vars).value;
      r.value == NewRequest(c, AssemblePrompt(c.settings.prompt, input, DiffFence))
  {
    var c :- ResolveConfig(input.vars);
    Success(NewRequest(c, AssemblePrompt(c.settings.prompt, input, DiffFence)))
  }

  /** `Review`: the comment is the reply text, unchanged; a missing key is
      reported whatever the network would have answered. */
  function Review(input: Input, send: Request -> Response): (r: Result<Output, Error>)
    ensures ApiKeyVar !in input.vars ==> r == Failure(MissingApiKey("CLAUDE_REVIEWER_API_KEY"))
    ensures ApiKeyVar in input.vars ==>
      var reply := ReadReply(send(Prepare(input).value));
      && (r.Success? <==> reply.Success?)
      && (r.Success? ==> r.value.comment == reply.value)
      && (r.Failure? ==> r.error == reply.error)
  {
    var request :- Prepare(input);
    var text :- ReadReply(send(request));
    Success(Output(text))
  }

  /** With the key present and any 2xx reply whose first content block
      holds a text under `text`, the comment is exactly that text, whatever
      the block's other members, the further blocks and the other members
      of the reply are. */
  lemma ReviewReturnsContentText(input: Input, send: Request -> Response, status: int, raw: string,
    before: seq<(string, JVal)>, block: JVal, text: string, more: seq<JVal>, after: seq<(string, JVal)>)
    requires ApiKeyVar in input.vars && 200 <= status < 300
    requires forall i :: 0 <= i < |before| ==> before[i].0 != "content"
    requires GetString(block, ["text"]) == text
    requires forall q :: send(q) == Response(status, raw, Some(JObj(before + [("content", JArr([block] + more))] + after)))
    ensures Review(input, send) == Success(Output(text))
  {
    ContentTextOfReply(before, block, text, more, after);
    assert send(Prepare(input).value).parsed.Some?;
  }

  /** Any status outside 200..299 fails the review with that status and the body. */
  lemma ReviewRefusesStatus(input: Input, send: Request -> Response, status: int, raw: string, parsed: Option<JVal>)
    requires ApiKeyVar in input.vars && !(200 <= status < 300)
    requires forall q :: send(q) == Response(status, raw, parsed)
    ensures Review(input, send) == Failure(RequestFailed(status, raw))
  {
  }
}
