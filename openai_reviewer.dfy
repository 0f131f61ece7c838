/** The plain OpenAI plugin: settings under the `reviewer_` prefix, the
    prompt with the unindented diff fence, the responses endpoint, and the
    reply text returned unchanged as the comment. */
module OpenAIReviewer {
  import opened Wrappers
  import opened Json
  import opened Plugin
  import ResponsesApi

  const DefaultModel: string := "gpt-5.1-codex-mini"
  const DefaultEndpoint: string := "https://api.openai.com/v1/responses"
  /** The compiled-in review instructions; their wording is not modelled. */
  const DefaultPrompt: string

  const ApiKeyVar: string := "reviewer_api_key"
  const ModelVar: string := "reviewer_model"
  const PromptVar: string := "reviewer_prompt"
  const EndpointVar: string := "reviewer_endpoint"

  function VarKeys(): Keys {
    Keys(ApiKeyVar, ModelVar, PromptVar, EndpointVar, "REVIEWER_API_KEY")
  }

  function VarDefaults(): Defaults {
    Defaults(DefaultModel, DefaultPrompt, DefaultEndpoint)
  }

  /** Everything `Review` does before the network call: without the API key
      it stops with an error, so no request exists; otherwise the request
      goes to the resolved endpoint, carries the key as a bearer token, and
      holds the resolved model and the assembled prompt. */
  function Prepare(input: Input): (r: Result<Request, Error>)
    ensures r.Failure? <==> ApiKeyVar !in input.vars
    ensures r.Failure? ==> r.error == MissingApiKey("REVIEWER_API_KEY")
    ensures r.Success? ==>
      && r.value.url == Setting(input.vars, EndpointVar, DefaultEndpoint)
      && "Authorization" in r.value.headers
      && r.value.headers["Authorization"] == "Bearer " + input.vars[ApiKeyVar]
      && GetString(r.value.body, ["model"]) == Setting(input.vars, ModelVar, DefaultModel)
      && GetString(r.value.body, ["input"]) == AssemblePrompt(Setting(input.vars, PromptVar, DefaultPrompt), input, DiffFence)
    ensures r.Success? ==>
      r.value == ResponsesApi.NewRequest(AssemblePrompt(Setting(input.vars, PromptVar, DefaultPrompt), input, DiffFence),
                                         Setting(input.vars, EndpointVar, DefaultEndpoint), input.vars[ApiKeyVar],
                                         Setting(input.vars, ModelVar, DefaultModel))
  {
    var s :- ResolveSettings(input.vars, VarKeys(), VarDefaults());
    Success(ResponsesApi.NewRequest(AssemblePrompt(s.prompt, input, DiffFence), s.endpoint, s.apiKey, s.model))
  }

  /** `Review`: the comment is the reply text, unchanged; a missing key is
      reported whatever the network would have answered. */
  function Review(input: Input, send: Request -> Response): (r: Result<Output, Error>)
    ensures ApiKeyVar !in input.vars ==> r == Failure(MissingApiKey("REVIEWER_API_KEY"))
    ensures ApiKeyVar in input.vars ==>
      var reply := ResponsesApi.ReadReply(send(Prepare(input).value));
      && (r.Success? <==> reply.Success?)
      && (r.Success? ==> r.value.comment == reply.value)
      && (r.Failure? ==> r.error == reply.error)
  {
    var request :- Prepare(input);
    var text :- ResponsesApi.ReadReply(send(request));
    Success(Output(text))
  }

  /** With the key present and a 200 reply whose `output` holds a message
      entry after any number of other entries, the comment is exactly that
      entry's text, whatever its other members, the later entries and the
      other members of the reply are. */
  lemma ReviewReturnsMessageText(input: Input, send: Request -> Response, raw: string,
    before: seq<(string, JVal)>, skipped: seq<JVal>, item: JVal, text: string, later: seq<JVal>, after: seq<(string, JVal)>)
    requires ApiKeyVar in input.vars
    requires forall i :: 0 <= i < |before| ==> before[i].0 != "output"
    requires forall j :: 0 <= j < |skipped| ==> !ResponsesApi.IsMessage(skipped[j])
    requires ResponsesApi.IsMessage(item) && GetString(item, ["content", "0", "text"]) == text
    requires forall q :: send(q) == Response(200, raw, Some(JObj(before + [("output", JArr(skipped + [item] + later))] + after)))
    ensures Review(input, send) == Success(Output(text))
  {
    ResponsesApi.OutputTextOfReply(before, skipped, item, text, later, after);
    assert send(Prepare(input).value).parsed.Some?;
  }

  /** Any status but 200 fails the review with that status and the body. */
  lemma ReviewRefusesStatus(input: Input, send: Request -> Response, status: int, raw: string, parsed: Option<JVal>)
    requires ApiKeyVar in input.vars && status != 200
    requires forall q :: send(q) == Response(status, raw, parsed)
    ensures Review(input, send) == Failure(StatusNotOk(status, raw))
  {
  }
}
