/** The Gemini plugin: settings under the `gemini_reviewer_` prefix, the API
    key and the model carried in the URL instead of a header, a
    `generateContent` request with one content of one part, any 2xx status
    accepted, and the text of the first part of the first candidate. */
module GeminiReviewer {
  import opened Wrappers
  import opened Json
  import opened Plugin

  const DefaultModel: string := "gemini-pro"
  const DefaultEndpoint: string := "https://generativelanguage.googleapis.com/v1beta/models/"
  /** The compiled-in review instructions; their wording is not modelled. */
  const DefaultPrompt: string

  const ApiKeyVar: string := "gemini_reviewer_api_key"
  const ModelVar: string := "gemini_reviewer_model"
  const PromptVar: string := "gemini_reviewer_prompt"
  const EndpointVar: string := "gemini_reviewer_endpoint"

  function VarKeys(): Keys {
    Keys(ApiKeyVar, ModelVar, PromptVar, EndpointVar, "GEMINI_REVIEWER_API_KEY")
  }

  function VarDefaults(): Defaults {
    Defaults(DefaultModel, DefaultPrompt, DefaultEndpoint)
  }

  // ---------------------------------------------------------------------
  // Request

  const GenerateContent: string := ":generateContent?key="

  /** The URL `review` posts to: the endpoint, the model, the method name and
      the key, glued together with nothing escaped. */
  function RequestUrl(endpoint: string, model: string, apiKey: string): (r: string)
    ensures |r| == |endpoint| + |model| + |GenerateContent| + |apiKey|
    ensures r[..|endpoint|] == endpoint
    ensures r[|endpoint|..|endpoint| + |model|] == model
    ensures r[|endpoint| + |model|..|endpoint| + |model| + |GenerateContent|] == GenerateContent
    ensures r[|r| - |apiKey|..] == apiKey
  {
    var r := endpoint + (model + (GenerateContent + apiKey));
    Halves(endpoint, model + (GenerateContent + apiKey));
    LabelAt(r, |endpoint|, model, GenerateContent, apiKey);
    r
  }

  datatype Part = Part(text: string)
  datatype Content = Content(parts: seq<Part>)
  datatype GeminiRequest = GeminiRequest(contents: seq<Content>)

  /** The request body `review` builds: one content holding one part whose
      text is the whole prompt. */
  function NewGeminiRequest(prompt: string): (r: GeminiRequest)
    ensures |r.contents| == 1 && r.contents[0].parts == [Part(prompt)]
  {
    GeminiRequest([Content([Part(prompt)])])
  }

  function EncodePart(p: Part): JVal {
    JObj([("text", JStr(p.text))])
  }

  function EncodeContent(c: Content): JVal {
    JObj([("parts", JArr(seq(|c.parts|, i requires 0 <= i < |c.parts| => EncodePart(c.parts[i]))))])
  }

  /** `json.Marshal` of a `GeminiRequest`: one encoded content per
      content, in order, under `contents`. */
  function EncodeRequest(req: GeminiRequest): (r: JVal)
    ensures |GetArray(r, ["contents"])| == |req.contents|
    ensures forall i :: 0 <= i < |req.contents| ==> GetArray(r, ["contents"])[i] == EncodeContent(req.contents[i])
  {
    var contents := EncodeContents(req.contents);
    assert ["contents"] == ["contents"] + [];
    Single("contents", JArr(contents), []);
    JObj([("contents", JArr(contents))])
  }

  function EncodeContents(cs: seq<Content>): seq<JVal> {
    seq(|cs|, i requires 0 <= i < |cs| => EncodeContent(cs[i]))
  }

  /** The JSON tree of the request `review` builds, written out. */
  lemma EncodedRequestShape(prompt: string)
    ensures EncodeRequest(NewGeminiRequest(prompt)) ==
              JObj([("contents", JArr([JObj([("parts", JArr([JObj([("text", JStr(prompt))])]))])]))])
  {
    var content := Content([Part(prompt)]);
    assert seq(|content.parts|, i requires 0 <= i < |content.parts| => EncodePart(content.parts[i])) == [EncodePart(Part(prompt))];
    var req := NewGeminiRequest(prompt);
    assert EncodeContents(req.contents) == [EncodeContent(content)];
  }

  /** `{"k": v}` read at `k` and then along `rest` is `v` read along `rest`. */
  lemma Single(key: string, v: JVal, rest: seq<string>)
    ensures Get(JObj([(key, v)]), [key] + rest) == Get(v, rest)
  {
    var noMembers: seq<(string, JVal)> := [];
    assert noMembers + [(key, v)] + noMembers == [(key, v)];
    FieldStep(noMembers, key, v, noMembers, rest);
  }

  /** Reading the encoded request back along `contents/0/parts/0/text` gives
      the prompt. */
  lemma EncodedRequestReadsBack(prompt: string)
    ensures Get(EncodeRequest(NewGeminiRequest(prompt)), ["contents", "0", "parts", "0", "text"]) == Some(JStr(prompt))
  {
    var part := JObj([("text", JStr(prompt))]);
    var content := JObj([("parts", JArr([part]))]);
    EncodedRequestShape(prompt);
    assert ["contents", "0", "parts", "0", "text"] == ["contents"] + ["0", "parts", "0", "text"];
    Single("contents", JArr([content]), ["0", "parts", "0", "text"]);
    assert ["0", "parts", "0", "text"] == ["0"] + ["parts", "0", "text"];
    IndexZero([content], ["parts", "0", "text"]);
    assert ["parts", "0", "text"] == ["parts"] + ["0", "text"];
    Single("parts", JArr([part]), ["0", "text"]);
    assert ["0", "text"] == ["0"] + ["text"];
    IndexZero([part], ["text"]);
    assert ["text"] == ["text"] + [];
    Single("text", JStr(prompt), []);
  }

  /** The request `review` sends: a POST to the URL above, with only a
      content-type header, so the key travels in the URL alone. */
  function NewRequest(prompt: string, endpoint: string, apiKey: string, model: string): (r: Request)
    ensures r.verb == "POST" && r.url == RequestUrl(endpoint, model, apiKey)
    ensures r.headers == map["Content-Type" := "application/json"]
    ensures "Authorization" !in r.headers
    ensures GetString(r.body, ["contents", "0", "parts", "0", "text"]) == prompt
  {
    EncodedRequestReadsBack(prompt);
    Request("POST", RequestUrl(endpoint, model, apiKey), map["Content-Type" := "application/json"],
            EncodeRequest(NewGeminiRequest(prompt)))
  }

  // ---------------------------------------------------------------------
  // Reply

  /** The text the reply carries: `text` of the first part of the first
      candidate ("" when it has none); `NoCandidates` when there is no
      candidate, and `NoParts` when the first candidate has no part. The
      candidates are checked first. */
  function CandidateText(v: JVal): (r: Result<string, Error>)
    ensures var candidates := GetArray(v, ["candidates"]);
            && (|candidates| == 0 ==> r == Failure(NoCandidates))
            && (|candidates| > 0 ==>
                  var parts := GetArray(candidates[0], ["content", "parts"]);
                  && (|parts| == 0 ==> r == Failure(NoParts))
                  && (|parts| > 0 ==> r == Success(GetString(parts[0], ["text"]))))
  {
    var candidates := GetArray(v, ["candidates"]);
    if |candidates| == 0 then Failure(NoCandidates)
    else
      var parts := GetArray(candidates[0], ["content", "parts"]);
      if |parts| == 0 then Failure(NoParts)
      else Success(GetString(parts[0], ["text"]))
  }

  /** What `review` makes of the reply: a status outside 200..299 is an
      error carrying the status and the body, an unparsable body is an
      error, and otherwise the result is the candidate text. */
  function ReadReply(resp: Response): (r: Result<string, Error>)
    ensures !IsSuccessStatus(resp.status) ==> r == Failure(RequestFailed(resp.status, resp.body))
    ensures IsSuccessStatus(resp.status) && resp.parsed.None? ==> r == Failure(MalformedReply)
    ensures IsSuccessStatus(resp.status) && resp.parsed.Some? ==> r == CandidateText(resp.parsed.value)
  {
    if !IsSuccessStatus(resp.status) then Failure(RequestFailed(resp.status, resp.body))
    else match resp.parsed
      case None => Failure(MalformedReply)
      case Some(v) => CandidateText(v)
  }

  /** The smallest candidate: a content of the same shape as the contents
      of the request; the endpoint adds further members, which play no
      part. */
  function Candidate(text: string): JVal {
    JObj([("content", EncodeContent(Content([Part(text)])))])
  }

  /** The smallest candidate meets what `CandidateTextOfReply` asks of the
      first candidate. */
  lemma CandidatePartText(text: string)
    ensures var parts := GetArray(Candidate(text), ["content", "parts"]);
            |parts| > 0 && GetString(parts[0], ["text"]) == text
  {
    var part := JObj([("text", JStr(text))]);
    var content := Content([Part(text)]);
    assert seq(|content.parts|, i requires 0 <= i < |content.parts| => EncodePart(content.parts[i])) == [part];
    assert ["content", "parts"] == ["content"] + ["parts"];
    Single("content", EncodeContent(content), ["parts"]);
    assert ["parts"] == ["parts"] + [];
    Single("parts", JArr([part]), []);
    assert ["text"] == ["text"] + [];
    Single("text", JStr(text), []);
  }

  /** A reply whose first candidate has a part yields exactly that part's
      text, whatever the candidate's other members, the further candidates
      and the other members of the reply are. */
  lemma {:induction false} CandidateTextOfReply(
    before: seq<(string, JVal)>, candidate: JVal, text: string, more: seq<JVal>, after: seq<(string, JVal)>)
    requires forall i :: 0 <= i < |before| ==> before[i].0 != "candidates"
    requires |GetArray(candidate, ["content", "parts"])| > 0
    requires GetString(GetArray(candidate, ["content", "parts"])[0], ["text"]) == text
    ensures CandidateText(JObj(before + [("candidates", JArr([candidate] + more))] + after)) == Success(text)
  {
    var candidates := [candidate] + more;
    FieldStep(before, "candidates", JArr(candidates), after, []);
    assert GetArray(JObj(before + [("candidates", JArr(candidates))] + after), ["candidates"]) == candidates;
  }

  /** The two checks come in order: with no candidate the error is
      `NoCandidates`, and a first candidate without parts gives `NoParts`,
      even when a later candidate has some. */
  lemma CandidatesBeforeParts(text: string)
    ensures CandidateText(JObj([])) == Failure(NoCandidates)
    ensures CandidateText(JObj([("candidates", JArr([]))])) == Failure(NoCandidates)
    ensures CandidateText(JObj([("candidates", JArr([JObj([]), Candidate(text)]))])) == Failure(NoParts)
  {
    Single("candidates", JArr([]), []);
    var candidates := [JObj([]), Candidate(text)];
    assert ["candidates"] == ["candidates"] + [];
    Single("candidates", JArr(candidates), []);
    assert GetArray(JObj([("candidates", JArr(candidates))]), ["candidates"]) == candidates;
  }

  // ---------------------------------------------------------------------
  // Review

  /** Everything `Review` does before the network call: nothing without the
      API key; otherwise the request for the resolved settings and the
      assembled prompt. */
  function Prepare(input: Input): (r: Result<Request, Error>)
    ensures r.Failure? <==> ApiKeyVar !in input.vars
    ensures r.Failure? ==> r.error == MissingApiKey("GEMINI_REVIEWER_API_KEY")
    ensures r.Success? ==>
      && r.value.url == RequestUrl(Setting(input.vars, EndpointVar, DefaultEndpoint),
                                   Setting(input.vars, ModelVar, DefaultModel), input.vars[ApiKeyVar])
      && r.value.headers == map["Content-Type" := "application/json"]
      && GetString(r.value.body, ["contents", "0", "parts", "0", "text"])
           == AssemblePrompt(Setting(input.vars, PromptVar, DefaultPrompt), input, DiffFence)
    ensures r.Success? ==>
      r.value == NewRequest(AssemblePrompt(Setting(input.vars, PromptVar, DefaultPrompt), input, DiffFence),
                            Setting(input.vars, EndpointVar, DefaultEndpoint), input.vars[ApiKeyVar],
                            Setting(input.vars, ModelVar, DefaultModel))
  {
    var s :- ResolveSettings(input.vars, VarKeys(), VarDefaults());
    Success(NewRequest(AssemblePrompt(s.prompt, input, DiffFence), s.endpoint, s.apiKey, s.model))
  }

  /** `Review`: the comment is the reply text, unchanged; a missing key is
      reported whatever the network would have answered. */
  function Review(input: Input, send: Request -> Response): (r: Result<Output, Error>)
    ensures ApiKeyVar !in input.vars ==> r == Failure(MissingApiKey("GEMINI_REVIEWER_API_KEY"))
    ensures ApiKeyVar in input.vars ==>
      var reply := ReadReply(send(Prepare(input).value));
      && (r.Success? <==> reply.Success?)
      && (r.Success? ==> r.value.comment == reply.value)
      && (r.Failure? ==> r.error == reply.error)
  {
    var request :- Prepare(input);
    var text :- ReadReply(send(request));
    Success(Output(text))
  }

  /** With the key present and any 2xx reply whose first candidate has a
      part, the comment is exactly that part's text, whatever the
      candidate's other members, the further candidates and the other
      members of the reply are. */
  lemma ReviewReturnsCandidateText(input: Input, send: Request -> Response, status: int, raw: string,
    before: seq<(string, JVal)>, candidate: JVal, text: string, more: seq<JVal>, after: seq<(string, JVal)>)
    requires ApiKeyVar in input.vars && 200 <= status < 300
    requires forall i :: 0 <= i < |before| ==> before[i].0 != "candidates"
    requires |GetArray(candidate, ["content", "parts"])| > 0
    requires GetString(GetArray(candidate, ["content", "parts"])[0], ["text"]) == text
    requires forall q :: send(q) == Response(status, raw, Some(JObj(before + [("candidates", JArr([candidate] + more))] + after)))
    ensures Review(input, send) == Success(Output(text))
  {
    CandidateTextOfReply(before, candidate, text, more, after);
    assert send(Prepare(input).value).parsed.Some?;
  }

  /** Any status outside 200..299 fails the review with that status and the body. */
  lemma ReviewRefusesStatus(input: Input, send: Request -> Response, status: int, raw: string, parsed: Option<JVal>)
    requires ApiKeyVar in input.vars && !(200 <= status < 300)
    requires forall q :: send(q) == Response(status, raw, parsed)
    ensures Review(input, send) == Failure(RequestFailed(status, raw))
  {
  }
}
