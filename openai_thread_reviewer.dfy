/** The structured OpenAI plugin: the same settings and endpoint as the
    plain one, a prompt whose diff fence is indented by one space, and a
    reply that is itself decoded as `{comment, threads}`, after which every
    positive line number of every thread is moved up by one. */
module OpenAIThreadReviewer {
  import opened Wrappers
  import opened GoInt
  import opened Json
  import opened Plugin
  import ResponsesApi

  const DefaultModel: string := "gpt-5.1-codex-mini"
  const DefaultEndpoint: string := "https://api.openai.com/v1/responses"
  /** The compiled-in review instructions (which ask for the JSON answer);
      their wording is not modelled. */
  const DefaultPrompt: string

  const ApiKeyVar: string := "reviewer_api_key"
  const ModelVar: string := "reviewer_model"
  const PromptVar: string := "reviewer_prompt"
  const EndpointVar: string := "reviewer_endpoint"

  function VarKeys(): Keys {
    Keys(ApiKeyVar, ModelVar, PromptVar, EndpointVar, "REVIEWER_API_KEY")
  }

  function VarDefaults(): Defaults {
    Defaults(DefaultModel, DefaultPrompt, DefaultEndpoint)
  }

  /** One inline comment. A line the answer leaves out decodes as 0, and so
      does a path as "". */
  datatype Thread = Thread(newLine: Int, oldLine: Int, body: string, newPath: string, oldPath: string)

  /** `PluginOutput` of this plugin: the summary and the threads. */
  datatype ThreadOutput = ThreadOutput(comment: string, threads: seq<Thread>)

  // ---------------------------------------------------------------------
  // Line correction

  /** The correction of one line number: a positive line moves up by one
      (Go's `++`, which wraps at the top of `int`); zero and negative lines
      stay as they are. */
  function CorrectLine(n: Int): (r: Int)
    ensures n <= 0 ==> r == n
    ensures 0 < n < MaxInt ==> r == n + 1
    ensures n == MaxInt ==> r == MinInt
  {
    if n > 0 then Inc(n) else n
  }

  /** Undoes the correction. */
  function RestoreLine(m: Int): Int {
    if m > 1 then m - 1 else m
  }

  /** The correction loses nothing below the top of `int`: restoring gives
      back the line the model reported. */
  lemma CorrectLineRoundTrip(n: Int)
    requires n < MaxInt
    ensures RestoreLine(CorrectLine(n)) == n
  {
  }

  /** A corrected line is never 1: line 1 can only come from a reported 0,
      which is left untouched. */
  lemma CorrectLineNeverOne(n: Int)
    ensures CorrectLine(n) != 1
  {
  }

  /** At the top of `int` the increment wraps, and the largest line then
      lands on the same value as the smallest. */
  lemma CorrectLineWrapsAtMax()
    ensures CorrectLine(MaxInt) == MinInt == CorrectLine(MinInt)
  {
  }

  /** One thread after correction: each line field by the rule above,
      independently of the other; the body and the paths unchanged. */
  function Corrected(t: Thread): (r: Thread)
    ensures r.newLine == CorrectLine(t.newLine) && r.oldLine == CorrectLine(t.oldLine)
    ensures r.body == t.body && r.newPath == t.newPath && r.oldPath == t.oldPath
  {
    t.(newLine := CorrectLine(t.newLine), oldLine := CorrectLine(t.oldLine))
  }

  /** All threads corrected, in their order. */
  function CorrectAll(ts: seq<Thread>): (r: seq<Thread>)
    ensures |r| == |ts|
    ensures forall i :: 0 <= i < |ts| ==> r[i] == Corrected(ts[i])
  {
    if |ts| == 0 then [] else [Corrected(ts[0])] + CorrectAll(ts[1..])
  }

  /** The correction works thread by thread: correcting a concatenation is
      concatenating the corrections, so no thread is dropped, added or moved. */
  lemma CorrectAllAppend(a: seq<Thread>, b: seq<Thread>)
    ensures CorrectAll(a + b) == CorrectAll(a) + CorrectAll(b)
  {
    assert forall i :: 0 <= i < |a| + |b| ==> (a + b)[i] == if i < |a| then a[i] else b[i - |a|];
  }

  /** The correction must run exactly once: a second pass moves a line again. */
  lemma CorrectionIsNotIdempotent(t: Thread)
    requires 0 < t.newLine < MaxInt - 1
    ensures Corrected(Corrected(t)).newLine == t.newLine + 2
  {
  }

  /** The loop over `output.Threads`: in place, element by element, first the
      new line, then the old line. */
  method CorrectThreadLines(threads: array<Thread>)
    modifies threads
    ensures threads[..] == CorrectAll(old(threads[..]))
  {
    for i := 0 to threads.Length
      invariant forall k :: 0 <= k < i ==> threads[k] == Corrected(old(threads[k]))
      invariant forall k :: i <= k < threads.Length ==> threads[k] == old(threads[k])
    {
      if threads[i].newLine > 0 {
        threads[i] := threads[i].(newLine := Inc(threads[i].newLine));
      }
      if threads[i].oldLine > 0 {
        threads[i] := threads[i].(oldLine := Inc(threads[i].oldLine));
      }
    }
  }

  // ---------------------------------------------------------------------
  // Review

  /** Everything `Review` does before the network call; as in the plain
      plugin, except that the diff fence is indented by one space. */
  function Prepare(input: Input): (r: Result<Request, Error>)
    ensures r.Failure? <==> ApiKeyVar !in input.vars
    ensures r.Failure? ==> r.error == MissingApiKey("REVIEWER_API_KEY")
    ensures r.Success? ==>
      && r.value.url == Setting(input.vars, EndpointVar, DefaultEndpoint)
      && "Authorization" in r.value.headers
      && r.value.headers["Authorization"] == "Bearer " + input.vars[ApiKeyVar]
      && GetString(r.value.body, ["model"]) == Setting(input.vars, ModelVar, DefaultModel)
      && GetString(r.value.body, ["input"]) == AssemblePrompt(Setting(input.vars, PromptVar, DefaultPrompt), input, SpacedDiffFence)
    ensures r.Success? ==>
      r.value == ResponsesApi.NewRequest(AssemblePrompt(Setting(input.vars, PromptVar, DefaultPrompt), input, SpacedDiffFence),
                                         Setting(input.vars, EndpointVar, DefaultEndpoint), input.vars[ApiKeyVar],
                                         Setting(input.vars, ModelVar, DefaultModel))
  {
    var s :- ResolveSettings(input.vars, VarKeys(), VarDefaults());
    Success(ResponsesApi.NewRequest(AssemblePrompt(s.prompt, input, SpacedDiffFence), s.endpoint, s.apiKey, s.model))
  }

  /** `Review`: a missing key fails before anything is sent; a failed
      exchange is reported wrapped as a review failure; an answer that does
      not decode is reported with the raw answer; otherwise the decoded
      comment is returned with every thread corrected. `decode` stands for
      `json.Unmarshal` into `PluginOutput`. */
  method Review(input: Input, send: Request -> Response, decode: string -> Option<ThreadOutput>)
    returns (r: Result<ThreadOutput, Error>)
    ensures ApiKeyVar !in input.vars ==> r == Failure(MissingApiKey("REVIEWER_API_KEY"))
    ensures ApiKeyVar in input.vars ==>
      var reply := ResponsesApi.ReadReply(send(Prepare(input).value));
      && (reply.Failure? ==> r == Failure(ReviewFailed(reply.error)))
      && (reply.Success? && decode(reply.value).None? ==> r == Failure(UnmarshalFailed(reply.value)))
      && (reply.Success? && decode(reply.value).Some? ==>
            var out := decode(reply.value).value;
            r == Success(ThreadOutput(out.comment, CorrectAll(out.threads))))
  {
    var prepared := Prepare(input);
    if prepared.Failure? {
      return Failure(prepared.error);
    }
    var reply := ResponsesApi.ReadReply(send(prepared.value));
    if reply.Failure? {
      return Failure(ReviewFailed(reply.error));
    }
    var decoded := decode(reply.value);
    if decoded.None? {
      return Failure(UnmarshalFailed(reply.value));
    }
    var out := decoded.value;
    var threads := new Thread[|out.threads|](i requires 0 <= i < |out.threads| => out.threads[i]);
    assert threads[..] == out.threads;
    CorrectThreadLines(threads);
    r := Success(ThreadOutput(out.comment, threads[..]));
  }

  /** For example: a thread on new line 9 with no old line comes
      back on new line 10, still without an old line. */
  lemma ExampleThread()
    ensures CorrectAll([Thread(9, 0, "fix", "a.go", "")]) == [Thread(10, 0, "fix", "a.go", "")]
  {
  }
}
