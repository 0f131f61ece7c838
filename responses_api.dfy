/** The `review` function of the two OpenAI plugins, which is the same in
    both: it posts `{model, input}` with bearer authentication, accepts only
    status 200, and takes the text of the first "message" entry of the
    reply's `output` list. */
module ResponsesApi {
  import opened Wrappers
  import opened Json
  import opened Plugin

  /** `Body`: what the responses endpoint receives. */
  datatype Body = Body(model: string, input: string)

  /** `json.Marshal` of a `Body`: its fields in declaration order, so that
      each reads back at its own key. */
  function EncodeBody(b: Body): (r: JVal)
    ensures Get(r, ["model"]) == Some(JStr(b.model))
    ensures Get(r, ["input"]) == Some(JStr(b.input))
  {
    BodyReadsBack(b.model, b.input);
    JObj([("model", JStr(b.model)), ("input", JStr(b.input))])
  }

  /** The request `review` sends: a POST to the endpoint with the API key as
      a bearer token, and the model and prompt in the body. */
  function NewRequest(prompt: string, endpoint: string, apiKey: string, model: string): (r: Request)
    ensures r.verb == "POST" && r.url == endpoint
    ensures r.headers == map["Authorization" := "Bearer " + apiKey, "Content-Type" := "application/json"]
    ensures GetString(r.body, ["model"]) == model
    ensures GetString(r.body, ["input"]) == prompt
  {
    var body := EncodeBody(Body(model, prompt));
    Request("POST", endpoint, map["Authorization" := "Bearer " + apiKey, "Content-Type" := "application/json"], body)
  }

  lemma BodyReadsBack(model: string, prompt: string)
    ensures Get(JObj([("model", JStr(model)), ("input", JStr(prompt))]), ["model"]) == Some(JStr(model))
    ensures Get(JObj([("model", JStr(model)), ("input", JStr(prompt))]), ["input"]) == Some(JStr(prompt))
  {
    var noMembers: seq<(string, JVal)> := [];
    var m, i := ("model", JStr(model)), ("input", JStr(prompt));
    assert [m, i] == noMembers + [m] + [i] == [m] + [i] + noMembers;
    assert ["model"] == ["model"] + [] && ["input"] == ["input"] + [];
    FieldStep(noMembers, "model", JStr(model), [i], []);
    FieldStep([m], "input", JStr(prompt), noMembers, []);
  }

  /** An `output` entry whose `type` is the string "message". */
  predicate IsMessage(item: JVal) {
    GetString(item, ["type"]) == "message"
  }

  /** An entry is a message exactly when its `type` member is the string
      "message": an entry without a `type`, or with one that is not a
      string, is not one. */
  lemma IsMessageExactly(item: JVal)
    ensures IsMessage(item) <==> Get(item, ["type"]) == Some(JStr("message"))
  {
  }

  /** The position of the first message entry, if there is one: the
      `for ... range` loop that skips non-message entries and returns at the
      first message. */
  function FirstMessage(items: seq<JVal>): (r: Option<nat>)
    ensures r.Some? ==> r.value < |items| && IsMessage(items[r.value])
    ensures r.Some? ==> forall j :: 0 <= j < r.value ==> !IsMessage(items[j])
    ensures r.None? ==> forall j :: 0 <= j < |items| ==> !IsMessage(items[j])
  {
    if |items| == 0 then None
    else if IsMessage(items[0]) then Some(0)
    else match FirstMessage(items[1..])
      case None => None
      case Some(k) => Some(k + 1)
  }

  /** The text the reply carries: `content[0].text` of the first message
      entry of `output` ("" when that entry has no such string), or
      `NoResults` when no entry is a message, which includes a missing or
      empty `output`. */
  function OutputText(v: JVal): (r: Result<string, Error>)
    ensures var out := GetArray(v, ["output"]);
            && (r.Failure? <==> forall j :: 0 <= j < |out| ==> !IsMessage(out[j]))
            && (r.Failure? ==> r.error == NoResults)
            && (r.Success? ==> exists i :: 0 <= i < |out| && IsMessage(out[i])
                                           && (forall j :: 0 <= j < i ==> !IsMessage(out[j]))
                                           && r.value == GetString(out[i], ["content", "0", "text"]))
  {
    var out := GetArray(v, ["output"]);
    match FirstMessage(out)
    case None => Failure(NoResults)
    case Some(i) => Success(GetString(out[i], ["content", "0", "text"]))
  }

  /** What `review` makes of the reply: anything but status 200 is an error
      carrying the status and the body, an unparsable body is an error, and
      otherwise the result is the output text. */
  function ReadReply(resp: Response): (r: Result<string, Error>)
    ensures !IsStatusOk(resp.status) ==> r == Failure(StatusNotOk(resp.status, resp.body))
    ensures IsStatusOk(resp.status) && resp.parsed.None? ==> r == Failure(MalformedReply)
    ensures IsStatusOk(resp.status) && resp.parsed.Some? ==> r == OutputText(resp.parsed.value)
  {
    if !IsStatusOk(resp.status) then Failure(StatusNotOk(resp.status, resp.body))
    else match resp.parsed
      case None => Failure(MalformedReply)
      case Some(v) => OutputText(v)
  }

  /** The smallest message entry: a `type` and one content part with a
      `text`; the endpoint adds further members, which play no part. */
  function MessageItem(text: string): JVal {
    JObj([("type", JStr("message")), ("content", JArr([JObj([("text", JStr(text))])]))])
  }

  /** The smallest message entry meets what `OutputTextOfReply` asks of
      the entry it finds. */
  lemma MessageItemText(text: string)
    ensures IsMessage(MessageItem(text))
    ensures GetString(MessageItem(text), ["content", "0", "text"]) == text
  {
    var block := JObj([("text", JStr(text))]);
    var noMembers: seq<(string, JVal)> := [];
    var kind, content := ("type", JStr("message")), ("content", JArr([block]));
    assert [kind, content] == noMembers + [kind] + [content];
    assert ["type"] == ["type"] + [];
    FieldStep(noMembers, "type", JStr("message"), [content], []);
    assert [kind, content] == [kind] + [content] + noMembers;
    assert ["content", "0", "text"] == ["content"] + (["0"] + ["text"]);
    FieldStep([kind], "content", JArr([block]), noMembers, ["0"] + ["text"]);
    IndexZero([block], ["text"]);
    assert [("text", JStr(text))] == noMembers + [("text", JStr(text))] + noMembers;
    assert ["text"] == ["text"] + [];
    FieldStep(noMembers, "text", JStr(text), noMembers, []);
  }

  /** A reply whose `output` holds non-message entries, then a message,
      then anything at all yields that message's text: the entries before it
      are skipped, the ones after it are never looked at, and neither the
      other members of the reply nor the other members of the message
      play a part. */
  lemma {:induction false} OutputTextOfReply(
    before: seq<(string, JVal)>, skipped: seq<JVal>, item: JVal, text: string, later: seq<JVal>, after: seq<(string, JVal)>)
    requires forall i :: 0 <= i < |before| ==> before[i].0 != "output"
    requires forall j :: 0 <= j < |skipped| ==> !IsMessage(skipped[j])
    requires IsMessage(item) && GetString(item, ["content", "0", "text"]) == text
    ensures OutputText(JObj(before + [("output", JArr(skipped + [item] + later))] + after)) == Success(text)
  {
    var items := skipped + [item] + later;
    FieldStep(before, "output", JArr(items), after, []);
    assert GetArray(JObj(before + [("output", JArr(items))] + after), ["output"]) == items;
    assert items[|skipped|] == item;
    assert forall j :: 0 <= j < |skipped| ==> items[j] == skipped[j];
    FirstMessageAt(items, |skipped|);
  }

  /** The entry at `k` is the first message when it is one and none before it is. */
  lemma {:induction false} FirstMessageAt(items: seq<JVal>, k: nat)
    requires k < |items| && IsMessage(items[k])
    requires forall j :: 0 <= j < k ==> !IsMessage(items[j])
    ensures FirstMessage(items) == Some(k)
  {
    if k > 0 {
      assert !IsMessage(items[0]);
      var tail := items[1..];
      assert tail[k - 1] == items[k];
      assert forall j :: 0 <= j < k - 1 ==> tail[j] == items[j + 1];
      FirstMessageAt(tail, k - 1);
    }
  }

  /** Without a message entry there is no result: a reply with no `output`,
      with an empty one, or with one of a different type. */
  lemma NoMessageNoResults(other: JVal)
    requires !other.JArr?
    ensures OutputText(JObj([])) == Failure(NoResults)
    ensures OutputText(JObj([("output", JArr([]))])) == Failure(NoResults)
    ensures OutputText(JObj([("output", other)])) == Failure(NoResults)
  {
    var noMembers: seq<(string, JVal)> := [];
    assert GetArray(JObj([]), ["output"]) == [];
    assert [("output", JArr([]))] == noMembers + [("output", JArr([]))] + noMembers;
    FieldStep(noMembers, "output", JArr([]), noMembers, []);
    assert GetArray(JObj([("output", JArr([]))]), ["output"]) == [];
    assert [("output", other)] == noMembers + [("output", other)] + noMembers;
    FieldStep(noMembers, "output", other, noMembers, []);
    assert GetArray(JObj([("output", other)]), ["output"]) == [];
  }
}
