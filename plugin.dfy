/** What the five reviewer plugins have in common: the input the host
    passes in, the HTTP exchange, the error cases, the lookup of settings in
    the `vars` map, and the assembly of the prompt from the merge request. */
module Plugin {
  import opened Wrappers
  import opened GoInt
  import opened Json

  /** `PluginInput`: the merge request and the configuration variables.
      `diffs` is the raw diff, used verbatim. */
  datatype Input = Input(title: string, description: string, author: string, diffs: string, vars: map<string, string>)

  /** `PluginOutput` of the plugins that return only a comment. */
  datatype Output = Output(comment: string)

  /** The request go-pdk sends: method, URL, the headers set with
      `SetHeader` and the body, as the JSON tree `json.Marshal` writes. */
  datatype Request = Request(verb: string, url: string, headers: map<string, string>, body: JVal)

  /** What `Send` hands back: the status, the raw body, and the outcome of
      parsing that body with fastjson (`None` when it is not JSON). */
  datatype Response = Response(status: int, body: string, parsed: Option<JVal>)

  /** Every way a review fails. */
  datatype Error =
    | MissingApiKey(variable: string)          // "<VARIABLE> is not provided"; nothing is sent
    | StatusNotOk(status: int, body: string)   // "status is not ok: %d, %s"
    | RequestFailed(status: int, body: string) // "request failed with status %d: %s"
    | MalformedReply                           // fastjson could not parse the body
    | NoResults                                // "no results"
    | NoContent                                // "no content in response"
    | NoChoices                                // "no choices in response"
    | NoCandidates                             // "no candidates in response"
    | NoParts                                  // "no parts in candidate"
    | ReviewFailed(cause: Error)               // "review func failed: %w"
    | UnmarshalFailed(result: string)          // "unmarshal func failed: ..."

  // ---------------------------------------------------------------------
  // Settings

  /** The names under which one plugin looks its settings up, and the
      variable name its missing-key error reports. */
  datatype Keys = Keys(apiKey: string, model: string, prompt: string, endpoint: string, apiKeyName: string)

  /** The compiled-in defaults of one plugin. */
  datatype Defaults = Defaults(model: string, prompt: string, endpoint: string)

  /** The settings every plugin resolves. */
  datatype Settings = Settings(apiKey: string, model: string, prompt: string, endpoint: string)

  /** An optional setting: the supplied value whenever the key is present,
      even when that value is empty, and the default otherwise. */
  function Setting(vars: map<string, string>, key: string, default: string): (r: string)
    ensures key in vars ==> r == vars[key]
    ensures key !in vars ==> r == default
  {
    if key in vars then vars[key] else default
  }

  /** The API key is required: without it resolution fails and names the
      variable; every other setting falls back to its default. */
  function ResolveSettings(vars: map<string, string>, keys: Keys, defaults: Defaults): (r: Result<Settings, Error>)
    ensures r.Failure? <==> keys.apiKey !in vars
    ensures r.Failure? ==> r.error == MissingApiKey(keys.apiKeyName)
    ensures r.Success? ==> r.value.apiKey == vars[keys.apiKey]
    ensures r.Success? && keys.model in vars ==> r.value.model == vars[keys.model]
    ensures r.Success? && keys.model !in vars ==> r.value.model == defaults.model
    ensures r.Success? && keys.prompt in vars ==> r.value.prompt == vars[keys.prompt]
    ensures r.Success? && keys.prompt !in vars ==> r.value.prompt == defaults.prompt
    ensures r.Success? && keys.endpoint in vars ==> r.value.endpoint == vars[keys.endpoint]
    ensures r.Success? && keys.endpoint !in vars ==> r.value.endpoint == defaults.endpoint
  {
    if keys.apiKey !in vars then Failure(MissingApiKey(keys.apiKeyName))
    else Success(Settings(
      vars[keys.apiKey],
      Setting(vars, keys.model, defaults.model),
      Setting(vars, keys.prompt, defaults.prompt),
      Setting(vars, keys.endpoint, defaults.endpoint)))
  }

  /** Variables under names the plugin does not read change nothing. */
  lemma ResolveSettingsIgnoresOtherVars(vars: map<string, string>, keys: Keys, defaults: Defaults, other: string, value: string)
    requires other != keys.apiKey && other != keys.model && other != keys.prompt && other != keys.endpoint
    ensures ResolveSettings(vars[other := value], keys, defaults) == ResolveSettings(vars, keys, defaults)
  {
  }

  /** `max_tokens`: the default when the variable is absent, the parsed value
      when `strconv.Atoi` accepts it, and silently the default again when
      `Atoi` rejects it (no error is raised). */
  function MaxTokens(vars: map<string, string>, key: string, default: Int): (r: Int)
    ensures key !in vars ==> r == default
    ensures key in vars && Atoi(vars[key]).Some? ==> r == Atoi(vars[key]).value
    ensures key in vars && Atoi(vars[key]).None? ==> r == default
  {
    if key in vars then
      match Atoi(vars[key])
      case Some(i) => i
      case None => default
    else default
  }

  /** A `max_tokens` written in decimal is read back as that number when it
      fits in a Go `int`, and gives the default when it does not. */
  lemma MaxTokensOfNumeral(vars: map<string, string>, key: string, default: Int, n: int)
    ensures MaxTokens(vars[key := FormatInt(n)], key, default) == if MinInt <= n <= MaxInt then n else default
  {
    AtoiFormatInt(n);
  }

  /** A `max_tokens` that is not a numeral at all gives the default. */
  lemma MaxTokensOfNonNumeral(vars: map<string, string>, key: string, default: Int, s: string)
    requires !IsDecimal(s)
    ensures MaxTokens(vars[key := s], key, default) == default
  {
  }

  // ---------------------------------------------------------------------
  // Prompt

  /** The opening of the diff section in most plugins. */
  const DiffFence: string := "# Diff\n```"
  /** The opening of the diff section in the thread-per-line plugin: the
      fence is preceded by a space. */
  const SpacedDiffFence: string := "# Diff\n ```"
  /** The closing of the diff section. */
  const DiffClose: string := "\n```\n"

  predicate IsDiffFence(fence: string) {
    fence == DiffFence || fence == SpacedDiffFence
  }

  function DescriptionLine(description: string): string {
    if description != "" then "Description: " + (description + "\n") else ""
  }

  /** The description line: "Description: ", the description and a
      newline, or nothing at all for an empty description. */
  lemma DescriptionLineShape(description: string)
    ensures description == "" ==> DescriptionLine(description) == ""
    ensures description != "" ==>
      var r := DescriptionLine(description);
      && |r| == |description| + 14
      && r[..13] == "Description: "
      && r[13..|r| - 1] == description
      && r[|r| - 1] == '\n'
  {
    if description != "" {
      var r := DescriptionLine(description);
      assert r == "Description: " + (description + "\n");
      assert r[13..] == description + "\n";
      assert r[13..|r| - 1] == r[13..][..|description|];
    }
  }

  /** The full prompt: the template, the title/author line, the description
      line only for a non-empty description, then the diff inside a fence. */
  function AssemblePrompt(template: string, input: Input, fence: string): (r: string)
    requires IsDiffFence(fence)
    ensures |r| == |template| + 18 + |input.title| + |input.author| + |fence| + |input.diffs| + 5
                   + (if input.description != "" then |input.description| + 14 else 0)
  {
    template + ("\nTitle: " + (input.title + ("\nAuthor: " + (input.author + ("\n"
      + (DescriptionLine(input.description) + (fence + (input.diffs + DiffClose))))))))
  }

  /** Dropping `b` from a suffix `b + c` leaves `c`. */
  lemma Drop(s: string, i: nat, b: string, c: string)
    requires i <= |s| && s[i..] == b + c
    ensures s[i + |b|..] == c
  {
    assert s[i + |b|..] == s[i..][|b|..];
  }

  /** A suffix `b + c` starts with `b`. */
  lemma Take(s: string, i: nat, b: string, c: string)
    requires i <= |s| && s[i..] == b + c
    ensures s[i..i + |b|] == b
  {
    assert s[i..i + |b|] == s[i..][..|b|];
  }

  /** A suffix `tag + (v + rest)` holds `tag`, then `v`, then `rest`. */
  lemma LabelAt(r: string, i: nat, tag: string, v: string, rest: string)
    requires i <= |r| && r[i..] == tag + (v + rest)
    ensures i + |tag| + |v| <= |r|
    ensures r[i..i + |tag|] == tag
    ensures r[i + |tag|..i + |tag| + |v|] == v
    ensures r[i + |tag| + |v|..] == rest
  {
    Drop(r, i, tag, v + rest);
    Drop(r, i + |tag|, v, rest);
    Take(r, i, tag, v + rest);
    Take(r, i + |tag|, v, rest);
  }

  /** The title and the author behind their labels, from `i` on. */
  lemma TitleAuthorAt(r: string, i: nat, title: string, author: string, rest: string)
    requires i <= |r| && r[i..] == "\nTitle: " + (title + ("\nAuthor: " + (author + rest)))
    ensures var t := i + 8;
            var a := t + |title| + 9;
            && a + |author| <= |r|
            && r[i..t] == "\nTitle: "
            && r[t..t + |title|] == title
            && r[t + |title|..a] == "\nAuthor: "
            && r[a..a + |author|] == author
            && r[a + |author|..] == rest
            && (|rest| > 0 ==> a + |author| < |r| && r[a + |author|] == rest[0])
  {
    LabelAt(r, i, "\nTitle: ", title, "\nAuthor: " + (author + rest));
    LabelAt(r, i + 8 + |title|, "\nAuthor: ", author, rest);
    var e := i + 8 + |title| + 9 + |author|;
    if |rest| > 0 {
      assert r[e..][0] == r[e];
    }
  }

  /** A concatenation splits back into its two halves. */
  lemma Halves(a: string, b: string)
    ensures (a + b)[..|a|] == a && (a + b)[|a|..] == b
  {
  }

  /** The prompt begins with the template, then the title and the author,
      each behind its label, at fixed places, and a newline closes the
      author line. */
  lemma PromptTitleAuthor(template: string, input: Input, fence: string)
    requires IsDiffFence(fence)
    ensures var r := AssemblePrompt(template, input, fence);
            var t := |template| + 8;
            var a := t + |input.title| + 9;
            && r[..|template|] == template
            && r[|template|..t] == "\nTitle: "
            && r[t..t + |input.title|] == input.title
            && r[t + |input.title|..a] == "\nAuthor: "
            && r[a..a + |input.author|] == input.author
            && a + |input.author| < |r| && r[a + |input.author|] == '\n'
  {
    var r := AssemblePrompt(template, input, fence);
    var rest := "\n" + (DescriptionLine(input.description) + (fence + (input.diffs + DiffClose)));
    PromptLaidOut(template, input, fence);
    assert r[|template|..] == "\nTitle: " + (input.title + ("\nAuthor: " + (input.author + rest)));
    assert rest[0] == '\n';
    TitleAuthorAt(r, |template|, input.title, input.author, rest);
  }

  /** `r` is the template followed by the rest of a prompt: the form in
      which the lemmas below take it apart. */
  predicate PromptPieces(r: string, template: string, title: string, author: string, desc: string, fence: string, diffs: string) {
    && |template| <= |r|
    && r[..|template|] == template
    && r[|template|..] == "\nTitle: " + (title + ("\nAuthor: " + (author + ("\n" + (desc + (fence + (diffs + DiffClose)))))))
  }

  lemma PromptLaidOut(template: string, input: Input, fence: string)
    requires IsDiffFence(fence)
    ensures PromptPieces(AssemblePrompt(template, input, fence), template, input.title, input.author,
                         DescriptionLine(input.description), fence, input.diffs)
  {
    var rest := "\n" + (DescriptionLine(input.description) + (fence + (input.diffs + DiffClose)));
    Halves(template, "\nTitle: " + (input.title + ("\nAuthor: " + (input.author + rest))));
  }

  /** What follows the author line: the description line, the fence, the
      diff and the closing fence, each where the previous one ends. */
  lemma AfterAuthorAt(r: string, k: nat, desc: string, fence: string, diffs: string)
    requires k <= |r| && r[k..] == "\n" + (desc + (fence + (diffs + DiffClose)))
    ensures var d := k + 1 + |desc|;
            && d + |fence| + |diffs| + 5 == |r|
            && r[k + 1..] == desc + (fence + (diffs + DiffClose))
            && r[d..] == fence + (diffs + DiffClose)
            && r[d + |fence|..d + |fence| + |diffs|] == diffs
            && r[d + |fence| + |diffs|..] == DiffClose
  {
    var d := k + 1 + |desc|;
    Drop(r, k, "\n", desc + (fence + (diffs + DiffClose)));
    Drop(r, k + 1, desc, fence + (diffs + DiffClose));
    Drop(r, d, fence, diffs + DiffClose);
    Drop(r, d + |fence|, diffs, DiffClose);
    assert r[d + |fence|..d + |fence| + |diffs|] == diffs by { Take(r, d + |fence|, diffs, DiffClose); }
  }

  /** The prompt cut after the author line: the description line, then the
      fenced diff; and the prompt ends with the diff and the closing fence. */
  lemma PromptAfterAuthor(template: string, input: Input, fence: string)
    requires IsDiffFence(fence)
    ensures var r := AssemblePrompt(template, input, fence);
            var k := |template| + 18 + |input.title| + |input.author|;
            && k <= |r|
            && r[k..] == DescriptionLine(input.description) + (fence + (input.diffs + DiffClose))
            && r[|r| - |input.diffs| - 5..|r| - 5] == input.diffs
            && r[|r| - 5..] == DiffClose
  {
    PromptLaidOut(template, input, fence);
    AfterAuthorOf(AssemblePrompt(template, input, fence), template, input.title, input.author,
                  DescriptionLine(input.description), fence, input.diffs);
  }

  lemma AfterAuthorOf(r: string, template: string, title: string, author: string, desc: string, fence: string, diffs: string)
    requires PromptPieces(r, template, title, author, desc, fence, diffs)
    ensures var k := |template| + 18 + |title| + |author|;
            && k <= |r|
            && r[k..] == desc + (fence + (diffs + DiffClose))
            && r[|r| - |diffs| - 5..|r| - 5] == diffs
            && r[|r| - 5..] == DiffClose
  {
    TitleAuthorAt(r, |template|, title, author, "\n" + (desc + (fence + (diffs + DiffClose))));
    AfterAuthorAt(r, |template| + 17 + |title| + |author|, desc, fence, diffs);
  }

  /** The description line at `k`: there exactly when the description is
      non-empty, and otherwise the fence stands at `k`. */
  lemma DescriptionAt(r: string, k: nat, description: string, fence: string, rest: string)
    requires IsDiffFence(fence)
    requires k <= |r| && r[k..] == DescriptionLine(description) + (fence + rest)
    ensures var d := |description|;
            && k < |r|
            && (description != "" ==>
                  r[k..k + 13] == "Description: " && r[k + 13..k + 13 + d] == description
                  && r[k + 13 + d] == '\n')
            && (description == "" ==> r[k..k + |fence|] == fence)
            && (r[k] == 'D' <==> description != "")
  {
    if description != "" {
      DescriptionLineAt(r, k, description, fence + rest);
    } else {
      assert r[k..k + |fence|] == fence by { Take(r, k, fence, rest); }
      assert r[k] == r[k..][0];
    }
  }

  /** A non-empty description line at `k`: the label, the description and
      the line break. */
  lemma DescriptionLineAt(r: string, k: nat, description: string, tail: string)
    requires description != ""
    requires k <= |r| && r[k..] == DescriptionLine(description) + tail
    ensures var d := |description|;
            && k + 13 + d < |r|
            && r[k..k + 13] == "Description: " && r[k + 13..k + 13 + d] == description
            && r[k + 13 + d] == '\n' && r[k] == 'D'
  {
    var d := description;
    assert DescriptionLine(d) + tail == "Description: " + (d + ("\n" + tail));
    LabelAt(r, k, "Description: ", d, "\n" + tail);
    assert r[k] == r[k..k + 13][0];
    assert r[k + 13 + |d|] == r[k + 13 + |d|..][0];
  }

  /** The description line is there exactly when the description is
      non-empty; an empty description leaves no line at all, so the diff
      fence follows the author line directly. */
  lemma PromptDescription(template: string, input: Input, fence: string)
    requires IsDiffFence(fence)
    ensures var r := AssemblePrompt(template, input, fence);
            var k := |template| + 18 + |input.title| + |input.author|;
            var d := |input.description|;
            && k < |r|
            && (input.description != "" ==>
                  r[k..k + 13] == "Description: " && r[k + 13..k + 13 + d] == input.description
                  && r[k + 13 + d] == '\n')
            && (input.description == "" ==> r[k..k + |fence|] == fence)
            && (r[k] == 'D' <==> input.description != "")
  {
    PromptLaidOut(template, input, fence);
    DescriptionOf(AssemblePrompt(template, input, fence), template, input.title, input.author,
                  input.description, fence, input.diffs);
  }

  lemma DescriptionOf(r: string, template: string, title: string, author: string, description: string, fence: string, diffs: string)
    requires IsDiffFence(fence)
    requires PromptPieces(r, template, title, author, DescriptionLine(description), fence, diffs)
    ensures var k := |template| + 18 + |title| + |author|;
            var d := |description|;
            && k < |r|
            && (description != "" ==>
                  r[k..k + 13] == "Description: " && r[k + 13..k + 13 + d] == description
                  && r[k + 13 + d] == '\n')
            && (description == "" ==> r[k..k + |fence|] == fence)
            && (r[k] == 'D' <==> description != "")
  {
    AfterAuthorOf(r, template, title, author, DescriptionLine(description), fence, diffs);
    DescriptionAt(r, |template| + 18 + |title| + |author|, description, fence, diffs + DiffClose);
  }

  /** Everything before the diff fence. */
  function PromptHead(template: string, input: Input): string {
    template + ("\nTitle: " + (input.title + ("\nAuthor: " + (input.author + ("\n"
      + DescriptionLine(input.description))))))
  }

  /** The prompt is its head, then the fence, the diff and the closing fence. */
  lemma PromptIsHeadThenFence(template: string, input: Input, fence: string)
    requires IsDiffFence(fence)
    ensures AssemblePrompt(template, input, fence) == PromptHead(template, input) + (fence + (input.diffs + DiffClose))
  {
  }

  /** The thread-per-line plugin's prompt is the others' prompt with one
      space inserted right after "# Diff\n"; nothing else differs. */
  lemma SpacedFenceInsertsOneSpace(template: string, input: Input)
    ensures var p := AssemblePrompt(template, input, DiffFence);
            var j := |template| + 18 + |input.title| + |input.author| + |DescriptionLine(input.description)| + 7;
            && j <= |p|
            && AssemblePrompt(template, input, SpacedDiffFence) == p[..j] + " " + p[j..]
  {
    var tail := input.diffs + DiffClose;
    var head := PromptHead(template, input);
    PromptIsHeadThenFence(template, input, DiffFence);
    PromptIsHeadThenFence(template, input, SpacedDiffFence);
    PromptHeadLength(template, input);
    SpaceBeforeFence(AssemblePrompt(template, input, DiffFence), AssemblePrompt(template, input, SpacedDiffFence), head, tail,
                     |template| + 18 + |input.title| + |input.author| + |DescriptionLine(input.description)|);
  }

  lemma PromptHeadLength(template: string, input: Input)
    ensures |PromptHead(template, input)| == |template| + 18 + |input.title| + |input.author| + |DescriptionLine(input.description)|
  {
  }

  /** Any text put around the two fences differs by the one space. */
  lemma SpaceBeforeFence(p: string, q: string, head: string, tail: string, n: nat)
    requires n == |head| && p == head + (DiffFence + tail) && q == head + (SpacedDiffFence + tail)
    ensures n + 7 <= |p| && q == p[..n + 7] + " " + p[n + 7..]
  {
    assert p == (head + "# Diff\n") + ("```" + tail);
    assert p[..|head| + 7] == head + "# Diff\n";
    assert p[|head| + 7..] == "```" + tail;
    assert q == (head + "# Diff\n") + " " + ("```" + tail);
  }

  // ---------------------------------------------------------------------
  // Status

  /** The Claude, DeepSeek and Gemini plugins accept the whole 2xx range:
      the statuses whose quotient by 100 is 2. */
  predicate IsSuccessStatus(status: int): (r: bool)
    ensures r <==> status / 100 == 2
  {
    200 <= status < 300
  }

  /** The two OpenAI plugins accept exactly `statusOk` (200): a success
      status, and of the 2xx range no other. */
  predicate IsStatusOk(status: int): (r: bool)
    ensures status == 200 ==> r
    ensures r ==> IsSuccessStatus(status)
    ensures IsSuccessStatus(status) && status != 200 ==> !r
  {
    status == 200
  }
}
