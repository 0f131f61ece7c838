# merge-bot reviewer plugins, modelled in Dafny

The merge bot hands a merge request (title, description, author, diff and a
map of variables) to a review plugin. The plugin builds a prompt, sends it
to one language-model provider, and returns the provider's answer as the
review comment. Five plugins share this shape:

- the plain OpenAI reviewer (`openai-reviewer/main.go`);
- the OpenAI reviewer that answers with one thread per line
  (`plugins/openai-reviewer-thread-per-line/main.go`);
- the Claude reviewer (`plugins/claude-reviewer/main.go`);
- the DeepSeek reviewer (`plugins/deepseek-reviewer/main.go`);
- the Gemini reviewer (`plugins/gemini-reviewer/main.go`).

This project models the deterministic logic of each plugin:

- resolving its settings from the variables: a required API key, other
  settings with defaults, and a `max_tokens` read with `strconv.Atoi`;
- assembling the prompt;
- building the request (URL, headers and JSON body);
- accepting or refusing the reply's status;
- picking the review text out of the parsed reply;
- for the thread-per-line plugin, decoding the answer and moving every
  positive line number of every thread up by one, in place.

Modules:

- `Wrappers`: `Option` and `Result`.
- `GoInt`: Go's `int`, taken to be 64 bits wide (see "## Left out").
  - `Int` is the range of the type.
  - `Inc` is `++`, which wraps from the largest value to the smallest.
  - `Atoi` is `strconv.Atoi`: an optional sign, then one or more decimal
    digits, rejected when the value falls outside `Int`.
  - `FormatInt` is `%d`.
- `Json`: the parsed JSON tree and the lookups the plugins perform on it.
  - An object is a list of members, and a lookup takes the first member with
    the key.
  - An array is indexed by a path segment read as a decimal number.
  - `GetArray` reads a missing or non-array value as an empty list.
  - `GetString` reads a missing or non-string value as `""`.
- `Plugin`: what the plugins share.
  - The input and output records.
  - The HTTP request and response.
  - The errors.
  - Setting resolution, the `max_tokens` fallback, prompt assembly and the
    two status rules.
- `ResponsesApi`: the `review` function, which is the same in both OpenAI
  plugins. It sends `{model, input}`, accepts only status 200, and returns
  the first message entry of `output`.
- `OpenAIReviewer`, `OpenAIThreadReviewer`, `ClaudeReviewer`,
  `DeepseekReviewer` and `GeminiReviewer`: one module per plugin. Each holds
  its variable names, defaults, request envelope, reply extraction and
  `Review`.

The HTTP exchange is a parameter `send: Request -> Response`. A response
carries:

- its status;
- its body;
- the parsed JSON tree, or `None` when the body is not JSON.

A review without an API key fails whatever `send` would answer, which is
how the model says that no request is made. In the thread-per-line plugin,
decoding the answer into `{comment, threads}` is a parameter `decode`
standing for `json.Unmarshal`. A line the answer leaves out decodes as 0.

## Model

| member | source | states |
|---|---|---|
| GoInt.Inc | plugins/openai-reviewer-thread-per-line/main.go:150 | Go's `++` on a 64-bit `int`: one more below the maximum, and the minimum at the maximum |
| GoInt.Atoi | plugins/claude-reviewer/main.go:69-72 | `strconv.Atoi` accepts exactly an optional sign followed by at least one decimal digit whose value fits in a 64-bit `int`, and then yields that value |
| GoInt.FormatInt | plugins/claude-reviewer/main.go:106 | the decimal rendering of a number is a well-formed numeral whose value is that number |
| GoInt.AtoiFormatInt | plugins/claude-reviewer/main.go:69-72 | `Atoi` reads back every rendered number that fits in an `int`, and rejects every one that does not |
| Json.Member | plugins/claude-reviewer/main.go:175 | an object lookup finds a member exactly when one has the key, and yields that member's value |
| Json.MemberFirstMatch | plugins/claude-reviewer/main.go:175 | with duplicate keys, the first member with the key wins |
| Json.GetArray | plugins/deepseek-reviewer/main.go:142 | `GetArray` yields the items when the path leads to an array, and an empty list otherwise (missing, or of another type) |
| Json.GetString | plugins/deepseek-reviewer/main.go:147 | `GetStringBytes` yields the string when the path leads to a string, and `""` otherwise |
| Json.GetFails | openai-reviewer/main.go:127 | the empty path is the value itself; a lookup fails on a scalar, on an object without a member of that name, and on an array when the segment is not a numeral `Atoi` accepts or its value is out of bounds |
| Json.GetAppend | openai-reviewer/main.go:127 | looking up `p + q` is looking up `q` from wherever `p` leads, and fails whenever `p` does |
| Json.FirstItem | openai-reviewer/main.go:127 | a path through `key` and then "0" continues in the first item of the array at `key` |
| Json.IndexZero | openai-reviewer/main.go:127 | the path segment "0" selects the first item of a non-empty array |
| Json.FieldStep | openai-reviewer/main.go:122 | a path starting with a key continues inside the first member with that key |
| Plugin.ResolveSettings | plugins/openai-reviewer-thread-per-line/main.go:105-124 | resolution fails exactly when the API key is absent, with the error naming the key; otherwise the key is taken as supplied and model, prompt and endpoint are supplied-or-default |
| Plugin.ResolveSettingsIgnoresOtherVars | openai-reviewer/main.go:44-63 | variables the plugin does not read change nothing in its settings |
| Plugin.Setting | openai-reviewer/main.go:50-63 | an optional setting is the supplied value whenever its key is present, even when that value is empty, and the default only when the key is absent |
| Plugin.MaxTokens | plugins/claude-reviewer/main.go:67-73 | `max_tokens` is the default when absent, the parsed value when `Atoi` accepts it, and the default, with no error, when `Atoi` rejects it |
| Plugin.MaxTokensOfNumeral | plugins/deepseek-reviewer/main.go:66-72 | a numeral in range is taken as its value; an out-of-range numeral falls back to the default |
| Plugin.MaxTokensOfNonNumeral | plugins/deepseek-reviewer/main.go:66-72 | any text that is not a numeral falls back to the default |
| Plugin.DescriptionLineShape | openai-reviewer/main.go:65-68 | for a non-empty description the line is "Description: ", the description and a newline; an empty description gives no line at all |
| Plugin.AssemblePrompt | openai-reviewer/main.go:65-72 | the prompt is as long as its parts together, and the description line counts only when the description is non-empty |
| Plugin.PromptTitleAuthor | plugins/gemini-reviewer/main.go:69-71 | the prompt starts with the template, followed by the title and the author behind their labels, at fixed positions, and a newline closes the author line |
| Plugin.PromptAfterAuthor | plugins/deepseek-reviewer/main.go:74-81 | after the author line come the description line, the fence, the diff and the closing fence, in that order, so the prompt ends with the diff and the closing fence |
| Plugin.PromptDescription | plugins/claude-reviewer/main.go:80-87 | a non-empty description appears behind "Description: " and ends with a newline; an empty one contributes nothing, and the fence follows the author line directly |
| Plugin.SpacedFenceInsertsOneSpace | plugins/openai-reviewer-thread-per-line/main.go:133 | the thread-per-line prompt is the other plugins' prompt with exactly one space inserted before the opening fence |
| Plugin.IsSuccessStatus | plugins/claude-reviewer/main.go:165 | a status is accepted exactly when `status / 100 == 2`, i.e. 200 <= status < 300 |
| Plugin.IsStatusOk | openai-reviewer/main.go:111 | the OpenAI check accepts exactly 200: 200 is accepted, anything accepted is a success status, and no other 2xx status is accepted |
| ResponsesApi.NewRequest | plugins/openai-reviewer-thread-per-line/main.go:168-183 | a POST to the endpoint, with the key as a bearer token and a JSON content type, whose body reads back as the model and the prompt |
| ResponsesApi.EncodeBody | openai-reviewer/main.go:89-104 | `json.Marshal` of `Body`: the model and the input read back at their own keys |
| ResponsesApi.IsMessageExactly | openai-reviewer/main.go:122-125 | an entry counts as a message exactly when its `type` member is the string "message"; a missing or non-string `type` does not |
| ResponsesApi.FirstMessage | openai-reviewer/main.go:121-130 | the search yields the first entry typed "message", and none when no entry is one |
| ResponsesApi.FirstMessageAt | openai-reviewer/main.go:121-130 | the loop returns at the first message: a message entry with no message before it is the one found |
| ResponsesApi.OutputText | plugins/openai-reviewer-thread-per-line/main.go:195-206 | fails with "no results" exactly when no `output` entry is a message; otherwise yields `content[0].text` of the first message entry |
| ResponsesApi.ReadReply | plugins/openai-reviewer-thread-per-line/main.go:185-192 | any status but 200 fails with that status and the body; an unparsable body fails; otherwise the output text |
| ResponsesApi.MessageItemText | openai-reviewer/main.go:121-129 | the smallest message entry, a `type` and one content part with a `text`, meets what `OutputTextOfReply` asks of the entry it finds, so that lemma has an instance |
| ResponsesApi.OutputTextOfReply | openai-reviewer/main.go:121-130 | for any entry typed "message" whose `content/0/text` is the text: non-message entries before it are skipped, entries after it are ignored, and its other members and the other members of the reply play no part |
| ResponsesApi.NoMessageNoResults | plugins/openai-reviewer-thread-per-line/main.go:206 | a missing, empty or non-array `output` gives "no results" |
| OpenAIReviewer.Prepare | openai-reviewer/main.go:44-72 | without the key there is no request and the error names `REVIEWER_API_KEY`; otherwise the request goes to the resolved endpoint with the key as a bearer token, and its body holds the resolved model and the prompt with the unindented fence; the request is exactly `ResponsesApi.NewRequest` of these, so it is a POST with a JSON content type |
| OpenAIReviewer.Review | openai-reviewer/main.go:74-86 | a missing key fails whatever the network answers; otherwise the review succeeds exactly when the reply does, and the comment is the reply text unchanged |
| OpenAIReviewer.ReviewReturnsMessageText | openai-reviewer/main.go:80-82 | a 200 reply whose `output` holds, after any non-message entries, an entry typed "message" whose `content/0/text` is the text gives that text as the comment, whatever its other members, the later entries and the other members of the reply |
| OpenAIReviewer.ReviewRefusesStatus | openai-reviewer/main.go:111-113 | with the key present, any status but 200 fails the review with that status and the body |
| OpenAIThreadReviewer.CorrectLine | plugins/openai-reviewer-thread-per-line/main.go:149-155 | a positive line moves up by one (wrapping at the top of `int`); zero and negative lines are unchanged |
| OpenAIThreadReviewer.CorrectLineRoundTrip | plugins/openai-reviewer-thread-per-line/main.go:149-155 | below the top of `int`, moving the line back recovers it, so no information is lost |
| OpenAIThreadReviewer.CorrectLineNeverOne | plugins/openai-reviewer-thread-per-line/main.go:149-155 | no corrected line is 1 |
| OpenAIThreadReviewer.CorrectLineWrapsAtMax | plugins/openai-reviewer-thread-per-line/main.go:150 | the largest line wraps to the smallest `int`, which is also where the smallest stays |
| OpenAIThreadReviewer.Corrected | plugins/openai-reviewer-thread-per-line/main.go:148-156 | each line field is corrected independently of the other; body and paths are unchanged |
| OpenAIThreadReviewer.CorrectAll | plugins/openai-reviewer-thread-per-line/main.go:148-156 | the number and order of threads are kept, and each is corrected |
| OpenAIThreadReviewer.CorrectAllAppend | plugins/openai-reviewer-thread-per-line/main.go:148-156 | correction works thread by thread: correcting a concatenation concatenates the corrections |
| OpenAIThreadReviewer.CorrectionIsNotIdempotent | plugins/openai-reviewer-thread-per-line/main.go:148-156 | a second pass would move a line again, so the correction must run once |
| OpenAIThreadReviewer.CorrectThreadLines | plugins/openai-reviewer-thread-per-line/main.go:148-156 | the in-place loop leaves the array equal to the correction of its old contents |
| OpenAIThreadReviewer.Prepare | plugins/openai-reviewer-thread-per-line/main.go:105-135 | as in the plain plugin, and exactly `ResponsesApi.NewRequest` of the resolved settings, except that the prompt uses the fence indented by one space |
| OpenAIThreadReviewer.Review | plugins/openai-reviewer-thread-per-line/main.go:135-161 | a missing key fails; a failed exchange is reported wrapped; an answer that does not decode fails and carries the answer; otherwise the decoded comment with every thread corrected |
| OpenAIThreadReviewer.ExampleThread | plugins/openai-reviewer-thread-per-line/main.go:148-156 | a thread on new line 9 with no old line comes back on new line 10, still without an old line |
| ClaudeReviewer.ResolveConfig | plugins/claude-reviewer/main.go:46-78 | fails exactly without the key; otherwise the shared settings, `max_tokens` by the `Atoi` fallback, and the Anthropic version as supplied or "2023-06-01" |
| ClaudeReviewer.NewClaudeRequest | plugins/claude-reviewer/main.go:142-156 | exactly one message, from the user, holding exactly one text block whose text is the prompt; no system prompt and no stop sequences |
| ClaudeReviewer.EncodeRequest | plugins/claude-reviewer/main.go:104-120 | `json.Marshal` of `ClaudeRequest`: model and `max_tokens` read back, the messages array holds one encoded message per message in order, and `system` and `stop_sequences` are present exactly when non-empty, with their values |
| ClaudeReviewer.EncodedRequestShape | plugins/claude-reviewer/main.go:104-120 | the encoded body is written out field by field, with the empty optional fields left out |
| ClaudeReviewer.EncodedRequestReadsBack | plugins/claude-reviewer/main.go:142-158 | the encoded body reads back as the prompt, the block type, the role, the model and `max_tokens` |
| ClaudeReviewer.NewRequest | plugins/claude-reviewer/main.go:136-163 | a POST to the endpoint with the key in `x-api-key`, the version in `anthropic-version` and a JSON content type; its body reads back as the prompt, the text type, the user role, the model and `max_tokens` |
| ClaudeReviewer.ContentText | plugins/claude-reviewer/main.go:175-182 | an empty or missing `content` gives "no content in response"; otherwise the text of the first block |
| ClaudeReviewer.ReadReply | plugins/claude-reviewer/main.go:164-173 | a status outside 200..299 fails with the status and the body; an unparsable body fails; otherwise the content text |
| ClaudeReviewer.ContentTextOfReply | plugins/claude-reviewer/main.go:175-182 | a reply whose first content block, of any shape, holds a string under `text` yields that string, whatever else the block and the reply hold |
| ClaudeReviewer.TextBlockText | plugins/claude-reviewer/main.go:175-182 | a `{type, text}` block as the request writes it meets what `ContentTextOfReply` asks of the first block, so that lemma has an instance |
| ClaudeReviewer.NoContentBlocks | plugins/claude-reviewer/main.go:175-178 | a missing, empty or non-array `content` gives "no content in response" |
| ClaudeReviewer.Prepare | plugins/claude-reviewer/main.go:46-89 | without the key there is no request; otherwise the request for the resolved configuration and the prompt with the unindented fence |
| ClaudeReviewer.Review | plugins/claude-reviewer/main.go:89-101 | a missing key fails whatever the network answers; otherwise the comment is the reply text unchanged, and a failed reply is reported as it is |
| ClaudeReviewer.ReviewReturnsContentText | plugins/claude-reviewer/main.go:164-182 | any 2xx reply whose first content block holds a string under `text` gives that string as the comment, whatever the block's other members, the further blocks and the other members of the reply |
| ClaudeReviewer.ReviewRefusesStatus | plugins/claude-reviewer/main.go:165-167 | any status outside 200..299 fails the review with that status and the body |
| DeepseekReviewer.ResolveConfig | plugins/deepseek-reviewer/main.go:45-72 | fails exactly without the key; otherwise the shared settings and `max_tokens` by the `Atoi` fallback |
| DeepseekReviewer.NewDeepseekRequest | plugins/deepseek-reviewer/main.go:114-123 | exactly one message, from the user, whose content is the prompt |
| DeepseekReviewer.EncodeRequest | plugins/deepseek-reviewer/main.go:98-107 | `json.Marshal` of `DeepseekRequest`: the model reads back, `max_tokens` reads back when non-zero and is absent at 0, and the messages array holds one encoded message per message in order |
| DeepseekReviewer.MessageReadsBack | plugins/deepseek-reviewer/main.go:104-107 | an encoded message reads back its role and its content |
| DeepseekReviewer.EncodedRequestShape | plugins/deepseek-reviewer/main.go:98-107 | the encoded body is written out field by field, with `max_tokens` left out when it is 0 |
| DeepseekReviewer.EncodedRequestReadsBack | plugins/deepseek-reviewer/main.go:98-125 | the encoded body reads back as the prompt, the role and the model; `max_tokens` reads back as its value, and is absent when it is 0 |
| DeepseekReviewer.NewRequest | plugins/deepseek-reviewer/main.go:109-130 | a POST to the endpoint with the key as a bearer token and a JSON content type; its body reads back as the prompt, the user role and the model, and carries `max_tokens`, which `Atoi` reads back, unless it is 0, when the field is absent |
| DeepseekReviewer.ChoiceText | plugins/deepseek-reviewer/main.go:142-148 | fails with "no choices in response" exactly when `choices` is empty or missing; otherwise the first choice's message content |
| DeepseekReviewer.ReadReply | plugins/deepseek-reviewer/main.go:131-140 | a status outside 200..299 fails with the status and the body; an unparsable body fails; otherwise the choice text |
| DeepseekReviewer.ChoiceTextOfReply | plugins/deepseek-reviewer/main.go:142-148 | for any first choice whose `message/content` is the text, the reply yields that text, whatever the choice's other members, the further choices and the other members of the reply |
| DeepseekReviewer.ChoiceMessageContent | plugins/deepseek-reviewer/main.go:147 | the smallest choice, an index and a message, meets what `ChoiceTextOfReply` asks of the first choice, so that lemma has an instance |
| DeepseekReviewer.NoChoicesInReply | plugins/deepseek-reviewer/main.go:142-145 | a missing, empty or non-array `choices` gives "no choices in response" |
| DeepseekReviewer.Prepare | plugins/deepseek-reviewer/main.go:45-83 | without the key there is no request; otherwise the request for the resolved configuration and the prompt with the unindented fence |
| DeepseekReviewer.Review | plugins/deepseek-reviewer/main.go:83-95 | a missing key fails whatever the network answers; otherwise the comment is the reply text unchanged |
| DeepseekReviewer.ReviewReturnsChoiceText | plugins/deepseek-reviewer/main.go:131-148 | any 2xx reply whose first choice has `message/content` equal to the text gives that text as the comment, whatever the choice's other members, the further choices and the other members of the reply |
| DeepseekReviewer.ReviewRefusesStatus | plugins/deepseek-reviewer/main.go:132-134 | any status outside 200..299 fails the review with that status and the body |
| GeminiReviewer.RequestUrl | plugins/gemini-reviewer/main.go:109 | the URL is the endpoint, then the model, then ":generateContent?key=", then the key, with nothing in between |
| GeminiReviewer.NewGeminiRequest | plugins/gemini-reviewer/main.go:113-123 | exactly one content holding exactly one part whose text is the prompt |
| GeminiReviewer.EncodeRequest | plugins/gemini-reviewer/main.go:88-98 | `json.Marshal` of `GeminiRequest`: the `contents` array holds one encoded content per content, in order |
| GeminiReviewer.EncodedRequestShape | plugins/gemini-reviewer/main.go:88-98 | the encoded body is written out field by field |
| GeminiReviewer.EncodedRequestReadsBack | plugins/gemini-reviewer/main.go:113-125 | the encoded body reads back as the prompt at `contents/0/parts/0/text` |
| GeminiReviewer.NewRequest | plugins/gemini-reviewer/main.go:108-130 | a POST to the URL above with only a JSON content type, so the key travels only in the URL; its body reads back as the prompt |
| GeminiReviewer.CandidateText | plugins/gemini-reviewer/main.go:142-154 | no candidate gives "no candidates in response"; otherwise, no part in the first candidate gives "no parts in candidate"; otherwise the text of its first part |
| GeminiReviewer.ReadReply | plugins/gemini-reviewer/main.go:131-140 | a status outside 200..299 fails with the status and the body; an unparsable body fails; otherwise the candidate text |
| GeminiReviewer.CandidatePartText | plugins/gemini-reviewer/main.go:147-152 | the smallest candidate, a content with one part, meets what `CandidateTextOfReply` asks of the first candidate, so that lemma has an instance |
| GeminiReviewer.CandidateTextOfReply | plugins/gemini-reviewer/main.go:142-154 | for any first candidate whose `content/parts` is non-empty and whose first part's `text` is the text, the reply yields that text, whatever the candidate's other members, the further candidates and the other members of the reply |
| GeminiReviewer.CandidatesBeforeParts | plugins/gemini-reviewer/main.go:142-150 | a missing or empty `candidates` gives "no candidates in response", and a first candidate without parts gives "no parts in candidate" even when a later one has parts |
| GeminiReviewer.Prepare | plugins/gemini-reviewer/main.go:43-73 | without the key there is no request; otherwise the request goes to the URL built from the resolved endpoint, model and key, has only a JSON content type, and its body holds the prompt with the unindented fence; the request is exactly `NewRequest` of these, so it is a POST |
| GeminiReviewer.Review | plugins/gemini-reviewer/main.go:73-85 | a missing key fails whatever the network answers; otherwise the comment is the reply text unchanged |
| GeminiReviewer.ReviewReturnsCandidateText | plugins/gemini-reviewer/main.go:131-154 | any 2xx reply whose first candidate has a first part with that `text` gives the text as the comment, whatever the candidate's other members, the further candidates and the other members of the reply |
| GeminiReviewer.ReviewRefusesStatus | plugins/gemini-reviewer/main.go:132-134 | any status outside 200..299 fails the review with that status and the body |

## Left out

- The host calls are not modelled: reading the input (`InputJSON`) and its failure, writing the output, setting the error, and the exported entry point. The model starts from a decoded input and ends with a `Result`.
- The HTTP transport is the `send` parameter. A request is a value. Sending it, and the order in which headers are set, are not modelled.
- Byte-level JSON is not modelled. The fastjson parser is represented only by the `parsed` field of a response, and the byte encoding of request bodies is left out.
- `json.Marshal` of the request bodies is modelled as a JSON tree. Its error path is left out, because it cannot fail on these structs.
- `json.Unmarshal` of the thread-per-line answer is the `decode` parameter. Decoding nothing, or a partially decoded output, is not modelled beyond "decode failed".
- Error messages are constructors of `Error`, which carry the status, the body, the raw answer and the missing variable's name. Their exact text formatting (`fmt.Errorf`, `%w` wrapping) is not modelled.
- The wording of each plugin's default prompt is an uninitialised constant. Only its role as the template is modelled.
- Diffs are bytes in the source and strings here; `string(input.Diffs)` is taken as the identity.
- OpenAIThreadReviewer.Review copies the decoded threads into a fresh array and corrects them there. Go corrects the slice held by the decoded output, and that aliasing is not modelled.
- The width of Go's `int` is not fixed by the source. The model assumes the standard Go toolchain, whose WebAssembly target has a 64-bit `int`. A plugin built with TinyGo, whose wasm targets use a 32-bit `int`, would wrap line numbers in `OpenAIThreadReviewer.CorrectLine` at 2^31-1, and would accept `max_tokens` values only up to 2^31-1.
- `json.Marshal` replaces invalid UTF-8 in a string with U+FFFD. A diff that is not valid UTF-8 therefore reaches the endpoint altered, and the rows saying that the body reads back the prompt hold for the model's strings, not for such raw bytes.
