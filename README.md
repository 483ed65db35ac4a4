# Matching prompt, matching parser and clarification arbiter

This project models two pieces of an ERP assistant backend in Dafny and proves properties of them.

- **Function matching** (`lib/v3/prompts_parsers/matching.ts`).
  - `getMatchingPromptv3` collects the `{name}` placeholders of the candidate functions. It strips one trailing digit from each name and removes duplicates, keeping first-occurrence order.
  - It then numbers the facts and assembles the three-message conversation sent to the model. `toTSDescription` renders each candidate function as a TypeScript signature.
  - `parseMatchingOutput` reads the model's partly streamed `<functionCall>…` / `<tellUser>…` answer.
    - It finds the tell-user tail and the function name, and isolates the `{…}` argument object.
    - It quotes the object's keys and turns `'` into `"`.
    - It substitutes bare argument values that name a constant declared as `const|let|var NAME = VALUE;`.
- **Clarification arbiter** (`lib/v2/edge-runtime/clarification.ts`, `runClarificationAndStreamResponse`).
  - A feasibility stream and a clarification stream are read side by side.
  - Two shared variables, `isPossible` and `streamedText`, decide what reaches the user while they stream.
  - A reconciliation step runs after both end, then the verdict `{message, possible, clear}` is assembled.

## Layout

- `wrappers.dfy`: `Option` and `Result`.
- `strings.dfy`: the JavaScript string operations the code relies on, written as Dafny functions with their properties:
  - character classes `\w`, `\s` and line terminators;
  - `indexOf`, first-occurrence `replace`, `trimStart`, `split`/`join`;
  - de-duplication in insertion order, and decimal rendering of list numbers.
- `matching_prompt.dfy` (module `MatchingPrompt`):
  - variable-name collection and fact assembly, as loops proved against specification functions;
  - `toTSDescription`, and the prompt structure.
- `matching_parser.dfy` (module `MatchingParser`): the output parser. Each regular expression is a hand-written function.
  - For `(\w+)\(` and `\{.*}` the contracts say which match JavaScript takes: the leftmost one, and for `\{.*}` the greedy end of its line.
  - The comment pipeline `FnText` is stated as the composition of its steps; `FnTextDropsComment` shows a comment line removed end to end.
  - For the other patterns the contracts state what a match looks like, and lemmas work concrete shapes through them.
- `clarification.dfy` (module `Clarification`): the two reading loops as one deterministic state machine.
  - JavaScript interleaves the two closures only at `await reader.read()`. The input is therefore an arbitrary sequence of events, each a read or an end-of-stream on one stream, and each is processed whole.
  - `ProcessChunks` (the inner `for` loop) and `RunClarificationAndStreamResponse` (the event loop, reconciliation and verdict) are imperative methods. Each is proved equal to its specification function, `Chunks` and `RunSpec` respectively.

Two facts about `clarification.ts` shape the model:

- No line of `clarification.ts` sets `isPossible` to true. The clarification reader's branch for `isPossible === true` (lines 216-226) is therefore unreachable. `StepsArbitration` and `ClarificationReadsSilent` prove it.
- The returned `message` is a stream's whole raw output, reasoning included, not its tell-user text (lines 259-265). `RunMessage` states it.

## Model

| member | source | states |
|---|---|---|
| MatchingPrompt.Placeholders | lib/v3/prompts_parsers/matching.ts:18 | every name found by `\{(\w+)}` is a word; text without `{` has none |
| MatchingPrompt.PlaceholdersComplete | lib/v3/prompts_parsers/matching.ts:18 | every `{word}` written anywhere in a text is found, even after other matches |
| MatchingPrompt.PlaceholdersSound | lib/v3/prompts_parsers/matching.ts:18 | every name found is written in braces at some position of the text |
| MatchingPrompt.PlaceholdersMembers | lib/v3/prompts_parsers/matching.ts:18 | a name is found iff it is a word written as `{name}` somewhere in the text |
| MatchingPrompt.PlaceholdersOfBraced | lib/v3/prompts_parsers/matching.ts:18 | every `{word}` written into a text is found again, in order and with nothing else |
| MatchingPrompt.StripTrailingDigit | lib/v3/prompts_parsers/matching.ts:21-24 | the result is the name or the name without its last character, and it is shorter exactly when the name ends in a digit |
| MatchingPrompt.StrippedPlaceholderMembers | lib/v3/prompts_parsers/matching.ts:17-30 | a name is among the collected stripped placeholders iff it is a stripped placeholder of some match text |
| MatchingPrompt.AddStrippedNames | lib/v3/prompts_parsers/matching.ts:20-28 | the inner loop extends the de-duplicated list by one match's stripped placeholders, as if they had been appended before de-duplication |
| MatchingPrompt.CollectVariableNames | lib/v3/prompts_parsers/matching.ts:16-30 | the `forEach`/`push` loop yields the variable names: no duplicates, exactly the stripped placeholders of all match texts, in first-occurrence order |
| MatchingPrompt.VariableNamesProperties | lib/v3/prompts_parsers/matching.ts:16-30 | the same three properties of the specification function: no duplicates, membership, first-occurrence order |
| MatchingPrompt.BuildFacts | lib/v3/prompts_parsers/matching.ts:33-47 | `push`/`concat` build the fact list: description, non-empty instruction lines, the types fact only when variables exist, non-empty user-description lines |
| MatchingPrompt.NumberedFacts | lib/v3/prompts_parsers/matching.ts:76 | one numbered line per fact |
| MatchingPrompt.FactsAreSingleLines | lib/v3/prompts_parsers/matching.ts:33-47 | with a one-line org description, no fact contains a newline |
| MatchingPrompt.FactsBlockLines | lib/v3/prompts_parsers/matching.ts:76 | the facts block splits back into exactly the facts, the k-th line being `k+1. fact` |
| MatchingPrompt.Find | lib/v3/prompts_parsers/matching.ts:53 | `find` by name returns the first variable with that name, and none exactly when no variable has it |
| MatchingPrompt.FirstMissing | lib/v3/prompts_parsers/matching.ts:48-57 | a name whose `find(...)!` fails with every earlier name defined, so the first one `map` reaches; none exactly when all are defined |
| MatchingPrompt.ArgEntries | lib/v3/prompts_parsers/matching.ts:155-165 | the only failure is the "No match found" error |
| MatchingPrompt.ArgEntriesSucceed | lib/v3/prompts_parsers/matching.ts:155-166 | succeeds iff every placeholder resolves with one digit stripped; then entry i is `name: typeName`, the name keeping its digit |
| MatchingPrompt.ArgEntriesFailure | lib/v3/prompts_parsers/matching.ts:161-162 | a failure names the first unresolvable placeholder, in braces |
| MatchingPrompt.ToTSDescription | lib/v3/prompts_parsers/matching.ts:145-167 | no placeholders gives the bare signature closed by `)`; succeeds iff every placeholder resolves, and is then the signature, `args: {`, the entries joined by `, ` and `})`; otherwise throws "No match found" |
| MatchingPrompt.DescriptionEntries | lib/v3/prompts_parsers/matching.ts:154-166 | a successful description lists every placeholder as written, digit kept, with the type name of the variable its stripped name finds |
| MatchingPrompt.FunctionDescriptions | lib/v3/prompts_parsers/matching.ts:131 | one description per match, in order, succeeding iff each does |
| MatchingPrompt.DescriptionsSucceed | lib/v3/prompts_parsers/matching.ts:131 | when every variable name is defined, every description succeeds |
| MatchingPrompt.WithTodayConst | lib/v3/prompts_parsers/matching.ts:63 | pushing today's constant keeps every variable's name and type, in place and in order |
| MatchingPrompt.FindWithToday | lib/v3/prompts_parsers/matching.ts:63 | after the push, `find` by any name gives the same variable, except that the first `fromDate` variable has today's constant appended to its consts |
| MatchingPrompt.DefinedWithToday | lib/v3/prompts_parsers/matching.ts:63 | the push leaves every name exactly as defined as before |
| MatchingPrompt.ArgEntriesWithToday | lib/v3/prompts_parsers/matching.ts:154-166 | the argument entries do not depend on the pushed constant |
| MatchingPrompt.DescriptionsWithToday | lib/v3/prompts_parsers/matching.ts:131 | the function descriptions built after the push equal those built before it |
| MatchingPrompt.PushTodayKeeps | lib/v3/prompts_parsers/matching.ts:59-65 | the conditional push keeps the variable names defined and the function descriptions unchanged |
| MatchingPrompt.AssembleMessages | lib/v3/prompts_parsers/matching.ts:59-142 | returns the variables after the conditional push, all names still defined, and three messages: a system prompt with the facts block, rule 8 iff consts exist, the types block over the pushed variables and one description per match, then the user request verbatim and the assistant prefill |
| MatchingPrompt.GetMatchingPrompt | lib/v3/prompts_parsers/matching.ts:5-143 | fails iff some variable name is undefined, naming an undefined one with every earlier one defined; otherwise exactly three messages (system, user request verbatim, assistant prefill), the numbered facts in order, rule 8 iff consts exist, so never without variable names, types block iff variables exist, one description per match; the variables come back with today's constant pushed when `fromDate` is used, and unchanged on failure |
| MatchingParser.TellUser | lib/v3/prompts_parsers/matching.ts:195-196 | everything after the first `<tellUser>`, or "" without the tag |
| MatchingParser.TellUserAfterTag | lib/v3/prompts_parsers/matching.ts:195-196 | text after a first `<tellUser>` tag is the tell-user text |
| MatchingParser.StripComments | lib/v3/prompts_parsers/matching.ts:211 | removing `//…` comments never lengthens the text |
| MatchingParser.StripCommentsNoSlash | lib/v3/prompts_parsers/matching.ts:211 | text without `/` is unchanged |
| MatchingParser.StripCommentLine | lib/v3/prompts_parsers/matching.ts:211 | a `//` comment is removed up to, not including, its line terminator |
| MatchingParser.FnText | lib/v3/prompts_parsers/matching.ts:208-213 | the text after the first `<functionCall>`, with `//` comments removed and then every `\n` deleted; no newline remains |
| MatchingParser.FnTextDropsComment | lib/v3/prompts_parsers/matching.ts:208-213 | on `<functionCall>code//comment\nmore` the function text is `code + more`: the comment goes and the lines are joined |
| MatchingParser.FunctionName | lib/v3/prompts_parsers/matching.ts:215-223 | a found name is the leftmost match: a whole word run directly followed by `(`, with no earlier `(` after a word character; none iff no `(` follows a word character |
| MatchingParser.FunctionNameOf | lib/v3/prompts_parsers/matching.ts:215 | `name(…)` yields `name` |
| MatchingParser.BraceObject | lib/v3/prompts_parsers/matching.ts:225 | a found object runs from the first `{` that has a `}` later on its line to the last `}` of that line, so it is one line from `{` to `}`; none iff no `{` has a `}` later on its line |
| MatchingParser.BraceObjectOf | lib/v3/prompts_parsers/matching.ts:225 | `{body}rest` with no `}` in rest yields `{body}` |
| MatchingParser.QuoteKeys | lib/v3/prompts_parsers/matching.ts:237 | text without `:` is unchanged |
| MatchingParser.QuoteKeysAddsOnlyQuotes | lib/v3/prompts_parsers/matching.ts:237 | key quoting only inserts `"` characters |
| MatchingParser.QuoteKeysAddsNoApostrophe | lib/v3/prompts_parsers/matching.ts:237-239 | key quoting adds no `'`, so the apostrophe replacement sees only the model's own |
| MatchingParser.QuoteKeysPair | lib/v3/prompts_parsers/matching.ts:237 | `{key: name}` becomes `{"key": name}` |
| MatchingParser.DeclarationBeforeLeftmost | lib/v3/prompts_parsers/matching.ts:246-248 | the search returns the leftmost position where the declaration pattern matches |
| MatchingParser.ParseConst | lib/v3/prompts_parsers/matching.ts:246-256 | a parsed declaration has a word as its name and a one-line value |
| MatchingParser.ParseConstLeftmost | lib/v3/prompts_parsers/matching.ts:246-256 | `match` takes the leftmost position at which a declaration parses |
| MatchingParser.ParseDeclaration | lib/v3/prompts_parsers/matching.ts:246-256 | `const NAME = VALUE;` parses to NAME and VALUE without the `;` |
| MatchingParser.ParseTypedDeclaration | lib/v3/prompts_parsers/matching.ts:246-256 | `const NAME: T = VALUE;` parses to NAME and VALUE, the type annotation skipped |
| MatchingParser.TodayConstParses | lib/v3/prompts_parsers/matching.ts:60-62 | today's date constant parses to `today` and the quoted date |
| MatchingParser.Present | lib/v3/prompts_parsers/matching.ts:259-260 | `.filter(Boolean)` keeps exactly the parsed declarations and drops the malformed ones |
| MatchingParser.PresentCounts | lib/v3/prompts_parsers/matching.ts:259-260 | each constant is kept exactly as many times as it was parsed |
| MatchingParser.ParseEach | lib/v3/prompts_parsers/matching.ts:245-257 | one parse result per declaration, in order |
| MatchingParser.Named | lib/v3/prompts_parsers/matching.ts:261 | exactly the declarations whose name equals the value |
| MatchingParser.NamedCounts | lib/v3/prompts_parsers/matching.ts:261 | a declaration with the name is kept as many times as it occurs, one with another name never |
| MatchingParser.AllConstsOfOne | lib/v3/prompts_parsers/matching.ts:242-260 | a variable with one well-formed declaration contributes exactly that constant |
| MatchingParser.ValueMatchAt | lib/v3/prompts_parsers/matching.ts:241 | a match of `"\w+?":\s*([^"]+?)[},]` starts at `"`, its value holds no `"`, and it ends just after `}` or `,` |
| MatchingParser.KeyValueMatch | lib/v3/prompts_parsers/matching.ts:241 | on `"key": word}` the value is the word and the match ends after the closer |
| MatchingParser.ReplaceMatch | lib/v3/prompts_parsers/matching.ts:263-265 | the match is left unchanged unless exactly one declaration has the value's name; the intended callback then replaces just the value |
| MatchingParser.SubstituteConsts | lib/v3/prompts_parsers/matching.ts:241-281 | when no name is declared exactly once, including when there are no declarations, the text is unchanged |
| MatchingParser.ArgsString | lib/v3/prompts_parsers/matching.ts:235-281 | without declarations or apostrophes the argument string is the key-quoted object |
| MatchingParser.SubstituteIntendedValue | lib/v3/prompts_parsers/matching.ts:280 | with the corrected callback, `{"key": name}` becomes `{"key": value}` |
| MatchingParser.SubstituteAsWrittenRewritesKey | lib/v3/prompts_parsers/matching.ts:280 | as written, `{"name": name}` becomes `{"value": name}`: the key is rewritten, not the value |
| MatchingParser.ArgsStringIntended | lib/v3/prompts_parsers/matching.ts:235-281 | with the corrected callback, `{key: name}` becomes `{"key": value}` |
| MatchingParser.ArgsStringAsWritten | lib/v3/prompts_parsers/matching.ts:235-281 | as written, `{name: name}` becomes `{"value": name}` |
| MatchingParser.SameNameKeyAndValue | lib/v3/prompts_parsers/matching.ts:280 | with `const id = 5;`, `{id: id}` yields `{"5": id}` as written and `{"id": 5}` as intended |
| MatchingParser.ParseMatchingOutput | lib/v3/prompts_parsers/matching.ts:191-300 | tell-user text kept in every non-null result; no call tag or a closed call gives `""`/null; for an open call: no function name gives `""`/null, a name without an argument object gives the name with `{}`, and otherwise the name with the parse of the rewritten object, null exactly when that parse fails |
| MatchingParser.ParseCallWithoutArgs | lib/v3/prompts_parsers/matching.ts:223-234 | `<functionCall>name()` gives the name with empty variables |
| MatchingParser.OpenCallWithoutObject | lib/v3/prompts_parsers/matching.ts:225-234 | on `<functionCall>` and a one-line call without `<` or `/`, a name with no `{…}` after the first `(` gives the name with empty variables |
| MatchingParser.ParseCallWithObject | lib/v3/prompts_parsers/matching.ts:283-293 | `<functionCall>name({…})` gives the name with the parse of the rewritten object, or null when that fails |
| MatchingParser.SameNameEndToEnd | lib/v3/prompts_parsers/matching.ts:191-293 | the whole parser on `<functionCall>f({id: id})` with `const id = 5;` parses `{"5": id}` as written and `{"id": 5}` as intended |
| Clarification.Reconcile | lib/v2/edge-runtime/clarification.ts:236-240 | fires exactly when the clarification outcome is not an error, is not clear, and nothing was streamed; it then sends its tell-user text once and makes it the streamed text |
| Clarification.FinalVerdict | lib/v2/edge-runtime/clarification.ts:245-268 | `possible` iff errored or parsed possible; `clear` likewise; the message is the feasibility output when that stream completed impossible with tell-user text, otherwise the clarification output when it completed unclear with tell-user text, otherwise null |
| Clarification.ProcessChunks | lib/v2/edge-runtime/clarification.ts:110-138 | the chunk loop on its locals equals the specification `Chunks` |
| Clarification.RunClarificationAndStreamResponse | lib/v2/edge-runtime/clarification.ts:54-268 | the event loop, reconciliation and verdict equal the specification `RunSpec` |
| Clarification.ChunkStepArbitration | lib/v2/edge-runtime/clarification.ts:125-137 | one chunk keeps the shared variables consistent, only moves `isPossible` from unset to false, and a clarification chunk sends nothing |
| Clarification.ChunksArbitration | lib/v2/edge-runtime/clarification.ts:110-138 | the same over a read's chunks |
| Clarification.StepsArbitration | lib/v2/edge-runtime/clarification.ts:129-136 | over any interleaving: `isPossible` is never true, nothing is sent before it is set, every piece sent is non-empty, `streamedText` is the concatenation of what was sent |
| Clarification.ClarificationReadsSilent | lib/v2/edge-runtime/clarification.ts:216-226 | in any reachable state, a clarification read sends nothing and leaves the shared variables alone |
| Clarification.PossibleChunkSent | lib/v2/edge-runtime/clarification.ts:125-136 | a feasibility chunk is sent as rewritten, and appended to `streamedText`, exactly when it rewrites to non-empty text and `isPossible` is false or flips now; otherwise nothing changes |
| Clarification.OneVoice | lib/v2/edge-runtime/clarification.ts:236-240 | the user hears one stream only: the live feasibility text, or, when none was sent, the one reconciliation message |
| Clarification.ChunksRaw | lib/v2/edge-runtime/clarification.ts:110-117 | the raw output grows by the chunks in order, only a stream's first chunk trimmed, and the first-chunk flag is cleared once any chunk arrives |
| Clarification.ChunksKeepFraming | lib/v2/edge-runtime/clarification.ts:110-137 | processing a batch of chunks leaves the carried fragment, the reader phase and the other stream's pipeline untouched |
| Clarification.ReadStepFraming | lib/v2/edge-runtime/clarification.ts:99-139 | the framing parser sees the carried fragment before the new text; its new fragment, or "", is carried; the loop ends exactly when it reports done |
| Clarification.StepsRaw | lib/v2/edge-runtime/clarification.ts:98-140 | raw outputs only grow, and a pipeline that failed or ended never changes again |
| Clarification.BothCallsFail | lib/v2/edge-runtime/clarification.ts:245-265 | both model calls failing gives no message, possible and clear, with nothing sent |
| Clarification.RunMessage | lib/v2/edge-runtime/clarification.ts:259-265 | the message is a stream's whole raw output; from the clarification stream it starts with `Thoughts:\n1. ` |

## Left out

- `Promise.all`, `reader.read()` and `TextDecoder` are not modelled. Reads arrive as an event sequence of already decoded text. A run ends where the sequence ends, and events for a stream that is no longer reading are ignored.
- The retried model calls (`exponentialRetryWrapper`, `streamLLMResponse`) are not modelled. Whether each call failed is a boolean parameter.
- The prompts they are sent (`isUserRequestPossiblePrompt`, `clarificationPrompt`) and the model parameters are not part of this model.
- The framing parsers `parseGPTStreamedData` and `parseAnthropicStreamedData`, `replacePlaceholdersDuringStreaming`, `parseRequestPossibleOutput` and `parseClarificationOutput` are not part of this model. They are uninterpreted function parameters.
- `variableToTypeDef` is not part of this model and is a function parameter.
- `JSON.parse` is a partial-function parameter returning a value or nothing.
- `streamInfo` is modelled as the list of texts sent; the `role: "assistant"` wrapper is implied.
- Module-load environment checks and every `console.log`/`console.error` are left out: they have no effect on results.
- Today's date is a parameter. The push of today's constant into `args.variables` (matching.ts:63) is modelled by returning the updated variable list from `GetMatchingPrompt`. The types block reads that list, as line 115 reads `args.variables` after the push. Aliasing is not modelled: a caller holding the same objects must use the returned list. Feeding it back into another call pushes a second copy, as the code does.
- The `constMatch` branch (matching.ts:266-277) is left out. `val` is the const's own name, so the pattern `name[digits]` never matches it, and the branch refers to an undeclared `constValues`.
- The special `$` patterns of replacement strings in `String.replace` are left out. Const values are taken to contain no `$`.
- The prose of the system prompt is left out. The model keeps its structure: the assistant name or default, the numbered facts, rule 8, the documentation step, the types and consts blocks, and the function descriptions.
- The clarification branch that would run while `isPossible` is true is modelled (`tellUser.replace(streamedText, "")` as a first-occurrence replace), but it is proved unreachable.

## Findings

| source | as written | input that shows it | evidently intended | confidence | as-written member | corrected member |
|---|---|---|---|---|---|---|
| lib/v3/prompts_parsers/matching.ts:280 | `m.replace(val, value)` replaces the first occurrence of the const name anywhere in the matched `"key": val}` text, which is inside the key when the key contains or equals the name | argument object `{id: id}` with declaration `const id = 5;` gives `{"5": id}` | replace the value part only, giving `{"id": 5}` | not executed | MatchingParser.SameNameEndToEnd | MatchingParser.SubstituteIntendedValue |

Both behaviours are modelled: `ParseMatchingOutput` and `SubstituteConsts` take an `asWritten` flag, and `false` selects the corrected callback. `SubstituteAsWrittenRewritesKey`, `ArgsStringAsWritten` and `SameNameKeyAndValue` show the as-written result for every key equal to its value's name. `SubstituteIntendedValue` and `ArgsStringIntended` prove the intended result for every key and name.
