# Conversation generator and JSON-answer agent, in Dafny

This project models two Python scripts and proves properties of the models.

`spec/generate.py` generates theatre-style transcripts: one line per message, each line `name: text`. For each of `--count` slots it does this:

- draws 2 to 4 speakers from distinct positions of a character pool (a name listed twice can be drawn twice) and one of twenty topics;
- asks a chat-completion model for a conversation, up to three times;
- keeps the first reply that `validate_transcript` accepts;
- writes the stripped reply plus `"\n"` to `{i:03d}.txt` (three digits, more from slot 1000 on).

The script exits with status 1 if any slot got no transcript.

`langchain/agent.py` runs a tool-using agent. It keeps the last AI message that is an answer, extracts a JSON value from it, and retries with a corrective message until some attempt yields a truthy value or `max_attempts` attempts have been made. An exception raised by the agent's stream is not caught: it ends the run at that attempt.

The model has six modules, one file each:

- `wrappers.dfy`: `Option` and `Result`.
- `pystr.dfy`: the Python `str` built-ins the scripts use. These are `isspace`, `strip`, `splitlines`, `split(',')`, `find`, `rfind` and `{n:03d}`. `strip`, `splitlines`, `split(',')`, `find` and `rfind` have contracts, and the first three also have a round-trip or fixed-point lemma. `isspace` is the `str.isspace` code-point table, checked on ASCII by `IsSpaceAscii`. `{n:03d}` is stated by `FormatIntRoundTrip` and `DigitsNoLeadingZero`.
- `transcript.dfy`: the line pattern `^([a-z]+): (.+)$` and `validate_transcript`. The method's loop is proved equal to a recursive specification `Validate`. Lemmas characterise each verdict.
- `conversation.dfy`: `generate_conversation`. Its retry loop is proved equal to a recursive specification `Attempts`. Lemmas cover the number of calls, the first accepted reply, exhaustion and the exponential back-off.
- `batch.dfy`: `parse_characters`, the pool-size guard and the slot loop of `main`. The loop is proved equal to `BatchFiles`/`FailedCount`. Lemmas cover file names, counts, the exit status and distinct output files.
- `agent.dfy`: `extract_json`, `run_attempt` and `run`. `json.loads` is a parameter. The streamed fold is proved equal to `LastAnswer`. The retry loop is proved equal to `RunFrom`.

Everything that talks to the outside world is a parameter:

- The chat-completion client is a function from the attempt number and the request to a reply: either a raised exception or a completion text.
- The agent is a function from the attempt number and the messages sent to the stream of updates, or to a raised exception.
- Each random draw of a slot is an input.
- Each `time.sleep` is recorded as its delay.
- Each file written is recorded as its name and content.

`extract_json` parses the answer text untrimmed (`langchain/agent.py:82`).

`validate_transcript` can never return "No valid messages found" (`spec/generate.py:111-112`). The text is stripped before it is split. So when there are any lines, the first one is not blank: it either counts as a message or ends the scan with an error. `Transcript.NoValidMessagesUnreachable` proves this. The branch is dead code, not a wrong result.

## Model

| member | source | states |
|---|---|---|
| PyStr.IsSpaceAscii | spec/generate.py:96 | the ASCII blanks are whitespace; letters, digits, `:` and braces are not |
| PyStr.IsLineBreak | spec/generate.py:88 | every character at which `splitlines` ends a line is whitespace |
| PyStr.Strip | spec/generate.py:88 | the stripped text is empty exactly when the input is all whitespace; otherwise it starts and ends with a non-whitespace character |
| PyStr.StripIsSlice | spec/generate.py:88 | `strip` removes exactly a whitespace prefix and a whitespace suffix: the result is a slice of the input with only whitespace around it |
| PyStr.StripIdempotent | spec/generate.py:145-149 | stripping an already stripped text changes nothing, so the text validated is the text returned |
| PyStr.SplitLines | spec/generate.py:88 | `splitlines` yields no line containing a line break, and yields no lines exactly for the empty text (with `SplitLinesSingle`'s one-line case, `SplitLinesBreak` and `SplitLinesCRLF` fix the lines of every text) |
| PyStr.SplitLinesJoin | spec/generate.py:88 | joining one-line strings (the last non-empty) with "\n" and splitting the result into lines gives the strings back |
| PyStr.SplitLinesBreak | spec/generate.py:88 | any single break character (`\n`, a lone `\r`, `\v`, `\f`, `\x1c`-`\x1e`, `\x85`, U+2028, U+2029) ends the first line, and the lines after it are the split of the rest |
| PyStr.SplitLinesCRLF | spec/generate.py:88 | `\r\n` is one break: the line before it is the first line, and the next line starts right after the `\n` |
| PyStr.Find | langchain/agent.py:85 | `find` is -1 exactly when the character is absent, and otherwise the position of its first occurrence |
| PyStr.RFind | langchain/agent.py:86 | `rfind` is -1 exactly when the character is absent, and otherwise the position of its last occurrence |
| PyStr.SplitOn | spec/generate.py:163 | `split(',')` yields at least one part and no part contains a comma |
| PyStr.JoinSplitOn | spec/generate.py:163 | joining the parts of a split with the separator rebuilds the text |
| PyStr.SplitOnJoin | spec/generate.py:163 | splitting parts joined by a separator they do not contain gives the parts back |
| PyStr.DigitsNoLeadingZero | spec/generate.py:240 | `str(n)` of a positive `n` does not start with `0` |
| PyStr.FormatIntRoundTrip | spec/generate.py:240 | `{i:03d}` is exactly `max(3, len(str(i)))` decimal digits and reads back as `i`, so zeros are added only up to three digits |
| Transcript.MatchMessage | spec/generate.py:18 | a match yields a name of `a`-`z` and a non-empty text with no "\n" |
| Transcript.LowerPrefix | spec/generate.py:18 | the length of the longest run of `a`-`z` at the start of the line, as `[a-z]+` consumes it |
| Transcript.MatchMessageSound | spec/generate.py:18 | a line without `\n` that the pattern matches is exactly `name + ": " + text`, with a name of `a`-`z` and a non-empty text |
| Transcript.MatchMessageRendered | spec/generate.py:18 | rendering a message as `name: text` and matching the line gives the message back |
| Transcript.Scan | spec/generate.py:95-114 | a rejection names a line number within the lines still to scan |
| Transcript.Validate | spec/generate.py:83-114 | a rejection names a 1-based line number within the stripped text's lines |
| Transcript.ValidateTranscript | spec/generate.py:83-114 | the loop with its early returns computes exactly the verdict of the recursive specification `Validate` |
| Transcript.ScanAccepts | spec/generate.py:95-114 | the scan accepts exactly when every remaining line is blank or a match by an allowed speaker, and some message was counted or is still to come |
| Transcript.ScanCounted | spec/generate.py:109-112 | once a message has been counted, the scan never reports that no valid messages were found |
| Transcript.ScanInvalidFormat | spec/generate.py:99-101 | an invalid-format verdict names the first non-blank line that does not match, with its 1-based number, after lines that were all fine |
| Transcript.ScanUnexpectedCharacter | spec/generate.py:103-107 | an unexpected-character verdict names the speaker of the first matching line outside the allowed set, after lines that were all fine |
| Transcript.ScanNeverEmpty | spec/generate.py:89-90 | the scan itself never reports an empty transcript; only the emptiness check does |
| Transcript.FirstLineNotBlank | spec/generate.py:88 | the first line of a stripped, non-empty text is not blank |
| Transcript.ValidateEmpty | spec/generate.py:88-90 | the verdict is "Empty transcript" exactly when the text is all whitespace |
| Transcript.NoValidMessagesUnreachable | spec/generate.py:111-112 | "No valid messages found" is never the verdict |
| Transcript.ValidateAccepts | spec/generate.py:83-114 | a text is accepted exactly when it is not all whitespace and each of its lines is blank or a match by an allowed speaker |
| Transcript.AcceptedHasMessage | spec/generate.py:95-114 | an accepted text has a first line, and it is a message by an allowed speaker |
| Transcript.ValidateFirstViolation | spec/generate.py:95-107 | each rejection verdict points at the first offending line, with everything before it fine |
| Transcript.RenderLineOneLine | spec/generate.py:18 | a rendered message with a one-line text is itself one line |
| Transcript.RenderedIsValid | spec/generate.py:83-114 | a non-empty list of admissible messages by allowed speakers whose last text does not end in whitespace, rendered one per line, is accepted |
| Conversation.Pow2Increasing | spec/generate.py:156 | the back-off delay `2**attempt` grows strictly with the attempt number |
| Conversation.Check | spec/generate.py:145-149 | a reply is kept exactly when its stripped text is accepted, and what is kept is that stripped text |
| Conversation.CheckAccepted | spec/generate.py:145-149 | a reply that is kept becomes a stripped text the validator accepts, whose first line is by an allowed speaker |
| Conversation.Attempts | spec/generate.py:135-158 | with no attempt left nothing is called, slept or returned; otherwise there are fewer sleeps than calls |
| Conversation.Retry | spec/generate.py:135-158 | the retry loop returns what `Attempts` says, makes that many calls, each with the same request, and sleeps as `Attempts` records |
| Conversation.GenerateConversation | spec/generate.py:117-158 | `generate_conversation` with the drawn topic and the speakers as the allowed set behaves as `Attempts` over its validation decision |
| Conversation.AttemptsCalls | spec/generate.py:135 | with attempts left, between one and the remaining number of calls are made; with none, nothing is called |
| Conversation.AttemptsFirstAccepted | spec/generate.py:145-149 | a returned transcript is the stripped reply of the last call made, that call was the first accepted one, and all earlier ones were not accepted |
| Conversation.AttemptsExhausted | spec/generate.py:135-158 | no transcript means every attempt up to `max_retries` was made and none was accepted |
| Conversation.AttemptsSleeps | spec/generate.py:153-156 | the sleeps are exactly `2**a` for each attempt `a` that raised and was not the last one |
| Conversation.BackoffsIncrease | spec/generate.py:155-156 | the recorded delays are strictly increasing and none is below `2**first attempt` |
| Conversation.NoRaiseNoSleep | spec/generate.py:153-156 | when no call raises, the run never sleeps |
| Conversation.AllRaiseBackoff | spec/generate.py:153-158 | when every call raises, all attempts are made, nothing is returned, and the delays are 2, 4, ... up to `2**(max_retries-1)` |
| Batch.Names | spec/generate.py:163 | the comprehension keeps at most as many entries as the split gave, each non-empty and already stripped (which entries, and in what order, is stated by NamesOne and NamesAppend) |
| Batch.NamesOne | spec/generate.py:163 | one entry gives its stripped text, or nothing when the stripped text is empty |
| Batch.NamesAppend | spec/generate.py:163 | the names of two runs of entries are the names of the first followed by those of the second: input order is kept and only blank entries are dropped |
| Batch.FirstInvalid | spec/generate.py:164-167 | a reported name is one of the names and does not match `^[a-z]+$` |
| Batch.ParseCharacters | spec/generate.py:161-168 | a success returns every stripped non-empty entry; a failure reports one of those entries |
| Batch.FirstInvalidNone | spec/generate.py:164-167 | no name is reported exactly when every name matches `^[a-z]+$` |
| Batch.FirstInvalidSome | spec/generate.py:164-167 | the reported name does not match, and every name before it does |
| Batch.ParseCharactersResult | spec/generate.py:161-168 | a parsed list holds only stripped `a`-`z` names; a failure reports a stripped, non-empty entry of the list that is not one |
| Batch.NamesOfNames | spec/generate.py:163 | stripping and filtering a list of valid names keeps every name in order |
| Batch.ParseCharactersJoin | spec/generate.py:161-168 | parsing valid names joined with commas gives the names back |
| Batch.FileName | spec/generate.py:240 | a file name is at least seven characters and ends in `.txt` |
| Batch.FileNameRoundTrip | spec/generate.py:240 | a slot's file name is exactly `max(3, len(str(i)))` digits that read back as the slot number, then `.txt`: slot 7 is `007.txt`, never `0007.txt` |
| Batch.FileNameInjective | spec/generate.py:240-241 | different slots get different file names |
| Batch.SelectedSubMultiset | spec/generate.py:238 | speakers taken from distinct pool positions are taken without replacement: no name occurs more often than in the pool |
| Batch.SelectedSample | spec/generate.py:237-238 | under a possible draw a slot has 2 to `min(4, len(pool))` speakers, drawn from the pool without replacement |
| Batch.BatchFiles | spec/generate.py:253-259 | at most one file is written per slot |
| Batch.FailedCount | spec/generate.py:253-256 | at most one failure is counted per slot |
| Batch.BatchCounts | spec/generate.py:253-262 | files written plus failures equals the number of slots |
| Batch.FailedCountPositive | spec/generate.py:264-265 | the failure count is positive exactly when some slot got no transcript |
| Batch.BatchFilesSound | spec/generate.py:253-259 | every file written is the file of a slot that got a transcript: its name and `transcript + "\n"` |
| Batch.BatchFilesComplete | spec/generate.py:253-259 | every slot that got a transcript has its file written |
| Batch.BatchNamesDistinct | spec/generate.py:240-258 | no two written files share a name, so no write overwrites another |
| Batch.RealizedBatch | spec/generate.py:245-256 | the files and failures depend only on what each slot got |
| Batch.RunSlot | spec/generate.py:236-251 | one slot's transcript is the one `generate_conversation` gives for its drawn speakers and topic |
| Batch.GenerateBatch | spec/generate.py:232-260 | the slot loop writes exactly `BatchFiles`, counts successes as the files written and failures as `FailedCount` |
| Batch.GenerateMain | spec/generate.py:213-265 | a list that fails to parse or has fewer than two names ends with status 1 before any slot; otherwise the slots run and the status is 1 exactly when some slot failed |
| Agent.BraceSpan | langchain/agent.py:85-87 | a brace span starts with `{` and ends with `}` |
| Agent.BraceSpanExists | langchain/agent.py:85-87 | the brace span exists exactly when some `{` comes before some `}` |
| Agent.ExtractJson | langchain/agent.py:79-92 | a text that parses yields its own parse; any other result is the parse of its brace span (ExtractJsonCases says which span) |
| Agent.ExtractJsonCases | langchain/agent.py:79-92 | the whole text's parse wins when there is one; otherwise exactly the slice from the first `{` to the last `}` is parsed; with no `{` before a `}` the result is nothing |
| Agent.LastAnswer | langchain/agent.py:97-116 | a non-empty kept text is the content of some answer in the stream |
| Agent.LastAnswerSpec | langchain/agent.py:97-118 | the kept text is the content of the last AI message with content and no tool calls, and `""` exactly when there is none |
| Agent.LastAnswerIgnores | langchain/agent.py:102-111 | AI messages with tool calls, tool messages and other messages never change the kept text |
| Agent.RunAttempt | langchain/agent.py:95-118 | the nested loops over chunks, node updates and messages keep exactly `LastAnswer` of the stream, and the attempt returns `extract_json` of it |
| Agent.AttemptMessages | langchain/agent.py:128-136 | attempt 1 sends the task alone; every later attempt sends the task and then the corrective message |
| Agent.Attempt | langchain/agent.py:128-138 | attempt 1 sends `[task]`, every later attempt sends `[task, corrective]`, and the attempt yields what `run_attempt` gives for them, or the agent's exception |
| Agent.RunFrom | langchain/agent.py:125-148 | a run makes at most `max_attempts` attempts; a returned value is truthy; a run ended by an exception returns nothing |
| Agent.Run | langchain/agent.py:121-148 | the loop returns what `RunFrom` says, raises exactly when `RunFrom` ends in an exception, and the message lists sent are exactly the per-attempt lists, one per attempt made |
| Agent.RunLoop | langchain/agent.py:125-148 | given what each attempt yields, the loop returns, raises and counts attempts exactly as `RunFrom` says, and sends the per-attempt message lists |
| Agent.RunFromStep | langchain/agent.py:138-140 | an attempt that raises or yields a truthy value ends the run there; any other hands over to the next attempt |
| Agent.RunFromSucceeded | langchain/agent.py:138-140 | a returned value is truthy, comes from the last attempt made, and every earlier attempt completed with nothing or a falsy value |
| Agent.RunFromRaised | langchain/agent.py:125-138 | a run ended by the agent's exception returns nothing, ends at the attempt that raised with no attempt after it, and every earlier attempt completed without a truthy value |
| Agent.RunFromFailed | langchain/agent.py:125-148 | returning nothing without an exception means all `max_attempts` attempts were made, each completed, and none yielded a truthy value |
| Agent.RunFirstStop | langchain/agent.py:125-140 | when attempt `k` is the first that does not retry, the run ends after exactly `k` attempts: with its value if it was truthy, with the exception if it raised |

## Left out

- Command-line parsing, environment variables and the `OLLAMA_BASE_URL` check (`spec/generate.py:171-193`) are outside the model.
- The `--characters-file` path (`spec/generate.py:198-211`), which reads a JSON file, is left out. Only `--characters` is modelled.
- The output directory, the progress lines, the summary line and logging are left out. A written file is recorded as its name and content.
- Building the system and user prompts (`load_format_spec`, `build_system_prompt`, `build_user_prompt`) is left out. A request carries the inputs of those prompts: model, system prompt, speakers, message count and topic.
- The chat-completion client and its temperature are a parameter. Any exception from the call or from reading the reply is one `Raised` reply.
- `random.randint`, `random.sample` and `random.choice` are inputs. The precondition `Drawn` states what they can return: 2 to `min(4, len(pool))` distinct positions and a topic index.
- Transcript.ValidateTranscript: the error messages are a structured verdict (line number with the line or the name), not the formatted strings with `repr`.
- `seen_characters` in `validate_transcript` is written but never read, so it is not modelled.
- PyStr.Strip: whitespace is the code-point set `str.isspace` accepts, written out as a table. Unicode database versions are not modelled.
- The agent's construction (`build_agent`, the model client, the two tools), `load_task_prompt` and `main` are left out. The agent and the task text are parameters. The JSON printing and exit status of `main` are not modelled.
- `json.loads` is a parameter. Its exceptions other than a decode error (for example on very deep nesting) are not modelled.
- Agent.ExtractJson: the text `null` parses to `JNull`, so it returns `Some(JNull)` where Python returns `None`. `run` treats both as falsy, so runs are unaffected.
- Agent.Run: an exception from the agent is one `Raised` stream. Chunks streamed before it only produce log lines, so where it happens in the stream is not modelled. The exception itself is the `raised` flag, not its type or message.
- Agent.RunAttempt: message content is a string. The content-block list form of LangChain messages is not modelled, and neither is the stderr output of tool calls and debug previews.
