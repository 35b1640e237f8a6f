# ai-update: a verified model of the documentation update helper

The repository is a static documentation site. Its one piece of logic is the
command-line helper `scripts/ai-update.ts`. The helper is given a documentation
file. It either asks a large-language-model service to review the file (analyse
mode), or asks the service for a full replacement of the file and prints it or
writes it to a chosen path (apply mode).

This project models that helper in Dafny:

- `wrappers.dfy`, module `Wrappers`: `Option` (the script's `undefined`), `Result` (thrown errors) and
  `Truthy`, JavaScript truthiness of an optional string.
- `arguments.dfy`, module `Arguments`: the argument loop of `main`. `ResolveArguments` is the loop
  itself: a `while` loop that advances the index by one, or by two when a flag takes the next token.
  It is proved against `Resolve`, a declarative definition. Position `j` is *scanned* unless the flag
  just before it registered. A flag *registers* when the token after it exists and is non-empty
  (JavaScript truthiness). The value of a flag is the token after its last scanned, registering
  occurrence.
- `modes.dfy`, module `Modes`: the choice between analysis, regeneration printed to standard output,
  and regeneration written to a file.
- `prompts.dfy`, module `Prompts`: the two requests sent to the service. These are the analysis
  prompt with its optional context line, the regeneration prompt, the system instruction, the model
  name and the two output caps.
- `responses.dfy`, module `Responses`: taking the text of the reply from block 0 only.
- `pipeline.dfy`, module `Pipeline`: one whole run, `Run`, as a function of the arguments and a
  `Host`. The host holds the readable files by path, the base-name function and the service, which
  is a function from request to reply or rejection. `SentRequest` names the one request a run sends.

Behaviour the model pins down:
- Apply mode needs `--apply` followed by a non-empty token. A bare `--apply` does not select it.
- The reply text comes from block 0 only. A text block later in the reply is ignored.
- A reply with no blocks at all is a run-time failure (exit status 1), not an empty text.
- The regeneration path does not check that the file exists. Reading a missing file throws there.
  The model keeps the two errors apart (`FileNotFound` for analysis, `ReadFailed` for regeneration).
  Both stop the run before any request is sent.

## Model

| member | source | states |
|---|---|---|
| `Arguments.ResolveArguments` | scripts/ai-update.ts:146-191 | No arguments gives usage. Otherwise the file path is `args[0]`, and each option holds the value of the last registered occurrence of its flag (equal to `Resolve`). |
| `Arguments.Resolve` | scripts/ai-update.ts:174-191 | The declarative resolution the loop is proved equal to. Its behaviour is stated by `LastRegisteredWins`, `UnsetIffNeverRegistered`, `FilePathNeverScanned`, `UnknownTokenIgnored`, `FlagOrderIrrelevant` and the other `Arguments` lemmas below. |
| `Arguments.LastValueBelow` | scripts/ai-update.ts:180-190 | A value a flag holds is never empty, and it is the token right after some scanned, registering occurrence of that flag. |
| `Arguments.ScanAdvancesByOneOrTwo` | scripts/ai-update.ts:180-190 | From a scanned position the loop moves by two when the flag registers, and the token it took is never scanned. Otherwise it moves by one. |
| `Arguments.LastRegisteredWins` | scripts/ai-update.ts:181-189 | When a flag registers several times, the value from its last registered occurrence is kept. |
| `Arguments.UnsetIffNeverRegistered` | scripts/ai-update.ts:175-191 | A flag stays `undefined` exactly when none of its occurrences registered. |
| `Arguments.FilePathNeverScanned` | scripts/ai-update.ts:174-180 | Replacing `args[0]` changes only the file path. The first argument is never read as a flag, even when it looks like one. |
| `Arguments.TrailingTokenIgnored` | scripts/ai-update.ts:180-191 | A last token that the loop scans changes nothing, whether it is a flag or an unknown word. |
| `Arguments.TrailingFlagIgnored` | scripts/ai-update.ts:181-189 | A flag that is the last token, and that the loop scans, does not register, and the request is the same as without it. |
| `Arguments.TrailingEmptyIgnored` | scripts/ai-update.ts:181-189 | An empty string is never taken as a value, so a trailing one changes nothing. |
| `Arguments.LaterFlagOverrides` | scripts/ai-update.ts:181-190 | Appending a flag and a non-empty value (where the flag is scanned) sets that flag to the value and leaves the other flags unchanged. |
| `Arguments.FlagTakenAsValue` | scripts/ai-update.ts:181-186 | `path --context --apply x` sets the context to `--apply`, and `x` is dropped. Apply and output stay unset. |
| `Arguments.EmptyValueScannedAsToken` | scripts/ai-update.ts:181-190 | `path --context "" --apply x` leaves the context unset. The empty string is scanned as a plain token, and `--apply x` then registers. |
| `Arguments.UnknownTokenIgnored` | scripts/ai-update.ts:180-191 | A non-empty token that is not a value flag, put in anywhere after the file path where the loop scans it, changes nothing. |
| `Arguments.FlagOrderIrrelevant` | scripts/ai-update.ts:180-191 | Two different flags, each followed by a non-empty value, give the same request in either order, whatever tokens come before and after them, provided the loop scans the first of them. |
| `Modes.SelectAction` | scripts/ai-update.ts:193-218 | Apply mode exactly when the instructions are truthy, and then a file write exactly when the output path is truthy. The file path is always passed on, the instructions and output path in apply mode, the context in analyse mode. |
| `Modes.ApplyIgnoresContext` | scripts/ai-update.ts:194-206 | In apply mode the context has no effect on what is done. |
| `Modes.AnalyzeIgnoresOutput` | scripts/ai-update.ts:207-209 | In analyse mode the output path has no effect on what is done. |
| `Modes.ModeFromArguments` | scripts/ai-update.ts:174-209 | Apply mode exactly when some `--apply` occurrence registered, wherever it stands. A file write exactly when `--output` also registered. The analysis receives the context flag's value. |
| `Prompts.AnalysisPrompt` | scripts/ai-update.ts:66-84 | The analysis prompt text. Its behaviour is stated by `AnalysisPromptEmbeds`, `ContextLineOnlyWhenSet` and `AnalysisPromptDeterminesContent`. |
| `Prompts.AnalysisPromptEmbeds` | scripts/ai-update.ts:66-74 | The analysis prompt always holds the file-name line and the whole content between code fences. It holds the context line when the context is set. |
| `Prompts.ContextLineOnlyWhenSet` | scripts/ai-update.ts:66-70 | An empty context gives the prompt without a context line. A non-empty one is inserted as a single line right after the file-name line, and nothing else changes. |
| `Prompts.AnalysisPromptDeterminesContent` | scripts/ai-update.ts:71-74 | The analysis prompt holds the file content verbatim: two different contents give two different prompts. |
| `Prompts.GenerationPrompt` | scripts/ai-update.ts:125-135 | The regeneration prompt text. Its behaviour is stated by `GenerationPromptEmbeds`, `GenerationPromptDeterminesContent` and `GenerationPromptDeterminesInstructions`. |
| `Prompts.GenerationPromptEmbeds` | scripts/ai-update.ts:125-133 | The regeneration prompt holds the instructions line, the file heading and the whole content between code fences. |
| `Prompts.GenerationPromptDeterminesContent` | scripts/ai-update.ts:129-132 | For given instructions, the regeneration prompt holds the file content verbatim. |
| `Prompts.GenerationPromptDeterminesInstructions` | scripts/ai-update.ts:125-127 | For a given file, the regeneration prompt holds the instructions verbatim. |
| `Prompts.AnalysisRequest` | scripts/ai-update.ts:86-96 | The analysis request. Its shape is stated by `RequestShapes`, its prompt by the `AnalysisPrompt` lemmas. |
| `Prompts.GenerationRequest` | scripts/ai-update.ts:119-138 | The regeneration request. Its shape is stated by `RequestShapes`, its prompt by the `GenerationPrompt` lemmas. |
| `Prompts.RequestShapes` | scripts/ai-update.ts:86-138 | Both requests send one user message to the same model. The analysis output cap is below the regeneration cap. Only the analysis request carries the system instruction. |
| `Responses.ReplyText` | scripts/ai-update.ts:98-100 | Taking the text from block 0 of the reply (also at lines 140-142). Its behaviour is stated by `FirstBlockDecides`, `LeadingTextReturned`, `LeadingNonTextGivesEmpty` and `EmptyReplyOnlyFailure`. |
| `Responses.FirstBlockDecides` | scripts/ai-update.ts:98-100 | Block 0 alone decides the reply text. Later blocks are never inspected. |
| `Responses.LeadingTextReturned` | scripts/ai-update.ts:140-142 | The text of a leading text block is returned unchanged, whatever follows it. |
| `Responses.LeadingNonTextGivesEmpty` | scripts/ai-update.ts:98-100 | A leading block of another type gives `""`, even when a text block follows. |
| `Responses.EmptyReplyOnlyFailure` | scripts/ai-update.ts:98-100 | Reading the reply fails exactly when it has no blocks. |
| `Pipeline.AnalyzeFile` | scripts/ai-update.ts:33-106 | Analysing one file. Its behaviour is stated by `MissingFileFailsBeforeRequest`, `AnalysisPrintsReply` and `RejectingServiceFails`. |
| `Pipeline.GenerateContent` | scripts/ai-update.ts:108-143 | Regenerating one file. Its behaviour is stated by `MissingFileFailsBeforeRequest`, `OutputFileHoldsReply`, `ApplyWithoutOutputPrints` and `RejectingServiceFails`. |
| `Pipeline.Run` | scripts/ai-update.ts:145-222 | One whole run. Its behaviour is stated by `ServiceConsultedOnlyOnSentRequest` and the other `Pipeline` lemmas below. |
| `Pipeline.ServiceConsultedOnlyOnSentRequest` | scripts/ai-update.ts:193-222 | A run's outcome depends on the service only through the single request it sends. A run that sends none does not depend on the service at all. |
| `Pipeline.NoArgumentsShowsUsage` | scripts/ai-update.ts:148-172 | No arguments gives usage with exit status 0, and no request is sent. |
| `Pipeline.MissingFileFailsBeforeRequest` | scripts/ai-update.ts:39-45 | A missing file fails the run with exit status 1, and no request is sent. The error is "file not found" in analyse mode and a failed read (the read at line 114) in apply mode. |
| `Pipeline.OutputFileHoldsReply` | scripts/ai-update.ts:194-200 | With `--apply` and `--output` registered, the output file receives exactly the reply's text. |
| `Pipeline.ApplyWithoutOutputPrints` | scripts/ai-update.ts:201-206 | With a registered `--apply` but no registered `--output`, the reply's text is printed and no file is written. |
| `Pipeline.AnalysisPrintsReply` | scripts/ai-update.ts:207-214 | Without a registered `--apply`, the analysis request carries the context flag's value, and the reply's text is printed. |
| `Pipeline.RejectingServiceFails` | scripts/ai-update.ts:219-222 | When every service call rejects, every run with arguments fails with exit status 1, and nothing is written. |

## Left out

- The start-up check for the API key and its exit (scripts/ai-update.ts:19-25): this is process environment. The model assumes the key is set.
- `process.exit`: it is reduced to `ExitCode` of the outcome.
- Console output: banners, emoji lines and the usage text itself are presentation. The outcome says only what is printed or written.
- `path.resolve`: the model keys files by the path as given, and `FileNotFound` carries that path, not the absolute one.
- `path.basename`: it is a function supplied by the host.
- File-system failures other than a missing file (permissions, encoding, a failing write): these are host behaviour, and they are not modelled.
- The service client and its network call: the service is a function from request to reply or rejection. Retries and timeouts do not exist in the script.
- `async`/`await`: each run awaits one call in sequence, so `Run` is a plain function. Two runs with the same inputs have the same outcome by construction. Concurrent runs writing one file are not modelled.
- `suggestedChanges`: it is always the empty list, and the script never reads it.
- `tailwind.config.mjs` and `astro.config.mjs`: static configuration with no logic.
