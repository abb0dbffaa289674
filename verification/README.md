# Resilience, stages, error middleware, validators and document loading of the screening pipeline

This project models the core of a CV and project-report screening service.
The repository defines a fixed list of ten pipeline stages
(src/utils/PipelineStagesHandler.ts:14-25), which no file in the
repository runs a job through.
The repository provides a retry wrapper for a stage: a timeout race,
exponential backoff with jitter, and a status write to the job record around
every attempt. No caller in the modelled files invokes it; the model covers
the wrapper itself.
Around that core sit an HTTP error middleware, a small set of request and
payload validators, and a script that loads reference documents into a
vector store.

Everything is modelled as pure Dafny functions over immutable data:

- `wrappers.dfy` holds `Option`, `Result` and `Outcome`, plus the JavaScript
  `Error` value (`Errors.JsError`) and the text `String(err.message || err)`
  gives for it.
- `strings.dfy` holds the string operations the sources rely on: `includes`,
  `endsWith`, global `replace` of a literal, `trim`, ASCII `toLowerCase`, and
  decimal rendering of an integer.
- `stages.dfy` (`PipelineStages`) holds the stage names, the `STAGES` list with
  its progress percentages, the per-stage configuration table, and
  `setStage`. `setStage` is modelled as the patch it writes, or the
  `TypeError` raised for an index outside the list.
- `resilience.dfy` (`Resilience`) holds `backoffDelay`, `withTimeout` and
  `retryStage`.
  - The outside world is a parameter (`World`). For each attempt it gives how
    the "processing" write went, how the race between `fn()` and the timer
    ended, how the "done" write went, and the random draw of the jitter.
    It also says how the final "failed" write went.
  - A run is the trace of effects (status writes, calls of `fn`, sleeps)
    together with the value returned or the error thrown.
- `retry_properties.dfy` (`RetryProperties`) proves properties of
  `retryStage` over all worlds:
  - the order of effects;
  - the bounds on calls of `fn`;
  - the sleep durations and their total;
  - success exactly when some attempt succeeds, with the first success winning;
  - on exhaustion, a single "failed" write carrying the last error's text.
- `errorhandler.dfy` (`ErrorHandler`) holds the middleware's `switch (true)`.
  It is a first-match decision list over the lower-cased message and the
  code, with the 500 default that passes the raw message through.
- `validators.dfy` (`Validators`) holds:
  - the required-upload check;
  - the MIME check;
  - the `%PDF` signature check;
  - the fence stripping and trimming before `JSON.parse`.
- `systemdocs.dfy` (`SystemDocs`) holds `loadDocument`:
  - the choice of reader by file extension;
  - the split into pieces of at most 1500 characters;
  - the embed-then-insert loop, which stops at the first failure.

## Model

| member | source | states |
|---|---|---|
| Errors.PlainError | src/utils/resilienceHelper.ts:70 | `new Error(text)` carries exactly that text as its message |
| Errors.ErrorToString | src/utils/resilienceHelper.ts:69 | `String(err)` of an `Error` starts with its name and ends with its message, with ": " between them when both are non-empty |
| Errors.ErrorText | src/utils/resilienceHelper.ts:69-70 | the text recorded for a failed stage, and the message of the error then thrown, is the error's message when that is non-empty, and otherwise equals `ErrorToString` of the error |
| Resilience.Jitter | src/utils/resilienceHelper.ts:18 | the jitter `Math.floor(Math.random() * 500)` is below 500 |
| Resilience.JitterCoversRange | src/utils/resilienceHelper.ts:18 | every jitter from 0 to 499 is produced by some random draw |
| Resilience.Pow2 | src/utils/resilienceHelper.ts:19 | the power of two in the backoff is at least 1 |
| Resilience.BackoffDelay | src/utils/resilienceHelper.ts:16-20 | the delay for attempt n lies between `base * 2^(n-1)` and that plus 499 |
| Resilience.BackoffDoubles | src/utils/resilienceHelper.ts:19 | with the random draw held fixed, the non-jitter part of the delay doubles from one attempt to the next |
| Resilience.WithTimeout | src/utils/resilienceHelper.ts:25-32 | a promise that settles first passes its outcome through unchanged; a timer that fires first rejects with the timeout error |
| Resilience.TimeoutError | src/utils/resilienceHelper.ts:28 | the timer's rejection is a plain `Error` whose message starts with the label, or "operation" when there is none |
| Resilience.TimeoutMessageNamesLabelAndDuration | src/utils/resilienceHelper.ts:28 | the timeout message starts with the label, then " timed out after ", then only digits, and ends in " ms" |
| Resilience.RunAttempt | src/utils/resilienceHelper.ts:49-60 | one attempt writes "processing", calls `fn` only if that write succeeded, and writes "done" exactly when `fn` fulfilled before the timer; it succeeds exactly when both writes succeed and `fn` fulfilled first, and then returns that value; a failed attempt carries the error of the step that failed: the "processing" write's, the timeout error, `fn`'s rejection, or the "done" write's |
| Resilience.RejectedAttemptFails | src/utils/resilienceHelper.ts:54-60 | when `fn` rejects before the timer, the attempt fails with that rejection and no "done" write happens |
| Resilience.DoneWriteFailureFails | src/utils/resilienceHelper.ts:54-60 | when the "done" write throws after `fn` fulfilled, the value is dropped and the attempt fails with the write's error |
| Resilience.TimedOutAttemptFails | src/utils/resilienceHelper.ts:54-60 | an attempt whose timer fires first fails with the timeout error named after the stage |
| Resilience.ProcessingWriteFailureFails | src/utils/resilienceHelper.ts:51-60 | an attempt whose "processing" write throws fails with that error, and `fn` is never called |
| Resilience.AttemptsFrom | src/utils/resilienceHelper.ts:48-72 | every run of the loop starts with the "processing" write of the stage |
| Resilience.RetryStage | src/utils/resilienceHelper.ts:38-76 | a non-stage index throws the lookup `TypeError` before any effect; fewer than one attempt throws `undefined` with no effect; otherwise the trace starts with "processing" |
| Resilience.RetryStageWithDefaults | src/utils/resilienceHelper.ts:42-44 | `retryStage` with its default arguments: 3 attempts, 2000 ms base delay, 60000 ms timeout (consequences in `RetryProperties.RetryStageWithDefaultsBudget`) |
| RetryProperties.ExhaustedError | src/utils/resilienceHelper.ts:69-70 | after the last failure the thrown error carries the last error's text, unless the "failed" write itself throws, in which case that write's error escapes |
| RetryProperties.RetryStageOrdered | src/utils/resilienceHelper.ts:48-72 | in every trace, `fn` runs right after a "processing" write, "done" right after `fn`, each sleep right before the next "processing", and a "failed" write (with error text) only as the very last effect; every write is for the given stage |
| RetryProperties.RetryStageInvocationBound | src/utils/resilienceHelper.ts:48-54 | `fn` runs no more often than "processing" is written, and that happens at most `attempts` times (never when `attempts < 1`) |
| RetryProperties.RetryStageSleeps | src/utils/resilienceHelper.ts:62-65 | one sleep separates consecutive attempts, and the i-th sleep lasts `backoffDelay(base, i + 1)` for that attempt's draw |
| RetryProperties.RetryStageFirstSuccess | src/utils/resilienceHelper.ts:48-58 | when attempt k is the first to succeed, the result is its value, after exactly k attempts and k - 1 sleeps, with "done" last and no "failed" write; `fn` ran k times when every "processing" write went through |
| RetryProperties.RetryStageSuccessIff | src/utils/resilienceHelper.ts:48-58 | the wrapper returns a value if and only if one of its attempts succeeds |
| RetryProperties.RetryStageExhausted | src/utils/resilienceHelper.ts:60-70 | when every attempt fails: exactly `attempts` attempts and `attempts - 1` sleeps, one "failed" write as the last effect carrying the last error's text, the thrown error as `ExhaustedError`, and total sleep between `base * (2^(attempts-1) - 1)` and that plus 499 per sleep |
| RetryProperties.RetryStageKeepsOnlyLastError | src/utils/resilienceHelper.ts:60-70 | errors of earlier attempts are overwritten: two all-failing runs that agree on the last attempt throw the same error and write the same "failed" status |
| RetryProperties.RetryStageWithDefaultsBudget | src/utils/resilienceHelper.ts:42-65 | with the default arguments `fn` runs at most three times and there are at most two sleeps, the i-th lasting between `2000 * 2^i` and that plus 499 ms |
| PipelineStages.ParseStageName | src/utils/PipelineStagesHandler.ts:2-12 | parsing a string to a stage name succeeds only on that name's exact label |
| PipelineStages.LabelRoundTrip | src/utils/PipelineStagesHandler.ts:2-12 | every stage name's label parses back to that name |
| PipelineStages.LabelsDistinct | src/utils/PipelineStagesHandler.ts:2-12 | distinct stage names have distinct labels |
| PipelineStages.StagesProgressIncreasing | src/utils/PipelineStagesHandler.ts:14-25 | there are ten stages, progress runs from 10 to 100, and it strictly increases along the list |
| PipelineStages.StagesDistinct | src/utils/PipelineStagesHandler.ts:14-25 | no stage name appears twice in the list |
| PipelineStages.IndexOf | src/utils/PipelineStagesHandler.ts:14-25 | every stage name sits at some index of the list |
| PipelineStages.IndexOfInvertsStages | src/utils/PipelineStagesHandler.ts:14-25 | looking up the name at index i gives back i |
| PipelineStages.StageConfigCoversStages | src/utils/PipelineStagesHandler.ts:28-49 | every stage has a configuration entry, with 2 or 3 attempts, a base delay of 1000-3000 ms and a timeout of 15000-90000 ms |
| PipelineStages.OnlySummarizeFallsBack | src/utils/PipelineStagesHandler.ts:28-49 | "Summarize evaluation" is the one and only stage allowed to fall back |
| PipelineStages.SetStage | src/utils/PipelineStagesHandler.ts:54-64 | an index outside the list throws the lookup `TypeError`; otherwise the patch carries the stage's label and progress, status "failed" exactly for a failed write and "processing" for every other, and the error only when it is a non-empty string |
| PipelineStages.SetStageIdentifiesStage | src/utils/PipelineStagesHandler.ts:54-58 | two patches with the same stage label come from the same index |
| PipelineStages.SetStageProgressIncreases | src/utils/PipelineStagesHandler.ts:54-58 | a patch for a later stage reports strictly more progress |
| PipelineStages.SetStageDoneLooksLikeProcessing | src/utils/PipelineStagesHandler.ts:59 | "done", "running" and "processing" writes produce the same patch; only "failed" differs |
| ErrorHandler.CodeOf | src/api/middleware/errorHandler.ts:10 | the code compared against is `err.code` when that is a non-empty string, else `err.name`, and empty exactly when neither is set |
| ErrorHandler.MessageOf | src/api/middleware/errorHandler.ts:11 | the message searched is `err.message` lower-cased character by character (so already lower case and as long), and empty when there is no message |
| ErrorHandler.GuardOf | src/api/middleware/errorHandler.ts:15-84 | the guard of each case as the switch writes it: a phrase or a code, one phrase, either of two phrases, or both of two phrases (no contract of its own; the guard lemmas below state what follows from it) |
| ErrorHandler.ReplyText | src/api/middleware/errorHandler.ts:17-86 | the canned client message of each case (no contract of its own; `HandleError` states where it is sent) |
| ErrorHandler.StatusOf | src/api/middleware/errorHandler.ts:15-87 | every case of the list answers one of 400, 413, 422, 429, 502, 503, 504, never 500 |
| ErrorHandler.Position | src/api/middleware/errorHandler.ts:13-88 | every reply has a place in the decision list |
| ErrorHandler.PositionOfOrder | src/api/middleware/errorHandler.ts:13-88 | each reply appears in the list exactly once |
| ErrorHandler.FirstMatch | src/api/middleware/errorHandler.ts:13-91 | the search returns the first case at or after a point whose guard holds, and none exactly when no later case holds |
| ErrorHandler.FirstMatchUnique | src/api/middleware/errorHandler.ts:13-91 | at most one case is the first to hold |
| ErrorHandler.Classify | src/api/middleware/errorHandler.ts:13-91 | the chosen reply is the first case whose guard holds; there is no reply exactly when no case holds |
| ErrorHandler.HandleError | src/api/middleware/errorHandler.ts:6-97 | the response is never a success; its status is 500 exactly when no case holds; the first case that holds gives its status and canned text; otherwise the raw message is passed through, or "Internal server error" when there is none |
| ErrorHandler.QuotaStopsAtSupabase | src/api/middleware/errorHandler.ts:51-54 | any message mentioning "quota" is settled at the Supabase quota case or earlier, and by that 429 when nothing above holds |
| ErrorHandler.ZillizQuotaUnreachable | src/api/middleware/errorHandler.ts:51-60 | the Zilliz quota case is never chosen, because its guard implies the Supabase quota guard above it |
| ErrorHandler.GeminiQuotaOnlyForRateLimit | src/api/middleware/errorHandler.ts:51-81 | the Gemini 429 reply is chosen only for "rate limit" messages without "rate limit exceeded" and without "quota" |
| ErrorHandler.GeminiTimeoutUnlessEarlier | src/api/middleware/errorHandler.ts:68-71 | a message naming "gemini" and "timeout" is settled at the Gemini timeout case or earlier, and gets the 504 exactly when no case above holds |
| ErrorHandler.UploadCodesAnswer400 | src/api/middleware/errorHandler.ts:15-28 | the codes NO_FILE_UPLOADED, EMPTY_FILE and INVALID_FILE_TYPE always answer 400 |
| ErrorHandler.FileSizeCodeAnswer | src/api/middleware/errorHandler.ts:15-33 | the code LIMIT_FILE_SIZE answers 413 exactly when the message names none of the three upload problems above it, and 400 otherwise |
| ErrorHandler.PdfParseCodeAnswer | src/api/middleware/errorHandler.ts:15-38 | the code PDF_PARSE_ERROR answers 422 exactly when the message names none of the four problems above it |
| ErrorHandler.CaseInsensitive | src/api/middleware/errorHandler.ts:11 | messages equal up to case with the same code get the same status, and the same response whenever a case holds |
| ErrorHandler.NameStandsInForCode | src/api/middleware/errorHandler.ts:10 | an error with a missing or empty code is handled as if its name were its code |
| Validators.FirstFile | src/utils/validators.ts:4-5 | the optional-chained lookup `files?.[field]?.[0]`: present exactly when the field holds a non-empty list (no contract of its own; `ValidateUploadRequest` states the verdict) |
| Validators.ValidateUploadRequest | src/utils/validators.ts:3-7 | the request passes exactly when both the "cv" and "project" fields hold a first file; otherwise it fails with "CV and project report are required." |
| Validators.UploadRequestIgnoresOtherFields | src/utils/validators.ts:3-7 | adding, replacing or removing any other field does not change the verdict |
| Validators.ValidateFileType | src/utils/validators.ts:9-14 | a file passes exactly when its MIME type is "application/pdf"; otherwise the error names the file |
| Validators.FileTypeErrorNamesFile | src/utils/validators.ts:12 | the rejection message contains and ends with the original file name |
| Validators.AsciiView | src/utils/validators.ts:19 | decoding the first bytes gives one character per byte |
| Validators.ValidatePdfBuffer | src/utils/validators.ts:16-21 | a buffer passes exactly when it has at least four bytes and they are "%PDF"; a missing or empty buffer fails |
| Validators.PdfCheckIgnoresTail | src/utils/validators.ts:19-20 | once four bytes are present, the bytes after them do not change the verdict |
| Validators.PdfCheckShortBuffer | src/utils/validators.ts:17-20 | a buffer shorter than four bytes always fails, and some extension of it passes exactly when it is a prefix of "%PDF" |
| Validators.CleanLLMText | src/utils/validators.ts:26-29 | the cleaned text contains no "```" and no "```json", and has no whitespace at either end |
| Validators.CleanIdempotent | src/utils/validators.ts:26-29 | cleaning an already cleaned text changes nothing |
| Validators.CleanWithoutFenceIsTrim | src/utils/validators.ts:26-29 | a text without "```" is only trimmed: single and double backticks in it survive |
| Validators.CleanFencedBlock | src/utils/validators.ts:26-29 | a payload without "```" and without whitespace at its ends, wrapped in a "```json" fenced block, is recovered exactly, its own backticks included |
| Validators.ValidateLLMJson | src/utils/validators.ts:23-37 | the result is the parse of the cleaned text when that parses; otherwise the error "Invalid JSON format from model output." |
| Validators.FencedPayloadParsesAsPayload | src/utils/validators.ts:23-37 | wrapping such a payload in a "```json" fence, with any white space in front, leaves the validation result unchanged |
| Validators.CleanFencedBlockAfter | src/utils/validators.ts:26-29 | a "```json" block after any text without "```" cleans to that text and the payload line, trimmed: the text in front is kept |
| Validators.CleanIndentedFencedBlock | src/utils/validators.ts:26-29 | a "```json" block after leading white space gives back the payload exactly |
| Validators.JsonFenceLeftmostAfter | src/utils/validators.ts:27 | after text without "```", the opening "```json" is the leftmost occurrence of "```json" |
| Validators.StripOpeningFenceAfter | src/utils/validators.ts:27 | on such a block, the "```json" removal takes off only the opening fence and keeps the text in front |
| Validators.StripClosingFenceAfter | src/utils/validators.ts:28 | the "```" removal then takes off only the closing fence |
| Validators.StripOpeningFence | src/utils/validators.ts:27 | on a fenced block around a payload without "```", the "```json" removal takes off only the opening fence |
| Validators.StripClosingFence | src/utils/validators.ts:28 | after that, the "```" removal takes off only the closing fence |
| SystemDocs.Chunks | src/script/loadSystemDocs.ts:25 | the pieces join back to the text, each has 1 to 1500 characters and all but the last exactly 1500, and an empty text gives no piece |
| SystemDocs.ChunkCount | src/script/loadSystemDocs.ts:25 | a text of n characters gives ceil(n / 1500) pieces |
| SystemDocs.ChunksUnique | src/script/loadSystemDocs.ts:25 | any split that joins back to the text and has full-size pieces before a last non-empty one is exactly this split |
| SystemDocs.ChunkText | src/script/loadSystemDocs.ts:25 | the loop that cuts the text piece by piece produces the same split |
| SystemDocs.ProcessChunks | src/script/loadSystemDocs.ts:27-30 | the loop succeeds exactly when every piece is embedded and inserted, and then makes an embed and an insert call per piece, in order; it never makes more than two calls per piece |
| SystemDocs.ProcessChunksStopsAtFirstFailure | src/script/loadSystemDocs.ts:27-30 | when piece k is the first not stored, pieces before k are stored in order, piece k is embedded, nothing after it is touched, and the load fails with that call's error |
| SystemDocs.ProcessedEmbedsEveryPiece | src/script/loadSystemDocs.ts:27-30 | a loop that stores every piece embeds exactly the pieces, in order |
| SystemDocs.ProcessedEventsAreCalls | src/script/loadSystemDocs.ts:27-30 | the loop makes only embed and insert calls |
| SystemDocs.LoadDocument | src/script/loadSystemDocs.ts:11-30 | a ".pdf" path is read with the PDF extractor first, any other ".txt" path as text, and any other path fails with "Unsupported file type: " and the path before any effect; a failed read ends the load with the read's error and nothing else; after a successful read the rest of the load is exactly the loop over the pieces of the text read, with that loop's outcome |
| SystemDocs.ThenProcess | src/script/loadSystemDocs.ts:22-30 | after the read event come only embed and insert calls, and they and the outcome are those of the loop over the text's pieces |
| SystemDocs.ThenProcessStoresWholeText | src/script/loadSystemDocs.ts:25-30 | after a read, storing every piece makes one call pair per piece, and the embedded pieces join back to the text |
| SystemDocs.LoadStoresWholeText | src/script/loadSystemDocs.ts:11-30 | a document that is read and whose every piece is stored loads successfully with one read and two calls per piece, and what it embeds joins back into the document's text |
| SystemDocs.LoadStopsAtFirstFailure | src/script/loadSystemDocs.ts:11-30 | a document that is read but whose piece k is the first not stored fails, after storing the pieces before k in order and embedding piece k, touching no later piece |
| Strings.Contains | src/api/middleware/errorHandler.ts:15 | `includes`: the pattern is a prefix of some suffix of the text (no contract of its own; `ContainsIffOccurs` relates it to an index) |
| Strings.EndsWith | src/script/loadSystemDocs.ts:13-16 | `endsWith`: the last characters of the text are the suffix (no contract of its own; the dispatch in `LoadDocument` uses it) |
| Strings.Trim | src/utils/validators.ts:29 | the trimmed text has no whitespace at either end (with `TrimIsSlice` and `TrimIdempotent` below) |
| Strings.ContainsIffOccurs | src/api/middleware/errorHandler.ts:15 | `includes` holds exactly when the pattern occurs at some index |
| Strings.RemoveAll | src/utils/validators.ts:27-28 | a global replace with the empty string never lengthens the text |
| Strings.RemoveAllLeftmost | src/utils/validators.ts:27-28 | the text in front of the leftmost occurrence is kept, that occurrence is dropped, and removal goes on after it; with `RemoveAllAbsent` this fixes the result for every text and pattern |
| Strings.RemoveAllAbsent | src/utils/validators.ts:27-28 | a pattern that does not occur leaves the text unchanged |
| Strings.RemoveFenceLeavesNoFence | src/utils/validators.ts:28 | removing every "```" leaves no "```" behind, and keeps the leading run of backticks modulo three |
| Strings.RemoveFenceRun | src/utils/validators.ts:28 | a run of n backticks becomes a run of n mod 3 backticks |
| Strings.RemoveFenceSplits | src/utils/validators.ts:28 | a character other than a backtick is kept and splits the removal: the parts on either side are cleaned independently, so every non-backtick character stays, in order |
| Strings.RemoveFenceTrailing | src/utils/validators.ts:28 | a closing "```" after text without "```" that does not end in a backtick is the only thing removed |
| Strings.TrimIdempotent | src/utils/validators.ts:29 | trimming twice is trimming once |
| Strings.TrimIsSlice | src/utils/validators.ts:29 | the trimmed text is a slice of the input with only whitespace cut at either end |
| Strings.TrimSkipsLeadingWhiteSpace | src/utils/validators.ts:29 | white space in front makes no difference to the trimmed text |
| Strings.Lower | src/api/middleware/errorHandler.ts:11 | lower-casing keeps the length and maps each character on its own |
| Strings.LowerIdempotent | src/api/middleware/errorHandler.ts:11 | lower-casing twice is lower-casing once |
| Strings.NatToStringRoundTrip | src/utils/resilienceHelper.ts:28 | the decimal rendering of a duration reads back as that duration |

The defaults `DEFAULT_STAGE_RETRIES = 3`, `DEFAULT_STAGE_BASE_DELAY_MS = 2000`
and `DEFAULT_STAGE_TIMEOUT_MS = 60000` (src/config/index.ts:48-50) are the
constants `Resilience.DefaultStageRetries`, `Resilience.DefaultStageBaseDelayMs`
and `Resilience.DefaultStageTimeoutMs`. `Resilience.RetryStageWithDefaults`
applies them.

## Left out

- Remote services are not modelled. The Firestore status update, Gemini
  embedding, the Zilliz insert, PDF text extraction and file reads are
  parameters: a `World` for the retry loop, and `Services` for the loader.
  Their outcomes are inputs, not behaviour.
- Clocks and timers are left out. The race between `fn()` and the timer is an
  input (`Race`), and so is `Math.random()` (a draw in [0, 1)). `sleep` is
  recorded as an effect with its duration. `clearTimeout` and `updatedAt`
  timestamps are not modelled.
- Resilience.RetryStage: `attempts` is an integer. A fractional count such as
  2.5 would run two attempts, sleep after the last one as well (2 < 2.5),
  skip the "failed" write and rethrow the raw last error. That path of the
  source is not modelled, and RetryStageSleeps and RetryStageExhausted
  describe integer counts only.
- Durations are natural numbers. JavaScript numbers, including negative or
  fractional delays and the 2^53 limit of `Math.pow`, are not modelled.
- Validators.AsciiView: the UTF-8 decoding of the first four bytes maps each
  non-ASCII byte to U+FFFD and does not merge multi-byte sequences. This is
  enough to decide whether the result equals "%PDF", which is all the source
  asks of it.
- Strings.Lower: lower-cases ASCII letters only. Other Unicode case mappings
  of `toLowerCase` are not modelled. Every phrase the middleware searches for
  is ASCII, but a non-ASCII character whose lower-case form is ASCII can still
  change a decision. The Kelvin sign U+212A lower-cases to "k", so "NETWOR"
  followed by it answers 503 in the source and 500 in the model. A character
  such as U+0130 lower-cases to two code units, which `ErrorHandler.MessageOf`'s
  same-length ensures does not describe.
- Strings and chunk lengths count Dafny characters, not UTF-16 code units.
  Text outside the Basic Multilingual Plane would be split differently.
- Validators.ValidateLLMJson: `JSON.parse` is a parameter returning an
  optional value. The JSON grammar is not modelled. The `console.error`
  logging is left out.
- Errors.ErrorText covers thrown `Error` values only. A thrown non-`Error`
  value, such as a string or an object without `message`, is not modelled.
- ErrorHandler.HandleError: the `timestamp` field of the body and the
  `console.error` logging are left out. `err.message` and `err.code` are
  taken to be strings or missing.
- The `main` function of the document loader is not part of this model:
  collection set-up, the fixed document list, the upload of the original file
  and saving its metadata. Only `loadDocument` is.
- Fallback behaviour is not modelled. The stage configuration has a
  `fallback` flag, but no modelled file reads it, so only the flag itself is
  covered.
- The stage configuration table is modelled as data, with lemmas about its
  contents. No caller in this model reads it.
- `sleep` is only an effect in the trace. Node's event loop and concurrent
  jobs are not modelled.
- ErrorHandler.UploadCodesAnswer400 and the two lemmas after it show that a
  file-upload code does not decide the answer on its own.
  - A message naming an earlier upload problem wins over a later code. For
    example, LIMIT_FILE_SIZE with the message "empty file" answers 400.
  - The code decides only the case at its own position.
