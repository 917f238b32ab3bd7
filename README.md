# Outside temperature fetch and status page, modelled in Dafny

This project models two parts of an ESP32 thermostat firmware.

- **The weather-API client** (`main/temperature_from_api/temperature_from_api.c`).
  - An HTTP event handler accumulates the response body in a static buffer. It has three paths: the caller's fixed `user_data` buffer, a chunked body grown by `realloc`, and a body with a Content-Length in one zeroed `calloc`.
  - On ON_FINISH it hands the body to an extractor. The extractor looks up `root."current"."temp_c"` in the parsed JSON and returns the error code -1000 on every failure.
  - A reading is published only when it is real and the body is non-empty.
  - The task's loop makes up to MAX_RETRIES requests per refresh cycle. It stops at the first request that leaves the static `temperature_from_json` off the error code.
- **The status page** (`main/webserver/webserver.c`).
  - `replace_placeholder` makes an in-place, first-occurrence substitution with `memmove`/`memcpy` in a bounded buffer.
  - `get_index_page` copies the embedded template into a response buffer. It then fills six placeholders in a fixed order.

Modules:

- `Wrappers`: `Option`.
- `CStrings`: the NUL-terminated view of a buffer (`strlen`), `strstr`, `memcpy` and `strcpy` on arrays.
- `JsonReading`: a JSON tree datatype, `cJSON_GetObjectItem` (ASCII case-insensitive, first match) and the extractor. `cJSON_Parse` is a function parameter `parse` from the body text to an optional tree.
- `AccumulatorSpec`: the handler as a pure state machine.
  - `Step` moves the state by one event and `Run` by a sequence of events.
  - Its lemmas cover each body path and the ON_FINISH publication.
- `Accumulator`: the handler as a class.
  - The class has the real `output_buffer` array, `output_len`, the static result, the published global and the reading-done bit.
  - Every method is proved to move its state exactly as `Step` does.
- `Scheduler`: one refresh cycle of `temperature_from_api_task`.
  - `Cycle` and `Retry` are the specification. `Trajectory` is the reference definition that the cycle lemmas relate them to.
  - `TemperatureTask.RunCycle` is the loop itself. It is proved equal to `Cycle`.
  - The transport is an oracle: a list of per-attempt event sequences. Sleeps, the Wi-Fi wait and the event-bit clear are recorded in a trace.
- `Webserver`: `replace_placeholder` on an array, the page it renders, and `get_index_page` with both allocation-failure paths.

Temperatures are `real`. `%.2f` formatting is a function parameter `format`. The outcome of each allocation is an input (`allocOk`, `htmlAllocOk`, `responseAllocOk`). What uninitialised memory holds is an input too (`fill`).

`global_outside_temperature` is zero-initialised (temperature_from_api.c:12), so at boot it is 0.0, not TEMPERATURE_ERROR_CODE. webserver.c:72 shows "N/A" only for the error code, so the page shows a formatted 0.00 outside temperature until the first reading. The handler's constructor states the boot values.

## Model

| member | source | states |
|---|---|---|
| CStrings.CString | main/webserver/webserver.c:27-29 | `strlen`'s view of a buffer has no NUL, is no longer than the buffer, and is strictly shorter when the buffer holds a NUL |
| CStrings.CStringPrefix | main/webserver/webserver.c:27-29 | the C string is the buffer's prefix up to the first NUL, and that NUL ends it |
| CStrings.CStringOfTerminated | main/webserver/webserver.c:33 | NUL-free text followed by a NUL reads back as that text, whatever bytes follow |
| CStrings.CStringConcat | main/webserver/webserver.c:48-49 | the C string of `a + b` stops inside `a` when `a` has a NUL, and otherwise continues into `b` |
| CStrings.CStringOfNulFree | main/webserver/webserver.c:87 | text without a NUL is its own C string |
| CStrings.Find | main/webserver/webserver.c:23 | a position that `strstr` reports is an occurrence of the needle |
| CStrings.FindFirst | main/webserver/webserver.c:23 | `strstr` reports the first occurrence, and reports none only when there is no occurrence at any position |
| CStrings.FindIsFirst | main/webserver/webserver.c:23 | every first occurrence is the one `strstr` reports |
| CStrings.OverwriteAt | main/webserver/webserver.c:34 | after a `memcpy` the bytes in the target range come from the source and every other byte keeps its value |
| CStrings.CopyInto | main/webserver/webserver.c:34 | the `memcpy` loop on an array leaves exactly the overwritten contents |
| CStrings.WrittenString | main/webserver/webserver.c:48-49 | copying NUL-free text plus a terminator to the front of a longer buffer gives a terminated buffer whose C string is that text |
| CStrings.StrCpy | main/webserver/webserver.c:87 | `strcpy` writes the source's C string and a NUL at the front, leaves the other bytes alone, and the destination reads back as the source's string |
| JsonReading.FirstMember | main/temperature_from_api/temperature_from_api.c:42 | the index found is the first member whose key matches ignoring ASCII case; none is found only when no key matches |
| JsonReading.GetObjectItem | main/temperature_from_api/temperature_from_api.c:42-45 | a value comes back exactly when the node is an object with a matching key, and it is the value of the first such member |
| JsonReading.GetTemperature | main/temperature_from_api/temperature_from_api.c:33-68 | the result is `temp_c` whenever the document carries a numeric `current.temp_c`, and otherwise it is the error code -1000 |
| JsonReading.ReadingFound | main/temperature_from_api/temperature_from_api.c:33-68 | the result differs from the error code if and only if the parse succeeded and `current.temp_c` is a number other than -1000 |
| JsonReading.FirstMatchWins | main/temperature_from_api/temperature_from_api.c:42-45 | keys match regardless of case, and the first matching `current` and `temp_c` win over later ones |
| JsonReading.FailuresGiveErrorCode | main/temperature_from_api/temperature_from_api.c:39-67 | a parse failure, a missing `current`, a missing `temp_c`, a non-numeric `temp_c` and a non-object root each give -1000 |
| JsonReading.NegativeReading | main/temperature_from_api/temperature_from_api.c:45-49 | a negative reading is returned unchanged |
| JsonReading.ErrorCodeReadingIsAFailure | main/temperature_from_api/temperature_from_api.c:28 | a genuine reading of -1000 cannot be told apart from a failure |
| JsonReading.Lower | main/temperature_from_api/temperature_from_api.c:42 | the case folding of cJSON's key compare never yields an upper-case ASCII letter, and changes only upper-case letters, each to the letter 32 code points higher |
| JsonReading.KeyMatches | main/temperature_from_api/temperature_from_api.c:42 | the ASCII case-insensitive key compare of `cJSON_GetObjectItem` accepts every key equal to the name |
| AccumulatorSpec.Fill | main/temperature_from_api/temperature_from_api.c:130 | an allocation of `n` bytes all holding one value (`calloc` zeroes) |
| AccumulatorSpec.Clip | main/temperature_from_api/temperature_from_api.c:104 | `MIN` clipping keeps a prefix of length `min(|text|, n)` |
| AccumulatorSpec.ChunkedBuffer | main/temperature_from_api/temperature_from_api.c:116-123 | the grown chunked buffer is `len + |data| + 1` bytes; it keeps the first `len` bytes, holds the chunk at `len` and a terminator after it |
| AccumulatorSpec.ChunkedBufferAsWritten | main/temperature_from_api/temperature_from_api.c:116-123 | as written, `realloc` keeps the first `len` bytes and the chunk lands at `len`, but the spare last byte of a first allocation is whatever `realloc` left there |
| AccumulatorSpec.AsWrittenAgreesBeforeSpareByte | main/temperature_from_api/temperature_from_api.c:116-142 | the buffer as written and the corrected buffer agree on everything but the spare last byte |
| AccumulatorSpec.ChunksAsWritten | main/temperature_from_api/temperature_from_api.c:116-142 | chunk after chunk as written, the buffer is always one byte longer than the data it holds |
| AccumulatorSpec.ChunksAsWrittenHold | main/temperature_from_api/temperature_from_api.c:116-142 | as written, the first `output_len` bytes are the held bytes followed by every chunk whole |
| AccumulatorSpec.ChunksAsWrittenFromNothing | main/temperature_from_api/temperature_from_api.c:112-142 | as written, from no buffer, the first `output_len` bytes are the concatenation of the chunks |
| AccumulatorSpec.ChunkedUnterminated | main/temperature_from_api/temperature_from_api.c:116-123 | as written, a one-chunk body `{}` holds no NUL anywhere in its allocation; the corrected buffer is terminated |
| AccumulatorSpec.DataStep | main/temperature_from_api/temperature_from_api.c:93-146 | HTTP_EVENT_ON_DATA keeps every allocation within bounds and never touches the static result, the published temperature or the reading-done bit |
| AccumulatorSpec.FinishStep | main/temperature_from_api/temperature_from_api.c:148-172 | ON_FINISH frees the buffer and resets the count; with a buffer it sets the static result to the extractor's value, and the global takes that value exactly when it is not -1000 and the body is non-empty, otherwise keeping its stale value; the bit becomes set exactly for such a reading and a bit already set stays set; without a buffer only the count changes |
| AccumulatorSpec.Step | main/temperature_from_api/temperature_from_api.c:75-194 | every event keeps the buffer invariant; DISCONNECTED only drops the buffer and resets the count; ERROR, ON_CONNECTED, HEADER_SENT, ON_HEADER and REDIRECT change nothing |
| AccumulatorSpec.StepStatus | main/temperature_from_api/temperature_from_api.c:112-136 | the handler returns ESP_FAIL exactly when a data event needs an allocation that fails: a failed chunked `realloc`, or a failed `calloc` when no fixed-length buffer is held; never on the `user_data` path |
| AccumulatorSpec.Run | main/temperature_from_api/temperature_from_api.c:70-197 | handling any sequence of events keeps the buffer invariant of the body path |
| AccumulatorSpec.Body | main/temperature_from_api/temperature_from_api.c:152-153 | the text handed to `cJSON_Parse` and `strlen` is the buffer up to its first NUL |
| AccumulatorSpec.IdleIsValid | main/temperature_from_api/temperature_from_api.c:72-73 | the released state satisfies the invariant of every body path |
| AccumulatorSpec.RunAppend | main/temperature_from_api/temperature_from_api.c:75 | handling two event sequences one after the other is handling their concatenation |
| AccumulatorSpec.ClosedRunIsIdle | main/temperature_from_api/temperature_from_api.c:164-171 | a response whose last event is ON_FINISH or DISCONNECTED leaves no buffer and a zero count |
| AccumulatorSpec.DatalessRunIsIdle | main/temperature_from_api/temperature_from_api.c:75-194 | a response with no ON_DATA event (an error, a redirect, an empty response) leaves an idle handler idle |
| AccumulatorSpec.ChunkedAppends | main/temperature_from_api/temperature_from_api.c:116-145 | chunked data events append every chunk whole behind what is held, keeping one terminator byte after the data |
| AccumulatorSpec.ChunkedFromIdle | main/temperature_from_api/temperature_from_api.c:112-145 | from the released state, a chunked body leaves exactly the concatenation of its chunks and a terminator, with the count equal to its length |
| AccumulatorSpec.ChunkBoundariesIrrelevant | main/temperature_from_api/temperature_from_api.c:112-145 | two splittings of one chunked body into events leave the same state |
| AccumulatorSpec.ClipAppend | main/temperature_from_api/temperature_from_api.c:138 | clipping after every append is clipping once at the end |
| AccumulatorSpec.PaddedCopy | main/temperature_from_api/temperature_from_api.c:130-143 | one clipped copy into a zero-padded buffer leaves it zero-padded behind the clipped text |
| AccumulatorSpec.FixedClips | main/temperature_from_api/temperature_from_api.c:124-145 | fixed-length data events leave the held text followed by the chunks, clipped to `content_len`, then zeros |
| AccumulatorSpec.FixedFirstCopy | main/temperature_from_api/temperature_from_api.c:128-143 | the first fixed-length event makes one zeroed allocation and copies the clipped chunk |
| AccumulatorSpec.FixedFromIdle | main/temperature_from_api/temperature_from_api.c:124-145 | from the released state, a fixed-length body leaves the concatenation clipped to `content_len` and zero-padded to `content_len + 1` bytes; bytes past the declared length are dropped and `output_len <= content_len` |
| AccumulatorSpec.UserCopy | main/temperature_from_api/temperature_from_api.c:96-109 | one `user_data` copy keeps the caller's buffer zero-padded behind the clipped text |
| AccumulatorSpec.UserBufferClips | main/temperature_from_api/temperature_from_api.c:96-109 | `user_data` events leave the body clipped to MAX_HTTP_OUTPUT_BUFFER then zeros, and `output_len <= MAX_HTTP_OUTPUT_BUFFER` |
| AccumulatorSpec.UserBufferNeverPublishes | main/temperature_from_api/temperature_from_api.c:102-109 | with `user_data` no buffer is allocated, so no event changes the static result, the global or the bit |
| AccumulatorSpec.NoFinishKeepsReading | main/temperature_from_api/temperature_from_api.c:174-193 | without an ON_FINISH the static result, the global and the bit keep their values |
| AccumulatorSpec.ChunkedPipeline | main/temperature_from_api/temperature_from_api.c:112-172 | a NUL-free chunked body, then ON_FINISH: the extractor sees exactly the concatenated chunks; the reading is published and the bit set only for a real reading of a non-empty body; the handler ends released |
| AccumulatorSpec.FixedPipeline | main/temperature_from_api/temperature_from_api.c:124-172 | a NUL-free fixed-length body, then ON_FINISH: the extractor sees the concatenated chunks clipped to `content_len`; the reading is published and the bit set only for a real reading of a non-empty body; the handler ends released |
| AccumulatorSpec.PaddedBody | main/temperature_from_api/temperature_from_api.c:130-153 | a NUL-free text, clipped and zero-padded, reads back as the clipped text |
| Accumulator.Allocate | main/temperature_from_api/temperature_from_api.c:116-130 | a fresh array of `n` bytes, all holding the given value |
| Accumulator.ChunkedWrites | main/temperature_from_api/temperature_from_api.c:116-142 | `realloc` keeping the old bytes, the `memcpy` of the chunk and the terminator together give the corrected chunked buffer |
| Accumulator.FixedData | main/temperature_from_api/temperature_from_api.c:126-145 | the fixed-length branch's allocation and clipped copy are the specified data step |
| Accumulator.HttpEventHandler.constructor | main/temperature_from_api/temperature_from_api.c:12-31 | at boot there is no buffer; the static result is -1000; the global is 0.0; the bit is clear |
| Accumulator.HttpEventHandler.ReceiveUserData | main/temperature_from_api/temperature_from_api.c:96-109 | the `user_data` path moves the object's state exactly as the specified data step |
| Accumulator.HttpEventHandler.ReceiveChunked | main/temperature_from_api/temperature_from_api.c:112-123 | the chunked path moves the state as the data step and returns ESP_FAIL exactly when the `realloc` fails |
| Accumulator.HttpEventHandler.ReceiveFixed | main/temperature_from_api/temperature_from_api.c:124-145 | the fixed-length path moves the state as the data step and returns ESP_FAIL exactly when the needed `calloc` fails |
| Accumulator.HttpEventHandler.Finish | main/temperature_from_api/temperature_from_api.c:148-172 | ON_FINISH moves the state exactly as the finish step |
| Accumulator.HttpEventHandler.Disconnect | main/temperature_from_api/temperature_from_api.c:174-189 | DISCONNECTED frees any buffer and resets `output_len`, and leaves everything else unchanged |
| Accumulator.HttpEventHandler.HandleEvent | main/temperature_from_api/temperature_from_api.c:70-197 | the handler's state after any event is `Step` of the state before, and its return value is ESP_FAIL exactly when a needed allocation fails |
| Accumulator.HttpEventHandler.Perform | main/temperature_from_api/temperature_from_api.c:222 | delivering a response's events in order leaves the state `Run` gives |
| Scheduler.FullUrl | main/temperature_from_api/temperature_from_api.c:201-202 | the URL is the API base, `current.json?key=`, the key, `&q=`, the city and `&aqi=no`, each at its stated position |
| Scheduler.FullUrlDeterminesQuery | main/temperature_from_api/temperature_from_api.c:201-202 | two URLs with keys of one length are equal only for the same key and the same city, so the request names exactly the configured key and city |
| Scheduler.ClosedAttemptEndsIdle | main/temperature_from_api/temperature_from_api.c:222 | an attempt that ends with ON_FINISH or DISCONNECTED, or delivers no body data, leaves the released handler released |
| Scheduler.AttemptRun | main/temperature_from_api/temperature_from_api.c:222 | one closed or data-less attempt from the released state ends released |
| Scheduler.HandlerPerformerModels | main/temperature_from_api/temperature_from_api.c:206-222 | the task's handler is a performer, so the cycle lemmas apply to it |
| Scheduler.Retry | main/temperature_from_api/temperature_from_api.c:220-232 | the inner loop from `retry_count` makes between `retry_count` and MAX_RETRIES attempts |
| Scheduler.Cycle | main/temperature_from_api/temperature_from_api.c:211-236 | a cycle makes 1 to MAX_RETRIES requests, starts by clearing the bit and waiting for Wi-Fi, and ends with the refresh sleep |
| Scheduler.RetryTraceShape | main/temperature_from_api/temperature_from_api.c:220-232 | the retry loop's trace alternates requests and RETRY_INTERVAL_SECS sleeps, request `i` at position `2i`; only a successful last request has no sleep after it |
| Scheduler.RetryCharacterised | main/temperature_from_api/temperature_from_api.c:220-232 | the inner loop ends in the reference state after its last attempt; all earlier attempts failed; it stops early only on a success |
| Scheduler.CycleCharacterised | main/temperature_from_api/temperature_from_api.c:211-236 | a cycle clears the bit and waits for Wi-Fi first, makes 1 to MAX_RETRIES attempts, stops after the first success, sleeps after every failed attempt including the tenth, and ends with the refresh sleep |
| Scheduler.FailuresThenSuccess | main/temperature_from_api/temperature_from_api.c:220-236 | `n` failures then a success (`n < MAX_RETRIES`) give exactly `n + 1` requests and `n` retry sleeps, and the cycle ends in the state the success left |
| Scheduler.StopsAtFirstSuccess | main/temperature_from_api/temperature_from_api.c:224-228 | a cycle that stops only at a success stops at the first success, with the trace of that many requests |
| Scheduler.Exhaustion | main/temperature_from_api/temperature_from_api.c:220-236 | when every attempt fails the cycle gives exactly MAX_RETRIES requests, each followed by a retry sleep |
| Scheduler.StaleResultStopsRetries | main/temperature_from_api/temperature_from_api.c:224 | once one reading was taken, a later cycle whose first request has no ON_FINISH (a transport error, for one) stops after that request, publishes nothing and leaves the bit clear |
| Scheduler.TemperatureTask.constructor | main/temperature_from_api/temperature_from_api.c:199-202 | the task builds `full_url` from the configured key and city, and starts with `retry_count` 0, an empty trace and a released handler |
| Scheduler.TemperatureTask.RunCycle | main/temperature_from_api/temperature_from_api.c:211-236 | one iteration of the task loop leaves the handler state and the trace that `Cycle` gives, resets `retry_count` to 0 and leaves the handler released |
| Scheduler.TemperatureTask.RetryLoop | main/temperature_from_api/temperature_from_api.c:220-232 | the inner loop leaves the handler state and the trace that `Retry` gives from `retry_count` 0, and the handler released |
| Scheduler.TemperatureTask.PerformAttempt | main/temperature_from_api/temperature_from_api.c:222 | one `esp_http_client_perform` moves the handler as `perform` does and leaves it released |
| Webserver.Placement | main/webserver/webserver.c:23-31 | the splice position is the first occurrence of the placeholder when the result fits strictly inside the buffer; otherwise there is none |
| Webserver.Substitute | main/webserver/webserver.c:21-37 | `replace_placeholder` on the string either leaves it as it is or gives a string strictly shorter than the buffer |
| Webserver.SubstituteAt | main/webserver/webserver.c:26-34 | where a splice happens the new string is before, replacement, after |
| Webserver.SubstituteAbsent | main/webserver/webserver.c:23-24 | a string without the placeholder is left unchanged |
| Webserver.SubstituteFirst | main/webserver/webserver.c:23-34 | when the result fits, only the first occurrence is replaced, giving before ++ replacement ++ after |
| Webserver.SubstituteTooLong | main/webserver/webserver.c:31 | a result of `buffer_size` characters or more leaves the string unchanged |
| Webserver.SubstituteKeepsBounds | main/webserver/webserver.c:31-34 | the result is still shorter than the buffer and NUL-free, and the bytes before the placeholder are unchanged |
| Webserver.SpliceNulFree | main/webserver/webserver.c:34 | splicing NUL-free text into a NUL-free string leaves it NUL-free |
| Webserver.PlannedEdit | main/webserver/webserver.c:26-33 | the moved tail with its terminator stays within the buffer, both at its old place and at its new one |
| Webserver.EditedBuffer | main/webserver/webserver.c:21-37 | `replace_placeholder` works in place: the buffer keeps its size |
| Webserver.MoveThenCopy | main/webserver/webserver.c:33-34 | the `memmove` then `memcpy` lay out the bytes before the position, the replacement, the moved bytes and the untouched rest |
| Webserver.SplicedString | main/webserver/webserver.c:33 | after the splice the buffer is still terminated, because the `+1` carries the NUL, and it holds the spliced string |
| Webserver.EditedBufferHoldsSubstitute | main/webserver/webserver.c:21-37 | the edited buffer is terminated and holds exactly the substituted string |
| Webserver.Splice | main/webserver/webserver.c:33-34 | the two copies on the array give the specified splice |
| Webserver.ReplacePlaceholder | main/webserver/webserver.c:21-37 | the array becomes the edited buffer; for a NUL-free replacement it is still terminated and holds the substituted string |
| Webserver.TemperatureString | main/webserver/webserver.c:61-79 | the text is "N/A" exactly when the value is the error code, and otherwise the formatted value followed by the degree sign and `C` |
| Webserver.Digits | main/webserver/webserver.c:83-85 | `%d` gives decimal digits with no leading zero |
| Webserver.DigitsRoundTrip | main/webserver/webserver.c:83-85 | the digits read back as the number |
| Webserver.DecimalString | main/webserver/webserver.c:83-85 | `%d` writes a non-empty text that starts with a minus sign exactly for a negative number |
| Webserver.DecimalRoundTrip | main/webserver/webserver.c:83-85 | `%d` of any integer, with its sign, reads back as that integer |
| Webserver.FillPage | main/webserver/webserver.c:89-94 | the six substitutions leave the string as it is or give one strictly shorter than the response buffer |
| Webserver.RenderedPage | main/webserver/webserver.c:87-94 | the page sent is shorter than the response buffer `index_html_size + 500 + LOG_BUFFER_SIZE` |
| Webserver.DecimalBraceFree | main/webserver/webserver.c:83-85 | `%d` writes no opening brace, so it cannot create a placeholder |
| Webserver.BraceFreeHoldsNone | main/webserver/webserver.c:23 | text without an opening brace holds none of the placeholders |
| Webserver.OnlyLightLevelOpens | main/webserver/webserver.c:89-90 | in a template whose only brace opens `{LIGHT_LEVEL}`, `{INSIDE_TEMPERATURE}` and `{OUTSIDE_TEMPERATURE}` do not occur |
| Webserver.LightLevelFirstAfter | main/webserver/webserver.c:23 | in such a template the first `{LIGHT_LEVEL}` is the one after the brace-free text before it |
| Webserver.LightLevelReplaced | main/webserver/webserver.c:91 | the third substitution puts the light level text in place of that `{LIGHT_LEVEL}` |
| Webserver.FilledWithoutBraces | main/webserver/webserver.c:92-94 | brace-free text comes through the last three substitutions unchanged |
| Webserver.FillPageSteps | main/webserver/webserver.c:89-94 | the six substitutions compose in their order |
| Webserver.RenderedThroughLightLevel | main/webserver/webserver.c:87-94 | a template the two temperatures leave alone and the light level turns into brace-free text is sent as that text |
| Webserver.LightLevelShownOneBased | main/webserver/webserver.c:83-94 | a template whose only brace opens one `{LIGHT_LEVEL}` is sent with `global_light_level_index + 1` in its place whenever the page fits the response buffer |
| Webserver.RenderedPageFits | main/webserver/webserver.c:52-94 | the rendered page is NUL-free and shorter than `index_html_size + 500 + LOG_BUFFER_SIZE` |
| Webserver.NoPlaceholdersVerbatim | main/webserver/webserver.c:87-94 | a template without any of the six placeholders is sent verbatim |
| Webserver.FillPlaceholders | main/webserver/webserver.c:89-94 | the six substitutions on the response buffer, in the order INSIDE, OUTSIDE, LIGHT_LEVEL, LIGHT_LEVELS_AMOUNT, FIRMWARE_VERSION, LOGS, leave it terminated and holding the filled page |
| Webserver.GetIndexPage | main/webserver/webserver.c:39-102 | the handler answers ESP_ERR_NO_MEM exactly when one of its two allocations fails, and otherwise sends the template's string with the six placeholders filled |

## Left out

- The transport: `esp_http_client_init`, `esp_http_client_perform` and `esp_http_client_cleanup`, TLS with the pinned certificate, and `esp_tls_get_and_clear_last_error`. An attempt is an oracle-supplied event sequence, its body encoding, and what fresh `realloc` memory holds.
- Attempts that deliver body data but end without ON_FINISH or DISCONNECTED. The cycle lemmas assume every attempt either ends with one of them or delivers no ON_DATA event (`Oracle`), because the handler's statics would otherwise carry a half-filled buffer into the next request.
- A negative `esp_http_client_get_content_length` (no Content-Length header). The declared length is a `nat`.
- Scheduler.FullUrl: the 256-byte `full_url` bound is not modelled. `sprintf` does not check it, so a URL of 256 characters or more overflows the stack buffer. The model's URL is the plain concatenation, which is exact when the key and the city are short enough. The request itself is not modelled, so the URL is not passed to the transport.
- FreeRTOS: `vTaskDelay`, and waiting on, setting and clearing event-group bits. They become trace entries and a reading-done flag. The task's endless `while (true)` is modelled as one cycle.
- Floating point. `valuedouble` narrowed to `float` is not modelled. Temperatures are exact `real` values.
- Webserver.TemperatureString: the `%.2f` rendering is the parameter `format`, so the text is not shown to fit `char[20]`.
- Webserver.DecimalString: the `%d` of a C `int` is modelled on unbounded integers. The overflow of `global_light_level_index + 1` and the `char[20]` buffer are not modelled.
- Webserver.LightLevelShownOneBased: it requires the light level text to fit the response buffer's slack. With a 32-bit `int` it always does, but the model's integers are unbounded.
- Memory management: `free`, and the missing `cJSON_Delete` on the success path. Heap ownership is not modelled beyond the buffer becoming NULL.
- Reads past the end of the allocation in the chunked path as written (`strlen`/`cJSON_Parse` with no terminator). They are shown under Findings; the model continues with the terminated buffer.
- AccumulatorSpec.DataStep: its chunked branch models the corrected spare byte, writing the NUL that temperature_from_api.c:116-142 leaves out. The code as written is `ChunkedBufferAsWritten` and `ChunksAsWritten`.
- Accumulator.HttpEventHandler.ReceiveChunked: it models the corrected spare byte. It writes the terminator after the copied chunk, which the source does not.
- AccumulatorSpec.ChunkedAppends: it models the corrected spare byte. The terminator after the data is the correction; `ChunksAsWrittenHold` states the data bytes for the code as written.
- AccumulatorSpec.ChunkedFromIdle: it models the corrected spare byte. `ChunksAsWrittenFromNothing` states the data bytes for the code as written.
- AccumulatorSpec.ChunkedPipeline: it models the corrected spare byte. As written, the extractor reads past the allocation (see Findings).
- The result of `httpd_resp_send`. `GetIndexPage` returns the page it sends.
- `LOG_BUFFER_SIZE` and `LIGHT_LEVELS_AMOUNT` come from other headers, so they are parameters. The embedded `index.html` is the `template` parameter.
- The other webserver handlers: `get_favicon`, `download_logs_file`, `start_webserver` and `webserver_task`. They are SPIFFS file I/O, handler registration and task waits.
- Logging through `ESP_LOG*`.

## Findings

| source | as written | input that shows it | evidently intended | confidence | as-written member | corrected member |
|---|---|---|---|---|---|---|
| main/temperature_from_api/temperature_from_api.c:116-123 | the chunked branch reallocates `output_len + data_len + 1` bytes but never writes the terminator into the spare byte; ON_FINISH then passes the buffer to `cJSON_Parse` and `strlen`, which read until they find a NUL | a chunked body delivered as the single chunk `{}` into fresh memory that holds no zero byte: the 3-byte allocation contains no NUL | the spare byte receives `'\0'` after each copy, as the fixed-length path gets from `calloc` | not executed | AccumulatorSpec.ChunkedUnterminated | AccumulatorSpec.ChunkedBuffer |
