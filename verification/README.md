# Request/response logging filter — a Dafny model

This project models the core of a servlet filter that logs every HTTP request
it sees. For each request the filter writes a text snapshot: the client
address, the method, the URL, the query parameters and the headers. For JSON
requests it adds the body, and for multipart requests it adds a marker. It
then calls the downstream filter chain once, logging and rethrowing anything
the chain throws. Either way it ends with one log step: a record with the
timing and the captured response, or, when reading the captured response
fails, a logged error in place of the record.

Two source classes are modelled:

- `RequestResponseInfoLogFilter`: configuration at `init`, the
  response-logging decision, the content-type dispatch, the
  try/catch/finally around the chain, and the string-building of the snapshot.
- `AlwaysReadableRequest`: the request wrapper. It drains the body once into
  an immutable byte sequence. Every `getInputStream()` then returns a fresh
  cursor over those bytes.

Modules, one per component:

| file | module | models |
|---|---|---|
| wrappers.dfy | `Wrappers` | `Option` (Java `null`) and `Result` (a call that may throw) |
| text.dfy | `Text` | join/concat, `String.split` on one character, ASCII `equalsIgnoreCase`, `StringUtils.startsWith` |
| servlet.dfy | `Servlet` | the servlet values the filter reads: request, parameters, headers, body source, filter config |
| line_reader.dfy | `LineReader` | decoding the buffered body and `BufferedReader.readLine` |
| readable_request.dfy | `ReadableRequests` | `AlwaysReadableRequest` and the stream returned by `getInputStream` (a class with a cursor) |
| whitelist.dfy | `Whitelist` | the `whitePatterns` set built at `init`, and `isInWhite` |
| snapshot.dfy | `Snapshot` | `collectBaseInfo`, `collectParam`, `getStringFromStringArray(Encoded)`, `collectHeader`, `collectJsonParam` |
| log_filter.dfy | `LogFilter` | `init`, `logResponse`, `doFilter`, `filterAndLog`, `doLog` |

The chain, the clock, the URL encoder, the regular-expression engine and the
response wrapper's captured content are inputs. `DoFilter` returns the trace
of what the filter did: the chain invocation (with the request and response
it was given), the logged chain failure, and the log step. It also returns
how the call ended: completed, the chain's throwable rethrown, or aborted
before the chain was called.

Behaviour of the code as written that the model keeps:

- Response logging is unconditional. `logResponse` returns `true || …`, so
  the `logResp` flag and the whitelist are never consulted. The response is
  always wrapped, and `doLog` never takes its branch without a response. The
  class comment (lines 41-43) describes `logResp` as defaulting to false and
  the whitelist as selecting which responses are logged. The model follows
  the code, and `LogResponse` states the always-true result.
- `logResponse` reads `filterConfig.getInitParameter("logResp")` before it
  evaluates that expression. With no configuration it therefore throws
  `NullPointerException`, and `doFilter` then ends before the chain is
  called. The model keeps this as `Aborted(NullPointerException)`.
- A JSON body whose original stream throws while being copied makes
  `doFilter` end with that `IOException` before the chain is called.

## Model

| member | source | states |
|---|---|---|
| `Whitelist.Entries` | src/main/java/com/air/RequestResponseInfoLogFilter.java:69 | `split(";")`: the entries are the `;`-separated pieces of the text in order, with only empty pieces dropped and only at the end; no entry contains `;`, and the last entry is never empty |
| `Text.JoinSplitAll` | src/main/java/com/air/RequestResponseInfoLogFilter.java:69 | splitting at every delimiter, trailing empty pieces kept (`SplitAll`, unlike `split`), and re-joining with the delimiter gives back the string |
| `Whitelist.InitWhitelist` | src/main/java/com/air/RequestResponseInfoLogFilter.java:65-81 | a missing or empty parameter gives the empty set; otherwise a pattern is in the set iff it is a split entry that compiles |
| `Whitelist.BadEntryDropped` | src/main/java/com/air/RequestResponseInfoLogFilter.java:72-80 | an entry that fails to compile is dropped: `bad;rest` gives the same set as `rest` alone |
| `LogFilter.Init` | src/main/java/com/air/RequestResponseInfoLogFilter.java:61-82 | the configuration is kept; with no configuration, or no `whitePatterns`, the set stays empty; otherwise it holds exactly the entries that compile |
| `Whitelist.AnyMatch` | src/main/java/com/air/RequestResponseInfoLogFilter.java:99-114 | taking the patterns one at a time in any order gives the same answer as `IsInWhite`: false for an empty set, else whether some pattern fully matches the URI |
| `Whitelist.ThrowingPatternIgnored` | src/main/java/com/air/RequestResponseInfoLogFilter.java:105-113 | a pattern whose match throws can be removed without changing the answer, so it counts as no match |
| `LogFilter.LogResponse` | src/main/java/com/air/RequestResponseInfoLogFilter.java:89-92 | with a configuration the answer is `true`, whatever `logResp` and the whitelist hold; without one, `NullPointerException` |
| `LogFilter.DoFilter` | src/main/java/com/air/RequestResponseInfoLogFilter.java:117-150 | the content-type dispatch. The response is always wrapped. A JSON request sends the buffered body downstream and logs the body without line terminators. A multipart request logs only the marker, and any other request logs no body; both send the original request. The chain is invoked exactly once and first, and the log step runs exactly once and last. A chain throwable is logged right after the invocation and rethrown unchanged; when the chain returns, nothing is logged between the invocation and the log step. The record holds the snapshot, the cost and the captured response. A missing configuration or an unreadable JSON body aborts before the chain is called |
| `LogFilter.FilterAndLog` | src/main/java/com/air/RequestResponseInfoLogFilter.java:152-163 | one chain invocation, first; if the chain throws, the next step logs that throwable and the call rethrows it as is; if it returns, no failure is logged and the call completes; `doLog` runs once, last, either way |
| `LogFilter.DoLog` | src/main/java/com/air/RequestResponseInfoLogFilter.java:202-221 | exactly one log step: without response logging, a record with no response. With it, a record carrying the captured content, or, if reading that content fails, a logged error and never a throw |
| `LogFilter.LongSub` | src/main/java/com/air/RequestResponseInfoLogFilter.java:204-205 | the cost is `end - start` modulo 2^64. It equals `end - start` whenever that fits in a long, in particular for non-negative clock readings |
| `Snapshot.ArrayToString` | src/main/java/com/air/RequestResponseInfoLogFilter.java:283-292 | null or empty gives `""`, one element gives that element, two or more give `[` + the elements joined by `, ` + `]` |
| `Snapshot.EncodedValue` | src/main/java/com/air/RequestResponseInfoLogFilter.java:272-280 | the encoder's output, or the raw text when the encoder throws |
| `Snapshot.ArrayToStringSplitsBack` | src/main/java/com/air/RequestResponseInfoLogFilter.java:283-292 | for two or more values without `,`, splitting the bracketed text's inside on `,` gives back the first value and each later value after one space |
| `Snapshot.ArrayToStringAmbiguous` | src/main/java/com/air/RequestResponseInfoLogFilter.java:283-292 | the single value `[1, 2]` and the two values `1`, `2` render identically |
| `Snapshot.MultiValuedParamExample` | src/main/java/com/air/RequestResponseInfoLogFilter.java:250-292 | the parameter `a` with values `1`, `2` is rendered `[1, 2]`, encoded, after `a=` |
| `Snapshot.CollectParam` | src/main/java/com/air/RequestResponseInfoLogFilter.java:250-270 | the loop's text is the `name=value` entries joined by `&`, then one separator; no parameters give the separator alone |
| `Snapshot.QuerySplitsBack` | src/main/java/com/air/RequestResponseInfoLogFilter.java:255-268 | when no entry contains `&`, splitting the query on `&` gives back exactly the entries in order, so there is no leading or trailing `&` |
| `Snapshot.Kept` | src/main/java/com/air/RequestResponseInfoLogFilter.java:230-234 | a header is logged iff its name is not `content-length` in any letter case |
| `Snapshot.KeptSnoc` | src/main/java/com/air/RequestResponseInfoLogFilter.java:229-240 | headers are kept in enumeration order: a further header adds itself, or nothing if it is `content-length` |
| `Snapshot.CollectHeader` | src/main/java/com/air/RequestResponseInfoLogFilter.java:228-242 | the loop's text is one `name: value` line per kept header in order, then one extra separator |
| `Snapshot.ContentLengthAnyCase` | src/main/java/com/air/RequestResponseInfoLogFilter.java:232 | `Content-Length` and `CONTENT-LENGTH` are skipped; `Content-Type` is not |
| `Snapshot.HeaderBlockExample` | src/main/java/com/air/RequestResponseInfoLogFilter.java:228-242 | `X-Trace: abc` and `Content-Length: 0` give the line `X-Trace: abc` and the closing separator |
| `Snapshot.CollectBaseInfo` | src/main/java/com/air/RequestResponseInfoLogFilter.java:165-181 | the snapshot is, in order: separator, `ip: ` address, separator, method, space, URL, `?`, query, separator, header block |
| `Snapshot.AppendLines` | src/main/java/com/air/RequestResponseInfoLogFilter.java:186-189 | appending every `readLine` result until null gives the text with all `\n` and `\r` removed |
| `Snapshot.CollectJsonParam` | src/main/java/com/air/RequestResponseInfoLogFilter.java:183-194 | the logged body is the concatenation of the reader's lines, that is the body text without line terminators, followed by one separator |
| `LineReader.TakeLine` | src/main/java/com/air/AlwaysReadableRequest.java:32-34 | `readLine` splits the text into a line without terminators, one line ending (`\n`, `\r`, `\r\n`, or the end of the text), and the rest. A lone `\r` is never followed by `\n` |
| `LineReader.ConcatLines` | src/main/java/com/air/RequestResponseInfoLogFilter.java:185-190 | concatenating every line `readLine` returns gives the text with its line terminators removed |
| `LineReader.Decode` | src/main/java/com/air/AlwaysReadableRequest.java:33 | one character per byte, with the byte's value: `InputStreamReader`'s UTF-8 decoding for ASCII bodies (weaker for bytes ≥ 0x80, see Left out) |
| `ReadableRequests.Capture` | src/main/java/com/air/AlwaysReadableRequest.java:24-29 | construction succeeds iff the original stream can be read to its end, and the body is then exactly the bytes it delivered; otherwise the `IOException` propagates |
| `ReadableRequests.GetInputStream` | src/main/java/com/air/AlwaysReadableRequest.java:37-41 | each call returns a new stream over the body, at position 0 |
| `ReadableRequests.DrainStream` | src/main/java/com/air/AlwaysReadableRequest.java:58-61 | reading until `-1` yields exactly the unread bytes in order and leaves the stream finished, so further reads return `-1` |
| `ReadableRequests.InterleavedReads` | src/main/java/com/air/AlwaysReadableRequest.java:37-39 | two streams from two calls are independent: after `k` bytes from the first, the second still yields the whole body, and the first then yields the rest |
| `ReadableRequests.BodyInputStream.IsFinished` | src/main/java/com/air/AlwaysReadableRequest.java:43-46 | `isFinished()` is true iff the cursor has consumed the whole body (nothing is `available()`) |
| `ReadableRequests.BodyInputStream.IsReady` | src/main/java/com/air/AlwaysReadableRequest.java:48-51 | `isReady()` is always false |
| `ReadableRequests.BodyInputStream.SetReadListener` | src/main/java/com/air/AlwaysReadableRequest.java:53-56 | `setReadListener` does nothing: it modifies neither the cursor nor the body |
| `ReadableRequests.BodyInputStream.Read` | src/main/java/com/air/AlwaysReadableRequest.java:58-61 | `read()` returns the next byte and advances by one, or `-1` without moving once the body is used up |
| `ReadableRequests.FreshStreamStatus` | src/main/java/com/air/AlwaysReadableRequest.java:43-51 | a fresh stream is finished iff the body is empty, and `isReady()` is false |
| `ReadableRequests.GetReader` | src/main/java/com/air/AlwaysReadableRequest.java:31-34 | the reader decodes a fresh stream, so it sees the whole body and leaves it readable again |

## Left out

- Regular expressions: compiling and full matching are inputs (`Compiler`, `Matcher`). The Java regex language is not modelled.
- Pattern identity: `Pattern` does not override `equals`, so the Java set can hold two patterns with the same source. The model identifies a pattern by its source. This does not change any `isInWhite` answer.
- `parallel()`/`parallelStream()`: these are evaluated sequentially. The result is a set, or an any-match, and does not depend on order (`AnyMatch` holds for every order).
- `URLEncoder.encode` with the platform charset is an input (`Encoder`), because its output depends on the platform.
- LineReader.Decode: maps each byte to the character with the same value (Latin-1) rather than UTF-8 decoding as `InputStreamReader` does, so it is exact only for ASCII bodies; multi-byte sequences and malformed input are not modelled. The line-terminator positions agree with UTF-8 all the same, because UTF-8 never puts a byte `\n` or `\r` inside a multi-byte sequence. `CollectJsonParam`, `GetReader` and `DoFilter` inherit this through `Decode`.
- `equalsIgnoreCase` and `Boolean.parseBoolean` compare with ASCII case folding. That is exact for `content-length` and `true`: none of their letters has a non-ASCII upper- or lower-case partner.
- `System.lineSeparator()` is fixed to `"\n"`. `System.currentTimeMillis()` readings are inputs.
- The SLF4J message text is not modelled: placeholders, ANSI colour codes and the error and debug messages of `LOGGER`. The log record is kept as its fields (`LogRecord`).
- `WrappedHttpServletResponse` is not part of this model. Only its call sites are modelled: the response is wrapped or not, and `getReponseContent` returns the content or throws (an input `Result`).
- The filter chain and the servlet container: the chain's behaviour is an input outcome (returns, or throws a given throwable).
- `collectBaseInfo`'s catch-all: nothing the model reads can throw there, so the partial-snapshot path is not modelled. Null method, address or header values (which `StringBuilder` would print as `null`) are not modelled either.
- `getStringFromStringArray` with null elements inside the array (printed `null` by `Arrays.toString`) is not modelled. Parameter arrays from the container hold no nulls.
- `HttpServletRequestWrapper` delegation: the buffered request is modelled by its body only. Its other accessors return the original request's values.
- `IOUtils.copy` reads in blocks. The model reads one byte at a time, with the same result and the same failure behaviour.
- `init` is modelled as running once on a freshly constructed filter. `destroy()` does nothing and is not modelled.
