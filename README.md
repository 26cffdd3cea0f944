# ContentCachingResponseWrapper in Dafny

A model of Spring's `ContentCachingResponseWrapper` (package `org.springframework.web.util`), an
HTTP response decorator. Every body byte a handler writes, through the output stream or through
the writer, goes into one in-memory buffer instead of the real response. The wrapper remembers the
last status code set. It moves the buffer to the real ("raw") response only through
`copyBodyToResponse`. Calls that may commit the raw response (`sendError`, `sendRedirect`) run that
flush before they are forwarded.

The project has two layers.

- **Objects** (`content_caching.dfy`, module `ContentCaching`): the wrapper class with its fields
  `statusCode` and `writer`, its buffer `content`, and the two inner classes
  `ResponseServletOutputStream` and `ResponsePrintWriter`. Each method updates these in place.
  The raw response (`servlet.dfy`, module `Servlet`) is an object that records every call the
  wrapper forwards to it in an ordered event log. It also records the bytes written to its output stream and
  whether it is committed.
- **State machine** (`caching_model.dfy`, module `CachingModel`): the same wrapper as a value
  `State`. There is one `Op` per public call, and `Apply` gives each call's effect or the exception
  it throws. The wrapper's methods `SetStatus`, `SetStatusWithMessage`, `SendError`,
  `SendErrorWithMessage`, `SendRedirect`, `GetWriter`, `SetContentLength`,
  `SetContentLengthLong`, `SetBufferSize`, `ResetBuffer` and `Reset` are proved to do exactly
  what `Apply` says for their call, and `CopyBodyToResponse` exactly what `Flushed` says. The
  output stream's and the writer's write methods are proved to append exactly the bytes `Payload`
  gives for their call, or to throw what it throws. The getters are proved to return the
  matching part of the state.
  `caching_properties.dfy` (module `CachingProperties`) proves the wrapper's promises about `Apply`
  and about `Run`, which applies a sequence of calls in order.

`java.dfy` holds Java's `int`/`long` ranges and the narrowing casts the code relies on.
`wrappers.dfy` holds `Option`, `Result` and `Outcome`. `scenarios.dfy` holds callers that check
the class contracts on concrete call sequences, such as "ABC" followed by a redirect.

Two pieces of library code are not visible to this model: the charset conversion of the writer
and the buffer's `resize`. Both are function values in a `Library` record that the wrapper is
given when it is constructed. The model states no property of either one.

Modelling decisions:

- The writer's encoding is the response's encoding whenever the response reports one. The code
  tests for `null`, not for an empty string, and the model follows the code.
- `WebUtils` is not part of this model. Its `DEFAULT_CHARACTER_ENCODING` is taken to be
  `"ISO-8859-1"`.
- A call that throws changes nothing in `Run`. The calls that throw are `setContentLengthLong`
  above `Integer.MAX_VALUE` and an out-of-range array or string write.
- `NoWriter` has no counterpart in the source. In Java a writer method can only be called on the
  object that `getWriter` returned. The exception exists only so that every `Op` has an outcome,
  including a character write in a sequence that never called `getWriter`.

## Model

| member | source | states |
|---|---|---|
| `ContentCaching.ContentCachingResponseWrapper.constructor` | spring-web/src/main/java/org/springframework/web/util/ContentCachingResponseWrapper.java:42-57 | a new wrapper has an empty cache, status 200 (SC_OK), no writer, and a stream that writes into its own buffer |
| `ContentCaching.ContentCachingResponseWrapper.SetStatus` | spring-web/src/main/java/org/springframework/web/util/ContentCachingResponseWrapper.java:60-64 | forwards the status to the raw response and records it; the cache is not flushed |
| `ContentCaching.ContentCachingResponseWrapper.SetStatusWithMessage` | spring-web/src/main/java/org/springframework/web/util/ContentCachingResponseWrapper.java:66-71 | the same as `SetStatus`, and the message is forwarded too |
| `ContentCaching.ContentCachingResponseWrapper.SendError` | spring-web/src/main/java/org/springframework/web/util/ContentCachingResponseWrapper.java:73-78 | the cache is flushed first, the error event comes right after the flushed events, then the code is recorded and the cache is empty |
| `ContentCaching.ContentCachingResponseWrapper.SendErrorWithMessage` | spring-web/src/main/java/org/springframework/web/util/ContentCachingResponseWrapper.java:80-85 | the same as `SendError`, and the message is forwarded too |
| `ContentCaching.ContentCachingResponseWrapper.SendRedirect` | spring-web/src/main/java/org/springframework/web/util/ContentCachingResponseWrapper.java:87-91 | the cache is flushed, then the redirect follows the flushed events; the status code is unchanged |
| `ContentCaching.ContentCachingResponseWrapper.GetOutputStream` | spring-web/src/main/java/org/springframework/web/util/ContentCachingResponseWrapper.java:93-96 | always returns the same stream, which writes into this wrapper's buffer |
| `ContentCaching.ContentCachingResponseWrapper.GetWriter` | spring-web/src/main/java/org/springframework/web/util/ContentCachingResponseWrapper.java:98-106 | the first call creates a fresh writer in the response's encoding, or the default when the response has none; later calls return that same object |
| `ContentCaching.ContentCachingResponseWrapper.SetContentLength` | spring-web/src/main/java/org/springframework/web/util/ContentCachingResponseWrapper.java:108-111 | only resizes the buffer; status, writer and raw response are untouched |
| `ContentCaching.ContentCachingResponseWrapper.SetContentLengthLong` | spring-web/src/main/java/org/springframework/web/util/ContentCachingResponseWrapper.java:113-120 | fails with IllegalArgument exactly when the length is above 2147483647 and then changes nothing; otherwise resizes the buffer to the length cast to int |
| `ContentCaching.ContentCachingResponseWrapper.SetBufferSize` | spring-web/src/main/java/org/springframework/web/util/ContentCachingResponseWrapper.java:122-125 | only resizes the buffer |
| `ContentCaching.ContentCachingResponseWrapper.ResetBuffer` | spring-web/src/main/java/org/springframework/web/util/ContentCachingResponseWrapper.java:127-130 | empties the cache and changes nothing else |
| `ContentCaching.ContentCachingResponseWrapper.Reset` | spring-web/src/main/java/org/springframework/web/util/ContentCachingResponseWrapper.java:132-136 | forwards a reset to the raw response and empties the cache; the status and the writer stay |
| `ContentCaching.ContentCachingResponseWrapper.GetStatusCode` | spring-web/src/main/java/org/springframework/web/util/ContentCachingResponseWrapper.java:138-143 | answers the recorded status code |
| `ContentCaching.ContentCachingResponseWrapper.GetContentAsByteArray` | spring-web/src/main/java/org/springframework/web/util/ContentCachingResponseWrapper.java:145-150 | returns a snapshot equal to the cached bytes |
| `ContentCaching.ContentCachingResponseWrapper.CopyBodyToResponse` | spring-web/src/main/java/org/springframework/web/util/ContentCachingResponseWrapper.java:152-161 | an empty cache leaves the raw response untouched; otherwise it sets the content length to the cache size only if the response is uncommitted, hands all cached bytes to it in one `writeTo` call, and empties the cache |
| `ContentCaching.ContentCachingResponseWrapper.GetContentSize` | spring-web/src/main/java/org/springframework/web/util/ContentCachingResponseWrapper.java:163-165 | answers the number of cached bytes, which is the length of `GetContentAsByteArray`'s snapshot |
| `ContentCaching.ResponseServletOutputStream.Write` | spring-web/src/main/java/org/springframework/web/util/ContentCachingResponseWrapper.java:173-176 | appends exactly one byte to the cache (the low byte of the argument) and touches nothing else |
| `ContentCaching.ResponseServletOutputStream.WriteRange` | spring-web/src/main/java/org/springframework/web/util/ContentCachingResponseWrapper.java:178-181 | appends exactly `b[off..off+len]` in order, or fails with IndexOutOfBounds for a bad range and appends nothing |
| `ContentCaching.ResponsePrintWriter.constructor` | spring-web/src/main/java/org/springframework/web/util/ContentCachingResponseWrapper.java:185-189 | the writer is bound to the wrapper's buffer and to one encoding for its whole lifetime |
| `ContentCaching.ResponsePrintWriter.WriteCharArray` | spring-web/src/main/java/org/springframework/web/util/ContentCachingResponseWrapper.java:191-195 | before it returns, the bytes that `encode` gives for `buf[off..off+len]` are in the cache; a bad range fails and appends nothing |
| `ContentCaching.ResponsePrintWriter.WriteString` | spring-web/src/main/java/org/springframework/web/util/ContentCachingResponseWrapper.java:197-201 | the same as `WriteCharArray`: the bytes `encode` gives for `s[off..off+len]` are in the cache before it returns |
| `ContentCaching.ResponsePrintWriter.WriteChar` | spring-web/src/main/java/org/springframework/web/util/ContentCachingResponseWrapper.java:203-207 | before it returns, the bytes `encode` gives for the one character are in the cache |
| `Java.ToInt32` | spring-web/src/main/java/org/springframework/web/util/ContentCachingResponseWrapper.java:119 | the `(int)` cast is the identity on int-sized values and otherwise agrees with the long modulo 2^32 |
| `Java.LowByte` | spring-web/src/main/java/org/springframework/web/util/ContentCachingResponseWrapper.java:174-175 | the byte stored for `write(int)` agrees with the argument modulo 256 and equals it when it is in 0..255 |
| `CachingModel.Payload` | spring-web/src/main/java/org/springframework/web/util/ContentCachingResponseWrapper.java:173-207 | a byte write yields its one byte; a byte range write succeeds exactly for an in-range pair and yields the chosen bytes in order, and otherwise throws IndexOutOfBounds; a character write with a writer yields what `encode` gives for the chosen characters in the writer's encoding, or throws IndexOutOfBounds exactly for a bad range; a character write without a writer fails |
| `CachingModel.FlushEvents` | spring-web/src/main/java/org/springframework/web/util/ContentCachingResponseWrapper.java:153-158 | no event for an empty cache; otherwise exactly two events for an uncommitted response, a content length equal to the cache size followed by one write of the whole cache, and for a committed one only that write |
| `CachingModel.Flushed` | spring-web/src/main/java/org/springframework/web/util/ContentCachingResponseWrapper.java:152-161 | after a flush the cache is empty and no byte is lost or duplicated (body followed by cache is the same); an empty cache makes it the identity; status and writer are kept |
| `CachingModel.WithWriter` | spring-web/src/main/java/org/springframework/web/util/ContentCachingResponseWrapper.java:99-105 | a writer always exists afterwards; an existing writer is never re-resolved |
| `CachingModel.Apply` | spring-web/src/main/java/org/springframework/web/util/ContentCachingResponseWrapper.java:60-207 | one case per call: the new fields and raw response, or the exception thrown; a call throws exactly for `setContentLengthLong` above Integer.MAX_VALUE or a write whose bytes cannot be produced; a successful call only appends to the raw response, and only setStatus and sendError change the status code |
| `CachingModel.Next` | spring-web/src/main/java/org/springframework/web/util/ContentCachingResponseWrapper.java:60-207 | the state after one call; a throwing call changes nothing, and the raw response's body and log are only appended to |
| `CachingModel.Run` | spring-web/src/main/java/org/springframework/web/util/ContentCachingResponseWrapper.java:60-207 | calls applied in order, a throwing call changing nothing; over any sequence of calls the raw response's body and event log are only ever appended to |
| `CachingProperties.FlushRule` | spring-web/src/main/java/org/springframework/web/util/ContentCachingResponseWrapper.java:152-161 | no event for an empty cache; otherwise the new events are a content length equal to the cache size and then one write of the whole cache when the response is uncommitted, and only that one write when it is committed; the body grows by the cache, which is left empty, and the status is kept |
| `CachingProperties.CopyBodyToResponseTwice` | spring-web/src/main/java/org/springframework/web/util/ContentCachingResponseWrapper.java:152-153 | a second flush with no write in between does nothing |
| `CachingProperties.SendErrorFlushesFirst` | spring-web/src/main/java/org/springframework/web/util/ContentCachingResponseWrapper.java:73-85 | sendError never throws in the model; its error event directly follows the flushed events; afterwards the status is the error code and the cache is empty |
| `CachingProperties.SendRedirectFlushesFirst` | spring-web/src/main/java/org/springframework/web/util/ContentCachingResponseWrapper.java:87-91 | the redirect event directly follows the flushed events; the status code is kept |
| `CachingProperties.SetStatusDoesNotFlush` | spring-web/src/main/java/org/springframework/web/util/ContentCachingResponseWrapper.java:60-71 | setStatus adds only its status event and keeps cache and body |
| `CachingProperties.ResetBufferEmptiesOnly` | spring-web/src/main/java/org/springframework/web/util/ContentCachingResponseWrapper.java:127-130 | resetBuffer is exactly "empty the cache"; the size afterwards is 0 |
| `CachingProperties.ResetForwardsAndEmpties` | spring-web/src/main/java/org/springframework/web/util/ContentCachingResponseWrapper.java:132-136 | reset adds one reset event, empties the cache, and keeps the status and the writer |
| `CachingProperties.InitialState` | spring-web/src/main/java/org/springframework/web/util/ContentCachingResponseWrapper.java:48 | the status starts at 200 and the cache starts empty |
| `CachingProperties.ContentLengthLongLimit` | spring-web/src/main/java/org/springframework/web/util/ContentCachingResponseWrapper.java:113-120 | fails if and only if the length is above Integer.MAX_VALUE, and then changes nothing; otherwise it equals setContentLength of the value cast to int |
| `CachingProperties.GetWriterOnce` | spring-web/src/main/java/org/springframework/web/util/ContentCachingResponseWrapper.java:98-106 | the first getWriter picks the response's encoding or the default; later getWriter calls change nothing, whatever the response's encoding is by then |
| `CachingProperties.NextKeepsWriter` | spring-web/src/main/java/org/springframework/web/util/ContentCachingResponseWrapper.java:99-104 | no single call replaces an existing writer |
| `CachingProperties.WriterEncodingFixed` | spring-web/src/main/java/org/springframework/web/util/ContentCachingResponseWrapper.java:98-106 | once created, the writer's encoding survives any sequence of calls |
| `CachingProperties.NextStatus` | spring-web/src/main/java/org/springframework/web/util/ContentCachingResponseWrapper.java:60-85 | a call changes the status code exactly when it is setStatus or sendError |
| `CachingProperties.StatusIsLastSet` | spring-web/src/main/java/org/springframework/web/util/ContentCachingResponseWrapper.java:60-85 | after any sequence of calls the status code is the last one set by setStatus or sendError, or the starting one if there was none |
| `CachingProperties.WriteOnlyAppends` | spring-web/src/main/java/org/springframework/web/util/ContentCachingResponseWrapper.java:171-207 | one body write only appends to the cache |
| `CachingProperties.WritesOnlyAppend` | spring-web/src/main/java/org/springframework/web/util/ContentCachingResponseWrapper.java:171-207 | after any mix of byte and character writes, the cache is its old content plus each write's bytes in call order (a character write's bytes being what `encode` gives for its own characters), and nothing else has changed |
| `CachingProperties.NextExtendsStream` | spring-web/src/main/java/org/springframework/web/util/ContentCachingResponseWrapper.java:152-181 | a call that is not a reset or resize extends "sent bytes then cached bytes" by exactly what it writes |
| `CachingProperties.StreamConserved` | spring-web/src/main/java/org/springframework/web/util/ContentCachingResponseWrapper.java:152-207 | without resets or resizes, no byte is lost, duplicated or reordered between the cache and the raw response |
| `CachingProperties.FlushEventsAreWellFormed` | spring-web/src/main/java/org/springframework/web/util/ContentCachingResponseWrapper.java:153-158 | a flush never writes an empty body, and its content length is followed by a write of exactly that many bytes |
| `CachingProperties.NextKeepsLogWellFormed` | spring-web/src/main/java/org/springframework/web/util/ContentCachingResponseWrapper.java:60-161 | every call keeps that shape of the forwarded log |
| `CachingProperties.LogStaysWellFormed` | spring-web/src/main/java/org/springframework/web/util/ContentCachingResponseWrapper.java:152-161 | over any sequence of calls, every content length sent is followed by a write of exactly that many bytes, and no empty write is ever sent |

## Left out

- The internals of `FastByteArrayOutputStream` are not part of this model. `resize` is an opaque function of the bytes and the requested size, so no truncation is claimed. The model does not cover a resize that the buffer refuses by throwing. The initial capacity of 1024 cannot be observed and is not modelled.
- Charset conversion is an opaque function from an encoding name and characters to bytes. The `UnsupportedEncodingException` that creating the writer can throw (lines 187-189) is not modelled, and neither are `PrintWriter`'s internals.
- `ContentCaching.ResponsePrintWriter.WriteCharArray`: each write is encoded on its own, with no encoder state carried between writes. The JDK writer keeps one encoder for its whole life, so a high surrogate at the end of a write is held back until the next write, and an encoding such as UTF-16 writes its byte-order mark only on the first write; neither is modelled. Offsets and lengths count Dafny characters, not UTF-16 code units.
- `ContentCaching.ResponsePrintWriter.WriteString`: each write is encoded on its own, with no encoder state carried between writes. The JDK writer keeps one encoder for its whole life, so a high surrogate at the end of a write is held back until the next write, and an encoding such as UTF-16 writes its byte-order mark only on the first write; neither is modelled. Offsets and lengths count Dafny characters, not UTF-16 code units.
- `ContentCaching.ResponsePrintWriter.WriteChar`: the character is encoded on its own, with no encoder state carried from earlier writes, so a high surrogate held back by the JDK writer and a once-only byte-order mark are not modelled.
- `CachingProperties.WritesOnlyAppend`: a character write's bytes are taken to be the encoding of that write alone, for the reason given for `ContentCaching.ResponsePrintWriter.WriteCharArray`.
- A Java `char` is a UTF-16 code unit, while a Dafny `char` is a Unicode scalar value. `write(int c)` on the writer is modelled as taking a `char`, so its 16-bit truncation is not modelled.
- A Java `byte` is signed. Bytes are modelled as their unsigned values 0..255.
- `getContentInputStream` (lines 167-169) is not modelled, and neither is the header and encoding delegation inherited from `HttpServletResponseWrapper`.
- The raw response's own reaction to the calls it receives is not modelled. It does not commit on `sendError`, does not throw on a reset after commit, and does not refuse `getOutputStream` after its `getWriter`. When it becomes committed is decided by its container (`Response.Commit`).
- `CachingProperties.SendErrorFlushesFirst`: the raw response's `sendError` throws IllegalStateException when the response is already committed, and the flush just before it may be what commits it. In the source the wrapper's `sendError` then ends with the cache drained and `statusCode` not updated, because line 76 or 83 throws before line 77 or 84 runs. The raw response here never throws, so this lemma, like `CachingModel.Apply`, always reaches the status update.
- `CachingProperties.SendRedirectFlushesFirst`: the raw response's `sendRedirect` (line 90) throws IllegalStateException on a committed response, which the flush just before it may cause. The raw response here never throws, so the redirect event always follows the flush.
- `IOException` from the drain inside `copyBodyToResponse` or from forwarded calls is not modelled, so a half-finished flush is not modelled either. The model has no real I/O.
- `ContentCaching.ContentCachingResponseWrapper.GetContentSize`: does not model the Java `int` result or the 2147483647-byte limit of the buffer. The cache size is an unbounded integer, and so is the content length that a flush sends.
- `CachingModel.Payload`: range checks use unbounded arithmetic, so an `off + len` that overflows `int` counts as out of range. The range checks are done by the buffer and by the JDK, and neither is part of this model.
- Concurrency: the code has none.
