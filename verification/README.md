# NginXray: verified model of message reassembly and packet filtering

NginXray watches an nginx server from eBPF probes. It rebuilds HTTP/1, HTTP/2 and HTTP/3 messages from byte fragments
and header events, and it filters incoming packets with a blocklist and a per-source token bucket. This project models
those five stateful parts in Dafny and proves that each incremental, mutable implementation agrees with a simple
declarative description of what it should compute. `dafny verify dfyconfig.toml` checks everything.

How the files fit together:

| part | declarative side | as it runs |
|---|---|---|
| HTTP/2 direction | `Http2Spec`, `Http2Layout`, `Http2Framing`, `Http2Grammar`, `Http2Lifetimes` | `Http2` (classes over a heap of stream entries) |
| HTTP/1 messages | `Http1Spec`, `Http1Cuts`, `Http1Wire`, `Http1WireResponses`, `Http1Faults`, `Scan` | `Http1` (loops over a shared buffer) |
| connections | `SnifferSpec`, `SnifferResponses`, `SnifferStreams`, `SnifferGaps` | `Sniffer` (connection objects, event loop) |
| rate limit, blocklist | `RateLimit`, `Blocklist`, `Xdp` | `RateLimit.Limiter`, `XdpFilter` |
| HTTP/3 headers | `Qpack`, `H3Pending`, `H3Idle` | `H3Tracker` (shared maps of entries) |
| header folding | `Messages` | builder methods in `Messages` |

The main theorems, one per question a maintainer would ask:

- **Do read boundaries matter?** For HTTP/2 exactly when the buffer guard trips (`SegmentationIndependence`), which it
  never does while frame size plus read size fits the buffer (`NoFalseOverflow`); for HTTP/1 requests never
  (`RequestsAnyPieces`); for HTTP/1 responses exactly when bytes follow the head of a response that ends with the
  connection (`ResponsesAnyCutIff`); for a whole connection, with protocol detection, hand-over and interleaved response
  events, and among many interleaved connections, not at all unless the connection was cut short (`RequestStream`,
  `StreamOfConnection`, `ResponseStream`, and per HTTP/2 stream `RequestsOfStream`), which the bytes alone can rule out
  (`WholeRequestStream`).
- **Which inputs poison an HTTP/2 direction?** Exactly those that do not read as whole well-formed units followed by the
  start of a sound header block (`Acceptance`, `WireAcceptance`), where well-formedness is a grammar that does not mention
  the state machine.
- **Are HTTP/2 messages right?** Frames put together by the layouts of RFC 9113 give exactly their content
  (`DataContent`, `HeadersContent`, `PaddedRequestCompletes`), and what the fields say is what the message says
  (`MessagesDescribed`). The decoder state is the fold over all header blocks in wire order (`RunUnits`). Each
  stream's open entry and completions are a function of the events that reach it (`StreamLives`, `MessagesOfRun`), every
  entry is accounted for (`EntriesOfRun`), and all events reach their streams exactly as long as the table has room
  (`AllReachIff`), so that streams are then independent (`StreamsIndependent`).
- **Are HTTP/1 messages right?** Serialise, in any case of letters and with any blanks, pipeline, parse: the same messages
  and the same tail (`DrainSerialised`, `DrainSerialisedResponses`). What is no message, and which lengths panic:
  `Http1Faults`.
- **How many packets pass?** The exact verdict of every packet (`VerdictExact`), hence the upper bound
  (`RateLimitHolds`, and over whole schedules of the filter `DrivenRateLimit`) and completeness as an
  if-and-only-if (`NeverDroppedIff`).
- **Are HTTP/3 fields complete, resolved correctly and reported together?** `NoFieldLost`, and on the heap
  `HeapConserves` and `Drive`; `MirrorRefines`, `ResolveAgrees`; `FlushTakesIff`, `ReportedWhole`.
- **Does blocking last, does it end, and is collecting garbage invisible?** `BlockPersists`, `BlockExactly`, over whole
  schedules `DrivenBlock` and `DrivenBlockExactly`; `SweepTransparentIff`, `SweepingChangesNothing`.

Five properties one might expect are not true of the code without a condition. Each has a concrete counterexample and
the exact condition:

- HTTP/2 segmentation: a frame of maximal length followed by one byte is accepted or refused depending on the cut
  (`LongestPing`). Condition: no call trips the guard (`SegmentationIndependence`).
- Independence of HTTP/2 streams: a request that completes when it is alone is lost behind `maxStreams` open streams
  (`FullTableLosesRequest`). Condition: whenever an event opens a stream, fewer than `maxStreams` are open at that moment
  (`AllReachIff`).
- Transparency of the collector: removing an expired entry can uncover a live shorter prefix that then starts to drop
  packets (`SweepUncovers`). Condition: no live entry is shadowed by an expired longest match (`SweepTransparentIff`).
- One base per HTTP/3 response: a table insertion between reading the base and appending the field splits it, and two
  fields that name the same position get different names (`InsertionSplitsBase`). Condition: the current base is still
  the one that was read (`AppendKeepsBaseIff`).
- Stability of a parsed HTTP/1 response: "HTTP/1.0 200 OK" and an empty line are answered at once, and differently when
  one more byte is there (`OldResponseUnstable`). Condition: the header lines do not leave the end of the response to the
  connection (`ResponseStableIff`).

Conventions: a byte is an integer from 0 to 255; `D` is the state of an opaque, deterministic HPACK decoder; a Go
run-time panic is an outcome (`Crash`), not a precondition; 64-bit wrap-around is written out where it occurs. The
rate-limit theorems hold for every BURST below 2^63 and every NS_PER_TOKEN of at least 2 (type `RateLimit.Rate`; with 1,
a refill close to 2^64 ns could wrap), and the filter uses the constants of the source (`RateLimit.LIMITS`).

## Model

| member | source | states |
|---|---|---|
| Http2Spec.HandleOpening | internal/parser/http2.go:273-331 | Outside a block, HEADERS or PUSH_PROMISE starts a block with exactly the target and fragment that the layouts of sections 6.2 and 6.6 of RFC 9113 give (padding and priority bytes removed), and poisons exactly when the announced parts do not fit or HEADERS is on stream 0 |
| Http2Spec.RunConcat | internal/parser/http2.go:198-259 | Handling frames is a fold: a run over two lists is the second run from where the first ended, poison included |
| Http2Spec.HandleBehind | internal/parser/http2.go:233-420 | What a frame appends to the completion queue does not depend on what is queued already, and a frame changes nothing that is queued |
| Http2Spec.RunBehind | internal/parser/http2.go:156-165 | Taking completions out between calls is the same as taking them out at the end |
| Http2Spec.HandleKeepsBounds | internal/parser/http2.go:233-420 | Every frame keeps: at most `maxStreams` streams, bodies within `maxBodyPerStream` (full if truncated), fragment within `maxHeaderBlock` and empty outside a block, completions with headers only, a poisoned direction empty |
| Http2Spec.RunKeepsBounds | internal/parser/http2.go:55-63 | The same bounds over every run |
| Http2Layout.FlagBits | internal/parser/http2.go:48-53 | END_STREAM, END_HEADERS, PADDED and PRIORITY are read from bits 0, 2, 3 and 5 of the flag byte, whatever the other bits are |
| Http2Layout.ReservedBit | internal/parser/http2.go:211-215 | Four bytes of a stream identifier are read big-endian without their top bit |
| Http2Layout.DataContent | internal/parser/http2.go:383-388 | A DATA payload of pad length, content and padding contributes exactly its content; a pad length beyond the payload contributes nothing; without the flag the payload is the content |
| Http2Layout.DataOnOpenStream | internal/parser/http2.go:377-411 | Such a frame extends the body of the open entry of its stream by that content, up to the cap, and completes it on END_STREAM; nothing else changes |
| Http2Layout.HeadersContent | internal/parser/http2.go:278-293 | A HEADERS payload put together by section 6.2 of RFC 9113, with or without padding and priority, opens a block with exactly its fragment |
| Http2Layout.PromiseContent | internal/parser/http2.go:315-330 | A PUSH_PROMISE payload put together by section 6.6 opens a block for the promised stream with exactly its fragment |
| Http2Layout.NothingOpens | internal/parser/http2.go:273-331 | Parts that do not fit, or HEADERS on stream 0, open nothing |
| Http2Layout.PaddedRequestCompletes | internal/parser/http2.go:233-420 | HEADERS (type 1, flags 0x4) and padded DATA (type 0, flags 0x9): one request with the decoded fields and the content |
| Http2Layout.SplitRequestCompletes | internal/parser/http2.go:233-375 | HEADERS with padding and priority (flags 0x29) and CONTINUATION (type 9, flags 0x4): one request with the fields of both parts together |
| Http2Layout.PromiseIsReset | internal/parser/http2.go:250-256 | PUSH_PROMISE (type 5) opens the promised stream and RST_STREAM (type 3) on it forgets it |
| Http2Layout.FaultsNamed | internal/parser/http2.go:233-346 | Which reason is given for which fault |
| Http2Framing.FramesConcat | internal/parser/http2.go:193-223 | Cutting frames from a prefix and then from the remainder plus the rest gives the frames and remainder of the whole byte string |
| Http2Framing.FramesOfEncoding | internal/parser/http2.go:203-216 | Round trip: the encodings of any frames, followed by an incomplete frame, are cut into exactly those frames and leave exactly that tail |
| Http2Framing.DrainIsRun | internal/parser/http2.go:198-231 | The drain loop equals handling the frames of the buffer in order; afterwards no complete frame is buffered, and nothing at all once poisoned |
| Http2Framing.FeedContinues | internal/parser/http2.go:185-195 | A call that passes the guard leads from the result of the bytes so far to the result of all bytes |
| Http2Framing.NoTripIsReference | internal/parser/http2.go:185-231 | If no call trips the guard, state, decoder, buffer, reason and completions are those of the whole string handled at once |
| Http2Framing.TripIsVisible | internal/parser/http2.go:189-192 | A tripped guard shows as the overflow reason for ever after |
| Http2Framing.SegmentationIndependence | internal/parser/http2.go:151-259 | For any cutting: the result is that of the whole byte string if and only if no call trips the guard, and the reason is overflow if and only if one did |
| Http2Framing.ReferenceGrows | internal/parser/http2.go:413-420 | More bytes only append completions |
| Http2Framing.NoFalseOverflow | internal/parser/http2.go:185-192 | If every frame has at most `size` bytes and every read at most `piece`, with `size - 1 + piece` within `maxDirBuffer`, the guard never trips on any run |
| Http2Framing.LongestFrameThenByte | internal/parser/http2.go:189-195 | A longest frame that no handler objects to, then one byte in a read of its own, is accepted |
| Http2Framing.LongestFrameCutShort | internal/parser/http2.go:189-192 | A longest frame whose last byte arrives together with one more byte is refused as overflow |
| Http2Framing.LongestPing | internal/parser/http2.go:189-195 | Counterexample: a PING of greatest length plus one byte, the same bytes cut in two ways, with different results |
| Http2Grammar.RunPartial | internal/parser/http2.go:296-346 | An unfinished header block is collected, fragment and CONTINUATION payloads in order, and changes nothing else |
| Http2Grammar.RunHeaded | internal/parser/http2.go:310-363 | A finished block is decoded once, as the concatenation of its opener's fragment and its CONTINUATION payloads |
| Http2Grammar.RunUnits | internal/parser/http2.go:273-375 | HPACK stays in step (section 4.3 of RFC 9113): the decoder state is the fold over all blocks in wire order, PUSH_PROMISE blocks and blocks of refused or reset streams included; the table is the fold of the decoded events |
| Http2Grammar.RunSentence | internal/parser/http2.go:198-375 | The same with an unfinished block behind: unpoisoned, fragment collected, decoder and table untouched by it |
| Http2Grammar.Parse | internal/parser/http2.go:233-375 | Every unpoisoned run reads as whole units and the start of a block |
| Http2Grammar.Acceptance | internal/parser/http2.go:198-375 | A direction is unpoisoned if and only if its frames read as whole well-formed units, then the start of a sound block: sound openers, contiguous CONTINUATION frames on one stream, size limit, every finished block decodable, no HEADERS or DATA on stream 0 |
| Http2Grammar.PushCompletesNothing | internal/parser/http2.go:330 | A PUSH_PROMISE block completes no stream, whatever its flags |
| Http2Lifetimes.CollectedSnoc | internal/parser/http2.go:365-407 | Updating an entry with one more block or DATA frame is collecting one more event: all fields in order, the first `maxBodyPerStream` bytes, and the flag exactly when there were more |
| Http2Lifetimes.StreamLives | internal/parser/http2.go:348-420 | For any events and stream: of the events that find room in the table, the open entry is what the current life collected, and the completions are exactly the lives ended by END_STREAM with a header block, once each, in order, bodies capped and flagged exactly |
| Http2Lifetimes.AllReachIff | internal/parser/http2.go:357-363 | Every event reaches its stream if and only if fewer than `maxStreams` streams are open, by their own events, whenever an event opens one |
| Http2Lifetimes.NothingRefused | internal/parser/http2.go:389-396 | While there is room, a stream sees all of its own events |
| Http2Lifetimes.FewStreamsAreRoomy | internal/parser/http2.go:357-363 | There is room in particular when at most `maxStreams` stream identifiers are ever named |
| Http2Lifetimes.StreamAlone | internal/parser/http2.go:348-420 | While there is room, a stream's open entry and completions are a function of its own events |
| Http2Lifetimes.StreamsIndependent | internal/parser/http2.go:348-420 | Two histories with room that agree on one stream's events give it the same entry and completions, however different the others are |
| Http2Lifetimes.FullTableLosesRequest | internal/parser/http2.go:359-361 | Counterexample: a request that completes alone completes nothing behind `maxStreams` open streams |
| Http2Lifetimes.EntriesConserved | internal/parser/http2.go:348-420 | Entries created = open + completed + discarded, over any events |
| Http2Lifetimes.EntriesOfRun | internal/parser/http2.go:115-125 | The same over any run of frames: up to the poisoning frame, which drops exactly the entries that were open |
| Http2Lifetimes.SoundPart | internal/parser/http2.go:198-231 | A poisoned run was sound up to the poisoning frame, keeps the completions it had and drops all streams |
| Http2Lifetimes.MessagesOfRun | internal/parser/http2.go:198-420 | Poisoned or not, the completions of any run are those of its longest well-formed part, of each stream's own events while there is room, and the next frame poisons |
| Http2Lifetimes.WireAcceptance | internal/parser/http2.go:185-375 | Any frames, encoded and cut into reads that fit: exactly those frames are handled, no byte is left, and acceptance is that of the grammar |
| Http2.H2Stream.TakeBlock | internal/parser/http2.go:365-370 | The first block sets the headers, later ones (trailers) are appended |
| Http2.H2Stream.TakeData | internal/parser/http2.go:397-407 | The entry takes the data up to the cap and flags the rest |
| Http2.H2Direction.SetPoison | internal/parser/http2.go:115-125 | First reason wins; streams, buffer and fragment are dropped, the queue is kept; the heap invariant holds after |
| Http2.H2Direction.Entry | internal/parser/http2.go:389-396 | The stream's entry, a new one when the table has room, none when it is full; no entry is shared between streams |
| Http2.H2Direction.Complete | internal/parser/http2.go:413-420 | The entry leaves the table and is queued if and only if it has headers; the invariant says a queued entry is never open and never queued twice |
| Http2.H2Direction.Finish | internal/parser/http2.go:348-375 | Decoding and filing a block is `FinishBlock` of the old state; an undecodable block poisons after the decoder advanced |
| Http2.H2Direction.BeginBlockOn | internal/parser/http2.go:333-346 | Starting a block is `BeginBlock` of the old state |
| Http2.H2Direction.TakeHeaders | internal/parser/http2.go:273-294 | The HEADERS handler on the heap is `OnHeaders` of the old state |
| Http2.H2Direction.TakeContinuation | internal/parser/http2.go:296-313 | The CONTINUATION handler is `OnContinuation` of the old state |
| Http2.H2Direction.TakePushPromise | internal/parser/http2.go:315-331 | The PUSH_PROMISE handler is `OnPushPromise` of the old state |
| Http2.H2Direction.TakeDataFrame | internal/parser/http2.go:377-411 | The DATA handler is `OnData` of the old state, which takes the content without its padding (`DataContent`); malformed padding contributes no byte but the frame may still end its stream |
| Http2.H2Direction.Reset | internal/parser/http2.go:250-253 | RST_STREAM forgets the stream's entry |
| Http2.H2Direction.Dispatch | internal/parser/http2.go:233-259 | One frame on the heap is `HandleFrame` of the old state |
| Http2.H2Direction.TakeFrame | internal/parser/http2.go:200-223 | A complete frame at the front is handled and cut off; otherwise nothing changes |
| Http2.H2Direction.DrainBuffer | internal/parser/http2.go:198-231 | The loop over the heap refines the pure drain |
| Http2.H2Direction.FeedPiece | internal/parser/http2.go:185-195 | `feed` on the heap is the pure `Feed` of the old contents |
| Http2.BuildRequests | internal/parser/http2.go:159-163 | One message per queued completion, in order, built from that entry's fields and body |
| Http2.BuildResponses | internal/parser/http2.go:176-180 | The same for responses |
| Http2.BuiltDescribed | internal/parser/http2.go:156-182 | A message names its stream, says what `DescribesRequest` or `DescribesResponse` says of its entry, and is marked exactly if the body was cut |
| Http2.HTTP2Conn.constructor | internal/parser/http2.go:132-137 | Two separate, empty directions |
| Http2.HTTP2Conn.FeedRequest | internal/parser/http2.go:151-166 | Poison on a capture gap, feed, hand out and clear the completions; the response direction and its entries are untouched |
| Http2.HTTP2Conn.FeedResponse | internal/parser/http2.go:168-183 | The same for the response direction |
| Messages.FoldHeadersIsFolded | internal/parser/http2.go:464-474 | Each regular header is the in-order join of its values, "; " for cookie and ", " otherwise, `:authority` folded into host, and there is no other header |
| Messages.FoldedUnique | internal/parser/http2.go:464-474 | That description determines the header map |
| Messages.MessagesDescribed | internal/parser/http2.go:422-474 | Method, path and status are those of the last field of that name, empty without one; the code is that of the last `:status` that starts with a number, else 0; no header for a pseudo-field; any other header holds the values of its fields in order, `host` also those of `:authority`, separated by "; " for cookie and ", " otherwise; version and body are those given |
| Messages.JoinCons | internal/parser/http2.go:464-474 | Joining puts the separator between the values, first to last |
| Messages.BuildH2Request | internal/parser/http2.go:422-445 | The loop builds a request that says exactly this of its fields (`DescribesRequest`), and is the function the other parts use |
| Messages.BuildH2Response | internal/parser/http2.go:447-462 | Likewise for responses (`DescribesResponse`) |
| Messages.BuildH3Request | internal/http3_sniffer/http3_sniffer.go:370-391 | The HTTP/3 builder says the same of its fields, and computes the same function of them as the HTTP/2 one |
| Messages.BuildH3Response | internal/http3_sniffer/http3_sniffer.go:393-407 | The HTTP/3 response builder likewise |
| Scan.ScanSpelled | internal/parser/http1.go:71-113 | A decimal or hexadecimal numeral is read behind any blanks and either sign, with leading zeros and either case of letters, whatever non-digit follows; one that does not fit 64 bits is an error |
| Scan.ScanNothing | internal/parser/http1.go:111-113 | Without a digit behind blanks and sign there is an error |
| Scan.ScanNoLine | internal/parser/http1.go:111-113 | So there is behind a line feed |
| Scan.ScanPrinted | internal/parser/http1.go:71-113 | Reading back a number printed in base 10 or 16 yields it, whatever non-digit follows |
| Http1Spec.FindFirst | internal/parser/http1.go:30-33 | The search finds the first occurrence, and `None` means there is none |
| Http1Spec.SplitSpace3Is | internal/parser/http1.go:41-44 | The parts of a first line are those between its first two spaces |
| Http1Spec.TrimIs | internal/parser/http1.go:64-65 | Trimming takes the blanks at both ends, and only those |
| Http1Spec.LowerIs | internal/parser/http1.go:64 | The lower-case form has the same letters, by character code, and no capitals; every way to write the letters has the same one |
| Http1Spec.MentionsIs | internal/parser/http1.go:74 | A coding counts as chunked if and only if the word "chunked" stands in it, in whatever case |
| Http1Spec.NameNeedsColon | internal/parser/http1.go:59-62 | A line has a name if and only if it has a colon |
| Http1Spec.NamesKept | internal/parser/http1.go:58-67 | The headers kept are named exactly as some line is, lower-cased and trimmed |
| Http1Spec.LastValueKept | internal/parser/http1.go:64-67 | Of each name the value of the last line is kept |
| Http1Spec.LastLengthKept | internal/parser/http1.go:70-71 | The length is that of the last readable Content-Length line |
| Http1Spec.LastCodingKept | internal/parser/http1.go:73-74 | The body is chunked if and only if the last Transfer-Encoding line says so |
| Http1Spec.NoFramingKept | internal/parser/http1.go:54-76 | Without such lines there is no length and no chunking |
| Http1Spec.ChunksStable | internal/parser/http1.go:98-137 | The chunk loop's answer does not change when bytes are appended |
| Http1Spec.TrailersStable | internal/parser/http1.go:140-156 | Nor does the trailer loop's |
| Http1Spec.RequestStable | internal/parser/http1.go:26-163 | Any answer of `ParseRequest` other than "incomplete" is the same, with the same consumed bytes, on every extension |
| Http1Spec.ResponseStable | internal/parser/http1.go:165-321 | The same for responses outside the read-until-close branch, which is chosen again on every extension |
| Http1Spec.CloseFramedIs | internal/parser/http1.go:302-320 | The read-until-close branch is taken exactly on those header lines, and takes all bytes behind them |
| Http1Spec.ResponseStableIff | internal/parser/http1.go:196-320 | A found response is final if and only if its header lines do not leave its end to the connection: a body-less status, a length, chunking or a persistent connection |
| Http1WireResponses.OldResponseUnstable | internal/parser/http1.go:312-320 | Counterexample: one literal response, answered alone and, differently, with one byte behind it |
| Http1Spec.DrainConcat | internal/sniffer/sniffer.go:393-397 | Draining, appending and draining again emits what draining the whole emits, and leaves the same remainder |
| Http1Spec.RequestsConcat | internal/sniffer/sniffer.go:392-397 | The same for the request loop, crashes included |
| Http1Spec.RequestsAnyPieces | internal/sniffer/sniffer.go:332-397 | The requests, the remainder and a crash depend on the bytes only, not on how they were cut |
| Http1Cuts.ResponsesAnyPieces | internal/sniffer/sniffer.go:448-452 | Unless bytes follow the head of a response that ends with the connection, responses, remainder and crash depend on the bytes only |
| Http1Cuts.ResponsesAnyCutIff | internal/sniffer/sniffer.go:448-452 | All cuts of a byte string give the same responses if and only if no bytes follow such a head |
| Http1Cuts.CutBehind | internal/parser/http1.go:165-315 | A complete response is found as well, with the same bytes consumed, when the buffer ends anywhere behind it |
| Http1Cuts.OpenEndedStays | internal/parser/http1.go:302-320 | A response that ends with the connection is met again on every extension, which goes to its body |
| Http1Wire.ChunksParsed | internal/parser/http1.go:98-137 | Serialised chunks of any sizes, written in either case and with leading zeros, with extensions, are read back as their concatenated data |
| Http1Wire.HeaderRead | internal/parser/http1.go:58-67 | A header line with its name in any case and any blanks around name and value is read as the name in lower case and the value |
| Http1Wire.ParseSerialised | internal/parser/http1.go:29-162 | Round trip: a serialised request, header names in any case, framing headers anywhere among the others, without a body, with a length or chunked, whatever follows, is returned and exactly its bytes are consumed; the last header of a name counts, and chunked wins over any Content-Length |
| Http1Wire.DrainSerialised | internal/sniffer/sniffer.go:392-397 | Pipelining: any list of serialised requests is returned in order, and then what the tail holds; an incomplete tail is left, one that panics does so after them |
| Http1WireResponses.ParseSerialisedResponse | internal/parser/http1.go:165-315 | Round trip for responses, statuses without a body and persistent connections without a length included |
| Http1WireResponses.HeadOnlyResponse | internal/parser/http1.go:196-199 | A 1xx, 204 or 304 response ends with its head, whatever Content-Length or coding it carries, and what follows is left |
| Http1WireResponses.PersistentIs | internal/parser/http1.go:302-310 | Whether the connection stays open is decided by the version and the last Connection header, in whatever case |
| Http1WireResponses.TakesWhatFollows | internal/parser/http1.go:302-320 | A serialised response that ends with the connection is answered with whatever bytes follow as its body |
| Http1WireResponses.DrainSerialisedResponses | internal/sniffer/sniffer.go:448-452 | Pipelined serialised responses are returned in order, and then what the tail holds; one that ends with the connection is returned with all its bytes |
| Http1Faults.LengthAnnounced | internal/parser/http1.go:80-91 | A request that announces n bytes panics if their end is beyond the largest integer, waits while there are fewer, and otherwise takes exactly n |
| Http1Faults.ResponseLengthAnnounced | internal/parser/http1.go:224-235 | The same for responses |
| Http1Faults.BadRequestPanics | internal/parser/http1.go:111-131 | Behind any chunks, a negative size, or one whose end is beyond the largest integer, makes the request parser panic |
| Http1Faults.BadResponsePanics | internal/parser/http1.go:250-270 | The same for responses |
| Http1Faults.ShortRequestLine | internal/parser/http1.go:41-44 | A request line with fewer than two spaces is never answered |
| Http1Faults.ShortStatusLine | internal/parser/http1.go:180-183 | Nor is a status line without a space |
| Http1Faults.ReasonMissing | internal/parser/http1.go:190-192 | A status line that ends with the code is answered as with an empty reason |
| Http1Faults.CodeUnreadable | internal/parser/http1.go:194-196 | A code that is no number counts as 0 |
| Http1.ReadHeaderLines | internal/parser/http1.go:58-76 | The header loop computes `ReadHead` of the lines |
| Http1.ReadChunkedBody | internal/parser/http1.go:94-156 | The two loops compute the chunked body and where it ends, report missing bytes, and terminate |
| Http1.ParseRequest | internal/parser/http1.go:26-163 | The parser over the buffer: the outcome of its bytes; the buffer advances past the message on success and is untouched otherwise |
| Http1.ParseResponse | internal/parser/http1.go:165-321 | The same for responses; read-until-close empties the buffer |
| Http1.DrainRequests | internal/sniffer/sniffer.go:393-397 | The request loop emits what the bytes hold and leaves the incomplete rest |
| Http1.DrainResponses | internal/sniffer/sniffer.go:448-452 | The response loop does the same |
| SnifferSpec.VerdictStable | internal/parser/http2.go:20-32 | A protocol verdict never changes under extension; HTTP/2 means the whole preface is there, undecided means a proper prefix of it |
| SnifferSpec.PrefaceText | internal/parser/http2.go:10-18 | The preface is the text of section 3.4 of RFC 9113 |
| SnifferSpec.OwnDirection | internal/sniffer/sniffer.go:291-476 | An event reports messages of its own direction only and leaves the other alone, but for the switch to HTTP/2 |
| SnifferSpec.FedFollows | internal/sniffer/sniffer.go:291-294 | One read moves a direction along the reference, or stops it by overflow or capture gap without completing anything |
| SnifferSpec.HandOverFollows | internal/sniffer/sniffer.go:340-380 | The hand-over loses and repeats no request byte |
| SnifferSpec.RunFollows | internal/sniffer/sniffer.go:272-446 | Run invariant tying buffers, protocol, HTTP/2 state and emitted requests to the request bytes so far |
| SnifferSpec.RequestStream | internal/sniffer/sniffer.go:272-446 | Requests emitted on a connection are a prefix of those of its request bytes taken at once, and all of them unless a panic, overflow or capture gap cut it short; read boundaries and response events do not matter |
| SnifferSpec.RequestStreamsAgree | internal/sniffer/sniffer.go:272-446 | Two event sequences with the same request bytes, neither cut short, emit the same requests |
| SnifferSpec.SmallReadsNeverStopped | internal/sniffer/sniffer.go:292 | Reads below the capture limit of frames that leave room for one read never stop a direction |
| SnifferSpec.ConnectionsIndependent | internal/sniffer/sniffer.go:246-277 | Under any interleaving, each connection has the state and emitted requests of its own events since its last close |
| SnifferSpec.StreamOfConnection | internal/sniffer/sniffer.go:246-446 | Hence the request stream of one of many connections depends on its own request bytes alone |
| SnifferResponses.AnswersOn | internal/sniffer/sniffer.go:321-327 | One response read moves the HTTP/2 response direction along its reference |
| SnifferResponses.CoversOn | internal/sniffer/sniffer.go:448-452 | Emitted responses and those still in the buffer stay together what the bytes hold |
| SnifferResponses.HandOverTallies | internal/sniffer/sniffer.go:371-380 | The hand-over loses and repeats no early response byte |
| SnifferResponses.ResponseStream | internal/sniffer/sniffer.go:272-476 | Responses emitted on a connection: on HTTP/2 those of all response bytes at once, early ones included, unless stopped; on HTTP/1 those of the bytes less what still waits in the buffer, unless bytes follow the head of a response that ends with the connection |
| SnifferResponses.WholeResponseStream | internal/sniffer/sniffer.go:447-476 | After a response event on HTTP/1 nothing waits: exactly the responses of the bytes, unless bytes follow the head of a response that ends with the connection |
| SnifferResponses.NoPanic | internal/sniffer/sniffer.go:392-452 | A connection whose request and response bytes hold no harmful length, and no bytes behind the head of a response that ends with the connection, never panics, however they are cut and interleaved |
| SnifferResponses.WholeRequestStream | internal/sniffer/sniffer.go:272-446 | From the bytes alone: small reads, small frames and bytes as in `NoPanic` mean the emitted requests are exactly those of the bytes |
| SnifferStreams.QueueOfStream | internal/parser/http2.go:156-165 | The messages of a completion queue that name one stream are those built from the stream's completions, in order |
| SnifferStreams.RequestsOfStream | internal/sniffer/sniffer.go:272-446 | The requests emitted for one stream of an HTTP/2 connection, for any cuts and any response events, are built from the lives that reached it, all of them unless the connection was cut short; with room in the table these are the lives of the stream's own events |
| SnifferStreams.ResponsesOfStream | internal/sniffer/sniffer.go:272-476 | The same for the responses emitted for one stream, early response bytes included |
| SnifferGaps.GapStops | internal/sniffer/sniffer.go:291-327 | On a connection known to speak HTTP/2, a read of exactly 8191 bytes ends the reports of its direction: neither it nor anything later adds a message, and the reason is the gap unless there was one |
| SnifferGaps.NoGapNoReason | internal/sniffer/sniffer.go:291-327 | Without such a read no direction is given up for a gap |
| Sniffer.StartHttp2 | internal/sniffer/sniffer.go:342-380 | A new HTTP/2 connection fed the bytes behind the preface and any early response bytes |
| Sniffer.Connection.Untouched | internal/sniffer/sniffer.go:272-277 | Changes to objects of other connections leave this one's state, invariant and footprint as they were |
| Sniffer.Connection.OnHttp2Event | internal/sniffer/sniffer.go:291-330 | A read on an HTTP/2 connection, marked as a gap at exactly the capture limit |
| Sniffer.Connection.SwitchToHttp2 | internal/sniffer/sniffer.go:340-382 | The hand-over on the heap, both buffers emptied |
| Sniffer.Connection.OnHttp1Event | internal/sniffer/sniffer.go:391-476 | The HTTP/1 path drains the buffer of the event's direction |
| Sniffer.Connection.Handle | internal/sniffer/sniffer.go:291-476 | One event on the heap is the pure `Step`: same messages, same state, crash exactly when a parser panics |
| Sniffer.EventLoop.Turn | internal/sniffer/sniffer.go:267-477 | One record of the loop over all connection objects, created on demand and forgotten on close, is the pure `WorldStep`: same states, same requests and responses; connections stay disjoint and new objects are new |
| Sniffer.EventLoop.Serve | internal/sniffer/sniffer.go:246-477 | The loop over any records, up to a crash: the connections are in the states of `RunWorld`, and what was seen at each record is what the model sees |
| RateLimit.Limiter.CheckRateLimit | bpf/xdp_filter.bpf.c:87-131 | One packet updates the bucket of its own source as `Check` says and no other bucket; the IPv6 form is the same at another key type |
| RateLimit.IntervalsSum | bpf/xdp_filter.bpf.c:106-107 | Dividing elapsed time by the token interval in parts loses at most one token, and none if the second part is whole |
| RateLimit.RefillSound | bpf/xdp_filter.bpf.c:105-121 | Without wrap-around, a refill adds the whole intervals elapsed up to the cap and keeps the remainder |
| RateLimit.RunInvariant | bpf/xdp_filter.bpf.c:87-131 | Over every run: tokens within BURST, timestamp not ahead of the clock and on the token grid of the first arrival, so nothing wraps; a packet passes if and only if it finds a token |
| RateLimit.FoundStep | bpf/xdp_filter.bpf.c:105-128 | What one packet leaves for the next, between any two consecutive arrivals |
| RateLimit.VerdictExact | bpf/xdp_filter.bpf.c:87-131 | Packet k passes if and only if, counted from every earlier packet i, fewer than BURST plus the token instants since have passed |
| RateLimit.RateLimitHolds | bpf/xdp_filter.bpf.c:87-131 | In any window [a, b] of any run at most BURST + ceil((b - a) / NS_PER_TOKEN) packets of a source pass |
| RateLimit.NeverDroppedIff | bpf/xdp_filter.bpf.c:91-130 | No packet of a source is dropped if and only if between any two of its arrivals, inclusive, there are at most BURST plus the token instants between them |
| RateLimit.SlowSourceNeverDropped | bpf/xdp_filter.bpf.c:91-130 | In elapsed time: at most BURST + floor((t - s) / NS_PER_TOKEN) arrivals between any two, inclusive, means none is dropped |
| RateLimit.RefillAnyTime | bpf/xdp_filter.bpf.c:105-121 | Refilling at any intermediate instants equals one refill at the end, cap and remainder included |
| RateLimit.LazyIsEager | bpf/xdp_filter.bpf.c:150-166 | The code agrees on tokens and verdict of every packet with a bucket that gains one token every NS_PER_TOKEN |
| Blocklist.LookupIs | bpf/xdp_filter.bpf.c:199-203 | A look-up finds the longest stored prefix of the address, and only that |
| Blocklist.BlockPersists | internal/filter/filter.go:69-99 | After a full address is blocked at t for d, every packet from it up to t + d is dropped, whatever else is added, swept or hit, unless that key is re-added with earlier expiry |
| Blocklist.BlockExactly | internal/filter/filter.go:84-87 | A block ends: with no other stored prefix of an address it covers and none added later, the address is dropped if and only if its expiry, t + d on the 64-bit clock, is not over (0 means never), however often the table is swept until then |
| Blocklist.HitsCounted | bpf/xdp_filter.bpf.c:83 | A stored entry counts every packet it drops, and keeps its expiry and reason |
| Blocklist.SweepTransparentIff | internal/filter/filter.go:101-126 | A sweep leaves all later verdicts on an address unchanged if and only if no live entry is shadowed there |
| Blocklist.SweepUncovers | internal/filter/filter.go:101-126 | Counterexample: a pass becomes a drop because a sweep ran |
| Blocklist.SweptDecidesAlike | bpf/xdp_filter.bpf.c:75-85 | With no stored prefix covering another, a table less some expired entries gives the same verdicts |
| Blocklist.DoKeepsSize | internal/filter/filter.go:88-98 | No step lets the table outgrow its bound |
| Blocklist.SweepsInvisible | internal/filter/filter.go:101-137 | Over runs of packets, additions and sweeps, as long as no prefix covers another and every new entry finds room, sweeping changes no verdict |
| Blocklist.SweepingChangesNothing | internal/filter/filter.go:128-137 | The same from one starting table |
| XdpFilter.CleanupExpired | internal/filter/filter.go:101-126 | The two loops remove exactly the expired entries |
| XdpFilter.Filter.FilterPacket | bpf/xdp_filter.bpf.c:178-233 | Blocklist first, then the limiter; a packet touches the table and bucket of its own source and family only; short and other frames pass |
| XdpFilter.Filter.AddBlocked | internal/filter/filter.go:69-99 | Which table gets which key with which expiry (`BlockExactly` says what it means), and every refusal (malformed, IPv4-mapped, full table) leaving both tables alone |
| XdpFilter.Filter.CollectGarbage | internal/filter/filter.go:133-134 | A tick sweeps both tables |
| XdpFilter.FilterIsLimiter | bpf/xdp_filter.bpf.c:205-210 | Blocked packets leave no trace in the limiter: bucket and passes are those of the packets that reached it |
| XdpFilter.FilterRateLimit | bpf/xdp_filter.bpf.c:178-233 | The window bound for one source, however the blocklist changes meanwhile |
| XdpFilter.Filter.Act | bpf/xdp_filter.bpf.c:178-233 | One packet, addition or collector tick on the heap moves both tables and all buckets on along the schedule, and is answered as the schedule says |
| XdpFilter.Filter.Drive | bpf/xdp_filter.bpf.c:178-233 | Any schedule of packets, additions and ticks: each table is that of its own operations, each source's bucket that of its own packets and the tables they met, and every packet and addition is answered accordingly |
| XdpFilter.DrivenRateLimit | bpf/xdp_filter.bpf.c:178-233 | End to end: of the verdicts given over any schedule, at most 1000 + ceil((b - a) / 1 ms) pass packets of one source in any window [a, b] |
| XdpFilter.DrivenBlock | internal/filter/filter.go:69-99 | End to end: an accepted block of an address drops its packets until it expires, whatever else the schedule does, short of blocking the same address for less or sweeping behind that time |
| XdpFilter.DrivenBlockExactly | internal/filter/filter.go:69-99 | End to end: such an address is answered with a drop up to the expiry and with the verdict of the rate limiter behind it |
| XdpFilter.AcceptedIff | internal/filter/filter.go:69-99 | An addition is accepted if and only if its network is well-formed, not IPv4-mapped, no longer than an address, and stored already or short of the bound of 1024 |
| Qpack.ExecuteKeepsMirror | internal/http3_sniffer/http3_sniffer.go:486-506 | One valid encoder instruction keeps the bounded table the suffix of the mirror, whatever it evicts |
| Qpack.MirrorRefines | internal/http3_sniffer/http3_sniffer.go:241-263 | For every valid instruction sequence the append-only table has the bounded, evicting table of RFC 9204 as its suffix |
| Qpack.UnresolvedDropped | internal/http3_sniffer/http3_sniffer.go:491-506 | An instruction with a reference outside its table inserts nothing |
| Qpack.ResolveAgrees | internal/http3_sniffer/http3_sniffer.go:223-239 | References the bounded table resolves are resolved to the same pair; the two differ exactly on references to evicted entries |
| Qpack.ResolveIsFixed | internal/http3_sniffer/http3_sniffer.go:233-238 | With a fixed base, later inserts never change what a reference resolves to |
| H3Pending.NoFieldLost | internal/http3_sniffer/http3_sniffer.go:265-337 | Under every interleaving of the critical sections, emitted then pending fields of a connection are exactly the appended ones, in order; the same for requests |
| H3Pending.ExtractedNeverChanges | internal/http3_sniffer/http3_sniffer.go:317-335 | In the model, what was taken out for emission is never changed by later steps (for the heap objects: `TakenFixed`) |
| H3Pending.AppendKeepsBaseIff | internal/http3_sniffer/http3_sniffer.go:531-538 | Appending a field keeps one base per response if and only if the current base is still the one its name was resolved with |
| H3Pending.InsertionSplitsBase | internal/http3_sniffer/http3_sniffer.go:531-538 | Counterexample: an insertion between reading the base and appending; two fields naming the newest entry get different names in one response |
| H3Pending.WholeHandlersUseOneBase | internal/http3_sniffer/http3_sniffer.go:510-543 | With event handlers run whole, all fields of a pending response use one base |
| H3Idle.AppendPostpones | internal/http3_sniffer/http3_sniffer.go:286-322 | Right after a field at `now`, its response is idle at `at` if and only if `at - now` is at least 50 ms |
| H3Idle.FlushTakesIff | internal/http3_sniffer/http3_sniffer.go:310-331 | Over any run, a tick takes a pending response if and only if its last field is 50 ms old, and keeps it as it is otherwise |
| H3Idle.ReportedWhole | internal/http3_sniffer/http3_sniffer.go:274-331 | A response whose fields and ticks leave no gap of 50 ms is taken out in one piece: its entry holds every field appended since nothing was pending |
| H3Idle.OwnerKept | internal/http3_sniffer/http3_sniffer.go:274-288 | A pending response keeps the base and client address of its first field, and has the process of its last |
| H3Tracker.Tracker.Resolve | internal/http3_sniffer/http3_sniffer.go:223-239 | Static and dynamic look-up with its range checks |
| H3Tracker.Tracker.OnTableEvent | internal/http3_sniffer/http3_sniffer.go:484-507 | One table event takes the model's step; an unresolved reference changes nothing |
| H3Tracker.Tracker.ReadCurrentBase | internal/http3_sniffer/http3_sniffer.go:265-272 | The base of the pending response, or the table length |
| H3Tracker.Tracker.ResolveField | internal/http3_sniffer/http3_sniffer.go:533-538 | The name at that base, or the marker for an unresolved one |
| H3Tracker.Tracker.AppendRespField | internal/http3_sniffer/http3_sniffer.go:274-288 | Takes the model's step on the heap: appends to the pending entry of that connection, created with the current table length as base, and stamps it with the time (`AppendPostpones`); entries taken out stay as they are and new entries are new objects |
| H3Tracker.Tracker.OnRespEvent | internal/http3_sniffer/http3_sniffer.go:530-538 | One response event, its three sections run in a row, is the model's whole handler |
| H3Tracker.Tracker.AppendReqField | internal/http3_sniffer/http3_sniffer.go:290-300 | The same for requests |
| H3Tracker.Tracker.TakeReqFields | internal/http3_sniffer/http3_sniffer.go:302-308 | Takes the connection's entry out, if there is one, with the value it had; the other entries stay where they are |
| H3Tracker.Tracker.FlushIdleResponses | internal/http3_sniffer/http3_sniffer.go:310-337 | Takes out exactly the responses idle for the limit, each once with the value it had, and leaves the heap where the model is |
| H3Tracker.Tracker.EmitOldest | internal/http3_sniffer/http3_sniffer.go:448-453 | Emits the message built from the fields the entry had when it was taken out; none if it has no fields |
| H3Tracker.Tracker.TakenFixed | internal/http3_sniffer/http3_sniffer.go:317-335 | Whatever sections ran in between, an entry that had been taken out is as it was |
| H3Tracker.Tracker.HeapConserves | internal/http3_sniffer/http3_sniffer.go:265-337 | At every moment of every schedule, the fields of the entries taken out for a connection, followed by those of its pending entry, are exactly the appended ones |
| H3Tracker.Tracker.EmitRequest | internal/http3_sniffer/http3_sniffer.go:409-415 | The request reported is built from all fields the pending entry had when it was taken out; none without an entry or without fields |
| H3Tracker.Tracker.Drive | internal/http3_sniffer/http3_sniffer.go:302-453 | Any schedule of sections runs on the heap and stays where the model is; entries taken out keep their values throughout; the replies and requests reported are exactly the messages of what the model emits and takes, in order |

## Left out

- eBPF loading, probe attachment, ring-buffer reading, binary record decoding, clocks, logging, printing, process start: I/O and kernel calls. Events, times and addresses are parameters.
- `bpf/ssl_hook.bpf.c`, `bpf/http3_headers.bpf.c`: probe glue that depends on nginx's memory layout.
- HPACK itself: an opaque deterministic function from state and block to state and fields or error; its table-size limits (internal/parser/http2.go:111-112) are part of that function.
- `internal/analysis`, `internal/masking`, `internal/logger`, body decoding: what happens to a message after it was rebuilt, the blocking decision included.
- `Poisoned`, `PoisonReason` and the once-only poison log: read-only reporting.
- Capacity management of the HTTP/2 buffer (internal/parser/http2.go:225-230) and the length test that cannot fail (internal/parser/http2.go:204-207).
- Text beyond ASCII in HTTP/1 headers (the round trips require ASCII headers): lower-casing and trimming treat only ASCII letters and blanks; the same for blanks in number reading.
- `fmt.Sscanf` is modelled for `%d` and `%x` on one line of text: blanks, sign, digits, overflow as an error.
- Http1Wire.DrainSerialised: whole wire strings of at most the largest machine integer; beyond that the length computations of the code overflow.
- SnifferResponses.ResponseStream: says nothing of HTTP/1 connections where bytes follow the head of a response that ends with the connection, because such a response takes whatever is buffered and the cuts then decide (`ResponsesAnyCutIff`: this is the exact condition).
- SnifferResponses.WholeRequestStream: says nothing of bytes with a length that makes a parser panic, because the panic ends the process, nor of HTTP/1 bytes behind the head of a response that ends with the connection, because the cuts decide what is parsed there.
- Sniffer.EventLoop.Turn: `isReq` and the close marker are decoded fields of the record; a read of direction close is the `Close` record.
- RateLimit.Limiter.CheckRateLimit: one packet is one atomic step, the map never evicts, and the clock does not go back; multi-CPU races on one bucket and LRU eviction are not modelled, and the bounds are not claimed with them.
- XdpFilter.CleanupExpired: the iteration and the deletions are one step; iterator and delete errors, which are only logged, do not occur.
- XdpFilter.Filter.AddBlocked: starts from the parsed network; parsing CIDR text is a library call. Replacing a key of a full table succeeds, which older kernels refuse.
- Packet parsing in `filter` is reduced to whether the frame is long enough and which source it names.
- QPACK: the contents of the static table are a parameter; indexes are unbounded integers. The look-up and the insertion of one table event are one step, since the table loop is the only writer.
- H3Tracker.Tracker.Drive: a section is one method call; the mutex that makes it atomic is not modelled.
- `splitHostPort`, `pidTid`, `keyIPString`, `key6IPString`, `DumpMap`: small formatting helpers.
