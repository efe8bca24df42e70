# Verified model of the GenieClaw runtime's core algorithms

This project models, in Dafny, the parts of the GenieClaw home assistant whose correctness is
hardest to see by reading one function: the Telegram dispatcher and its self-retiring chat
drivers, the streaming HTTP/1.1 readers and writers, the lock that serializes chat turns, the
session registry, the backward log reader, the conversation store, and the two fingerprints
(SHA-256 and FNV-1a). Run `dafny verify dfyconfig.toml` to check everything.

## The modules

- `ChatDrivers`, `ChatDriverSafety`, `ChatDriverService`, `ChatDriverProgress`: the dispatcher and drivers as a
  transition system (program counter, driver generations, inboxes, gate queues, sender map),
  its inductive invariant, what it gives for every run, whose messages are served, and why the
  dispatcher never deadlocks.
- `SplitMessage`: cutting a reply into Telegram-sized chunks.
- `Bytes`, `ByteLaws`, `ByteSource`: byte strings, what their operations mean character by
  character, and a byte stream that arrives in arbitrary pieces.
- `HttpRequest`, `HttpRequestLayout`, `HttpRequestRefusals`, `RequestRoundTrip`,
  `RequestTruncation`: the servers' request reader, exactly which byte strings it accepts, with
  which error it refuses others, the round trip with the client's writer, and requests cut short.
- `ChunkedBody`, `ChunkSizes`, `ChunkTruncation`, `HttpResponse`, `ResponseHeaders`,
  `ResponseFraming`: the bounded client's chunked decoder and response reader, each loop proved
  against a function of the whole stream, what its header fields decide, and bodies cut short.
- `GrowingBuffer`, `ScratchDecoder`, `ProbeResponse`, `ProbeDeliveries`, `ProbeReplies`: the
  buffering client's readers, every result that deliveries of the same bytes can lead to, and
  which body a reply has.
- `ResponseRoundTrip`, `ResponseReadersAgree`, `ResponseTexts`: the server's rendered response
  read back by either client, and its text.
- `ChatTurnGate`, `ChatTurnHistory`: the turn lock with bounded waiting, cancellation and
  liveness counters, and what they say of the steps of a run.
- `SessionRegistry`: LRU plus idle expiry, its exact contents, and the inclusion property.
- `JsonlTail`: the chunked reverse scan, and the log that was written read back.
- `CharBoundary`, `ConversationRows`, `ConversationStore`, `ConversationLaws`: the two tables,
  batch against stepwise writes, reads of what was written, pruning against windowed reads, and
  cutting a title between characters.
- `Sha256`, `Sha256Constants`, `Sha256Example`, `Primes`, `StableHash`: the digest loops against
  the recursive definition in FIPS 180-4, where its constants come from, the published digest of
  "abc", and what FNV-1a tells apart.

Readers and stores are classes and methods with loops, proved against specification functions;
the lemmas are about those functions. The two concurrent protocols are state machines whose
steps are the atomic stretches of code between two awaits.

## What turned out false, and exactly when it holds

- **Telegram: no message is lost.** `serve_channel` ends on a failed reply
  (crates/genie-core/src/channel/serve.rs:40-47), which drops the driver and whatever its inbox
  holds. `ChatDriverProgress.FailedReplyDropsTheQueue` gives such a run;
  `ChatDriverSafety.NothingDroppedIff` shows the claim holds if and only if no reply failed while
  letters were queued behind it. Order, single delivery and non-overlap hold on all runs.
- **`waiters` is exact.** The counter saturates at 2^32 - 1: `ChatTurnGate.WaitersExactIff`, and
  `ChatTurnGate.CounterOverflows` for a run that gets there.
- **A truncated message is refused.** A request without a body that lacks only its last line feed
  is accepted when the peer closes (`RequestTruncation.CutRequest`), and a chunked body counts as
  whole from its final "0" on (`ChunkTruncation.CutBody`). Every other cut is refused, and neither
  is ever taken for a different message.
- **Chunked decoding is independent of fragmentation.** The scratch-buffer decoder tests its cap
  only while it waits for bytes, so a body close to the cap is refused in some deliveries only;
  `ScratchDecoder.EveryDeliveryIff` gives the exact condition, `ScratchDecoder.DeliveriesIff` for
  any bytes.
- **Response round trip through the buffering client.** The cap also bounds the buffer while the
  header section is still incomplete, so a long header section is refused in some deliveries
  only; `ResponseRoundTrip.RoundTripIff` gives the exact condition.
- **Capping is invisible to readers.** Only up to the cap: `ConversationStore.RecentUnchangedIff`,
  `ConversationStore.CapNoticed`.
- **An appended message is shown last.** Only if the clock did not go back:
  `ConversationStore.AppendedLastIff`, `ConversationStore.ClockWentBack`.

Code and comments differ in these places, and the model follows the code. `max_header_count` is
tested before the terminator is read, so a request with exactly that many headers is already
refused. Header lines without a colon count bytes but not headers in requests. A stream that
closes right after a lone carriage return counts as having ended its header section. Numbers may
start with `+`, as Rust's parser allows. The first chunk of a message that is cut is empty exactly
when the text is white space up to its first cut (`SplitMessage.FirstChunkEmptyIff`).

## Assumptions

- Code between two awaits is atomic: the runtime is single-threaded. Tokio's `Mutex` is FIFO and
  `timeout` polls the wrapped future before its timer.
- A fresh driver's empty inbox takes the handed-back message at once, as the source comments say.
- The Bot API returns updates in ascending order, none below the requested offset. The offset
  starts at 0 here; the backlog skipped at start-up is not modelled.
- A handled turn counts as handled even when its reply could not be delivered.
- Text is bytes in the HTTP and storage modules (white space and case are ASCII's), and Unicode
  characters in `SplitMessage`.
- A read deadline is a stream that ends in a `Timeout` fault.
- SQLite enforces the foreign key (the bundled library does), a transaction is one atomic step,
  and a new row's id is one above the largest in the table.

## Model

| member | source | states |
|---|---|---|
| ChatDriverSafety.StructureKept | crates/genie-core/src/telegram.rs:147-207 | every step keeps: open drivers are the mapped ones, each gate queue holds exactly the parties that want it, a driver queued to retire has at most one letter, an ended driver has none |
| ChatDriverSafety.InvKept | crates/genie-core/src/telegram.rs:178-206 | every step keeps the whole invariant, including each chat's accounting equation and the order of update ids |
| ChatDriverSafety.InvAfter | crates/genie-core/src/telegram.rs:147-219 | the invariant holds in every reachable state |
| ChatDriverSafety.EveryLetterInOnePlace | crates/genie-core/src/telegram.rs:178-206 | in every reachable state a chat's wanted messages are, in order and each once, those settled, then those its open driver holds, then the one in the dispatcher's hand |
| ChatDriverSafety.OneOpenDriver | crates/genie-core/src/telegram.rs:238-271 | at most one driver of a chat has not ended (so no two handle turns at once), its sender is the one in the map, ended drivers hold nothing, inboxes never exceed 64 |
| ChatDriverSafety.SettledInOrderOnce | crates/genie-core/src/telegram.rs:139-146 | over all driver generations a chat's messages settle in strictly ascending update order, hence none twice |
| ChatDriverSafety.DisconnectNeverEnabled | crates/genie-core/src/telegram.rs:299-300 | `recv` never sees its senders gone: an open driver's sender is always in the map |
| ChatDriverSafety.NoneLostIff | crates/genie-core/src/channel/serve.rs:40-47 | a chat's messages were all handled if and only if no reply failed over a non-empty inbox |
| ChatDriverSafety.NothingDroppedIff | crates/genie-core/src/telegram.rs:186-195 | the no-loss claim of the comments holds if and only if no reply failed while letters were queued behind it |
| ChatDriverService.EveryUpdateSeen | crates/genie-core/src/telegram.rs:149-157 | every update polled is looked at once, in order, and none is passed over |
| ChatDriverService.ServedIff | crates/genie-core/src/telegram.rs:155-178 | the messages dispatched are exactly those of the updates seen that carry one, not from a bot, and whose chat is allowed or all chats are; their ids ascend, and the next poll asks for what follows the last update seen |
| ChatDriverService.NothingElseServed | crates/genie-core/src/telegram.rs:178-206 | whatever is settled, held by a driver or in hand was dispatched |
| ChatDriverService.RoomForSixtyFour | crates/genie-core/src/telegram.rs:239-239 | a send waits exactly while 64 letters are in the inbox |
| ChatDriverService.PollForgets | crates/genie-core/src/telegram.rs:151-155 | a poll forgets the chats whose drivers have ended, and only those |
| ChatDriverProgress.FailedReplyDropsTheQueue | crates/genie-core/src/channel/serve.rs:40-47 | a concrete run in which a second message is lost because the first reply failed |
| ChatDriverProgress.FullInboxNeverAtGate | crates/genie-core/src/telegram.rs:297-329 | a driver waiting on its gate holds at most one letter, so a full inbox's driver is never waiting for the gate the dispatcher holds |
| ChatDriverProgress.NeverStuck | crates/genie-core/src/telegram.rs:189-192 | whenever the dispatcher holds a letter, its send can complete or fail at once, or the driver it waits for has an enabled step |
| ChatDriverProgress.WorkOnlyShrinks | crates/genie-core/src/telegram.rs:297-329 | while a letter is being delivered, each step of that driver lowers a bounded measure and no other step raises it |
| ChatDriverProgress.DeliveryReachable | crates/genie-core/src/telegram.rs:189-206 | from every reachable state with a letter in hand, at most three steps of the dispatcher and that driver deliver it |
| ChatDriverProgress.HeldLettersMove | crates/genie-core/src/telegram.rs:317-340 | a letter an open driver holds can always be handled or taken into a turn; retirement cannot strand it |
| ChatDriverProgress.ChatCatchesUp | crates/genie-core/src/telegram.rs:178-206 | from every reachable state at most 132 steps without new updates or failures settle everything a chat was owed, in order; all of it is then handled if and only if no reply had failed over a queue |
| ChatDriverProgress.EveryQuietRunSettles | crates/genie-core/src/telegram.rs:178-206 | however the send and the drivers are scheduled, a run without new updates and failures is bounded by a measure of its first state, and where it cannot go on everything wanted of every chat has settled, in order; it was all handled if and only if no reply had failed over a queue |
| SplitMessage.Cut | crates/genie-core/src/telegram.rs:1148-1165 | the cut is at the last newline of the first 4096 characters, else their last space, else after all of them, and never at 0 |
| SplitMessage.CutUnique | crates/genie-core/src/telegram.rs:1159-1165 | that description determines the cut |
| SplitMessage.ChunksFit | crates/genie-core/src/telegram.rs:1139-1171 | every chunk has at most 4096 characters and every chunk after the first is non-empty |
| SplitMessage.FirstChunkEmptyIff | crates/genie-core/src/telegram.rs:1165-1166 | the first chunk of a text that is cut is empty if and only if all before the cut is white space |
| SplitMessage.ChunksTight | crates/genie-core/src/telegram.rs:1166-1167 | each chunk of a cut text but the last is free of white space at both ends; the last is too, or is the end of the text left uncut |
| SplitMessage.ChunksStart | crates/genie-core/src/telegram.rs:1166-1167 | no chunk of a cut text starts with white space |
| SplitMessage.SpaceIff | crates/genie-core/src/telegram.rs:1166-1167 | white space is the 25 code points that Unicode lists |
| SplitMessage.ChunksCover | crates/genie-core/src/telegram.rs:1147-1168 | the chunks are consecutive pieces of the message with only white space between them |
| SplitMessage.CoversPrintable | crates/genie-core/src/telegram.rs:1139-1171 | pieces that cover a text hold exactly its non-white-space characters, in order |
| SplitMessage.SplitLong | crates/genie-core/src/telegram.rs:1144-1170 | the loop terminates and computes the recursive split |
| SplitMessage.Split | crates/genie-core/src/telegram.rs:1139-1171 | all of the above for every message: at most 4096 characters come back whole, longer ones in chunks of at most 4096 |
| ByteSource.Source.ReadLineBounded | crates/genie-common/src/http.rs:543-582 | for every fragmentation, the next line of the whole stream with its line feed, or too long, or how the stream ended; never holds more than the limit |
| ByteSource.Source.ReadExactly | crates/genie-common/src/http.rs:319-323 | for every fragmentation, exactly the next n bytes or the stream's end |
| HttpRequest.ReadHeaderSection | crates/genie-common/src/http.rs:263-312 | the header loop equals the whole-stream parse for every fragmentation, with the remaining header budget as its termination measure; whether it accepts or refuses, headers and current line together never exceed their two ceilings |
| HttpRequest.ReadRequest | crates/genie-common/src/http.rs:240-335 | for every fragmentation the reader gives the whole-stream parse's answer and leaves exactly the bytes after it; accepted or refused, it never holds more than the sum of the ceilings |
| HttpRequest.RequestBounded | crates/genie-common/src/http.rs:88-102 | verb and path together stay below the request-line limit, header text under its ceiling, header count below its limit, and the body has its declared, capped length |
| HttpRequest.HeadersBounded | crates/genie-common/src/http.rs:268-312 | gathered header names and values never exceed the header byte ceiling |
| HttpRequestLayout.HeadersHaveLayout | crates/genie-common/src/http.rs:268-312 | a parsed header section is non-blank lines up to the first blank one, each read and folded in order |
| HttpRequestLayout.ParsesIff | crates/genie-common/src/http.rs:240-335 | the reader succeeds on exactly the byte strings laid out as request line, good header lines, blank line and body, where the headers are the lines' lower-case trimmed names and trimmed values, none of them a transfer coding, at most one a length, which is a number, and the body has that length; and it consumes exactly these |
| HttpRequestLayout.ParsedIsAllowed | crates/genie-common/src/http.rs:289-309 | an accepted request holds no non-empty "transfer-encoding" and at most one "content-length"; its length is the number that one writes, or 0 |
| HttpRequestRefusals.FirstLineRead | crates/genie-common/src/http.rs:248-261 | a request line over its limit and one of fewer than two words are refused, each with its own error |
| HttpRequestRefusals.NextLineRefused | crates/genie-common/src/http.rs:268-309 | after any good start, the next line is refused as too long, as one too many bytes, as a transfer coding, as a second or unreadable length or as one header too many, each with its own error |
| HttpRequestRefusals.SectionCutShort | crates/genie-common/src/http.rs:279-282 | a stream that ends before the blank line is refused as closed, or with its fault |
| HttpRequestRefusals.BodyRefused | crates/genie-common/src/http.rs:316-325 | a declared body over the limit is refused unread; one cut short fails the read |
| RequestRoundTrip.WriteRequest | crates/genie-common/src/probe.rs:424-447 | the writer's text, spelled out: method, path and "HTTP/1.1", Host, each of the caller's fields, Content-Length exactly when there is a body, "Connection: close", an empty line and the body |
| RequestRoundTrip.FitsIff | crates/genie-common/src/http.rs:88-102 | a written request fits exactly when the lengths of its line, its fields and their number are within the limits, computed from the caller's arguments |
| RequestRoundTrip.SectionReads | crates/genie-common/src/http.rs:263-312 | a rendered header section reads back as its stored fields exactly when it fits the limits |
| RequestRoundTrip.AcceptFields | crates/genie-common/src/http.rs:289-309 | the writer's fields are all accepted, names lowercased and values trimmed, with the length declared once |
| RequestRoundTrip.RoundTrip | crates/genie-common/src/probe.rs:424-447 | a written request reads back, exactly when it fits the limits, as its method and path, the headers "host", the caller's in order (names in lower case, both parts trimmed), "content-length" exactly when there is a body and "connection: close", and the body (an empty one becoming none); otherwise it is refused |
| RequestRoundTrip.ReadRendered | crates/genie-common/src/http.rs:240-335 | the same end to end, for every fragmentation, with nothing left over |
| RequestTruncation.CutText | crates/genie-common/src/http.rs:263-325 | any request that parses, no header line of which starts with a carriage return, is refused wherever it is cut, except that one without a body may lack its last line feed at the end of the stream and is then the same request |
| RequestTruncation.CutRequest | crates/genie-common/src/probe.rs:424-447 | the same of the request the client writes |
| ChunkedBody.ReadChunkedResponseBody | crates/genie-common/src/http.rs:484-531 | for every fragmentation the buffered decoder equals the whole-stream decoding and leaves what follows |
| ChunkedBody.DecodedWithinCap | crates/genie-common/src/http.rs:512-514 | a decoded body never exceeds the body cap (at the cap `usize::MAX`, for data no longer than it) |
| ChunkedBody.DecodeInvertsEncode | crates/genie-common/src/http.rs:484-531 | for any list of chunks decoding the encoding gives their concatenation exactly when it fits the cap, else refuses it |
| ChunkTruncation.CutBody | crates/genie-common/src/http.rs:484-531 | an encoding cut before its final "0" is refused; cut after it, it decodes to the whole body if the peer closed and is refused if the read failed |
| ChunkTruncation.CutResponse | crates/genie-common/src/http.rs:390-479 | of a chunked response cut in its body the bounded client reports the whole body or an error, by the same condition |
| ChunkSizes.EncodedText | crates/genie-common/src/http.rs:484-531 | an encoding is each chunk's hexadecimal size, CRLF, its bytes and CRLF, then "0" and two CRLFs |
| ChunkSizes.SizeReads | crates/genie-common/src/http.rs:499-501 | a size line of digits in either case, white space around them and any extension after a semicolon announces the number the digits denote, unless it exceeds 64 bits |
| ChunkSizes.SizeLineLimit | crates/genie-common/src/http.rs:482-501 | a size line of more than 32 bytes is refused as too long, and one within it that holds no size as malformed |
| ScratchDecoder.ReadChunkedBody | crates/genie-common/src/probe.rs:345-401 | for every fragmentation the loops give the whole stream's result, or a refusal where the bytes allow one: a size line over the cap, or a chunk that with the body before it leaves no byte of the cap unused |
| ScratchDecoder.DeliveryResult | crates/genie-common/src/probe.rs:355-357 | a delivery leads to the whole stream's result or to such a refusal, whatever was already read and however the rest arrives |
| ScratchDecoder.DeliveriesIff | crates/genie-common/src/probe.rs:345-401 | for a decoder that starts with any bytes already in its scratch buffer, both really happen: the results are exactly the whole stream's and, where the bytes allow one, a refusal |
| ScratchDecoder.WholeInvertsEncode | crates/genie-common/src/probe.rs:345-401 | the whole stream's result on an encoding is the chunks' concatenation unless some chunk exceeds the cap, and when no delivery of it is refused |
| ScratchDecoder.EveryDeliveryIff | crates/genie-common/src/probe.rs:345-401 | every delivery of an encoding returns the body if and only if every size line fits the cap and a body with chunks leaves at least one byte of the cap unused |
| ScratchDecoder.WholesAgree | crates/genie-common/src/http.rs:484-531 | when both whole-stream decodings succeed they give the same body |
| ScratchDecoder.DecodersAgree | crates/genie-common/src/probe.rs:345-401 | whenever both decoders succeed on the same bytes, in whatever fragments either got them, they return the same body |
| HttpResponse.ReadHeaders | crates/genie-common/src/http.rs:412-450 | the response header loop equals the whole-stream gathering for every fragmentation |
| HttpResponse.ReadResponse | crates/genie-common/src/http.rs:390-479 | for every fragmentation the bounded client gives the whole-stream parse's answer, with a body within the cap (at the cap `usize::MAX`, for streams no longer than it) |
| HttpResponse.ReadToCap | crates/genie-common/src/http.rs:465-475 | an undelimited body is the rest of the stream unless it exceeds the cap or the stream fails first |
| HttpResponse.BodyWithinCap | crates/genie-common/src/http.rs:452-476 | chunked, delimited or not, the body stays within the cap (at the cap `usize::MAX`, for data no longer than it) |
| ResponseHeaders.FieldNoted | crates/genie-common/src/http.rs:433-449 | any field's line, a transfer coding in any letter case included, has exactly the effect its name and value ask for |
| ResponseHeaders.SectionGathered | crates/genie-common/src/http.rs:417-450 | any header section is gathered field by field exactly when it fits the limits |
| ResponseFraming.GatheredMeans | crates/genie-common/src/http.rs:440-449 | a section is taken as chunked if and only if some "transfer-encoding" mentions "chunked", in any letter case; the length gathered is that of the last "content-length", if it writes a number |
| ResponseFraming.ResponseMeans | crates/genie-common/src/http.rs:390-479 | a status line, any fields, an empty line and any content: the client gives the status with the chunked body if some field asks for it, else as many bytes as the last length says, else all of the stream, each within the cap, and refuses a section over its limits |
| ResponseFraming.ChunkedResponse | crates/genie-common/src/http.rs:452-453 | an encoded body under fields that ask for chunked coding comes back as the concatenation of its chunks, whatever length is declared too, exactly when section and body fit |
| ResponseFraming.LengthResponse | crates/genie-common/src/http.rs:454-463 | without such a field exactly the declared number of bytes comes back, exactly when it fits |
| ResponseFraming.OpenResponse | crates/genie-common/src/http.rs:464-476 | without either all of the stream comes back, exactly when it fits and the stream ends well |
| ProbeReplies.StatusOfIs | crates/genie-common/src/http.rs:405-410 | the status is the number of at most 16 bits that the second word of the line writes, and 0 when it writes none |
| ProbeResponse.ReadFixedBody | crates/genie-common/src/probe.rs:323-343 | exactly the declared number of bytes, or how the stream ended, for every fragmentation |
| ProbeResponse.ReadToEof | crates/genie-common/src/probe.rs:304-321 | everything to the end of the stream unless it exceeds the cap, for every fragmentation |
| ProbeResponse.ReadHttpBody | crates/genie-common/src/probe.rs:259-302 | the body the header section calls for (chunked first, then the first declared length, else to the end), as the whole stream gives it, or a refusal as too large |
| ProbeResponse.ReadHttpResponse | crates/genie-common/src/probe.rs:222-257 | for every fragmentation of any bytes, the reply the whole stream stands for, or a refusal as too large |
| ProbeDeliveries.SameReply | crates/genie-common/src/probe.rs:222-302 | two deliveries of the same bytes that both succeed give the same reply |
| ProbeDeliveries.ChunkedReplyIff | crates/genie-common/src/probe.rs:222-302 | end to end, every delivery of a chunked reply gives back its status and trimmed body if and only if the header section is at most cap + 1 bytes, every size line fits the cap and a body with chunks leaves a byte of it unused |
| ProbeReplies.ParseStatusIff | crates/genie-common/src/probe.rs:449-456 | a status is read exactly when the second word writes a number of at most 16 bits, and is that number |
| ProbeReplies.NoStatusRefused | crates/genie-common/src/probe.rs:449-456 | a reply without a status is refused in every delivery |
| ProbeReplies.PlainReply | crates/genie-common/src/probe.rs:259-302 | a reply without a chunked line stands for its status and, trimmed, as many bytes as the first length says or else the whole stream, within the cap |
| ResponseTexts.ChunkedLines | crates/genie-common/src/probe.rs:269-272 | a head with the line "transfer-encoding: chunked", in any letter case, is read as a chunked reply |
| ResponseTexts.LineLengthIff | crates/genie-common/src/probe.rs:414-422 | a line declares a length exactly when its name is "content-length", in any letter case, and its trimmed value writes the number |
| ResponseTexts.FirstLengthIff | crates/genie-common/src/probe.rs:414-422 | the first line that declares a length decides |
| ProbeResponse.HeadEndStable | crates/genie-common/src/probe.rs:230-246 | the first blank line is found at the same offset however the buffer grew |
| ResponseRoundTrip.HeadEndOfSection | crates/genie-core/src/server.rs:870-877 | the first blank line of a rendered message is the one that ends its header section |
| ResponseRoundTrip.TextLinesOfSection | crates/genie-common/src/probe.rs:269-272 | the header text splits back into exactly the rendered lines |
| ResponseRoundTrip.DeclaresLength | crates/genie-common/src/probe.rs:414-422 | the rendered Content-Length line is the first to declare a length, and declares the body's |
| ResponseRoundTrip.StatusReads | crates/genie-common/src/probe.rs:449-456 | the rendered status line reads back as its status |
| ProbeDeliveries.HeadFound | crates/genie-common/src/probe.rs:230-255 | a header section of at most cap + 1 bytes is found in every delivery, with no byte lost |
| ProbeDeliveries.HeadRefused | crates/genie-common/src/probe.rs:248-250 | a longer one is refused when the bytes come one at a time |
| ResponseRoundTrip.AnyDelivery | crates/genie-core/src/server.rs:870-882 | when the header section fits, every delivery gives back the status and trimmed body, or refuses a body over the cap |
| ResponseRoundTrip.RoundTripIff | crates/genie-common/src/probe.rs:222-302 | the round trip holds for all deliveries if and only if the header section is at most cap + 1 bytes and the body at most cap |
| ResponseTexts.ResponseText | crates/genie-core/src/server.rs:870-882 | the response's text, spelled out: status line with its reason, Content-Type, Content-Length, the three fields of an allowed origin, "Vary: Origin", "Connection: close", an empty line and the body |
| ResponseTexts.ClientReasons | crates/genie-core/src/server.rs:2824-2838 | the reason phrases of success and of the client's errors |
| ResponseTexts.ServerReasons | crates/genie-core/src/server.rs:2824-2838 | those of the server's errors and of an oversized header |
| ResponseTexts.OtherReasons | crates/genie-core/src/server.rs:2824-2838 | every other status is "Unknown" |
| ResponseTexts.SpelledRoundTripIff | crates/genie-common/src/probe.rs:222-302 | the round trip stated of that text: it holds for all deliveries if and only if the text's header section is at most cap + 1 bytes and the body at most cap |
| ResponseRoundTrip.ReadRenderedResponse | crates/genie-core/src/server.rs:870-882 | the same end to end through the reader's loops |
| ResponseReadersAgree.BoundedRoundTrip | crates/genie-common/src/http.rs:390-479 | the bounded client gives back status and body, byte for byte, exactly when the response fits its limits |
| ResponseReadersAgree.ReadTwice | crates/genie-core/src/server.rs:870-882 | both clients, each with fragments of its own, report the same status and the same body up to trimming |
| ChatTurnGate.Counters.Admit | crates/genie-core/src/server.rs:525-545 | becoming the holder takes one waiter off once and records the start time |
| ChatTurnGate.Counters.OnTurnComplete | crates/genie-core/src/server.rs:547-554 | completion clears the holder, records the time and counts the turn, saturating |
| ChatTurnGate.Counters.NewWaiterGuard | crates/genie-core/src/server.rs:602-608 | a new guard counts one waiter, saturating |
| ChatTurnGate.Counters.DropWaiterGuard | crates/genie-core/src/server.rs:617-625 | only an armed guard counts its waiter down |
| ChatTurnGate.Counters.TakeSnapshot | crates/genie-core/src/server.rs:556-577 | the health view of the counters at a given time |
| ChatTurnGate.InvAfter | crates/genie-core/src/server.rs:525-545 | over every interleaving of arrivals, admissions, time-outs, cancellations, completions and health reads the queue, admission and counter invariants hold |
| ChatTurnGate.CountersTellTheTruth | crates/genie-core/src/server.rs:547-577 | only the lock's owner is past waiting; `in_flight` holds exactly while it is in its turn; `completed_turns` equals guards dropped |
| ChatTurnGate.WedgedIff | crates/genie-core/src/server.rs:567-576 | `wedged` is reported if and only if a turn has been in flight for at least `wedge_after` |
| ChatTurnGate.EveryArrivalAccounted | crates/genie-core/src/server.rs:595-625 | each arrival is exactly one of parked, admitted, timed out and cancelled, nobody else is any of these, and the lock is granted in order of arrival |
| ChatTurnGate.WaitIsBounded | crates/genie-core/src/server.rs:525-531 | past its budget a parked request has an enabled step, and that step takes it out of the parked for good: admitted when it owns the lock, timed out otherwise |
| ChatTurnGate.EveryoneCanBeServed | crates/genie-core/src/server.rs:525-545 | from every reachable state at most three steps per queued request admit everyone parked, in order, and leave the lock free |
| ChatTurnGate.EveryRunServes | crates/genie-core/src/server.rs:525-625 | however requests are admitted, finished, timed out and cancelled, a run without arrivals takes at most three steps per queued request, and where serving cannot go on the queue is empty, every arrival was admitted, timed out or cancelled, and without time-outs and cancellations everyone parked was admitted, in order |
| ChatTurnGate.WaitersExactIff | crates/genie-core/src/server.rs:595-625 | `waiters` equals the parked requests all along a run if and only if the run never parks more than 2^32 - 1 |
| ChatTurnGate.CounterOverflows | crates/genie-core/src/server.rs:603-607 | a run of 2^32 arrivals after which the counter is wrong |
| ChatTurnHistory.ViewIs | crates/genie-core/src/server.rs:556-577 | at any moment of a run the health view counts the guards dropped, gives the whole seconds since the last drop and since the running turn was admitted, and reports it wedged exactly from `wedge_after` on |
| ChatTurnHistory.TimedOutIff | crates/genie-core/src/server.rs:525-531 | the requests that timed out are those some step of the run timed out, each from behind another |
| ChatTurnHistory.TimedOutWaited | crates/genie-core/src/server.rs:525-531 | a request that timed out had waited at least its whole budget since it arrived |
| ChatTurnHistory.CancelledIff | crates/genie-core/src/server.rs:617-625 | the requests cancelled are those some step of the run cancelled |
| ChatTurnHistory.AdmittedIff | crates/genie-core/src/server.rs:533-545 | the requests admitted are those some step of the run gave the lock to at the head of the queue |
| ChatTurnHistory.WaitingIff | crates/genie-core/src/server.rs:525-545 | a request is waiting if and only if it arrived and no step has admitted it, timed it out or cancelled it |
| SessionRegistry.SessionRegistry.EvictIdle | crates/genie-core/src/session.rs:95-108 | exactly the entries last active before the saturated cutoff go, and their number is returned |
| SessionRegistry.SessionRegistry.OldestKey | crates/genie-core/src/session.rs:112-116 | the first key in key order among the least recently active |
| SessionRegistry.KeyBeforeIff | crates/genie-core/src/session.rs:112-116 | key order is lexicographic: at the first difference the smaller character, or the end of the key, comes first |
| SessionRegistry.SessionRegistry.EnforceCap | crates/genie-core/src/session.rs:110-122 | the oldest entries are removed one at a time until there is room |
| SessionRegistry.SessionRegistry.Track | crates/genie-core/src/session.rs:73-87 | expire, then refresh or make room and insert; the cap holds |
| SessionRegistry.SessionRegistry.Resolve | crates/genie-core/src/session.rs:56-65 | as `track`; the id returned is the key itself, and its entry is of this moment |
| SessionRegistry.WithinCap | crates/genie-core/src/session.rs:73-87 | after any calls the cap holds and each key maps to itself |
| SessionRegistry.NestedAfter | crates/genie-core/src/session.rs:95-122 | caps k and k + 1 on the same calls: a sub-map that lacks at most one entry |
| SessionRegistry.Inclusion | crates/genie-core/src/session.rs:73-122 | on the same calls, with any clock and any ties, a smaller cap holds a sub-map of what a larger one holds |
| SessionRegistry.KeepsMostRecent | crates/genie-core/src/session.rs:56-87 | after any `track`/`resolve` calls with a strictly increasing clock, exactly the cap's worth of most recently used keys last used no earlier than now minus the TTL, each mapped to itself |
| JsonlTail.LinesJoin | crates/genie-common/src/jsonl.rs:48-64 | cutting a file at any newline cuts its list of lines there |
| JsonlTail.ScanNewline | crates/genie-common/src/jsonl.rs:49-60 | meeting a newline backwards turns the gathered bytes into the next kept line, or drops it |
| JsonlTail.ScanChunk | crates/genie-common/src/jsonl.rs:48-64 | one chunk's reverse scan keeps the relation between what is gathered and the forward form, stopping at the limit |
| JsonlTail.TailLines | crates/genie-common/src/jsonl.rs:15-78 | for every content, chunk size and limit: split at newlines, drop empty and over-long lines, take the last `limit`, in file order |
| JsonlTail.WrittenThenRead | crates/genie-common/src/jsonl.rs:15-78 | of a log of fitting rows, each ended by a newline, and a torn last one, reading gives the last `limit` rows written |
| JsonlTail.LongRowSkipped | crates/genie-common/src/jsonl.rs:52-56 | an over-long row is passed over and the rows around it are read all the same |
| CharBoundary.TruncateAtCharBoundary | crates/genie-core/src/conversation.rs:570-578 | the longest prefix within the limit that ends at a boundary |
| CharBoundary.TruncatedKeepsWholeChars | crates/genie-core/src/conversation.rs:568-578 | on encoded characters, truncation keeps exactly those that fit whole |
| CharBoundary.TextTruncated | crates/genie-core/src/conversation.rs:568-578 | a text in UTF-8 is cut to as many of its characters as fit: none is split, and one more would be too many |
| ConversationStore.TitleKeepsWholeChars | crates/genie-core/src/conversation.rs:196-200 | a title is the content, or its first characters that fit whole into 57 bytes and an ellipsis |
| ConversationStore.ConversationStore.Ensure | crates/genie-core/src/conversation.rs:146-158 | adds the conversation unless it exists |
| ConversationStore.ConversationStore.Append | crates/genie-core/src/conversation.rs:161-215 | an unknown conversation is refused with nothing changed; otherwise the old rows are as they were, one row with a greater id holds the conversation, role, text, tool, speaker and time, the first message of role "user" names the conversation, and no other conversation changes |
| ConversationStore.ConversationStore.EnsureAndAppendBatch | crates/genie-core/src/conversation.rs:245-310 | the batch leaves the same two tables as ensuring and then appending each message in order at the same clock reading: one row for each message, in order, as for a single append |
| ConversationStore.AppendedAllSound | crates/genie-core/src/conversation.rs:90-98 | appending keeps ids ascending and every row in a conversation |
| ConversationRows.SortedUnique | crates/genie-core/src/conversation.rs:335-337 | there is one way to put rows in (ts, id) order |
| ConversationRows.NewestInOrder | crates/genie-core/src/conversation.rs:360-365 | selecting newest first with a limit and reversing gives the end of the ordered conversation |
| ConversationStore.ConversationStore.GetMessages | crates/genie-core/src/conversation.rs:331-353 | shows role, content and speaker of the one sequence that is in (ts, id) order and has exactly the conversation's rows |
| ConversationRows.InOrderIff | crates/genie-core/src/conversation.rs:335-337 | the sorted selection is the only sequence in (ts, id) order with exactly the conversation's rows |
| ConversationStore.ConversationStore.GetRecent | crates/genie-core/src/conversation.rs:356-380 | role and content of the last `limit` of them, oldest first |
| ConversationStore.AppendedLastIff | crates/genie-core/src/conversation.rs:335-337 | an appended message is read last if and only if no message of the conversation is newer than the clock |
| ConversationStore.ClockWentBack | crates/genie-core/src/conversation.rs:335-337 | a table and a clock reading for which the appended message is not read last |
| ConversationLaws.AppendThenRead | crates/genie-core/src/conversation.rs:161-215 | append and read: unless a message is newer than the clock, `get_recent(1)` is this role and text, and the last shown is this message with its speaker |
| ConversationLaws.BatchThenRead | crates/genie-core/src/conversation.rs:245-310 | the same for a batch: the newest read and the last shown are its messages, in order |
| ConversationLaws.NewRowsLast | crates/genie-core/src/conversation.rs:335-337 | then the conversation in order is what it was, followed by the new rows |
| ConversationLaws.InTimeOrder | crates/genie-core/src/conversation.rs:335-337 | rows are shown by time, and within one time by id |
| ConversationStore.ConversationStore.PruneOldTurns | crates/genie-core/src/conversation.rs:435-486 | the two passes, in any order of conversations, leave the pruned tables, and the count is the number of rows removed |
| ConversationStore.PruneKeepsWindow | crates/genie-core/src/conversation.rs:422-434 | afterwards each conversation's messages are exactly the last N, in (ts, id) order, of those not older than the cutoff |
| ConversationLaws.PruneIff | crates/genie-core/src/conversation.rs:435-486 | a row survives if and only if it is at most the retention's days of 86 400 000 ms old and fewer than N rows of its conversation that are young enough come after it |
| ConversationStore.PruneKeepsConversations | crates/genie-core/src/conversation.rs:444-453 | pruning by age leaves exactly the conversations with a message left, unchanged; capping alone leaves all |
| ConversationStore.PruneTwice | crates/genie-core/src/conversation.rs:435-486 | pruning again at the same time changes nothing |
| ConversationStore.RecentUnchangedIff | crates/genie-core/src/conversation.rs:455-480 | without age pruning `get_recent(limit)` is unchanged if and only if the limit is at most N, there is no cap, or the conversation was not over it |
| ConversationStore.CapNoticed | crates/genie-core/src/conversation.rs:455-480 | a table whose capping a reader of two messages notices |
| Sha256.Pad | crates/genie-core/src/prompt_sha.rs:46-52 | the loop produces the padded message of section 5.1.1 of FIPS 180-4 |
| Sha256.ZeroCount | crates/genie-core/src/prompt_sha.rs:49-51 | the number of zero bytes is the least that fills up to 56 modulo 64 |
| Sha256.PaddedLength | crates/genie-core/src/prompt_sha.rs:46-54 | a padded message is a whole number of 64-byte blocks |
| Sha256.PaddingInjective | crates/genie-core/src/prompt_sha.rs:46-52 | different messages, of any length, have different padded forms |
| Sha256.Expand | crates/genie-core/src/prompt_sha.rs:55-70 | the in-place schedule equals the recursive message schedule of section 6.2.2 |
| Sha256.Mingle | crates/genie-core/src/prompt_sha.rs:72-95 | the 64 register updates equal the recursive rounds |
| Sha256.Compress | crates/genie-core/src/prompt_sha.rs:54-105 | one block updates the state in place to the next intermediate hash value |
| Sha256.RotrIs | crates/genie-core/src/prompt_sha.rs:60-65 | the standard's shift-based rotation is the machine's, for every distance used |
| Sha256.Sha256Hex | crates/genie-core/src/prompt_sha.rs:41-111 | for every message the loops compute the recursive definition, printed as eight zero-padded words |
| Sha256.NextBlock | crates/genie-core/src/prompt_sha.rs:54-105 | every block is taken once, after all before it |
| Sha256Example.AbcDigest | crates/genie-core/src/prompt_sha.rs:127-130 | the digest of "abc" is the published one |
| Sha256Example.HexTextAt | crates/genie-core/src/prompt_sha.rs:107-111 | the words are printed in order, each as eight lower-case hexadecimal digits that denote it |
| Primes.FirstSixtyFour | crates/genie-core/src/prompt_sha.rs:20-33 | the list the constants are derived from is exactly the primes up to 311, sixty-four of them, in order |
| Sha256Constants.InitialStateDerived | crates/genie-core/src/prompt_sha.rs:20-22 | the initial state is the first 32 fractional bits of the square roots of the first eight primes |
| Sha256Constants.RoundConstantsDerived | crates/genie-core/src/prompt_sha.rs:24-33 | the round constants are those of the cube roots of the first sixty-four primes |
| StableHash.StableHash | crates/genie-core/src/runtime_contract.rs:163-171 | the loop computes the fold of the step over the bytes, printed as sixteen hex digits |
| StableHash.StepBijective | crates/genie-core/src/runtime_contract.rs:167-168 | for every byte a step is a bijection of the 64-bit values |
| StableHash.StepTellsBytes | crates/genie-core/src/runtime_contract.rs:167-168 | from the same value different bytes lead to different values |
| StableHash.FoldInjective | crates/genie-core/src/runtime_contract.rs:166-169 | hashing the same bytes onwards keeps different values different |
| StableHash.CommonSuffix | crates/genie-core/src/runtime_contract.rs:163-171 | a common suffix neither merges nor separates two fingerprints |
| StableHash.OneByteChanged | crates/genie-core/src/runtime_contract.rs:163-171 | inputs of equal length that differ in exactly one byte always have different fingerprints |
| StableHash.XorAt | crates/genie-core/src/runtime_contract.rs:167-167 | a bit of the exclusive or is set exactly when it is set in one of the two numbers |
| StableHash.OfOneLetter | crates/genie-core/src/runtime_contract.rs:163-171 | the hash of "a" is the published FNV-1a value |
| Bytes.PaddedHexInjective | crates/genie-core/src/runtime_contract.rs:170-170 | the zero-padded hexadecimal form determines the number |
| Bytes.ParseFormat | crates/genie-common/src/http.rs:298-300 | printing a number and parsing it gives it back unless it exceeds the type's maximum |
| ByteLaws.ParseUnsignedIff | crates/genie-common/src/http.rs:298-300 | parsing gives a number exactly when the text, after at most one plus sign, is digits that denote it, and it is within the type |
| ByteLaws.PaddedHexIs | crates/genie-core/src/runtime_contract.rs:170-170 | a number that fits is printed in that many lower-case hexadecimal digits that denote it |
| ByteLaws.DigitIs | crates/genie-common/src/http.rs:500-501 | the digits are 0 to 9 and a to f in either case |
| ByteLaws.LowerIs | crates/genie-common/src/http.rs:290-290 | lower case changes the letters A to Z and nothing else |
| ByteLaws.TrimIs | crates/genie-common/src/http.rs:290-291 | trimming takes white space off both ends and nothing else |
| ByteLaws.TrimEolIs | crates/genie-common/src/http.rs:285-285 | trimming a line end takes carriage returns and line feeds off the end and nothing else |
| ByteLaws.WordsAfterSpace | crates/genie-common/src/http.rs:256-260 | white space in front of a text changes none of its words |

## Left out

- Telegram as classes: the dispatcher and its drivers interleave, so their variables are the fields of one state value and each atomic stretch of code is a step on it; in-place update is not captured.
- Telegram polling errors and retries, the notice to unauthorized chats, voice transcription, and the branch for a driver that dies on spawn, which the assumptions above rule out.
- ChatTurnGate.Counters.TakeSnapshot: the all-zero view shown, and the updates skipped, when the counters' mutex is poisoned.
- Conversion of bytes to text: lossy UTF-8 decoding, the UTF-8 check of `read_to_string`, and non-ASCII white space.
- HttpResponse.ReadResponse: at the cap `usize::MAX` the source's `cap + 1` wraps around, which is not modelled, and the body bound is that of the stream's own length.
- HttpResponse.ReadToCap: likewise `cap + 1` does not wrap around.
- HttpResponse.BodyWithinCap: at the cap `usize::MAX` the bound is that of the data's own length.
- ChunkedBody.DecodedWithinCap: at the cap `usize::MAX` the source's saturating sum never exceeds the cap, so the bound is that of the data's own length.
- ScratchDecoder.DeliveriesIff: the client hands the decoder fewer than 1024 bytes already read; which of the two results such a start allows is not said for arbitrary bytes (for encodings `EveryDeliveryIff` and `ProbeDeliveries.ChunkedReplyIff` do).
- ScratchDecoder.ReadChunkedBody: no bound on the total bytes read, since the source tests its cap only while waiting for more; and `chunk_size + 2` does not wrap around.
- RequestTruncation.CutRequest: a caller's header name that starts with a carriage return is excluded, since a cut right after that character reads as the end of the section.
- The conversation store's file, journal mode and checkpoint, I/O failures and the rollback they cause, `create`, `list`, `delete`, `clear_all` and `export_json`.
- ConversationStore.ConversationStore.GetRecent: limits that do not fit in 63 bits, which the database driver refuses.
- JSONL reading while another process appends, and I/O errors.
- Sockets, TLS, subprocesses, model and Home Assistant clients, route tables, origin checks and configuration defaults.
