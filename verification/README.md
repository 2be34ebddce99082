# Verified model of a sans-I/O HTTP/1.1 library

A Dafny model of the parts of the library that hold state across calls or promise that one operation
undoes another, with proofs of those promises. `dafny verify dfyconfig.toml` checks all of it.

The model follows the code: same branches, same limits, same order of checks, same error kinds.
Bytes are integers from 0 to 255; `usize` and `u64` are 64 bits wide, and every `checked_add` is written out.
Code that updates fields or a cursor is a class or a method with loops; each such method equals a function
on values, and the theorems are about these functions and about runs of any length.

## Message streams

- `BodyGrammar` says what a byte stream *means* in each phase of the body decoder: one recursive reading
  of Content-Length bodies and of section 7.1 of RFC 9112, which knows nothing of buffers or calls.
  `BodyDecoder` is the decoder. `BodyRuns` proves that what a caller has received, followed by the
  meaning of what is still buffered, is unchanged by every `feed`, `consume_body(len)` and `progress`; hence no
  schedule can be observed, and what a run that has come to rest has delivered is what the whole stream means.
  `ChunkExt` is the chunk-extension scanner, proved sound and complete for a grammar of parse trees.
- `Framing` holds the Content-Length and Transfer-Encoding rules; `MessageGrammar` is the meaning of a
  stream of messages; `MessageDecoder` is the decoder. The two decoders of the library are written
  separately but are one machine: they differ in the start line, the framing rule, the announced request method and
  close-delimited bodies, so one class models both and a `Side` selects the start line. `MessageRuns` proves that
  pipelined messages do not depend on fragmentation, on the way bytes enter (`feed`, or `mut_buf` and
  `advance_buf` with abandoned reservations; `Buffer`), or on when `decode` is called. `MessageStreams` proves the same of
  the streaming calls, trailers and announced methods included, and that both see the same messages. `MessageMixes` mixes
  the two: some limits hold whatever is called, and the limit on the bodies that `decode` collects holds in every run that
  avoids one call, which it names.
- `ChunkWriter` and `Encoder` are the writers. `EncoderRoundTrip` proves that the decoder reads what the
  encoder writes, and, together with `MessageRuns`, that any number of encoded messages survive any fragmentation. `Trailers`
  proves the same of the trailer fields behind a chunked body.
- Encoder and decoder, and a loop and the function it is proved against, share definitions; what these say is stated apart from
  them. `HeadLines` says from which texts a field line, a start line, a status code and a list element are read; `EncoderLaws`
  which messages are accepted, which statuses have no body, and what HEAD and CONNECT do to a response.

## Multipart

`Multipart` is the parser with its remembered scan offset and lazy drain; every call equals a naive
parser that rescans the unconsumed bytes. Ghost counters in its invariant bound the work. `MultipartRuns` covers every
interleaving of `feed` and `next_part` and proves for which bodies fragmentation cannot be observed, as an equivalence;
`MultipartBuilder` proves the round trip, and that any text of the standard's form is read, with preamble, padding and epilogue.

## URI references

`DotSegments` relates the cursor and segment stack to the rewriting of section 5.2.4 of RFC 3986. `Uri`
is the offset-based parser and recomposition; `UriResolve` the guards and resolution; `ResolveLaws` says, text for text, what
each kind of reference keeps of the base; `UriNormalize` is normalization, what it changes and what it keeps.

## Codecs

`Base64` links a block encoder to a bit-accumulator decoder; `AuthParams` a printer to a cursor parser,
which `AuthGrammar` proves sound and complete for a grammar of syntax trees. `Alphabets` compares
every set of characters, name and number of the model with the text the standards print.

## What the code does that a reader may not expect

- Decoder errors are not sticky: the size line of a chunk is drained before the size is found too large
  (`BodyRuns.ErrorsAreNotSticky`). All run theorems speak of a run up to its first error.
- An empty slice given to `encode_chunks` is written as the last chunk and ends the body (`ChunkWriter.ChunkRoundTrip` is an
  equivalence).
- The comment on `mark_eof` says that the rest of the buffer becomes part of the body. The code leaves it in the buffer;
  `MessageRuns.EndOfConnection` states that the body is whole exactly when the buffer is empty.
- If `decode` waits inside a body, the streaming calls complete that body, and `decode_headers` is called before `decode` has
  handed the message out, then `decode` goes on collecting for the head it holds: the next body is added to the old one,
  past max_body_size. `MessageMixes.UndisciplinedExample` is such a run, `MessageMixes.UndisciplinedExactly` says when the
  limit breaks, and `MessageMixes.DisciplinedRunFits` that nothing else breaks it.
- A multipart delimiter followed by junk hides its part when both arrive together and does not when the junk
  arrives later. `MultipartRuns.FragmentationIndependence` states that this is the only thing that can be observed,
  `MultipartBuilder.JunkExample` a body for which it is.
- A request method that is announced between two streamed responses is cleared on the way to the next head
  (`MessageStreams.AnnouncementIsLost`, `MessageMixes.AnnouncementGoverns`); between two calls of `decode` it is not.
- A Transfer-Encoding field without elements is no coding: next to it a Content-Length counts
  (`MessageGrammar.EmptyCodingCountsForNothing`).
- `resolve` can fail on two valid references when the base has no scheme (`UriResolve.DotVanishes`).
- A request without a body but with "Content-Length: 0" comes back with an empty body (`EncoderRoundTrip.PlainRequestArrives`).
- `normalize` fails on "." because nothing is left to parse (`UriNormalize.DotHasNoNormalForm`), and on its like
  (`UriNormalize.NormalizationFailsOnlyOnNothing`).
- `validate_chunk_ext` accepts white space at the end, which the grammar of RFC 9112 does not have.

## Model

| member | source | states |
|---|---|---|
| ChunkExt.AcceptsExactly | src/decoder/body.rs:590-716 | the greedy scan accepts a text if and only if a parse tree of chunk-ext, with optional trailing BWS, generates it |
| ChunkExt.ValidateChunkExt | src/decoder/body.rs:590-655 | the cursor loop decides membership in that language |
| BodyDecoder.SizeLineExactly | src/decoder/body.rs:388-443 | a size line is accepted with value n exactly when it is hexadecimal digits worth n that fit in a usize, optionally followed by BWS and chunk extensions |
| BodyDecoder.ReadChunkSize | src/decoder/body.rs:386-443 | the cursor code reads the size line that SizeLineExactly characterises |
| BodyDecoder.LocateLine | src/decoder/body.rs:731-733 | the first CRLF, or none |
| BodyDecoder.BodyDecoder.ProcessChunkedSizeInPlace | src/decoder/body.rs:362-471 | new buffer, phase, counters and result of one size line; the line is gone from the buffer also when the size is then refused |
| BodyDecoder.BodyDecoder.ProcessTrailersInPlace | src/decoder/body.rs:477-548 | new buffer, phase, trailers and result of the trailer loop |
| BodyDecoder.BodyDecoder.Consume | src/decoder/body.rs:164-359 | new buffer, phase, counters and result of `consume_body` and `progress` in every phase |
| BodyDecoder.BodyDecoder.Peek | src/decoder/body.rs:119-161 | the bytes on offer: never past the chunk or the announced length |
| BodyRuns.ConsumeAgrees | src/decoder/body.rs:164-359 | a call delivers a prefix of the meaning of the stream and leaves the rest of it, whatever bytes come later |
| BodyRuns.ConsumeBounded | src/decoder/body.rs:184-251 | every call, legal or not, keeps consumed plus remaining within max_body_size and the trailers within their limit; the overflow branches of the sized phases are dead |
| BodyRuns.RunKeepsOutcome | src/decoder/body.rs:119-548 | delivered data followed by the meaning of buffered and future bytes is invariant over every run of feeds, consumes and progress calls |
| BodyRuns.DrainedRunSeesTheStream | src/decoder/body.rs:119-548 | a run at rest has delivered exactly the body, trailers, leftover and first error of the recursive reading of the whole stream |
| BodyRuns.SchedulesAgree | src/decoder/body.rs:119-548 | two schedules of the same stream cannot be told apart |
| BodyRuns.CloseDelimitedLimit | src/decoder/body.rs:312-347 | a close-delimited run at rest succeeds if and only if the stream is within max_body_size, and then delivered all of it |
| BodyRuns.ErrorsAreNotSticky | src/decoder/body.rs:445-464 | a concrete input on which the first call fails and the second reads on behind the size line |
| Buffer.ReserveWriteAdvanceIsFeed | src/decoder/buffer.rs:84-132 | reserving, writing and advancing is feeding; an abandoned reservation leaves no trace |
| Buffer.StepsStayWithinLimit | src/decoder/buffer.rs:25-132 | no step outgrows max_buffer_size |
| Framing.ContentLengthIsUnanimous | src/decoder/body.rs:1333-1386 | the length is n exactly when there is a Content-Length field and every element of every such field is the number n; none exactly when there is no such field |
| Framing.ParseContentLength | src/decoder/body.rs:1333-1350 | the loop over the fields computes the length that ContentLengthIsUnanimous characterises |
| Framing.ParseContentLengthValue | src/decoder/body.rs:1356-1386 | the loop over one list; an empty list is refused |
| Framing.RequestIsChunked | src/decoder/body.rs:1218-1266 | a request is chunked exactly when its Transfer-Encoding fields name one coding in all, "chunked" without parameters |
| Framing.ResponseIsChunked | src/decoder/body.rs:1274-1329 | a response is chunked exactly when the last coding its fields name, and only the last, is "chunked" without parameters, and all others are tokens; likewise for a last coding that is another, and for none |
| Framing.CollectDeclaredTrailers | src/decoder/body.rs:559-581 | the loops collect the elements of all Trailer fields in lower case |
| Framing.TrailerIsDeclared | src/decoder/body.rs:477-548 | a trailer line is accepted exactly when it is a field line, is not banned, and a Trailer field names it, in any case of letters; Trailers.TrailersRoundTrip says what is handed out for it |
| Trailers.TrailersRoundTrip | src/decoder/body.rs:477-548 | chunks, the last chunk, the field lines of any declared and permitted trailers, the empty line and whatever follows: under any schedule a run at rest has delivered the chunks and exactly the trailers, in order, each with its name and its value without the white space around it, and left what follows |
| Trailers.ReceivedIs | src/validate.rs:405-419 | what is received of a field whose value stands between white space is its name and that value |
| Trailers.TrailedMessageRead | src/decoder/request.rs:690-772 | a message whose head declares its trailers is read with its chunks and exactly those trailers |
| Trailers.TrailersAreHandedOut | src/decoder/request.rs:334-687 | an exhausted streaming run over such a message has completed it and logged exactly those trailers |
| HeadLines.HeaderLineExactly | src/decoder/body.rs:743-783 | a line is read as the field (name, value) exactly when it is the name, a token, then ":", then the value with white space around it, a text without control characters; any other line is refused |
| HeadLines.ElementsOfList | src/decoder/body.rs:1356-1363 | the elements of a list are those in front of any of its commas and then those behind it |
| HeadLines.OneElement | src/decoder/body.rs:1356-1363 | a text without comma is one element, without the white space around it, or none if nothing is left |
| HeadLines.StartLineExactly | src/decoder/response.rs:440-497 | the start line that a side reads from a text, as an equivalence: three parts with spaces between them, or a version, a status code and perhaps a reason, no CR or LF, and no objection from the rules |
| HeadLines.StatusCodeExactly | src/decoder/response.rs:471-482 | a status code is n exactly when n is from 100 to 599 and the text is n in decimal, after zeros and a "+" if any |
| Framing.ResolveRequest | src/decoder/body.rs:1393-1406 | chunked or a length but not both |
| Framing.ResolveResponse | src/decoder/body.rs:1427-1444 | the last coding decides; a length next to a coding is refused |
| MessageGrammar.RequestKindExactly | src/decoder/request.rs:299-327 | which requests have a chunked body, a body of n bytes, none or a tunnel, each as an equivalence over what all fields say, in any order |
| MessageGrammar.ResponseKindExactly | src/decoder/response.rs:337-426 | the same for responses, by request method, status, version and what all fields say; including which bodies last until the connection is closed; EncoderLaws.StatusesWithoutBody names the statuses |
| EncoderLaws.StatusesWithoutBody | src/decoder/response.rs:322-349 | a response has no body exactly when it answers HEAD or its status is 1xx, 204 or 304, whatever its fields say |
| EncoderLaws.BodilessResponseEnds | src/decoder/response.rs:337-349 | the text of such a response is read up to its empty line, whatever its fields say and whatever follows |
| EncoderLaws.OnlyFramingGoes | src/decoder/response.rs:371-381 | of a list of fields those named Transfer-Encoding or Content-Length go, and every other stays in its place |
| EncoderLaws.NoFramingLeft | src/decoder/response.rs:371-381 | neither name is left |
| EncoderLaws.TunnelHeadHasNoFraming | src/decoder/response.rs:433-564 | the head that is handed out with a tunnel has neither field |
| MessageGrammar.NeverBoth | src/decoder/body.rs:1393-1444 | a head that names a transfer coding and has a Content-Length is given no body on either side, whatever the order of its fields |
| MessageGrammar.EmptyCodingCountsForNothing | src/decoder/body.rs:1218-1266 | "Transfer-Encoding: ," beside a Content-Length: the length counts |
| MessageDecoder.LoopShrinks | src/decoder/request.rs:720-743 | each continuing round of the body loop shortens the buffer; a round that waits changes nothing |
| MessageDecoder.MessageDecoder.Feed | src/decoder/buffer.rs:25-50 | the new buffer, or the overflow error and no change |
| MessageDecoder.MessageDecoder.MutBuf | src/decoder/buffer.rs:84-114 | an old reservation is dropped first, also when the new one is refused |
| MessageDecoder.MessageDecoder.AdvanceBuf | src/decoder/buffer.rs:123-132 | commits the first len reserved bytes, saturating, and drops the others |
| MessageDecoder.MessageDecoder.TakeRemaining | src/decoder/request.rs:269-279 | hands out the buffer and empties it |
| MessageDecoder.MessageDecoder.FinishHead | src/decoder/response.rs:504-564 | the empty line: framing decides the phase, a successful CONNECT response loses its framing fields |
| MessageDecoder.MessageDecoder.DecodeHeadersInPlace | src/decoder/request.rs:334-568 | new state, buffer and result of the header loop |
| MessageDecoder.MessageDecoder.DecodeInPlace | src/decoder/request.rs:690-772 | new state, buffer and result of `decode` |
| MessageDecoder.MessageDecoder.DecodeUntilCloseInPlace | src/decoder/response.rs:802-833 | one `decode` inside a close-delimited body |
| MessageDecoder.MessageDecoder.MarkEofInPlace | src/decoder/response.rs:309-314 | completes a close-delimited body and touches nothing else |
| MessageRuns.DecodeAgrees | src/decoder/request.rs:690-772 | the message, error, tunnel or waiting state that `decode` leaves is the meaning of the buffer followed by any future bytes |
| MessageRuns.DecodeNoneIsQuiescent | src/decoder/request.rs:720-743 | `decode` returns nothing only when no transition is enabled: calling it again changes nothing |
| MessageRuns.StaysSound | src/decoder/request.rs:176-772 | every operation, also a failing one, keeps the resource bounds and the state invariant |
| MessageRuns.RunIsFaithful | src/decoder/request.rs:176-772 | messages returned so far, then the meaning of what is left, is the meaning of all accepted bytes, over every run |
| MessageRuns.PipelineIsFragmentationFree | src/decoder/request.rs:176-772 | an exhausted run has returned exactly the messages of the stream up to the first error or tunnel, and holds exactly the unread bytes in a tunnel |
| MessageRuns.EndOfConnection | src/decoder/response.rs:309-314 | `mark_eof` and `decode` return what was collected; it is the whole body exactly when the buffer is empty |
| MessageRuns.ClosedConnection | src/decoder/response.rs:749-864 | after an exhausted run inside a close-delimited body, `mark_eof` and `decode` return the whole body, however it arrived |
| MessageStreams.StreamingIsFragmentationFree | src/decoder/response.rs:433-734 | an exhausted run of `decode_headers`, `consume_body` with any lengths, `progress` and announcements at any time has completed exactly the messages of the accepted bytes with their trailers, each head judged by the method that governed it |
| MessageStreams.StreamingIsDecode | src/decoder/request.rs:334-772 | a streaming caller and a caller of `decode` who fed the same bytes know the same messages and the same end |
| MessageStreams.HeadIsJudged | src/decoder/response.rs:433-609 | the body kind of a head follows the method announced since the last message was complete, and none if nothing was |
| MessageStreams.AnnouncementIsLost | src/decoder/response.rs:595-607 | announced when a message is complete, no method has any effect on the next head |
| MessageMixes.AnnouncementGoverns | src/decoder/response.rs:433-609 | at a message boundary, no announcement makes a difference to the next head if and only if the last message is complete and not yet cleared |
| MessageMixes.AnyCallKeepsResources | src/decoder/response.rs:165-864 | in every state that any mixture of calls leads to, fitting or not, the limits on the buffer, on the body being read and its trailers, and on the fields hold |
| MessageMixes.RunAll | src/decoder/response.rs:165-864 | the same over every run |
| MessageMixes.DisciplinedRunFits | src/decoder/request.rs:334-772 | in every run of any mixture in which no head is asked for while `decode` holds one whose body is complete, every body that `decode` collects or hands out is within max_body_size |
| MessageMixes.HeldBodyGrows | src/decoder/request.rs:690-772 | after that call, `decode` holds what it had and the bytes of the next body, and hands out both as one message with the old head |
| MessageMixes.UndisciplinedExactly | src/decoder/request.rs:547-555 | for requests that call lets some next message break the limit if and only if `decode` has collected anything |
| MessageMixes.HeldBodyGrowsUntilClose | src/decoder/response.rs:749-864 | for responses a close-delimited body breaks it in any case |
| MessageMixes.UndisciplinedExample | src/decoder/request.rs:547-555 | a run from the initial state with a limit of five that ends with eight bytes held |
| ChunkWriter.WriteHexUsize | src/encoder.rs:26-45 | appends the lower-case hexadecimal digits; the scratch array never underflows |
| ChunkWriter.EncodeChunk | src/encoder.rs:854-879 | one chunk, or the last chunk for empty data |
| ChunkWriter.EncodeChunks | src/encoder.rs:884-904 | all chunks and the last chunk |
| ChunkWriter.ChunksAreChunkByChunk | src/encoder.rs:854-904 | `encode_chunks` is `encode_chunk` of each, concatenated, and the terminator |
| ChunkWriter.EncodeChunksCapacity | src/encoder.rs:908-915 | an upper bound of the encoded length; none exactly when the sum overflows |
| ChunkWriter.ChunkRoundTrip | src/encoder.rs:884-904 | under any schedule the decoder delivers the concatenated chunks, no trailers and exactly the bytes behind, if and only if no chunk is empty |
| Encoder.WriteUsizeDecimal | src/encoder.rs:48-62 | appends the decimal digits; the scratch array never underflows |
| Encoder.ValidateContentLengthHeaders | src/encoder.rs:564-599 | the announced length or the first error, over all fields |
| Encoder.EncodeRequest | src/encoder.rs:623-696 | which requests are refused and why, and the text of the others with the added Content-Length |
| Encoder.EncodeResponse | src/encoder.rs:709-821 | which responses are refused and why, and the text of the others; ResponseIsAccepted, BodilessEncodingEnds, AddedLength and HeadIsGetWithoutBody say of which, when a body is written and when a length is added |
| EncoderLaws.RequestIsAccepted | src/encoder.rs:623-660 | a request is accepted exactly when its start line and fields can be written, its Host is admitted, it is not framed twice, and without Transfer-Encoding every Content-Length field is the length of its body |
| EncoderLaws.ResponseIsAccepted | src/encoder.rs:709-776 | a response likewise, and only if its status forbids nothing; an omitted empty body leaves the announced length free, but all that is announced agrees |
| EncoderLaws.StatusForbidsExactly | src/encoder.rs:719-753 | exactly what 1xx, 204 and 205 forbid of fields and body |
| EncoderLaws.AcceptedResponse | src/encoder.rs:709-776 | an accepted 1xx or 204 is written without framing fields, an accepted 205 without body, Transfer-Encoding or a length but 0, and no accepted response has both framing fields |
| EncoderLaws.BodilessEncodingEnds | src/encoder.rs:87-103 | with 1xx, 204 and 304 no field is added and nothing is written behind the empty line, whatever the body; with any other status the body is, unless it is omitted |
| EncoderLaws.AddedLength | src/encoder.rs:92-103 | the one field that is added is a Content-Length with the length of the body; when it is and when it is not |
| EncoderLaws.HeadIsGetWithoutBody | src/encoder.rs:92-103 | section 9.3.2 of RFC 9110: with a body that is not empty, the text with the body omitted is the text with it, cut behind the empty line, and the same messages are refused |
| EncoderLaws.AnnouncedExactly | src/encoder.rs:564-599 | the announced length is n exactly when there is a Content-Length field and every one is the number n |
| EncoderLaws.BadHeaderIsFirst | src/encoder.rs:370-384 | the field that is reported is the first that cannot be written |
| EncoderRoundTrip.FieldLineRead | src/decoder/body.rs:743-783 | an encoded field line parses back to its name and its value without surrounding white space |
| EncoderRoundTrip.HeadRead | src/decoder/request.rs:334-568 | an encoded head is read back, on both sides, whatever follows it |
| EncoderRoundTrip.AnnouncedAgrees | src/encoder.rs:564-599 | a Content-Length that the encoder accepts is the one the decoder reads |
| EncoderRoundTrip.PlainRequestArrives | src/encoder.rs:623-696 | every accepted request without Transfer-Encoding is decoded to the same message and its last byte; the body comes back unless there was none and a Content-Length was sent |
| EncoderRoundTrip.ChunkedRequestArrives | src/encoder.rs:623-696 | a chunked request whose body `encode_chunks` wrote is decoded to the concatenated chunks |
| EncoderRoundTrip.PlainResponseRead | src/encoder.rs:709-821 | what any accepted response without Transfer-Encoding, followed by anything, is decoded to for every announced request method: no body, tunnel, until close, or as many bytes as it announces, also when its body was omitted |
| EncoderRoundTrip.PlainResponseArrives | src/decoder/response.rs:337-426 | a response, its body omitted or not, to any request method, can be followed by another exactly when its end can be seen: no body sent where none is read, otherwise a body or a Content-Length, of 0 if the body is omitted; never a tunnel |
| EncoderRoundTrip.ChunkedResponseArrives | src/encoder.rs:709-821 | the same for a response with a body whose last coding is chunked |
| EncoderRoundTrip.OtherCodedResponseRead | src/encoder.rs:709-821 | a response whose last coding is not chunked is read until the connection is closed |
| EncoderRoundTrip.ConnectRequestRead | src/encoder.rs:623-696 | a CONNECT request opens a tunnel right behind its head |
| EncoderRoundTrip.EndToEndThen | src/encoder.rs:623-821 | encoded messages and a last text that no message follows, under any fragmentation and any timing of `decode`, come out as the same messages and the meaning of the last text |
| EncoderRoundTrip.EndToEndThenClose | src/decoder/response.rs:309-314 | with a close-delimited response last, `mark_eof` and `decode` return it with its whole body |
| EncoderRoundTrip.EndToEnd | src/encoder.rs:623-821 | encoded messages, one behind the other, under any fragmentation and any timing of `decode`, come out as the same messages |
| Multipart.FindBytes | src/multipart.rs:721-747 | the first occurrence of the needle |
| Multipart.MultipartParser.Feed | src/multipart.rs:321-332 | the limit is on the unconsumed bytes; the invariant of the remembered offset survives |
| Multipart.MultipartParser.Search | src/multipart.rs:407-527 | a search from the remembered offset finds what a search from the start finds, and no failed search looks at a start position twice |
| Multipart.MultipartParser.Compact | src/multipart.rs:503-513 | a drain keeps the unconsumed bytes and moves fewer bytes than it drops |
| Multipart.MultipartParser.NextPart | src/multipart.rs:340-570 | every call in every state returns what rescanning the unconsumed bytes returns |
| Multipart.FindFromOffset | src/multipart.rs:407-414 | no match starts in front of the remembered offset, so skipping to it changes no result |
| MultipartRuns.RunKeepsReading | src/multipart.rs:321-570 | over every interleaving of `feed` and `next_part`, refused feeds and failed calls included, the parts returned so far followed by the reading of what is left is invariant |
| MultipartRuns.ShownIsRead | src/multipart.rs:321-570 | every run at rest shows the reading of the whole body, or that without its last part when junk behind a delimiter stopped it |
| MultipartRuns.FragmentationIndependence | src/multipart.rs:321-570 | what callers see is independent of cuts and of the timing of calls if and only if no delimiter that ends a part is followed by padding and two bytes other than CRLF or "--" |
| MultipartRuns.JunkHidesPart | src/multipart.rs:490-498 | for every body with such a delimiter: fed at once the last part is lost, cut in front of the junk it is returned; both end in InvalidPart |
| MultipartBuilder.Build | src/multipart.rs:665-710 | the text of the sections, each with its delimiter, and the closing delimiter |
| MultipartBuilder.BuiltTextEnds | src/multipart.rs:665-710 | a built text is the sections one behind the other, each with delimiter line, header lines, empty line, body and CRLF, then the closing delimiter line with its CRLF |
| MultipartBuilder.NoBorder | src/multipart.rs:259-271 | a delimiter made from a valid boundary cannot overlap itself |
| MultipartBuilder.RoundTrip | src/multipart.rs:665-710 | every run at rest over built text has returned the same parts and then the end, if and only if no body holds the delimiter |
| MultipartBuilder.AnyTextRead | src/multipart.rs:340-570 | the same of any text of the form of section 5.1.1 of RFC 2046, with a preamble, white space behind the delimiters and an epilogue, under any run |
| MultipartBuilder.JunkIsObserved | src/multipart.rs:490-498 | any valid part followed by its delimiter and junk is a body whose arrival can be observed |
| MultipartBuilder.JunkExample | src/multipart.rs:490-498 | one such body, byte by byte |
| DotSegments.Remove | src/uri.rs:844-902 | the cursor and the segment stack compute the rewriting of section 5.2.4 of RFC 3986 |
| DotSegments.RemoveLeavesNoDots | src/uri.rs:844-902 | no "." or ".." segment is left |
| DotSegments.RemoveIsIdempotent | src/uri.rs:844-902 | twice is once, and a path is left alone exactly when it has no dot segment |
| DotSegments.RewriteStaysAbsolute | src/uri.rs:844-902 | an absolute path stays absolute |
| DotSegments.DotIsNothing | src/uri.rs:844-902 | "p/./q" gives what "p/q" gives, "p/." what "p/" gives, for every p that is not a mere leading "." or ".." |
| DotSegments.DotDotTakesOne | src/uri.rs:844-902 | "p/s/../q" gives what "p/q" gives, "p/s/.." what "p/" gives, for every ordinary segment s, the empty one too |
| DotSegments.DotDotAtTheRoot | src/uri.rs:844-902 | "/../q" gives what "/q" gives, "/.." gives "/", and "s/../q" gives what "/q" gives |
| DotSegments.LeadingDotsFall | src/uri.rs:844-902 | "./q" and "../q" give what "q" gives, "." and ".." nothing |
| Uri.ScansAcceptGood | src/uri.rs:113-191 | the scans that jump over encoded bytes accept exactly the texts that are well formed at every position |
| Uri.Parse | src/uri.rs:356-470 | which texts are accepted, the first error of the others, the components and the offsets |
| Uri.FirstErrorExactly | src/uri.rs:356-470 | the error of a refused text, as an equivalence: that of the first faulty component in the order scheme, authority, path, query, fragment; in a component a "%" without two digits anywhere, or else the first byte that may not stand there |
| Uri.OffsetsPartitionTheSource | src/uri.rs:356-527 | the offsets partition the source and the pieces rebuild it |
| Uri.TextThenSplit | src/uri.rs:914-965 | components that can be told apart are found again in their text |
| UriResolve.BuildUri | src/uri.rs:914-965 | the recomposition of section 5.3 of RFC 3986 with the path behind its guard |
| UriResolve.BuildThenParse | src/uri.rs:914-965 | valid components are parsed back from their text, the path with its guard, if and only if they are not all absent |
| ResolveLaws.GuardExactly | src/uri.rs:931-950 | a path is guarded exactly when it starts with "//" without an authority, or without scheme and authority has a colon in front of its first "/" |
| UriResolve.Resolve | src/uri.rs:772-824 | resolution fails exactly when neither reference has a scheme or an authority, the second has nothing but a path, and that path and the directory of the base are dot segments only; otherwise it gives the components of section 5.2.2 of RFC 3986 with at most a guard; the laws of ResolveLaws say which these are |
| UriResolve.ResolveSucceeds | src/uri.rs:772-838 | the same as a fact about texts; with a scheme in the base it never fails, and the only guard is "/." |
| ResolveLaws.FragmentReference | src/uri.rs:798-808 | "#f" gives the text of the base up to its "#", then "#f" |
| ResolveLaws.QueryReference | src/uri.rs:798-808 | "?q" gives the text of the base up to its "?" or "#", then "?q" |
| ResolveLaws.AuthorityReference | src/uri.rs:786-796 | "//host" gives the scheme of the base and the text of the reference with the dot segments of its path removed |
| ResolveLaws.AbsolutePathReference | src/uri.rs:810-823 | "/p" gives the text of the base up to its path, and the text of the reference with the dot segments of its path removed |
| ResolveLaws.RelativePathReference | src/uri.rs:810-838 | a relative path gives the text of the base up to its path, the path behind the directory of the base path with the dot segments removed, and query and fragment of the reference |
| ResolveLaws.AbsoluteReference | src/uri.rs:774-784 | a reference with a scheme gives its own text with the dot segments of its path removed, whatever the base |
| ResolveLaws.SixKinds | src/uri.rs:772-824 | every reference that parses is of one of these kinds |
| ResolveLaws.QueryIsKept | src/uri.rs:798-808 | "http://a/b?q" and "#f" give "http://a/b?q#f" |
| UriResolve.DotVanishes | src/uri.rs:772-838 | "." against the base "a" is such a failure |
| UriNormalize.NormalizePercentEncoding | src/uri.rs:1028-1054 | the loop decodes unreserved bytes and writes the others in upper case; PercentKeepsPieces and PercentKeepsDelimiters say that it decodes no other, Alphabets.UriCharacters which bytes these are |
| UriNormalize.PercentKeepsMeaning | src/uri.rs:1028-1054 | normalizing the encoding does not change the bytes that a component stands for |
| UriNormalize.PercentKeepsPieces | src/uri.rs:1028-1054 | cut at any delimiter, the pieces of a component stand for the same bytes before and after: no delimiter that was encoded becomes a plain one, or the reverse |
| UriNormalize.PercentKeepsDelimiters | src/uri.rs:1028-1054 | the plain delimiters of section 2.2 of RFC 3986 stand in the same order before and after |
| UriNormalize.NormalizationKeeps | src/uri.rs:970-993 | the same components are there; scheme and authority change in the case of letters only; query and fragment keep the bytes and the pieces they stand for, and so does the path until its dot segments are removed |
| UriNormalize.CharIsUtf8 | src/uri.rs:1049 | a byte of 128 or more is written as the UTF-8 of that code point |
| UriNormalize.PercentGivesNormal | src/uri.rs:1028-1054 | a well-formed component is accepted and comes out well formed, in normal form |
| UriNormalize.AuthorityIsIdempotent | src/uri.rs:996-1025 | lower-casing the host does not move the host |
| UriNormalize.AuthorityExactly | src/uri.rs:996-1025 | of "userinfo@host:port" the host is put in lower case, of "[address]:port" the address, and nothing else |
| UriNormalize.NormalizationIsIdempotent | src/uri.rs:970-1025 | whatever `normalize` returns it returns unchanged the next time, through decoding, dot removal and guards |
| UriNormalize.NormalizationFailsOnlyOnNothing | src/uri.rs:970-993 | the references without a normal form are exactly those with only a path of "." and ".." segments that vanishes |
| UriNormalize.DotHasNoNormalForm | src/uri.rs:970-993 | "." is one of them |
| UriNormalize.Normalize | src/uri.rs:970-993 | the method returns that normal form and its components |
| Base64.EncodeBytes | src/base64.rs:33-63 | the loop over blocks of three bytes |
| Base64.DecodeBytes | src/base64.rs:78-152 | white space, padding and consistency checks, and the bit accumulator, with their errors |
| Base64.DecodesExactlyTheEncodings | src/base64.rs:33-152 | a text decodes to s if and only if it is the encoding of s, white space aside |
| Base64.DecodeIsInjective | src/base64.rs:78-152 | texts that decode to the same bytes differ in white space only |
| Base64.RoundTrip | src/base64.rs:33-152 | decoding undoes encoding, for all bytes |
| Alphabets.Base64Alphabet | src/base64.rs:29-30 | letter number v is the one that table 1 of RFC 4648 prints, and its value is v |
| Alphabets.Base64Examples | src/base64.rs:33-63 | the examples of section 10 of RFC 4648 |
| AuthParams.ParseAuthParams | src/auth.rs:779-905 | the cursor loop computes the list, or its first error |
| AuthParams.ParseQuoted | src/auth.rs:822-862 | the value of a quoted-string and where it ends |
| AuthParams.EscapeQuotes | src/validate.rs:380-393 | the escaped text; control characters become spaces |
| AuthParams.FormatAuthParams | src/auth.rs:914-924 | the printed list |
| AuthParams.PlainExactly | src/auth.rs:914-929 | a parameter is printed without quotes exactly when its value is a token |
| AuthParams.ReadParamsAreParams | src/auth.rs:779-905 | a parsed list has at most 32 parameters with lower-case token names, each name once, and quotable values |
| AuthGrammar.ReadsExactly | src/auth.rs:779-905 | a text is read as a list of parameters if and only if a syntax tree of section 11.2 of RFC 9110 generates it, with white space, empty elements, quoted pairs and any case of names; the list is what the tree stands for, with 1 to 32 parameters, no name twice |
| AuthParams.RoundTrip | src/auth.rs:779-924 | printing and parsing gives a list back if and only if it has that shape |
| AuthParams.ParsedRoundTrip | src/auth.rs:779-924 | printing a parsed list and parsing again changes nothing |
| Alphabets.LettersAndDigits | src/validate.rs:11-17 | letters, digits and hexadecimal digits are those printed |
| Alphabets.TokenCharacters | src/validate.rs:11-17 | so are the token characters of section 5.6.2 of RFC 9110 |
| Alphabets.TextCharacters | src/validate.rs:275-290 | quoted text, quoted pairs, field text and white space, likewise |
| Alphabets.UriCharacters | src/uri.rs:86-110 | unreserved characters, sub-delims, and what paths and queries may hold, likewise |
| Alphabets.Boundaries | src/multipart.rs:250-271 | a boundary is one to seventy of the characters of section 5.1.1 of RFC 2046 and does not end in a space |
| Alphabets.HexadecimalDigits | src/encoder.rs:26-45 | the digits that chunk sizes and percent-encoding are written with, and their values |
| Alphabets.LowerCased | src/decoder/body.rs:559-581 | letters keep their place in the alphabet in lower case; nothing else changes |
| Alphabets.Names | src/decoder/response.rs:337-426 | the field names, methods, the version and the coding, letter by letter |
| Alphabets.Separators | src/decoder/body.rs:755-757 | where names, sizes, elements, words and values end |
| Alphabets.Delimiters | src/multipart.rs:704-707 | line ends, the dashes of multipart, the last chunk and the single delimiters, character by character |
| Alphabets.Numbers | src/auth.rs:124 | the greatest usize and the longest list of auth-params |

## Left out

Judgements on text that are parameters of the model:

- UTF-8 well-formedness of a line, and the table of fields that are banned from trailers.
- The syntax of methods, targets, versions and reasons in a decoded start line, the forms of request targets, and the Host rules of both
  sides. The round trips therefore ask that the decoder has no objection to the start line and Host that were encoded.
- The validity of an authority (host, port, userinfo). Idempotence of normalization needs nothing of it; that
  normalization fails only on nothing needs that it does not depend on the case of the host.
- The fields inside a multipart part: a header block is text without a blank line, judged by a deterministic rule.

Not modelled:

- In the encoder, which part of a start line or which Host rule is at fault: one error each.
- Error message texts, `Display`, capacities of vectors, `debug_assert` panics (a pending reservation is a precondition).
- `usize` of other than 64 bits.
- Decompression and compression, `feed_unchecked`, `available_buf`, `is_tunnel`, `is_close_delimited` and similar accessors.
- `encode_request_headers`, `encode_response_headers` and capacity estimates: the same text without the body, and a hint.
- The header parsers (cookies, ranges, dates, accept lists and so on), `percent_encode` and `percent_decode`, `origin_form`.
- What messages are decoded after the first error, or when streaming calls are mixed with `decode` in one message; for these
  `MessageMixes` covers the limits only.
- The examples, the fuzz targets and the test harnesses.

Stated for less than the code covers:

- MessageRuns.PipelineIsFragmentationFree: the caller announces the request method between messages.
- Base64.DecodeBytes: the input is bytes; a character outside ASCII is a byte of 128 or more.
- AuthParams.ParseAuthParams: likewise over bytes, where the code walks over characters inside quotes; the two agree because
  every byte of a character outside ASCII is allowed there.
