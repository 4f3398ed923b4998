# NexusRPC: a verified model

NexusRPC is a C++17 RPC stack: an epoll reactor, a binary frame protocol, a server with a
worker pool, a unary client, and a JSON-RPC front end. This project models its core in Dafny
and proves what the code is for; `dafny verify dfyconfig.toml` checks all of it.

The results compose into one claim (`Calls.EveryCallIsAnswered`): however TCP cuts the bytes a
client writes and however the IO thread, the workers and `stop()` interleave, the requests that
arrive are exactly the client's calls, in order, each with the service, method, metadata, body and
id that the client gave it; and whenever nothing is left to act on, the ids of the responses
handed to the connection are the ids in those calls, each once. `Delivery.EveryReplyIsRead` takes
the replies on to the other end of the wire: while the connection is up nothing handed to it is
lost, and the client reads them all, in order, each frame one reply's own, no two of them answers
to the same request. `Client.FailureStages` and `Client.InterpretsFrame` say what the caller is
told, when the call fails on the way and when it is answered.

| file | what it models |
|---|---|
| `basics.dfy` | bytes, C++ integer widths, decimal digits |
| `wire.dfy` | the 32-byte frame header and base-128 varints |
| `metadata.dfy` | `map<string, string>` in Protobuf wire format, over `std::map` order |
| `frames.dfy` | frames and the resumable `FrameParser` |
| `rpc_message.dfy`, `request_stream.dfy` | requests, and `onMessage`: from chunks to dispatched requests |
| `response.dfy`, `client.dfy` | response frames, status decoding, and the client's call protocol |
| `json_value.dfy`, `json_parser.dfy` | the JSON DOM, its printer, and what the parser computes |
| `json_parser_object.dfy` | `JsonParserImpl` itself: a cursor with line, column and first error |
| `json_grammar.dfy`, `json_theorems.dfy` | the language the parser accepts, and the printer as its inverse |
| `json_standard.dfy` | the parser against RFC 8259: numbers, escapes, white space, tokens |
| `json_rpc.dfy` | JSON-RPC 2.0 envelopes, requests and newline framing |
| `buffer.dfy`, `connection.dfy` | the byte buffer and a connection's output path and half-close |
| `delivery.dfy` | the server's replies through the output path, read back by the client |
| `event_loop.dfy` | the reactor's wakeup protocol |
| `lifecycle.dfy` | connections from accept to teardown, and the server's connection table |
| `server_dispatch.dfy` | IO thread, workers and `stop()` over the shared queue |
| `calls.dfy` | a client's calls, from its frames to the answers of the server |

Code that changes an object step by step is a class whose methods are proved against functions
on values; the properties are then proved of those functions, over all runs. Code that several
threads run at once (`event_loop.dfy`, `server_dispatch.dfy`) is a state machine: one step is
one locked section, one atomic operation or one system call, and a run is any legal sequence of
steps. System calls are inputs: the result of each `read`, `write`, `shutdown` or `connect` is
given. Inductive proofs are written out; automatic induction is off everywhere.

Four places where the code departs from what its comments or shape suggest, and what is
proved about each:

* `decodeMetadata` compares a length with the room in front of its varint, not behind it, so
  an ill-formed block can carry its cursor past its end: by as much as 20 bytes
  (`Metadata.OverrunAttained`), never by more (`Metadata.DecodeWithinSlack`). It leaves the
  bytes that are there if and only if a length overhangs them (`Metadata.LeavesBufferExactly`;
  two bytes suffice, `Metadata.ShortestOverhang`). C++ gives such a decode no meaning, so its
  result here is `Undefined` and nothing is claimed after it. On the server, a stream's
  reading is undefined if and only if some way of cutting the stream leads there
  (`RequestStream.UndefinedForSomeCut`); on the client, a reply has no outcome if and only if
  its metadata overhangs its payload (`Client.UndeterminedExactly`).
* `queueInLoop` skips the eventfd write on the loop's own thread. That is right inside an
  event handler and wrong inside a functor: work is left waiting in `epoll_wait` exactly when a
  functor queued a functor behind the last swap and nothing else wakes the loop
  (`EventLoops.StrandedExactly`, with a run in `EventLoops.StrandedExample`). The RPC server can
  get there: a worker's send runs as a functor, and when its write fails the close callback
  queues the connection's removal from inside it, so that the down callback waits for the next
  wakeup (`EventLoops.NestedFunctorStrands`). A close seen in an event handler never does.
* A connection's name ends in a 32-bit counter. Every connection gets its down callback by the
  end of `stop()` if and only if no accept found its name still in use
  (`Lifecycle.StopEndsEveryLife`); the first 2^32 accepts never do, and the next one can: it
  takes one connection that stays while 2^32 - 1 others come and go, never more than two being
  registered at once (`Lifecycle.CollisionExample`).
* A JSON object with repeated keys is accepted, although a comment at `src/mcp/json_rpc.cpp:262`
  says such objects are rejected: each key keeps the place of its first occurrence and the value
  of its last, and members are lost if and only if two keys are the same
  (`JsonTheorems.RepeatedKeyOverwrites`).

## Model

| member | source | states |
|---|---|---|
| Decimal.DigitsValue | src/rpc/rpc_server.cpp:38-41 | reading printed digits gives the number back |
| Wire.U32RoundTrip | src/rpc/frame_codec.cpp:22-36 | reading four written bytes gives the value back |
| Wire.U32Canonical | src/rpc/frame_codec.cpp:22-36 | any four bytes are the encoding of the value read from them |
| Wire.U64RoundTrip | src/rpc/frame_codec.cpp:38-59 | reading eight written bytes gives the value back |
| Wire.U64Canonical | src/rpc/frame_codec.cpp:38-59 | any eight bytes are the encoding of the value read from them |
| Wire.ValidIsEmitted | src/rpc/frame_codec.cpp:139-189 | a header is accepted if and only if it is, field by field, one that a frame within the limits has: magic 0x4E525043, version 1, type up to 5, no compression, no other serialization, nothing reserved, the exact total |
| Wire.AcceptsExactlyTheEmitted | src/rpc/frame_codec.cpp:139-224 | the 32-byte blocks accepted are exactly those encodeFrame can emit |
| Wire.FaultCodes | src/rpc/frame_codec.cpp:139-189 | which code each single wrong field is answered with |
| Wire.OtherBlocksRefused | src/rpc/frame_codec.cpp:139-189 | a block with another magic, version, type, compression, serialization or reserved field is refused, whatever its lengths |
| Wire.HeaderLayout | src/rpc/frame_codec.cpp:195-224 | where each field lies in the 32 bytes, as a big-endian number |
| Wire.EncodeHeader | src/rpc/frame_codec.cpp:195-209 | writes exactly the header's 32 bytes and leaves the rest of the buffer alone |
| Wire.DecodeHeader | src/rpc/frame_codec.cpp:211-224 | the header filled in is the one whose encoding the bytes are, and it is accepted if and only if they encode some valid header |
| Wire.HeaderRoundTrip | src/rpc/frame_codec.cpp:195-224 | decoding an encoded header, with anything behind it, gives that header |
| Wire.HeaderCanonical | src/rpc/frame_codec.cpp:195-224 | every 32-byte block re-encodes to itself |
| Wire.HeaderAcceptedIffEncodingOfValid | src/rpc/frame_codec.cpp:139-224 | a block is accepted if and only if it is the encoding of some valid header |
| Wire.VarintSizeExact | src/rpc/frame_codec.cpp:66-74 | the computed varint size is the number of bytes emitted |
| Wire.AppendVarint32 | src/rpc/frame_codec.cpp:87-95 | the shifting loop appends exactly the base-128 encoding |
| Wire.DecodeVarint | src/rpc/frame_codec.cpp:101-120 | the loop computes the sum of all groups modulo 2^64 and the bytes used, or fails after ten bytes or at the end |
| Wire.VarintRoundTrip | src/rpc/frame_codec.cpp:76-120 | decoding inverts encoding for every value below 2^64, whatever follows |
| Metadata.SetKey | src/rpc/rpc_server.cpp:76-79 | assignment into a std::map, as a sorted list: the list of the updated map |
| Metadata.LessIsLexicographic | src/rpc/frame_codec.cpp:236-236 | the order of the traversal is that of a dictionary: decided at the first difference, or by which text ends |
| Metadata.AscendingIsTraversal | src/rpc/frame_codec.cpp:236-236 | a strictly ascending list is the in-order traversal of the map it builds, so the traversal is unique |
| Metadata.InnerSizeExact | src/rpc/frame_codec.cpp:236-247 | the declared entry size, computed in 32-bit arithmetic, is what is emitted exactly when it does not wrap |
| Metadata.EncodeMetadata | src/rpc/frame_codec.cpp:230-258 | the byte-appending loop emits the encoding of the map |
| Metadata.EncodeMetaAdds | src/rpc/frame_codec.cpp:230-258 | adding a key adds the size of its entry, wherever it falls in the order |
| Metadata.DecodeEntryFields | src/rpc/frame_codec.cpp:288-319 | the inner cursor loop computes the entry's key and value, or its failure |
| Metadata.DecodeMetadata | src/rpc/frame_codec.cpp:264-329 | the two nested cursor loops compute the specified decode over the bytes behind the pointer |
| Metadata.DecodeWithinSlack | src/rpc/frame_codec.cpp:264-329 | for every block, with 20 bytes behind it the decoder never reads outside |
| Metadata.OverrunAttained | src/rpc/frame_codec.cpp:264-329 | a block of twelve bytes whose decode reads all twenty bytes behind it, and leaves its buffer when there are fewer |
| Metadata.ShortestOverhang | src/rpc/frame_codec.cpp:279-285 | the two bytes 0A 01 make the decoder leave its buffer, whatever the map |
| Metadata.LeavesBufferExactly | src/rpc/frame_codec.cpp:269-316 | a decode leaves the bytes that are there if and only if some length that the guards let through is larger than the room behind its varint |
| Metadata.EntriesExtend | src/rpc/frame_codec.cpp:264-329 | a decode that stays inside its buffer does not depend on what follows the buffer |
| Metadata.DecodeConcatenation | src/rpc/frame_codec.cpp:264-329 | decoding two accepted blocks end to end is decoding one after the other |
| Metadata.EntryInverts | src/rpc/frame_codec.cpp:269-329 | an entry with its fields in any order and any number: the last field 1 is the key, the last field 2 the value or nothing, other fields are skipped, and an entry without field 1 is refused |
| Metadata.EncodePairDecodes | src/rpc/frame_codec.cpp:236-329 | one encoded pair decodes to one assignment |
| Metadata.MetadataRoundTrip | src/rpc/frame_codec.cpp:230-329 | decoding an encoded map into any map overlays it; into an empty one it gives the map back |
| Metadata.ConcatenatedMapsMerge | src/rpc/frame_codec.cpp:230-329 | two encodings end to end decode to the merge, the later entry winning |
| Frames.EncodeFrame | src/rpc/frame_codec.cpp:335-372 | emits header, metadata and body of the frame |
| Frames.FrameRoundTrip | src/rpc/frame_codec.cpp:335-449 | reading an encoded frame in front of any bytes gives the frame and those bytes |
| Frames.PrefixNeedsMore | src/rpc/frame_codec.cpp:378-449 | a proper prefix of an encoded frame is never taken for a frame, nor refused |
| Frames.UndefinedExactly | src/rpc/frame_codec.cpp:390-440 | reading a frame is undefined if and only if its header is valid, it is all there, and a length in its metadata overhangs its payload |
| Frames.ParseFrameExtends | src/rpc/frame_codec.cpp:378-449 | a verdict once reached is not changed by later bytes |
| Frames.FrameParser.Feed | src/rpc/frame_codec.cpp:378-449 | the resumable parser's transition, field by field |
| Frames.FrameParser.TakePayload | src/rpc/frame_codec.cpp:415-446 | the payload half of feed |
| Frames.FrameParser.Reset | src/rpc/frame_codec.cpp:451-459 | clears the frame and keeps the bytes behind it |
| Frames.FeedMatches | src/rpc/frame_codec.cpp:378-449 | one feed does what one reading of leftover and new bytes says, and keeps the unread rest |
| Frames.StuckForever | src/rpc/frame_codec.cpp:378-449 | a parser that refused its header or metadata refuses with the same error on every later feed |
| RequestStream.Inspect | src/rpc/rpc_server.cpp:276-304 | the checks on a complete frame: its type, then its target; the request taken holds all of the frame, under the id in its header |
| RequestStream.FrameReads | src/rpc/rpc_server.cpp:275-324 | what a frame at the head of a stream does, by its type byte and by its service and method keys: closes the connection, is refused with its id and half-closes it, or is dispatched whole |
| RequestStream.OnMessage | src/rpc/rpc_server.cpp:253-325 | a connection not in the table is closed with its bytes left alone; otherwise the turn below |
| RequestStream.TakeRequests | src/rpc/rpc_server.cpp:265-324 | the feed, take, reset, feed(nullptr, 0) loop computes the specified turn |
| RequestStream.RequestsSplit | src/rpc/rpc_server.cpp:265-324 | the reading of a longer stream extends the reading of its prefix |
| RequestStream.DeadForever | src/rpc/rpc_server.cpp:267-292 | an unreset complete parser or a stuck one dispatches nothing, whatever comes |
| RequestStream.OnMessageFollows | src/rpc/rpc_server.cpp:265-324 | one onMessage call does what the reference reading says |
| RequestStream.SegmentationIndependence | src/rpc/rpc_server.cpp:265-324 | for every byte stream and every way of cutting it, events, leftover and outcome are those of the whole stream |
| RequestStream.UndefinedForSomeCut | src/rpc/rpc_server.cpp:265-324 | the streams excluded are exactly those of which some cut makes a decode leave the bytes received |
| RequestStream.OtherBlocksAreGarbage | src/rpc/rpc_server.cpp:267-273 | a block of another protocol, version, type or encoding is among the tails that stop the dispatching |
| RequestStream.ExactlyTheRequestsSent | src/rpc/rpc_server.cpp:265-324 | encoded calls and whatever follows them, cut anyhow, dispatch exactly those calls in order, each with all that its frame holds; part of a frame is kept, anything else that is no call stops the dispatching for good, a request without target being answered first |
| RequestStream.PoisonedConnection | src/rpc/rpc_server.cpp:267-324 | after the first header error, foreign frame or request without target, no later bytes are ever dispatched |
| ResponseFrame.IsFrameEncodable | src/rpc/rpc_server.cpp:44-48 | decides encodeFrame's limits |
| ResponseFrame.MakeResponseFrame | src/rpc/rpc_server.cpp:74-89 | emits the frame of the handler's response, or of the fallback when that does not fit |
| ResponseFrame.PlainStatusFits | src/rpc/rpc_server.cpp:286-316 | a bare status with a short message, as every refusal is, meets encodeFrame's limits |
| ResponseFrame.FallbackFits | src/rpc/rpc_server.cpp:81-86 | the fallback always meets encodeFrame's limits |
| ResponseFrame.StatusSurvives | src/rpc/rpc_client.cpp:135-155 | the client decodes the status the server wrote, and no other key is touched |
| ResponseFrame.WholeIntExactly | src/rpc/rpc_client.cpp:135-155 | a text is read as a number below ten if and only if it is that digit behind zeros, or a negative zero |
| ResponseFrame.StatusExactly | src/rpc/rpc_client.cpp:135-155 | a response has status number n if and only if its status key spells n; with the key missing, garbled or out of range it has none |
| ResponseFrame.ResponseEndToEnd | src/rpc/rpc_server.cpp:74-89 | for any handler response the frame is within limits, reads back as a response with the same id, and decodes to the same code, or to kResourceExhausted when and only when the original did not fit |
| Client.RpcClient.NextRequestId | src/rpc/rpc_client.cpp:326-333 | hands out the current id and steps over zero |
| Client.IdClosedForm | src/rpc/rpc_client.cpp:326-333 | the k-th id from the first, in closed form |
| Client.IdsDistinct | src/rpc/rpc_client.cpp:326-333 | ids are never 0 and any 2^64 - 1 consecutive ones are distinct |
| Client.RpcClient.CloseUnlocked | src/rpc/rpc_client.cpp:335-340 | leaves no connection |
| Client.RpcClient.EnsureConnected | src/rpc/rpc_client.cpp:269-324 | an open connection is kept; a new one, over the addresses in order, starts with an empty stream or fails with the code of the loop |
| Client.ConnectsExactly | src/rpc/rpc_client.cpp:287-323 | a connection comes about if and only if some address connects and none before it used up the deadline; it fails for the deadline if and only if one did first |
| Client.RpcClient.WriteAll | src/rpc/rpc_client.cpp:82-105 | over any results of send and poll, exactly the part of the data the transfer moved is on the stream, and the failure code is the transfer's (Client.TransferFails says which) |
| Client.RpcClient.ReadAll | src/rpc/rpc_client.cpp:107-133 | over any results of recv and poll, exactly the bytes the transfer moved have left the front of the stream, and the failure code is the transfer's (Client.TransferFails says which) |
| Client.TransferCompletes | src/rpc/rpc_client.cpp:57-133 | a transfer completes if and only if everything is there to move and some first attempts, none of which ends the loop, offer enough bytes |
| Client.TransferFails | src/rpc/rpc_client.cpp:57-133 | a transfer fails with kDeadlineExceeded if and only if the deadline passes before everything is moved, with kUnavailable if and only if the peer is lost or closes before that, and with nothing else |
| Client.FailureStages | src/rpc/rpc_client.cpp:173-324 | the code of a call that is not answered, if and only if: kInvalidArgument for its arguments or endpoint, kResourceExhausted for its size, kDeadlineExceeded for the deadline in connecting or in one of the three transfers, kUnavailable otherwise; and when it is answered |
| Client.RpcClient.BuildMeta | src/rpc/rpc_client.cpp:187-195 | the request's metadata: the caller's, overlaid with the reserved keys |
| Client.RpcClient.Call | src/rpc/rpc_client.cpp:173-261 | whenever the mutex is free again there is no connection, or a stream with every request answered and nothing outstanding; a success is the reply to this call's own request; an id is used at most once; a call that is not answered fails with the code of the first stage that stopped it (Client.FailureStages says which); a reply whose decode is undefined is set apart |
| Client.RpcClient.Conclude | src/rpc/rpc_client.cpp:235-261 | a reply read whole gives the result, and keeps or closes the connection, as specified, unless it has no outcome |
| Client.RpcClient.Receive | src/rpc/rpc_client.cpp:208-260 | the reply is read whole or the connection is closed, and it is interpreted as specified, when it has an outcome |
| Client.UndeterminedExactly | src/rpc/rpc_client.cpp:216-241 | a reply has no outcome if and only if its header is valid, that of a response to this call, and a length in its metadata overhangs its payload |
| Client.UndeterminedExample | src/rpc/rpc_client.cpp:226-241 | such a reply of 34 bytes |
| Client.ReplyParses | src/rpc/rpc_client.cpp:208-242 | header and payload read separately are the frame the server encoded |
| Client.CallReturnsHandlerResponse | src/rpc/rpc_client.cpp:208-260 | when the server answers with the frame it makes of a handler's response, the call returns that response, or its error status |
| Client.InterpretsFrame | src/rpc/rpc_client.cpp:214-261 | what is made of any frame: anything but a response with this call's id is kUnavailable and closes; a response is a result or a failure by the number its status spells, and kInternal and closed when it spells none |
| Client.InterpretsGarbage | src/rpc/rpc_client.cpp:214-223 | a reply that starts with no header of ours is kUnavailable and closes |
| JsonValue.SetMember | src/mcp/json_rpc.cpp:53-63 | the loop overwrites the first member with the key, or appends |
| JsonValue.SetSemantics | src/mcp/json_rpc.cpp:53-63 | set keeps keys distinct and in order, stores the value, and touches no other member |
| JsonValue.SerializeString | src/mcp/json_rpc.cpp:87-111 | appends the quoted, escaped string |
| JsonValue.SerializeValue | src/mcp/json_rpc.cpp:113-158 | appends the value's text, with separators between members and elements |
| JsonParserObject.JsonParserImpl.Advance | src/mcp/json_rpc.cpp:306-316 | moves one byte and keeps line and column those of the text read so far |
| JsonParserObject.PositionMeans | src/mcp/json_rpc.cpp:306-316 | lines are counted by newlines and columns from the last of them, both from one |
| JsonParserObject.JsonParserImpl.SkipWhitespace | src/mcp/json_rpc.cpp:291-300 | the cursor loop skips exactly the white space |
| JsonParserObject.JsonParserImpl.SetError | src/mcp/json_rpc.cpp:318-323 | keeps the first error, with its line and column |
| JsonParserObject.JsonParserImpl.ParseString | src/mcp/json_rpc.cpp:426-497 | the loop over escapes computes the specified scan |
| JsonParserObject.JsonParserImpl.ParseEscape | src/mcp/json_rpc.cpp:436-487 | an escape puts its bytes behind the text so far and leaves the scan of the rest as it was, or records the scan's fault |
| JsonParserObject.JsonParserImpl.ParseHex | src/mcp/json_rpc.cpp:452-470 | the loop over four hex digits computes the code point |
| JsonParserObject.JsonParserImpl.ParseNumber | src/mcp/json_rpc.cpp:499-528 | integer when strtoll takes it and no fraction or exponent follows, else a double |
| JsonParserObject.JsonParserImpl.ParseValue | src/mcp/json_rpc.cpp:335-351 | dispatch on the first byte |
| JsonParserObject.JsonParserImpl.ParseObject | src/mcp/json_rpc.cpp:353-394 | the member loop, storing by set |
| JsonParserObject.JsonParserImpl.StoreMember | src/mcp/json_rpc.cpp:363-393 | one turn of the member loop leaves the scan as it was, ends it, or records its fault |
| JsonParserObject.JsonParserImpl.ParseMember | src/mcp/json_rpc.cpp:363-380 | key, colon, value |
| JsonParserObject.JsonParserImpl.ParseArray | src/mcp/json_rpc.cpp:396-424 | the element loop |
| JsonParserObject.JsonParserImpl.ParseElement | src/mcp/json_rpc.cpp:406-423 | one turn of the element loop, likewise |
| JsonParserObject.JsonParserImpl.ParseDocument | src/mcp/json_rpc.cpp:269-288 | terminates on every input; the value or the first error, at the line and column where it was found |
| JsonGrammar.DocInverts | src/mcp/json_rpc.cpp:335-555 | every text of the grammar scans to the value it denotes, and leaves exactly what follows it |
| JsonGrammar.FieldsInvert | src/mcp/json_rpc.cpp:363-393 | the member loop inverts any rendering of members |
| JsonGrammar.ItemsInvert | src/mcp/json_rpc.cpp:406-423 | the element loop inverts any rendering of elements |
| JsonGrammar.ParseAcceptsGrammar | src/mcp/json_rpc.cpp:269-555 | any rendering of a value, in any spacing and escaping, parses to that value |
| JsonTheorems.CanonText | src/mcp/json_rpc.cpp:87-158 | the printer's output is the text of one particular rendering |
| JsonTheorems.CanonValue | src/mcp/json_rpc.cpp:87-158 | which denotes the value printed, for trees with distinct keys |
| JsonTheorems.RoundTripWhenRead | src/mcp/json_rpc.cpp:87-555 | for every tree built through the API, doubles included, parsing its text returns the same tree whenever the C library reads each double back from its own text at its place |
| JsonTheorems.JsonRoundTrip | src/mcp/json_rpc.cpp:87-555 | for every double-free tree built through the API, parsing its text succeeds, consumes all input and returns the same tree in the same order, whatever the C library does |
| JsonTheorems.DoubleMayReturnInteger | src/mcp/json_rpc.cpp:499-528 | a double whose text is 3, as that of 3.0 is, parses back as the integer 3, and is one the condition of RoundTripWhenRead shuts out |
| JsonTheorems.SkipSound | src/mcp/json_rpc.cpp:291-300 | what is skipped is white space and what is left does not start with any |
| JsonTheorems.StringSound | src/mcp/json_rpc.cpp:426-497 | an accepted string is a sequence of raw bytes and escapes, with the value they denote |
| JsonTheorems.NumberSound | src/mcp/json_rpc.cpp:499-528 | an accepted number is a numeral with the value it denotes, or a text that the C library reads, at that place, as that double and no further |
| JsonTheorems.ParseSound | src/mcp/json_rpc.cpp:269-555 | whatever parses is a rendering, the value is the one it denotes, and each double in it is what the C library makes of its text at its place |
| JsonTheorems.AcceptsExactlyTheGrammar | src/mcp/json_rpc.cpp:269-555 | for any C library, a text parses to a value if and only if it is a rendering of it, floating point included |
| JsonTheorems.LibraryIndependentExactly | src/mcp/json_rpc.cpp:269-555 | a text parses to a value whatever the C library makes of floating point if and only if it is a rendering without any |
| JsonTheorems.RepeatedKeyOverwrites | src/mcp/json_rpc.cpp:363-390 | for every list of members, however their keys are spelt: the text is accepted, the keys of the result are the first occurrences in order, each key has its last value, and no member is lost if and only if the keys are pairwise distinct |
| JsonTheorems.EscapeIsUtf8 | src/mcp/json_rpc.cpp:472-483 | the bytes put down for an escaped code point decode, as UTF-8 (section 4 of RFC 3629), to that code point if and only if it is no surrogate |
| JsonTheorems.EscapeInsensitive | src/mcp/json_rpc.cpp:452-483 | writing a character as \uXXXX, in either hex case, denotes the same string as writing its bytes |
| JsonStandard.FractionIsDouble | src/mcp/json_rpc.cpp:499-528 | a number with a fraction or an exponent, as section 6 of RFC 8259 writes it, is a double wherever a document may stand: the one the C library reads there from exactly this text |
| JsonStandard.WholeIsInteger | src/mcp/json_rpc.cpp:499-518 | a number with neither is the integer it denotes, when that fits 64 bits |
| JsonStandard.HugeIsDouble | src/mcp/json_rpc.cpp:499-528 | and a double again when it does not |
| JsonStandard.NumberParses | src/mcp/json_rpc.cpp:269-528 | a number in any white space parses to the integer or the double it denotes |
| JsonStandard.SkippedExactly | src/mcp/json_rpc.cpp:291-300 | exactly the four white space bytes of section 2 of RFC 8259 may stand in front of a document |
| JsonStandard.EscapeParses | src/mcp/json_rpc.cpp:440-449 | a short escape denotes a byte exactly as section 7 of RFC 8259 pairs them |
| JsonStandard.UnicodeParses | src/mcp/json_rpc.cpp:450-482 | a \u escape denotes the character that its four hex digits spell, in either case; anything else for a digit is refused |
| JsonStandard.Tokens | src/mcp/json_rpc.cpp:335-424 | the structural characters, the quotation mark and the three names are those of RFC 8259 |
| JsonValue.GetAfterSet | src/mcp/json_rpc.cpp:35-63 | get finds what set stored and every other key keeps its value |
| JsonRpc.SerializeResponse | src/mcp/json_rpc.cpp:207-224 | one set after another builds the envelope, and its text is returned |
| JsonRpc.EnvelopeLookUps | src/mcp/json_rpc.cpp:207-224 | the envelope holds "2.0", the id, and the result and error given |
| JsonRpc.ErrorLookUps | src/mcp/json_rpc.cpp:215-222 | the error object holds code, message and optional data |
| JsonRpc.ResponseReparses | src/mcp/json_rpc.cpp:207-224 | a serialized response parses back to an envelope with "2.0", the same id and exactly one of result and error, with their contents (section 5 of JSON-RPC 2.0) |
| JsonRpc.TextNoControl | src/mcp/json_rpc.cpp:87-158 | no value's text holds a byte below 0x20 |
| JsonRpc.LineFraming | src/mcp/json_rpc.cpp:207-224 | splitting newline-joined responses on newlines recovers exactly the messages |
| JsonRpc.AcceptedRequests | src/mcp/json_rpc.cpp:570-632 | for any C library, a text is accepted as a request if and only if it renders an object that stands for that request |
| Buffers.MoveDown | src/net/buffer.cpp:143-144 | an overlapping move to a lower address copies every byte |
| Buffers.Buffer.constructor | src/net/buffer.cpp:15-18 | an empty buffer of at least nine bytes |
| Buffers.Buffer.Retrieve | src/net/buffer.cpp:40-51 | drops from the front, everything when more is asked than there is |
| Buffers.Buffer.RetrieveAsString | src/net/buffer.cpp:53-58 | what is returned followed by what stays is what was there |
| Buffers.Buffer.MakeSpace | src/net/buffer.cpp:137-151 | keeps the readable bytes, makes the room asked for by compaction or growth, and refuses only a size past the address space |
| Buffers.Buffer.Append | src/net/buffer.cpp:70-78 | appends at the end, or changes nothing when the size is refused |
| Buffers.Buffer.HasWritten | src/net/buffer.cpp:88-94 | takes over bytes already placed; a claim beyond the room is ignored |
| Buffers.Buffer.ReadFd | src/net/buffer.cpp:96-127 | appends exactly what the read delivered, through the extra buffer when the room is short |
| Buffers.FifoConservation | src/net/buffer.cpp:40-127 | over any run, what came out followed by what is inside is what went in |
| Buffers.Replay | src/net/buffer.cpp:40-151 | over any run the buffer is a byte queue, and its backing size stays within max(initial, 9, 8 + 2P) for the peak demand P |
| Connection.StepKeeps | src/net/tcp_connection.cpp:53-334 | every operation keeps the stream, arming and half-close invariant and undoes nothing |
| Connection.StreamIntegrity | src/net/tcp_connection.cpp:196-334 | in every reachable state bytes written followed by the output buffer are the accepted messages; EPOLLOUT is armed exactly when bytes wait; SHUT_WR went out only behind every accepted byte, and a half-closing connection has issued it or has bytes waiting; one close notice at most |
| Connection.NeverBackwards | src/net/tcp_connection.cpp:53-334 | the state never moves back, written and accepted only grow, and nothing is written after SHUT_WR |
| Connection.DrainsThenShuts | src/net/tcp_connection.cpp:196-226 | a half-closing connection whose socket takes bytes writes everything and then issues SHUT_WR |
| Connection.DrainsConnected | src/net/tcp_connection.cpp:196-226 | a connected one writes everything, disarms and stays up |
| Connection.AcceptedExactly | src/net/tcp_connection.cpp:267-312 | the messages taken on are exactly those sent while the connection was up, but for one whose direct write failed and closed it |
| Connection.EverySendIsWritten | src/net/tcp_connection.cpp:196-312 | while a connection is up, bytes written followed by the buffer are all that was sent since it was established, and writes enough take it all out |
| Connection.ClosesExactly | src/net/tcp_connection.cpp:196-342 | what closes a connection that is up or half-closing, and nothing else: the peer or an error, force, teardown, a write that fails for good, a failing shutdown; each but teardown with one close notice |
| Connection.TcpConnection.ConnectEstablished | src/net/tcp_connection.cpp:53-62 | refines the step on values |
| Connection.TcpConnection.ConnectDestroyed | src/net/tcp_connection.cpp:72-84 | refines the step on values, disconnected already or not |
| Connection.TcpConnection.Send | src/net/tcp_connection.cpp:267-312 | direct write, then the rest through the buffer, refines the step on values; when the buffer throws, only what was written directly has changed |
| Connection.TcpConnection.WriteAtOnce | src/net/tcp_connection.cpp:273-287 | the direct write, tried only when nothing waits in front of the message |
| Connection.TcpConnection.WriteLoop | src/net/tcp_connection.cpp:203-215 | the write loop over the buffer writes what the results allow, in order |
| Connection.TcpConnection.OnWritable | src/net/tcp_connection.cpp:196-226 | refines the step on values: drain, disarm, and complete a pending half-close |
| Connection.TcpConnection.RequestShutdown | src/net/tcp_connection.cpp:140-146 | refines the step on values |
| Connection.TcpConnection.ShutdownOnLoop | src/net/tcp_connection.cpp:322-334 | SHUT_WR only when half-closing with an empty buffer |
| Connection.TcpConnection.Close | src/net/tcp_connection.cpp:244-256 | disconnects and notifies once |
| Connection.TcpConnection.ForceCloseInLoop | src/net/tcp_connection.cpp:336-342 | closes when established or half-closing |
| EventLoops.NoLostWakeup | src/net/event_loop.cpp:62-136 | in every interleaving, in epoll_wait each functor queued from outside doPendingFunctors is out of the queue, or the eventfd is readable, or its enqueuer has yet to write; and so for quit |
| EventLoops.EachOnceInOrder | src/net/event_loop.cpp:128-136 | functors run, in the batch and pending are, in this order, all that was queued |
| EventLoops.WakeupServesAll | src/net/event_loop.cpp:70-104 | from a readable eventfd the loop's next round runs everything pending, in order |
| EventLoops.QuitIsSet | src/net/event_loop.cpp:113-119 | quit() sets the flag on either thread, and from another one makes the eventfd readable |
| EventLoops.QuitIsFinal | src/net/event_loop.cpp:70-119 | whatever is interleaved, once quit() has been called the loop does not go back to epoll_wait and its first test ends it, until loop() is called again |
| EventLoops.QuitEndsLoop | src/net/event_loop.cpp:62-119 | with the eventfd readable the loop's next round runs everything pending and ends |
| EventLoops.PendingIsBehindSwap | src/net/event_loop.cpp:215-225 | the queue holds what was queued behind the last swap |
| EventLoops.StrandedExactly | src/net/event_loop.cpp:128-136 | with no wakeup there or owed, quit's included, work is left waiting exactly when a functor queued a functor behind the last swap |
| EventLoops.NeverStrandedWithoutNesting | src/net/event_loop.cpp:128-136 | runs in which no functor queues a functor never strand work |
| EventLoops.StrandedExample | src/net/event_loop.cpp:128-136 | a run that does |
| EventLoops.NestedFunctorStrands | src/net/tcp_server.cpp:116-119 | a functor that queues another, as a failing send queues its connection's removal, and then silence leave the other waiting in epoll_wait |
| Lifecycle.StepKeeps | src/net/tcp_server.cpp:64-151 | every accept, event, removal and stop keeps the callback accounting |
| Lifecycle.CallbacksOnce | src/net/tcp_server.cpp:64-151 | each connection's callback fires once for up and at most once for down, which it has exactly when the connection left the registry properly; a closed one has its removal queued |
| Lifecycle.StopEndsEveryLife | src/net/tcp_server.cpp:64-93 | after stop every connection has had its down callback exactly once, and the server's table is empty, if and only if no accept found its name in use |
| Lifecycle.TableHoldsTheLiving | src/rpc/rpc_server.cpp:244-251 | without such a collision the toggled table holds exactly the registered connections |
| Lifecycle.NoCollisionWithin32Bits | src/net/tcp_server.cpp:104-107 | up to 2^32 accepts never collide |
| Lifecycle.CollisionExample | src/net/tcp_server.cpp:99-125 | one connection that stays, 2^32 - 1 that come and go one after another, one more accept from the first peer, and stop: never more than two are registered at once, yet the first connection is never told it is down and stays in the table |
| Lifecycle.TcpServer.OnNewConnection | src/net/tcp_server.cpp:99-129 | refines the step on values |
| Lifecycle.TcpServer.RemoveConnectionInLoop | src/net/tcp_server.cpp:135-151 | refines the step on values and keeps the invariant |
| Lifecycle.TcpServer.StopServer | src/net/tcp_server.cpp:64-93 | the walk over the registry, in any order, destroys exactly the registered connections |
| Lifecycle.TcpServer.OnConnection | src/rpc/rpc_server.cpp:244-251 | the toggle |
| Dispatch.LoadStep | src/rpc/rpc_server.cpp:307-380 | only an accepted request adds to a connection's load, only a worker's release lowers it |
| Dispatch.StepKeeps | src/rpc/rpc_server.cpp:253-386 | every step of every thread keeps all invariants; none accepts once stopping is set |
| Dispatch.CountersConserved | src/rpc/rpc_server.cpp:307-380 | in every interleaving a connection's counter is its queued and running requests plus at most one in transit; it never underflows; at most 1024 accepted in flight, at most 8192 queued |
| Dispatch.RefusedExactly | src/rpc/rpc_server.cpp:307-335 | refused for load exactly at 1024, for the queue exactly when stopping or at 8192, with the kind that says which |
| Dispatch.RefusalIsSent | src/rpc/rpc_server.cpp:307-317 | once decided, a refusal is sent as decided, whatever other threads do meanwhile |
| Dispatch.ReplyKinds | src/rpc/rpc_server.cpp:275-386 | over every run, an answer is a worker's if and only if its request was accepted, and for a missing target if and only if it has none |
| Dispatch.AnsweredAtMostOnce | src/rpc/rpc_server.cpp:327-386 | every request is answered at most once, with its own id on its own connection; the queue is first in first out; each request popped is with one worker or answered by it |
| Dispatch.DrainedByStop | src/rpc/rpc_server.cpp:178-242 | once workers are joined the queue is empty, every counter is zero, and every request has been answered exactly once, every accepted one by a worker |
| Dispatch.NothingAcceptedAfterStopping | src/rpc/rpc_server.cpp:327-335 | nothing is enqueued once stopping is set |
| Dispatch.SleepersNotNeeded | src/rpc/rpc_server.cpp:327-347 | while a worker sleeps, there is an awake one for every queued request: no notification is lost |
| Dispatch.StepsLeftFall | src/rpc/rpc_server.cpp:226-242 | behind the final notify_all every step of anyone lowers a bound |
| Dispatch.StopEnds | src/rpc/rpc_server.cpp:178-242 | from then on stop() ends within that many steps, in any order, and is never stuck |
| Dispatch.StreamsStep | src/rpc/rpc_server.cpp:253-325 | arrivals on a connection are always a prefix of what its bytes say, the rest being in the IO thread's hand |
| Dispatch.EndToEnd | src/rpc/rpc_server.cpp:253-386 | encoded calls and whatever follows them arrive as those calls, in order, and in every quiet state each has been answered exactly once, on its own connection and with its own id |
| Calls.CallsArrive | src/rpc/rpc_client.cpp:190-205 | what a client writes for its calls is dispatched as exactly those calls, in order, with the service, method, overlaid metadata, body and id that it gave them |
| Calls.EveryCallIsAnswered | src/rpc/rpc_server.cpp:253-386 | the claim at the top of this file: and in every quiet state the ids of the responses handed to the connection are the ids the client put into its headers, each as often as it was put there |
| Delivery.PrefixReads | src/rpc/frame_codec.cpp:335-449 | the bytes of a run of answers, cut off anywhere, read as the answers wholly before the cut, in order |
| Delivery.AnswersReachTheClient | src/net/tcp_connection.cpp:196-312 | through partial writes, refusals and half-closes the client reads, in order, the first so many of the answers the connection accepted, and all once the buffer is empty |
| Delivery.RepliesAreAwaited | src/rpc/rpc_server.cpp:253-386 | every reply answers a request that has arrived, on its connection and with its id |
| Delivery.AcceptedWereSent | src/net/tcp_connection.cpp:267-312 | what a connection accepts is picked from what it was sent, in order and each message once (Connection.AcceptedExactly says which are missing) |
| Delivery.RepliesDiffer | src/rpc/rpc_server.cpp:307-380 | no two replies answer the same arrival |
| Delivery.RepliesReachTheClient | src/rpc/rpc_server.cpp:284-386 | both together, for messages that are frames of different replies on the connection: each frame a client reads belongs to a reply of its own and answers a request that arrived on that connection, no two the same one; it holds a worker's response, or else the refusal of its kind, status code and text: kResourceExhausted for load or queue, kInvalidArgument for a missing target; and the messages accepted are exactly those sent while the connection was up |
| Delivery.EveryReplyIsRead | src/net/tcp_connection.cpp:196-312 | on a connection that is up, writes enough bring the client one frame for every message sent since it was established, in order |

## Left out

- Metadata.DecodeMetadata: a decode that leaves the bytes that are there is `Undefined`; nothing is claimed of what the program does then.
- RequestStream.SegmentationIndependence: streams of which some cut leads to such a decode are excluded, and by `RequestStream.UndefinedForSomeCut` only those; all others, well formed or not, are covered.
- Client.RpcClient.Call: nothing is claimed, of the result or of the connection, when the reply has no outcome (`Client.UndeterminedExactly`). Deadlines and polling are results given as inputs; a script that runs out stands for a wait that timed out. The texts of errors made by the client are not modelled, only their codes.
- Client.RpcClient.Receive: the same replies are excluded.
- Client.RpcClient.EnsureConnected: name resolution is given, as a list of addresses with what connecting to each leads to.
- Connection.TcpConnection.Send: high-water and write-complete callbacks are absent, as in the RPC server.
- Connection.TcpConnection.RequestShutdown: called on the loop's thread, as the RPC server does; a cross-thread call is not modelled.
- Lifecycle.TcpServer.StopServer: one loop, the RPC server's setting; sub-reactors are not modelled.
- Lifecycle.TcpServer.OnConnection: connections are keyed by identity, so the reuse of a freed connection's address is not modelled.
- EventLoops.NoLostWakeup: `quit` before `loop`, exceptions out of functors and the channel table are not modelled.
- Calls.EveryCallIsAnswered: counts `sendResponse` calls, refusals included; a connection that has closed meanwhile drops the bytes (`src/net/tcp_connection.cpp:91`, `:269`). Handlers return; their bodies, the handler table and the deadline check that choose the response are arbitrary.
- Delivery.RepliesReachTheClient: takes the messages sent on a connection to be frames of the server's replies on it, each reply's at most once; in what order the workers' functors and the IO thread's own sends reach `sendInLoop` is left open, and so is what a worker's response says.
- JsonRpc.TextNoControl: the text of a double is the C library's and is taken to hold no control byte.
- JsonTheorems.RoundTripWhenRead: with doubles, one direction only: a library whose texts hold delimiters or leading blanks can bring a tree back without reading each double at its own place.
- JsonTheorems.EscapeInsensitive: surrogate halves are encoded like any other code point, as in the code, which is not UTF-8 (`JsonTheorems.EscapeIsUtf8`).
- Floating point (`%.17g`, `strtod`): two opaque functions of the C library.
- The event loop and the dispatch queue as objects with methods: their operations are several atomic steps interleaved with other threads, so they are state machines on values.
- `handleRead`: its loop is `Buffers.Drain` with `RequestStream.OnMessage` between reads; callbacks that send from inside it are separate events in `connection.dfy`.
- `FrameParser::feed` with a null pointer and a positive length, an error that changes nothing.
- The wrappers of `JsonRpcSerializer` and `JsonRpcError::serialize`, which repeat `JsonRpcResponse::serialize`.
- Start-up failure of the server, `registerService`, memory order weaker than sequential consistency, and allocation failure.
- `ToolRegistry`, the MCP gateway, sockets, acceptor, channel and address classes: tables and wrappers over libraries and system calls.
