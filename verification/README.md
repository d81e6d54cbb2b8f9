# Stream-sync verification

A Dafny model of the data path of the stream-sync system: the UDP wire codec, the fragmentation and reassembly of
large video frames, the server's video queue, the handoff codec between server and switcher, the bounded outbound
queue, the clock arithmetic behind the round-trip and offset estimates, and the loader of the auth configuration.

Each component has a specification on values (functions), imperative code in the form of the program (classes, loops,
cursors, growing buffers) proved against it, and theorems about the specification over all inputs and all runs.

- `Bytes`, `Grammar`: little-endian integers, UTF-8 text, and the grammar of fields both wire formats are written in.
  `Grammar` says once what a left-to-right cursor reads and what left-to-right appending writes, and that the two are
  exact inverses.
- `Protocol`, `Wire`, `WireTheorems`: the eight UDP messages, their layouts, packets, and what the format promises.
  `PayloadReading`, `WireCodec`: the cursor and the decoders that drive it. `ByteWriting`, `WireEncoder`: the buffer and
  the encoders. `WireSizes`: the size plans. `WireBytes`: every packet byte by byte, in numerals, and how one that is none
  is refused.
- `Fragmentation`, `Reassembly`, `FirstCompletion`, `Delivery`: cutting a frame into datagrams, putting it together
  again, what contradicting fragments do to it, and both ends joined through the codec, for every order, repetition and
  interleaving of arrivals.
- `Handoff`, `HandoffTheorems`, `HandoffCodec`, `HandoffBytes`: the handoff frames. This format is not canonical, so its
  theorems are about normal forms and fixpoints; `HandoffBytes` gives the frames byte by byte.
- `VideoQueue`, `HandoffHandler`, `VideoServer`: the queue with its retained keyframes, one request answered from it,
  and both as objects updated in place.
- `OutboundQueue`: admission, planned length, and a queue that carries the decisions out.
- `Timebase`, `ClockState`: offset and delay from four timestamps (the formulas of section 8 of RFC 5905), the
  truncating average, and the server's per-client estimates.
- `ConfigText`, `AuthConfig`, `AuthConfigTheorems`, `ConfigBlocks`: the line loop of the auth configuration and what a
  configuration means. `ConfigLines`, `ConfigPrinting`: what each line says, and printed configurations loaded again.

A `String` is a byte sequence of well-formed UTF-8 (`Bytes.Text`); lengths are those of a 64-bit machine, on which no
length used here overflows. The configuration text is a sequence of characters, because the loader trims characters.

Four findings are stated as theorems, each with its exact condition:

- The key `"client/run"` under which keyframes are retained is not injective. A client named `a` can be shown a keyframe
  of a client named `a/b`. `VideoQueue.SharedKeyMixes` shows it, and `VideoQueue.NeverCrossesScopesIffSlashFree` gives
  the exact condition on the client ids in use.
- The planned length of the outbound queue is not the length of a queue that carries the decision out when the oldest
  item is dropped from a queue that is already longer than its capacity, or has capacity 0 (`OutboundQueue.PlannedIsActual`);
  and a queue is bounded only if no class is accepted when full (`OutboundQueue.BoundedIff`).
- The outlier policy compares a candidate with the latest accepted one of its run. A clock is followed all the way
  exactly when it moves in steps within the thresholds, however far (`ClockState.FollowedIff`), and an entry is frozen
  exactly when everything offered continues its run and lies beyond a threshold from it (`ClockState.LockedOut`). One
  jump can do that for the rest of a run (`ClockState.JumpLocksOut`); a drift just as wide does not
  (`ClockState.DriftIsFollowed`).
- A frame is completed exactly under the condition of `FirstCompletion.CompletedIff`. If its slots fill up with the
  wrong total, it is never completed and never forgotten (`FirstCompletion.StuckForever`).

## Model

| member | source | states |
|---|---|---|
| `WireTheorems.ExactAcceptance` | crates/net-core/src/lib.rs:1490-1509 | a byte string is accepted with expected version v exactly when, with the four flags and reserved bytes zeroed, it is the encoding at version v of some message |
| `WireTheorems.Reencode` | crates/protocol/src/lib.rs:1494-1530 | re-encoding any decoded packet succeeds and gives the same bytes with flags and reserved zeroed |
| `WireTheorems.PacketRoundTrip` | crates/protocol/src/lib.rs:1509-1530 | for all eight messages, whenever encoding succeeds, decoding gives the message in normal form: the context's version, the variant's type, no capabilities and no video profile, observation ids taken from the message |
| `WireTheorems.IdenticalExactlyWhenNormal` | crates/protocol/src/lib.rs:283-293 | the decoded message is the identical one exactly when nothing in it is dropped by the wire |
| `WireTheorems.SameBytesSameNormalForm` | crates/protocol/src/lib.rs:1509-1530 | two messages encode to the same packet exactly when they have the same normal form |
| `WireTheorems.FlagsIgnored` | crates/protocol/src/lib.rs:124-170 | flags and reserved fields never influence what is decoded |
| `WireTheorems.EncodingIsZeroed` | crates/protocol/src/lib.rs:206-219 | an encoder always writes zero flags and reserved fields |
| `WireTheorems.CutPayload` | crates/protocol/src/lib.rs:667-828 | for every message type, every strict prefix of an accepted payload, with the header length set to match, fails with `InvalidPayloadLength` whose actual length is the prefix's |
| `WireTheorems.ExtendedPayload` | crates/protocol/src/lib.rs:799-808 | every non-empty extension of an accepted payload fails with `InvalidPayloadLength` naming both lengths |
| `WireTheorems.PrefixFree` | crates/protocol/src/lib.rs:257-624 | no accepted payload is a proper prefix of another of its type |
| `WireTheorems.PayloadRoundTrip` | crates/protocol/src/lib.rs:1108-1267 | a payload that is written completely decodes to the normal form of its message |
| `WireTheorems.PayloadReencode` | crates/protocol/src/lib.rs:257-624 | an accepted payload is exactly what the encoder writes for the message decoded from it |
| `WireTheorems.WritesPrintedPayload` | crates/protocol/src/lib.rs:1108-1267 | a payload encoder succeeds exactly when the size check passes and every value fits its field, and then writes the printed layout |
| `WireTheorems.WriteStops` | crates/protocol/src/lib.rs:830-837 | writing stops at the first string longer than 65535 bytes, with that string's error, and nowhere else |
| `WireTheorems.HeaderRoundTrip` | crates/protocol/src/lib.rs:124-219 | the header written in front of a payload decodes to its type, version and length and leaves that payload |
| `WireTheorems.HeaderExact` | crates/protocol/src/lib.rs:124-170 | an accepted packet is exactly the header for what was decoded, flags apart, followed by the payload |
| `Grammar.RoundTrip` | crates/protocol/src/lib.rs:667-876 | every list of values that fits its layout comes back from the bytes written for it, with nothing left over |
| `Grammar.Exact` | crates/protocol/src/lib.rs:667-828 | bytes read to their end are exactly the bytes written for the values read |
| `Grammar.CutUpTo` | crates/protocol/src/lib.rs:810-827 | a cut anywhere in a written layout is reported as missing bytes, not as any other fault |
| `Grammar.Extended` | crates/protocol/src/lib.rs:799-808 | reading stops exactly at the end of what was written, whatever follows |
| `Grammar.PrintThenParse` | crates/protocol/src/lib.rs:672-797 | reading back one written field gives its value and stops right after it |
| `Grammar.ParseThenPrint` | crates/protocol/src/lib.rs:672-797 | the bytes a field was read from are the bytes written for its value |
| `Grammar.NextRead` | crates/protocol/src/lib.rs:667-828 | a failing read decides the outcome of the whole layout, a succeeding one fixes its next value |
| `Bytes.FromToLE` | crates/protocol/src/lib.rs:172-197 | reading a little-endian integer gives back the integer written |
| `Bytes.ToFromLE` | crates/protocol/src/lib.rs:172-197 | writing the integer read gives back the bytes |
| `Bytes.ToLEDigit` | crates/protocol/src/lib.rs:206-219 | the byte at position i of a written integer is its i-th digit to base 256, lowest first |
| `Bytes.FromLESum` | crates/protocol/src/lib.rs:172-197 | an integer read is the sum of its bytes, each weighted by 256 to the power of its position |
| `Bytes.ToLENumerals` | crates/protocol/src/lib.rs:206-219 | integers of 1, 2, 4 and 8 bytes are written as those bytes, spelled out one by one |
| `Bytes.FromLENumerals` | crates/protocol/src/lib.rs:172-197 | and are read as those sums, spelled out |
| `WireBytes.PayloadOnTheWire` | crates/protocol/src/lib.rs:1108-1267 | for each of the eight messages: it is written completely exactly when its strings fit their prefixes and a video body is as long as it says, and then its payload is these bytes, every field, code and tag in numerals |
| `WireBytes.HeaderOnTheWire` | crates/protocol/src/lib.rs:206-219 | the sixteen header bytes, one by one: type, 16, version, length, zeros |
| `WireBytes.PacketOnTheWire` | crates/protocol/src/lib.rs:887-1105 | for each of the eight messages: it is encoded exactly when it can be sent and its payload has a 32-bit length, and the whole packet is exactly these bytes |
| `WireBytes.PacketUnderstood` | crates/net-core/src/lib.rs:1490-1509 | exactly these bytes are what a receiver of the same version takes for the message |
| `WireBytes.HeaderRefused` | crates/protocol/src/lib.rs:124-170 | the checks before the payload in their order, on the bytes themselves: too short, unknown type, header length, payload length, version |
| `WireBytes.MalformedRefused` | crates/protocol/src/lib.rs:667-797 | a malformed field is refused under its own error, with the wrong bytes in it, whatever well-formed fields precede it and whatever follows |
| `PayloadReading.PayloadReader.ReadString` | crates/protocol/src/lib.rs:672-683 | same value, error and new offset as the grammar, on success and on failure; the offset never moves back or past the end |
| `PayloadReading.PayloadReader.ReadInt` | crates/protocol/src/lib.rs:693-707 | an integer of any width: value, error and new offset are the grammar's, and the value is in range |
| `PayloadReading.PayloadReader.ReadExactBytes` | crates/protocol/src/lib.rs:733-738 | takes exactly the bytes asked for, or fails and stays where it is |
| `PayloadReading.PayloadReader.ReadBool` | crates/protocol/src/lib.rs:709-719 | accepts 0 and 1 only |
| `PayloadReading.PayloadReader.ReadReserved` | crates/protocol/src/lib.rs:721-731 | accepts three zero bytes only, as the two video decoders demand |
| `PayloadReading.PayloadReader.ReadCode` | crates/protocol/src/lib.rs:685-691 | accepts known enumeration codes only |
| `PayloadReading.PayloadReader.ReadOptionalString` | crates/protocol/src/lib.rs:740-750 | accepts presence tags 0 and 1 only, and a string behind 1 |
| `PayloadReading.PayloadReader.ReadOptionalInt` | crates/protocol/src/lib.rs:752-774 | accepts presence tags 0 and 1 only, and a u64 or u32 behind 1 |
| `PayloadReading.PayloadReader.ReadOptionalHeartbeatObservation` | crates/protocol/src/lib.rs:776-797 | four timestamps behind the tag, with the ids of the surrounding message |
| `PayloadReading.PayloadReader.Finish` | crates/protocol/src/lib.rs:799-808 | succeeds exactly at the end of the payload, and then the whole layout was read |
| `PayloadReading.PayloadReader.ReadBlob` | crates/protocol/src/lib.rs:429-489 | takes the payload behind its u32 length, or fails as the grammar does |
| `WireCodec.DecodeAuthRequestPayload` | crates/protocol/src/lib.rs:257-299 | on every header and byte string, the cursor decoder of an auth request computes exactly the specified message or the specified error: wrong type, wrong length, then the first faulty field |
| `WireCodec.DecodeAuthResponsePayload` | crates/protocol/src/lib.rs:301-345 | on every header and byte string, the cursor decoder of an auth response computes exactly the specified message or the specified error: wrong type, wrong length, then the first faulty field |
| `WireCodec.DecodeHeartbeatPayload` | crates/protocol/src/lib.rs:347-386 | on every header and byte string, the cursor decoder of a heartbeat computes exactly the specified message or the specified error: wrong type, wrong length, then the first faulty field |
| `WireCodec.DecodeHeartbeatAckPayload` | crates/protocol/src/lib.rs:388-427 | on every header and byte string, the cursor decoder of a heartbeat acknowledgement computes exactly the specified message or the specified error: wrong type, wrong length, then the first faulty field |
| `WireCodec.DecodeVideoFramePayload` | crates/protocol/src/lib.rs:429-489 | on every header and byte string, the cursor decoder of a video frame computes exactly the specified message or the specified error: wrong type, wrong length, then the first faulty field |
| `WireCodec.DecodeVideoFrameFragmentPayload` | crates/protocol/src/lib.rs:491-546 | on every header and byte string, the cursor decoder of a frame fragment computes exactly the specified message or the specified error: wrong type, wrong length, then the first faulty field |
| `WireCodec.DecodeClientStatsPayload` | crates/protocol/src/lib.rs:548-591 | on every header and byte string, the cursor decoder of client statistics computes exactly the specified message or the specified error: wrong type, wrong length, then the first faulty field |
| `WireCodec.DecodeServerNoticePayload` | crates/protocol/src/lib.rs:593-624 | on every header and byte string, the cursor decoder of a server notice computes exactly the specified message or the specified error: wrong type, wrong length, then the first faulty field |
| `WireCodec.DecodePayloadByMessageType` | crates/protocol/src/lib.rs:631-660 | dispatch by type computes the specified payload decoding |
| `WireCodec.DecodeInboundPacket` | crates/net-core/src/lib.rs:1490-1509 | header, version and payload checks in this order compute the specified packet decoding |
| `ByteWriting.ByteBuffer.WriteString` | crates/protocol/src/lib.rs:830-837 | appends prefix and bytes, or refuses a string over 65535 bytes and appends nothing |
| `ByteWriting.ByteBuffer.WriteOptionalString` | crates/protocol/src/lib.rs:843-854 | appends a tag and, when present, the string; the tag is already written when the string is refused |
| `ByteWriting.ByteBuffer.WriteOptionalU64` | crates/protocol/src/lib.rs:856-864 | appends tag and value |
| `ByteWriting.ByteBuffer.WriteOptionalProtocolVersion` | crates/protocol/src/lib.rs:866-876 | appends tag and value |
| `ByteWriting.ByteBuffer.WriteBlob` | crates/protocol/src/lib.rs:1162-1199 | appends the u32 length and the bytes |
| `ByteWriting.ByteBuffer.WriteObservation` | crates/protocol/src/lib.rs:1235-1257 | appends the tag and four timestamps, without the ids |
| `WireEncoder.EncodeAuthRequestPayload` | crates/protocol/src/lib.rs:1108-1119 | for an auth request, appends exactly the bytes of its fields up to the first string that is too long, with that error |
| `WireEncoder.EncodeAuthResponsePayload` | crates/protocol/src/lib.rs:1121-1134 | for an auth response, appends exactly the bytes of its fields up to the first string that is too long, with that error |
| `WireEncoder.EncodeHeartbeatPayload` | crates/protocol/src/lib.rs:1136-1147 | for a heartbeat, appends exactly the bytes of its fields up to the first string that is too long, with that error |
| `WireEncoder.EncodeHeartbeatAckPayload` | crates/protocol/src/lib.rs:1149-1160 | for a heartbeat acknowledgement, appends exactly the bytes of its fields up to the first string that is too long, with that error |
| `WireEncoder.EncodeVideoFramePayload` | crates/protocol/src/lib.rs:1162-1199 | for a video frame, appends exactly the bytes of its fields up to the first string that is too long, with that error, after the two size checks |
| `WireEncoder.EncodeVideoFrameFragmentPayload` | crates/protocol/src/lib.rs:1201-1233 | for a frame fragment, appends exactly the bytes of its fields up to the first string that is too long, with that error, after the two size checks |
| `WireEncoder.EncodeClientStatsPayload` | crates/protocol/src/lib.rs:1235-1257 | for client statistics, appends exactly the bytes of its fields up to the first string that is too long, with that error |
| `WireEncoder.EncodeServerNoticePayload` | crates/protocol/src/lib.rs:1259-1267 | for a server notice, appends exactly the bytes of its fields up to the first string that is too long, with that error |
| `WireEncoder.EncodeFixedHeader` | crates/protocol/src/lib.rs:206-219 | appends the 16 header bytes |
| `WireEncoder.EncodeMessage` | crates/protocol/src/lib.rs:887-1105 | all or nothing: success appends header and payload behind the untouched old contents, failure changes nothing |
| `WireSizes.PartialWriteHappens` | crates/protocol/src/lib.rs:1259-1267 | a payload encoder does leave a partial write when a later string is too long |
| `WireSizes.VideoFrameSize` | crates/protocol/src/lib.rs:65-69 | payload length is the two prefixed strings, 46 and the body |
| `WireSizes.VideoFrameFragmentSize` | crates/protocol/src/lib.rs:71-75 | payload length is the two prefixed strings, 45 and the chunk |
| `WireSizes.ClientStatsSize` | crates/protocol/src/lib.rs:1811-1820 | the plan's sizes are the encoder's: 25, and 32 more with an observation |
| `WireSizes.ServerNoticePlanned` | crates/protocol/src/lib.rs:1849-1869 | the plan gives the encoded field lengths and fails exactly when the encoder does, with the same error |
| `Fragmentation.Plan` | apps/client/src/lib.rs:5407-5442 | a plan's chunks have at most the target size and fit the datagram together with the overhead, and at least one byte unless the target is zero; without room for one byte there is no plan, and the one error names limit and overhead |
| `Fragmentation.PlanIsLongest` | apps/client/src/lib.rs:5407-5442 | the planned chunk length is the largest that target and datagram allow, one of the two is used up, and the number of chunks is the rounded-up quotient |
| `Fragmentation.PlanRefusedIff` | apps/client/src/lib.rs:5407-5442 | there is no plan exactly when the overhead leaves no room, or every chunk length allowed needs more than 2^32 - 1 chunks |
| `Fragmentation.Fragment` | apps/client/src/lib.rs:5444-5484 | the loop over chunks builds exactly the specified fragments or error |
| `Fragmentation.ChunksCover` | apps/client/src/lib.rs:5455-5483 | the chunks joined are the payload, and their number is the planned one |
| `Fragmentation.FragmentsShape` | apps/client/src/lib.rs:5444-5484 | fragments carry consecutive indices, the common count and metadata, and together exactly the payload |
| `Fragmentation.FragmentsRefusedIff` | apps/client/src/lib.rs:5444-5484 | a frame is refused exactly when it has no plan or its payload has no 32-bit length, with that error |
| `Fragmentation.FewestFragments` | apps/client/src/lib.rs:5444-5484 | no chunk length allowed would do with fewer fragments, and every fragment but the last has the planned length |
| `Fragmentation.FragmentDatagram` | apps/client/src/lib.rs:5367-5442 | every fragment of a frame whose ids fit encodes; its datagram is the overhead and the chunk, never exceeds the safe size, and decodes to the fragment |
| `Reassembly.Apply` | apps/server/src/lib.rs:7004-7103 | every tracked frame keeps one slot per announced chunk |
| `Reassembly.SlotCounts` | apps/server/src/lib.rs:6926-6936 | received and missing slots add up, and none is missing exactly when all are received |
| `Reassembly.MissingExactly` | apps/server/src/lib.rs:6926-6936 | the missing list is the ascending list of exactly the indices not held |
| `Reassembly.ArrivalStep` | apps/server/src/lib.rs:7004-7103 | one arrival adds its index to those held, is ignored as a duplicate, or completes the frame with the sender's payload |
| `Reassembly.RunCollects` | apps/server/src/lib.rs:7004-7103 | over every sequence of arrivals, interleaved with any other frames, a frame is completed once for every time its set of indices fills up, always with the same content |
| `Reassembly.DeliveredWhenAllArrived` | apps/server/src/lib.rs:7004-7103 | once every index has arrived, in any order and with any repetitions, the frame has been completed at least once |
| `Reassembly.DeliveredExactlyOnce` | apps/server/src/lib.rs:7004-7103 | without repeated arrivals it is completed exactly once |
| `Reassembly.CompletedOnlyFromArrivals` | apps/server/src/lib.rs:7004-7103 | a completed frame consists of chunks that really arrived under its key, one per index |
| `FirstCompletion.CompletedIff` | apps/server/src/lib.rs:7004-7103 | for any arrivals, contradicting ones included, a key is completed exactly when every index announced by its first well-shaped fragment has come with that metadata and the first chunks add up to the announced total; the first completed frame consists of those chunks |
| `FirstCompletion.ArrivalOf` | apps/server/src/lib.rs:7004-7103 | one arrival either completes the key with the first chunks, or leaves exactly the first chunks in the state |
| `FirstCompletion.ReportsExact` | apps/server/src/lib.rs:7004-7103 | until a key is completed: which arrival is a duplicate, which has which fault of shape or metadata, and what each report says of chunks received, missing and repeated, counted over the arrivals |
| `FirstCompletion.StuckForever` | apps/server/src/lib.rs:7056-7067 | a key whose slots are full with the wrong total is never completed, whatever arrives later, and never leaves the state |
| `FirstCompletion.OneWrongChunk` | apps/server/src/lib.rs:7056-7067 | one fragment is enough to bring that about |
| `Delivery.FrameDelivered` | apps/client/src/lib.rs:5444-5484 | end to end: each datagram of a fragmented frame respects the safe size, and a receiver that gets each at least once, in any order, with any repeats and with any other datagrams in between, rejected ones included, completes exactly that frame, its capture time standing in for the send time; without repeats exactly once, with nothing left behind |
| `VideoServer.FrameReassembly.ApplyFragment` | apps/server/src/lib.rs:7004-7103 | the in-place update does exactly the specified step, and a completed frame, and nothing else, goes to the queue |
| `VideoServer.FrameReassembly.ReassemblePayload` | apps/server/src/lib.rs:6942-6950 | the loop joins the chunks in index order |
| `HandoffTheorems.RequestRoundTrip` | crates/net-core/src/lib.rs:353-382 | an encoded request decodes to the same request |
| `HandoffTheorems.RequestReencode` | crates/net-core/src/lib.rs:353-382 | decoding then encoding a request always gives the original bytes |
| `HandoffTheorems.RequestExactAcceptance` | crates/net-core/src/lib.rs:353-382 | a byte string decodes to a request exactly when that request encodes to it |
| `HandoffTheorems.ResponseRoundTrip` | crates/net-core/src/lib.rs:384-555 | an encoded response decodes to itself, except that flag without id becomes id 0 and id without flag becomes none |
| `HandoffTheorems.IdenticalExactlyWhenFlagAgrees` | crates/net-core/src/lib.rs:384-555 | it decodes to the identical response exactly when the flag agrees with the presence of the id |
| `HandoffTheorems.ResponseFixpoint` | crates/net-core/src/lib.rs:384-555 | re-encoding an accepted response frame succeeds, keeps length and meaning, and keeps the bytes exactly when flags are 0 or 1 and the id is 0 when unavailable |
| `HandoffTheorems.SameResponseSameCanonicalFrame` | crates/net-core/src/lib.rs:384-555 | two accepted frames carry the same response exactly when they re-encode to the same bytes |
| `HandoffTheorems.DecodedFlagAgrees` | crates/net-core/src/lib.rs:457-555 | a decoded response is always in normal form |
| `HandoffTheorems.EncodedIff` | crates/net-core/src/lib.rs:384-455 | a response is encoded exactly when its strings and payload length are in order and its body, whose length is given, fits 32 bits; otherwise the error is the first of these |
| `HandoffTheorems.SelfDelimiting` | crates/net-core/src/lib.rs:558-589 | no encoded frame, request or response, is a proper prefix of another |
| `HandoffTheorems.CutFrame` | crates/net-core/src/lib.rs:567-589 | every strict prefix of a frame is too short or truncated, with the exact lengths |
| `HandoffTheorems.ExtendedFrame` | crates/net-core/src/lib.rs:567-589 | every extension is reported as trailing bytes, counted exactly |
| `HandoffTheorems.ReframedRequest` | crates/net-core/src/lib.rs:591-672 | cutting the body of an accepted request and framing it again is always an unexpected end |
| `HandoffTheorems.ReframedResponse` | crates/net-core/src/lib.rs:591-672 | cutting the body of an accepted response of any kind and framing it again is always an unexpected end |
| `HandoffBytes.RequestOnTheWire` | crates/net-core/src/lib.rs:353-382 | an encoded request is its length, low byte first, and its five fields with every code in numerals; these bytes decode to it |
| `HandoffBytes.ResponseOnTheWire` | crates/net-core/src/lib.rs:384-555 | the same for the three responses, with exactly when a response is encoded |
| `HandoffBytes.FrameRefused` | crates/net-core/src/lib.rs:567-589 | what both decoders say about a length prefix, on its four bytes |
| `HandoffBytes.RequestMalformed` | crates/net-core/src/lib.rs:366-382 | a malformed string or mode of a request is refused under its own error, whatever precedes and follows it |
| `HandoffBytes.UnknownKind` | crates/net-core/src/lib.rs:457-555 | a kind byte other than 1, 2 and 3 is refused as such |
| `HandoffBytes.ResponseMalformed` | crates/net-core/src/lib.rs:457-555 | the same as for requests, for every field of the three responses |
| `HandoffCodec.BodyReader.ReadExact` | crates/net-core/src/lib.rs:656-672 | takes exactly the bytes asked for, or reports what was needed and what was there |
| `HandoffCodec.BodyReader.ReadString` | crates/net-core/src/lib.rs:638-646 | the string the layout has there, or the fault that decides the body |
| `HandoffCodec.BodyReader.ReadInt` | crates/net-core/src/lib.rs:604-636 | the integer the layout has there, or the fault that decides the body |
| `HandoffCodec.BodyReader.ReadBlob` | crates/net-core/src/lib.rs:648-654 | the payload behind its length, or the fault that decides the body |
| `HandoffCodec.BodyReader.EnsureConsumed` | crates/net-core/src/lib.rs:591-602 | succeeds exactly at the end of the body |
| `HandoffCodec.DecodeRequestFrame` | crates/net-core/src/lib.rs:366-382 | the cursor decoder computes the specified result on every byte string |
| `HandoffCodec.DecodeResponseFrame` | crates/net-core/src/lib.rs:457-555 | the decoder, through the kind byte and its three arms, computes the specified result on every byte string |
| `HandoffCodec.PushString` | crates/net-core/src/lib.rs:690-701 | refuses a string over 65535 bytes under its field name, before anything is written |
| `HandoffCodec.EncodeRequestFrame` | crates/net-core/src/lib.rs:353-364 | the growing body is framed as specified, with the specified errors |
| `HandoffCodec.EncodeResponseFrame` | crates/net-core/src/lib.rs:384-455 | for all three responses, the growing body is framed as specified, with the specified errors |
| `VideoQueue.FirstInFirstOut` | apps/server/src/lib.rs:5196-5271 | over every sequence of stores, reads and pops, what went into a client's run is what came out of it followed by what is queued: nothing lost unreported, repeated or reordered |
| `VideoQueue.NeverOverCapacity` | apps/server/src/lib.rs:6804-6847 | no queue outgrows the largest limit it was stored under |
| `VideoQueue.RunKeepsInv` | apps/server/src/lib.rs:5196-5271 | queues are never left empty and hold only their own client's frames; what is retained is a keyframe under its own key |
| `VideoQueue.RetainsLastKeyframe` | apps/server/src/lib.rs:6804-6847 | what is retained under a key is the last keyframe stored under it; reads and pops never touch it |
| `VideoQueue.RetainsOwnScope` | apps/server/src/lib.rs:5227-5234 | with slash-free client ids, what is retained for a client and run is that scope's own last keyframe |
| `VideoQueue.NeverCrossesScopesIffSlashFree` | apps/server/src/lib.rs:5273-5275 | retained keyframes never cross scopes, over every run, exactly when no client id in use continues another after a slash |
| `VideoQueue.SharedKeyMixes` | apps/server/src/lib.rs:5273-5275 | for a scope that shares its key with another one, the other scope's keyframe is retained and answered by the decodable read, though nothing was ever stored for the scope |
| `VideoQueue.SameKeySameScope` | apps/server/src/lib.rs:5273-5275 | two scopes with the same key are the same unless one client id continues the other after a slash |
| `VideoQueue.DecodableIsLastKeyframe` | apps/server/src/lib.rs:5360-5376 | whatever was evicted or dequeued, the decodable read answers the last keyframe ever stored for its scope, and says whether the queue or the retained keyframe supplied it |
| `VideoQueue.DecodableFromThenOn` | apps/server/src/lib.rs:5360-5376 | without any condition: once a keyframe of a scope is stored, a decodable frame is always answered |
| `VideoQueue.InspectThenDequeue` | apps/server/src/lib.rs:5330-5406 | inspecting changes nothing and shows the frame the next dequeue takes, which is the head of the run |
| `VideoQueue.OldestAndLatest` | apps/server/src/lib.rs:5330-5406 | after any sequence of events: while not everything stored for a scope has left, inspecting the oldest and dequeuing bring the first frame that has not left, inspecting the latest brings the last frame ever stored for the scope; afterwards all three bring nothing; inspecting changes nothing |
| `VideoQueue.AnsweredByMode` | apps/server/src/lib.rs:5330-5406 | the same as one answer per mode |
| `VideoQueue.ReadAccounts` | apps/server/src/lib.rs:5330-5406 | what an answer reports beside the frame: the retained keyframe and its id, the source, the frames remaining, the ids and the mode asked for |
| `VideoQueue.StoreShifts` | apps/server/src/lib.rs:6804-6847 | a store appends its frame, drops the oldest exactly when the queue is full, and reports both lengths and the dropped frame |
| `VideoQueue.PopRunShifts` | apps/server/src/lib.rs:5256-5270 | a dequeue takes the head of the run asked for and leaves every other run as it was |
| `VideoQueue.ReasonIsExact` | apps/server/src/lib.rs:5421-5438 | the reason of an empty answer tells exactly whether the client, the run or only a keyframe is missing |
| `VideoQueue.AnsweredWasStored` | apps/server/src/lib.rs:5330-5406 | every frame answered was stored, as it is, by an event of the run |
| `VideoServer.VideoFrameQueue.StoreFrame` | apps/server/src/lib.rs:6804-6847 | the in-place store does exactly the specified update |
| `VideoServer.VideoFrameQueue.PopFrontOf` | apps/server/src/lib.rs:5247-5254 | the in-place pop takes the oldest frame of a client and removes an emptied queue |
| `VideoServer.VideoFrameQueue.Position` | apps/server/src/lib.rs:5256-5264 | finds the first frame of the run |
| `VideoServer.VideoFrameQueue.PopFrontOfRun` | apps/server/src/lib.rs:5256-5270 | removes exactly the specified frame |
| `VideoServer.VideoFrameQueue.Scan` | apps/server/src/lib.rs:5335-5376 | one pass finds number, oldest, latest and latest keyframe of a run |
| `VideoServer.VideoFrameQueue.ReadFrame` | apps/server/src/lib.rs:5330-5406 | the read does exactly the specified step in all four modes |
| `VideoServer.VideoFrameQueue.HandleRequest` | apps/server/src/lib.rs:5441-5512 | the handler gives the specified response and state |
| `HandoffHandler.RefusedIffBlank` | apps/server/src/lib.rs:5446-5451 | a request is refused exactly when an id is blank, and then the queue is untouched; the request id always comes back |
| `HandoffHandler.BlankIff` | apps/server/src/lib.rs:5446-5451 | an id is blank exactly when it is the UTF-8 encoding of white-space characters only |
| `HandoffHandler.AnswerFields` | apps/server/src/lib.rs:5441-5512 | every field of an answer, with or without a frame, against the request and the queue |
| `HandoffHandler.AnswersAgree` | apps/server/src/lib.rs:5441-5512 | flag and id of an answer always agree |
| `HandoffHandler.AlwaysCountable` | apps/server/src/lib.rs:5534-5540 | after any run of honest stores the 32-bit conversions of the handler cannot fail |
| `HandoffHandler.AnswerSurvives` | apps/server/src/lib.rs:5441-5512 | after any such run the answer to any request that fits the wire is encoded exactly when it carries no frame or 78 bytes plus ids and payload fit 32 bits, and is then decoded without change |
| `HandoffHandler.SwitcherSeesLastKeyframe` | apps/server/src/lib.rs:5441-5512 | from the stores to the switcher: a request for the latest decodable frame brings exactly the last keyframe stored for its scope, in all thirteen fields, though it may have left the queue long ago; only when 78 bytes plus ids and payload exceed a 32-bit length is it refused, with that length |
| `HandoffHandler.SwitcherSeesQueue` | apps/server/src/lib.rs:5441-5512 | the same for the other three modes: the decoded response shows the last frame stored for the scope, or the first one that has not left |
| `OutboundQueue.Conserved` | crates/net-core/src/lib.rs:1104-1129 | over every run, what was there and then accepted is what left, in order, and then is still there |
| `OutboundQueue.PlannedIsActual` | crates/net-core/src/lib.rs:1118-1128 | the planned length is that of a queue that carries the decision out, with the exact exception |
| `OutboundQueue.PlannedAlongRuns` | crates/net-core/src/lib.rs:1104-1129 | along every run that starts within the capacity of a policy that cannot overgrow, the planned length of the next push is the actual one |
| `OutboundQueue.StaysWithin` | crates/net-core/src/lib.rs:1139-1174 | under a policy that cannot overgrow, every run that starts within the capacity stays within it |
| `OutboundQueue.BoundedIff` | crates/net-core/src/lib.rs:1139-1174 | a queue is bounded over every run exactly when no class is accepted when full and none drops the oldest of a queue without capacity |
| `OutboundQueue.Overgrows` | crates/net-core/src/lib.rs:1139-1174 | any other policy overgrows with a single push |
| `OutboundQueue.PushedByMessage` | crates/net-core/src/lib.rs:1139-1174 | what a push does to a queue with and without room, for each message and the action the policy has for it |
| `OutboundQueue.PushedByDefault` | crates/net-core/src/lib.rs:1026-1036 | by default the queue holds 64 items, video replaces the oldest, and nothing else gets into a full queue |
| `OutboundQueue.ServerOutboundQueue.PushAck` | apps/server/src/lib.rs:7640-7673 | the server's queue, which never evicts, still does what the policy says for control messages |
| `OutboundQueue.ServerOutboundQueue.PushDecided` | apps/server/src/lib.rs:7585-7599 | an item decided earlier does so exactly when the length told and the length found are on the same side of the capacity |
| `OutboundQueue.ServerOutboundQueue.DequeueOne` | apps/server/src/lib.rs:7675-7684 | takes the oldest item, if any |
| `OutboundQueue.ServerFollowsPolicy` | apps/server/src/lib.rs:7854-7866 | run as programmed, each item decided against the queue's own length, the server's queue is the queue of the default policy |
| `OutboundQueue.ServerQueueLaw` | apps/server/src/lib.rs:7640-7684 | over every such run it never holds more than 64 items, what it accepted is what was taken, in order, followed by what it holds, and it refuses only when it holds 64 |
| `Timebase.SingleExchange` | crates/timebase/src/lib.rs:190-219 | with delays that are not negative only the offset range can fail; otherwise the round trip is the sum of the delays, the offset is off by at most half of it rounded up, and is exact for equal delays |
| `Timebase.AcceptedIff` | crates/timebase/src/lib.rs:190-219 | exactly which observations give an estimate |
| `Timebase.RefusedAs` | crates/timebase/src/lib.rs:190-219 | which of the ordering and range errors an observation is refused with, in their order |
| `Timebase.OffsetIsHalf` | crates/timebase/src/lib.rs:190-219 | the offset is half of the two one-way differences, rounded toward zero, and round trip and processing time add up to the time the client waited |
| `Timebase.ServerClockShift` | crates/timebase/src/lib.rs:190-219 | moving both server timestamps by k moves the offset by k, exactly for an even round trip and within 1 for an odd one |
| `Timebase.ClockBound` | crates/timebase/src/lib.rs:146-219 | over any run of exchanges with one true offset and round trips of at most R, the smoothed offset is within half of R, rounded up, and the smoothed round trip at most R |
| `Timebase.StaysInHull` | crates/timebase/src/lib.rs:146-173 | smoothed values never leave the interval of the samples, and the sample count saturates |
| `Timebase.ClampsUnreached` | crates/timebase/src/lib.rs:222-259 | the range clamps of both averages are never reached |
| `Timebase.OrderPreserved` | crates/timebase/src/lib.rs:146-173 | sample streams ordered point by point give smoothed values in that order, at every step |
| `Timebase.NonExpansive` | crates/timebase/src/lib.rs:146-173 | sample streams within eps of each other give smoothed values within eps, at every step |
| `Timebase.Converges` | crates/timebase/src/lib.rs:222-259 | on a constant input both averages keep the sign of the gap, satisfy 3^n gap_0 <= 4^n gap_n and 4^n(gap_n - 3) <= 3^n(gap_0 - 3), and settle at exactly 3; a gap of at most 3 never changes |
| `Timebase.GapSettles` | crates/timebase/src/lib.rs:222-259 | the gap decreases strictly while it is at least 4 and then stays at exactly 3 |
| `Timebase.GeometricRate` | crates/timebase/src/lib.rs:121-123 | the rate of the 1/4 weight from above |
| `Timebase.SlowestRate` | crates/timebase/src/lib.rs:222-259 | the rate from below: 3^n gap_0 <= 4^n gap_n |
| `Timebase.QuotIs` | crates/timebase/src/lib.rs:222-259 | the division of the averages keeps the sign and rounds toward zero |
| `Timebase.StepIsQuarter` | crates/timebase/src/lib.rs:146-173 | one step of both averages moves toward the sample by a quarter of the gap, less than one short of it |
| `ClockState.EntryIsItsRun` | apps/server/src/lib.rs:12264-12302 | after any sequence of candidates, a client's entry is the average, the count, the latest and the commit time of exactly the accepted estimates of its current run |
| `ClockState.KeepsClockBound` | apps/server/src/lib.rs:12264-12343 | whatever other clients do, whatever is rejected and however often a client restarts, its estimate stays as close to its true offset, and its round trip as small, as its candidates are |
| `ClockState.FollowsTrueClock` | crates/timebase/src/lib.rs:146-219 | from the timestamps to the entry: when all a client offers was measured against one true offset over round trips of at most R, its entry is within half of R, rounded up, and its smoothed round trip at most R |
| `ClockState.RejectedIff` | apps/server/src/lib.rs:12156-12218 | a candidate is rejected exactly when it continues a run and moves further than a threshold that is set |
| `ClockState.ReasonGiven` | apps/server/src/lib.rs:12183-12218 | the reason given names the two values, their distance and the threshold, the round trip before the offset |
| `ClockState.NeighboursWithin` | apps/server/src/lib.rs:12183-12218 | neighbouring accepted estimates of a run differ by at most the threshold |
| `ClockState.LockedOut` | apps/server/src/lib.rs:12183-12218 | an entry never changes again exactly when everything its client offers continues its run and lies beyond a threshold, of offset or round trip, from its latest estimate (its sample count not being full) |
| `ClockState.FollowedIff` | apps/server/src/lib.rs:12156-12218 | over every run, nothing a client offers is rejected exactly when each offer of a run is within the thresholds of the one just before it |
| `ClockState.JumpLocksOut` | apps/server/src/lib.rs:12156-12218 | a run from the empty state in which one jump beyond the threshold freezes the entry, however long the clock stays there |
| `ClockState.DriftIsFollowed` | apps/server/src/lib.rs:12156-12218 | a run in which a clock that drifts as far as an offset can go, in small steps, is followed all the way |
| `ClockState.RttOffsetState.Commit` | apps/server/src/lib.rs:12264-12302 | the in-place commit continues or restarts the client's entry and touches no other |
| `ClockState.RttOffsetState.TryCommit` | apps/server/src/lib.rs:12317-12343 | commits exactly the candidates that are not rejected |
| `AuthConfig.ParseAuthClients` | crates/config/src/lib.rs:219-293 | the loop over the lines, with its current table and early errors, computes the specified state |
| `AuthConfigTheorems.ParseMeaning` | crates/config/src/lib.rs:219-293 | the loop fails on the first faulty line, then on a missing auth section, and otherwise holds exactly the clients with a table, each with the last references given under its table |
| `AuthConfigTheorems.StepMeans` | crates/config/src/lib.rs:223-286 | one line keeps that meaning or is faulty |
| `AuthConfig.LoadFromStr` | crates/config/src/lib.rs:127-177 | the loop that pushes into two lists computes the specified configuration or error |
| `AuthConfigTheorems.LoadMeaning` | crates/config/src/lib.rs:127-177 | with a client, loading succeeds exactly when every client has exactly one of the two keys and its value is not blank; it then lists exactly the clients, strictly sorted and paired index by index, each with what its key says; otherwise the error is that of the least offending id, and says whether it has both keys or no value |
| `ConfigBlocks.OnlyClientTablesMatter` | crates/config/src/lib.rs:219-293 | order of tables, foreign sections, blank lines and comments do not change a load |
| `ConfigBlocks.TableOrderIrrelevant` | crates/config/src/lib.rs:219-293 | permuting the tables of a file that loads gives the same configuration |
| `ConfigBlocks.BlockFold` | crates/config/src/lib.rs:223-286 | a table touches nothing but its own client |
| `ConfigBlocks.EveryFile` | crates/config/src/lib.rs:223-286 | every list of lines is a preamble followed by tables, so the two theorems above speak about all files |
| `ConfigText.LinesOfUnlines` | crates/config/src/lib.rs:223-223 | cutting joined lines gives the lines back |
| `ConfigText.LinesCut` | crates/config/src/lib.rs:223-223 | a text is cut after each line feed, with or without a carriage return before it |
| `ConfigText.BeforeIff` | crates/config/src/lib.rs:127-177 | the order of the ids is that of the first character in which they differ, a prefix first |
| `ConfigLines.TrimIs` | crates/config/src/lib.rs:225-225 | trimming removes exactly the white space around a text |
| `ConfigLines.CommentIgnored` | crates/config/src/lib.rs:309-313 | what follows a # changes nothing |
| `ConfigLines.IndentIgnored` | crates/config/src/lib.rs:225-225 | white space around a line changes nothing |
| `ConfigLines.NothingThere` | crates/config/src/lib.rs:225-228 | white space, with or without a comment, says nothing |
| `ConfigLines.AuthLines` | crates/config/src/lib.rs:230-239 | the two lines that open the auth section |
| `ConfigLines.ClientLine` | crates/config/src/lib.rs:241-253 | the line that opens the table of a client, and the one whose id is blank |
| `ConfigLines.ForeignLine` | crates/config/src/lib.rs:255-257 | any other line in brackets opens a foreign table |
| `ConfigLines.AssignmentLine` | crates/config/src/lib.rs:259-286 | a quoted assignment gives exactly its key and what stands between the quotes |
| `ConfigLines.NotAssigned` | crates/config/src/lib.rs:259-264 | any other line without = is faulty |
| `ConfigPrinting.LoadsPrinted` | crates/config/src/lib.rs:127-293 | every configuration that can be written down, written as lines with any comments between its tables, loads as that configuration |
| `ConfigPrinting.LoadsPrintedText` | crates/config/src/lib.rs:127-293 | the same from its text |

## Left out

- Sockets, named pipes, files, the system clock, secret resolution and logging: input and output.
- The source address and the authenticated sender of a packet, which are carried along unchanged.
- The sender registry, the packet acceptance gate and the dispatch runtime around the modelled steps.
- Send-loop lifecycle planning, failure dispositions, pipe-path normalisation and the timebase plan boundary: one-branch lookups.
- Averages with weights other than 1/4: both callers pass 1 and 4.
- The interior of H.264 payloads, and TOML beyond the lines the loader reads.
- The order of a map's entries in summaries (`frame_progress`, retained frame ids).
- HandoffHandler.Handle: demands that queue and payload lengths fit 32 bits, where the program stops with a panic; `HandoffHandler.AlwaysCountable` shows when that cannot happen.
- WireEncoder.EncodeMessage: the eight packet encoders have one body with another payload encoder each, so it is modelled once.
- VideoServer.VideoFrameQueue.Scan: the four iterator chains of a read are folded into one pass.
- Delivery.FrameDelivered: a frame with an empty payload is cut into no fragments at all, so it speaks about frames with a payload.
- Fragmentation.Plan: a target chunk size of zero is outside the precondition where the program divides by it.
- Fragmentation.Fragment: with room for a chunk, a target size of zero is outside the precondition, because cutting into
  chunks of no bytes stops the program, even for an empty payload.
- OutboundQueue.ServerOutboundQueue: only the two paths by which items reach it are modelled, with the default policy both use.
- AuthConfig.LoadFromStr: the sorted map is a map and the ascending list of its keys, so insertion into a tree is not modelled.
