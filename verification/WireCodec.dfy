/**
The UDP wire codec as it runs: decoders that drive a cursor over the payload, encoders that append to a
buffer. Each is proved to compute exactly what `Wire` says.
*/
module WireCodec {
  import opened Bytes
  import opened Grammar
  import opened Protocol
  import opened Wire
  import opened WireTheorems
  import opened PayloadReading

  // ---------- decoding ----------

  /** A payload decoder first checks that the header is one of its own message type. */
  function DecodeAs(kind: MessageType, header: FixedHeader, payload: seq<byte>)
    : Result<ProtocolMessage, ProtocolError>
  {
    if header.messageType != kind then Err(UnexpectedMessageType(kind, header.messageType))
    else DecodePayload(header, payload)
  }

  function CheckHeader(kind: MessageType, header: FixedHeader, payload: seq<byte>): Result<(), ProtocolError> {
    if header.messageType != kind then Err(UnexpectedMessageType(kind, header.messageType))
    else if |payload| != header.payloadLength then Err(InvalidPayloadLength(header.payloadLength, |payload|))
    else Ok(())
  }

  function AsTime(n: Option<nat>): (t: Option<Timestamp>)
    requires n.Some? ==> n.value < Pow256(8)
    ensures OptU64(t) == OptNum(n)
  {
    Pow256Values();
    match n case None => None case Some(x) => Some(x)
  }

  function AsVersion(n: Option<nat>): (v: Option<Version>)
    requires n.Some? ==> n.value < Pow256(4)
    ensures OptU32(v) == OptNum(n)
  {
    Pow256Values();
    match n case None => None case Some(x) => Some(x)
  }

  /** Three consecutive `read_u32` calls of a plan. */
  method ReadThreeU32(reader: PayloadReader) returns (r: Result<(u32, u32, u32), ProtocolError>)
    requires reader.Valid() && reader.OnPlan() && reader.pos + 3 <= |reader.plan|
    requires forall i :: reader.pos <= i < reader.pos + 3 ==> reader.plan[i] == Int(4)
    modifies reader
    ensures reader.Valid()
    ensures r.Err? ==> ReadPayload(reader.plan, reader.payload) == Err(r.error)
    ensures r.Ok? ==>
              && reader.OnPlan() && reader.pos == old(reader.pos) + 3
              && reader.Supplies(old(reader.pos), Num(r.value.0))
              && reader.Supplies(old(reader.pos) + 1, Num(r.value.1))
              && reader.Supplies(old(reader.pos) + 2, Num(r.value.2))
  {
    hide ParseField, ParseAll, ReadPayload, WireError, Pow256;
    hide PayloadReader.OnPlan, PayloadReader.Took, PayloadReader.EnsureAvailable;
    Pow256Values();
    var a :- reader.ReadInt(4);
    var b :- reader.ReadInt(4);
    var c :- reader.ReadInt(4);
    return Ok((a, b, c));
  }

  method DecodeAuthRequestPayload(header: FixedHeader, payload: seq<byte>)
    returns (r: Result<ProtocolMessage, ProtocolError>)
    ensures r == DecodeAs(AuthRequestType, header, payload)
  {
    hide ParseField, ParseAll, ReadPayload, WireError, FromValues, FitAll, Fits, PrintAll, Layout, ValidUtf8, Pow256;
    hide PayloadReader.OnPlan, PayloadReader.Took, PayloadReader.EnsureAvailable;
    AuthRequestFields();
    Pow256Values();
    var _ :- CheckHeader(AuthRequestType, header, payload);
    DecodedFromPlan(header, payload);
    hide DecodePayload;
    var reader := new PayloadReader(payload, Layout(AuthRequestType));
    var clientId :- reader.ReadString();
    var runId :- reader.ReadString();
    var appVersion :- reader.ReadString();
    var sharedToken :- reader.ReadString();
    var displayName :- reader.ReadOptionalString();
    var _ :- reader.Finish();
    var request := AuthRequest(AuthRequestType, header.protocolVersion, clientId, runId, appVersion, sharedToken,
                               displayName, [], None);
    ReadsAs(AuthRequestMsg(request), header.protocolVersion, ReadPayload(Layout(AuthRequestType), payload).value);
    return Ok(AuthRequestMsg(request));
  }

  method DecodeAuthResponsePayload(header: FixedHeader, payload: seq<byte>)
    returns (r: Result<ProtocolMessage, ProtocolError>)
    ensures r == DecodeAs(AuthResponseType, header, payload)
  {
    hide ParseField, ParseAll, ReadPayload, WireError, FromValues, FitAll, Fits, PrintAll, Layout, ValidUtf8, Pow256;
    hide PayloadReader.OnPlan, PayloadReader.Took, PayloadReader.EnsureAvailable;
    AuthResponseFields();
    Pow256Values();
    var _ :- CheckHeader(AuthResponseType, header, payload);
    DecodedFromPlan(header, payload);
    hide DecodePayload;
    var reader := new PayloadReader(payload, Layout(AuthResponseType));
    var clientId :- reader.ReadString();
    var runId :- reader.ReadString();
    var accepted :- reader.ReadBool();
    var reasonCode :- reader.ReadCode(ReasonCode);
    var message :- reader.ReadOptionalString();
    var serverTime :- reader.ReadOptionalInt(8);
    var expectedProtocolVersion :- reader.ReadOptionalInt(4);
    var _ :- reader.Finish();
    var response := AuthResponse(AuthResponseType, header.protocolVersion, clientId, runId, accepted,
                                 ReasonFrom(reasonCode), message,
                                 AsTime(serverTime), AsVersion(expectedProtocolVersion));
    AuthResponseReads(response, header.protocolVersion, ReadPayload(Layout(AuthResponseType), payload).value);
    return Ok(AuthResponseMsg(response));
  }

  method DecodeHeartbeatPayload(header: FixedHeader, payload: seq<byte>)
    returns (r: Result<ProtocolMessage, ProtocolError>)
    ensures r == DecodeAs(HeartbeatType, header, payload)
  {
    hide ParseField, ParseAll, ReadPayload, WireError, FromValues, FitAll, Fits, PrintAll, Layout, ValidUtf8, Pow256;
    hide PayloadReader.OnPlan, PayloadReader.Took, PayloadReader.EnsureAvailable;
    HeartbeatFields();
    Pow256Values();
    var _ :- CheckHeader(HeartbeatType, header, payload);
    DecodedFromPlan(header, payload);
    hide DecodePayload;
    var reader := new PayloadReader(payload, Layout(HeartbeatType));
    var clientId :- reader.ReadString();
    var runId :- reader.ReadString();
    var sentAt :- reader.ReadInt(8);
    var localTime :- reader.ReadOptionalInt(8);
    var shortStatus :- reader.ReadOptionalString();
    var _ :- reader.Finish();
    var heartbeat := Heartbeat(HeartbeatType, header.protocolVersion, clientId, runId, sentAt, AsTime(localTime),
                               shortStatus);
    ReadsAs(HeartbeatMsg(heartbeat), header.protocolVersion, ReadPayload(Layout(HeartbeatType), payload).value);
    return Ok(HeartbeatMsg(heartbeat));
  }

  method DecodeHeartbeatAckPayload(header: FixedHeader, payload: seq<byte>)
    returns (r: Result<ProtocolMessage, ProtocolError>)
    ensures r == DecodeAs(HeartbeatAckType, header, payload)
  {
    hide ParseField, ParseAll, ReadPayload, WireError, FromValues, FitAll, Fits, PrintAll, Layout, ValidUtf8, Pow256;
    hide PayloadReader.OnPlan, PayloadReader.Took, PayloadReader.EnsureAvailable;
    HeartbeatAckFields();
    Pow256Values();
    var _ :- CheckHeader(HeartbeatAckType, header, payload);
    DecodedFromPlan(header, payload);
    hide DecodePayload;
    var reader := new PayloadReader(payload, Layout(HeartbeatAckType));
    var clientId :- reader.ReadString();
    var runId :- reader.ReadString();
    var echoedSentAt :- reader.ReadInt(8);
    var serverReceivedAt :- reader.ReadInt(8);
    var serverSentAt :- reader.ReadInt(8);
    var _ :- reader.Finish();
    var ack := HeartbeatAck(HeartbeatAckType, header.protocolVersion, clientId, runId, echoedSentAt, serverReceivedAt,
                            serverSentAt);
    ReadsAs(HeartbeatAckMsg(ack), header.protocolVersion, ReadPayload(Layout(HeartbeatAckType), payload).value);
    return Ok(HeartbeatAckMsg(ack));
  }

  method DecodeVideoFramePayload(header: FixedHeader, payload: seq<byte>)
    returns (r: Result<ProtocolMessage, ProtocolError>)
    ensures r == DecodeAs(VideoFrameType, header, payload)
  {
    hide ParseField, ParseAll, ReadPayload, WireError, FromValues, FitAll, Fits, PrintAll, Layout, ValidUtf8, Pow256;
    hide PayloadReader.OnPlan, PayloadReader.Took, PayloadReader.EnsureAvailable;
    VideoFrameFields();
    Pow256Values();
    var _ :- CheckHeader(VideoFrameType, header, payload);
    DecodedFromPlan(header, payload);
    hide DecodePayload;
    var reader := new PayloadReader(payload, Layout(VideoFrameType));
    var clientId :- reader.ReadString();
    var runId :- reader.ReadString();
    var frameId :- reader.ReadInt(8);
    var captureTimestamp :- reader.ReadInt(8);
    var sendTimestamp :- reader.ReadInt(8);
    var isKeyframe :- reader.ReadBool();
    var _ :- reader.ReadReserved();
    var picture :- ReadThreeU32(reader);
    var _ :- reader.ReadCode(CodecCode);
    var h264Payload :- reader.ReadBlob();
    var _ :- reader.Finish();
    var frame := VideoFrame(VideoFrameType, header.protocolVersion, clientId, runId, frameId, captureTimestamp,
                            sendTimestamp,
                            isKeyframe, [0, 0, 0], picture.0, picture.1, picture.2, H264, |h264Payload|, h264Payload);
    VideoFrameReads(frame, header.protocolVersion, ReadPayload(Layout(VideoFrameType), payload).value);
    return Ok(VideoFrameMsg(frame));
  }

  method DecodeVideoFrameFragmentPayload(header: FixedHeader, payload: seq<byte>)
    returns (r: Result<ProtocolMessage, ProtocolError>)
    ensures r == DecodeAs(VideoFrameFragmentType, header, payload)
  {
    hide ParseField, ParseAll, ReadPayload, WireError, FromValues, FitAll, Fits, PrintAll, Layout, ValidUtf8, Pow256;
    hide PayloadReader.OnPlan, PayloadReader.Took, PayloadReader.EnsureAvailable;
    VideoFrameFragmentFields();
    Pow256Values();
    var _ :- CheckHeader(VideoFrameFragmentType, header, payload);
    DecodedFromPlan(header, payload);
    hide DecodePayload;
    var reader := new PayloadReader(payload, Layout(VideoFrameFragmentType));
    var clientId :- reader.ReadString();
    var runId :- reader.ReadString();
    var frameId :- reader.ReadInt(8);
    var captureTimestamp :- reader.ReadInt(8);
    var isKeyframe :- reader.ReadBool();
    var picture :- ReadThreeU32(reader);
    var chunk :- ReadThreeU32(reader);
    var chunkPayload :- reader.ReadBlob();
    var _ :- reader.Finish();
    var fragment := VideoFrameFragment(VideoFrameFragmentType, header.protocolVersion, clientId, runId, frameId,
                                       captureTimestamp,
                                       isKeyframe, picture.0, picture.1, picture.2, chunk.0, chunk.1, chunk.2,
                                       |chunkPayload|, chunkPayload);
    VideoFrameFragmentReads(fragment, header.protocolVersion,
                            ReadPayload(Layout(VideoFrameFragmentType), payload).value);
    return Ok(VideoFrameFragmentMsg(fragment));
  }

  method DecodeClientStatsPayload(header: FixedHeader, payload: seq<byte>)
    returns (r: Result<ProtocolMessage, ProtocolError>)
    ensures r == DecodeAs(ClientStatsType, header, payload)
  {
    hide ParseField, ParseAll, ReadPayload, WireError, FromValues, FitAll, Fits, PrintAll, Layout, ValidUtf8, Pow256;
    hide PayloadReader.OnPlan, PayloadReader.Took, PayloadReader.EnsureAvailable;
    ClientStatsFields();
    Pow256Values();
    var _ :- CheckHeader(ClientStatsType, header, payload);
    DecodedFromPlan(header, payload);
    hide DecodePayload;
    var reader := new PayloadReader(payload, Layout(ClientStatsType));
    var clientId :- reader.ReadString();
    var runId :- reader.ReadString();
    var sentAt :- reader.ReadInt(8);
    var captureFps :- reader.ReadInt(4);
    var droppedFrames :- reader.ReadInt(8);
    var bitrateKbps :- reader.ReadInt(4);
    var heartbeatObservation :- reader.ReadOptionalHeartbeatObservation(clientId, runId);
    var _ :- reader.Finish();
    var stats := ClientStats(ClientStatsType, header.protocolVersion, clientId, runId, sentAt, captureFps,
                             droppedFrames, bitrateKbps,
                             heartbeatObservation);
    ClientStatsReads(stats, header.protocolVersion, ReadPayload(Layout(ClientStatsType), payload).value);
    return Ok(ClientStatsMsg(stats));
  }

  method DecodeServerNoticePayload(header: FixedHeader, payload: seq<byte>)
    returns (r: Result<ProtocolMessage, ProtocolError>)
    ensures r == DecodeAs(ServerNoticeType, header, payload)
  {
    hide ParseField, ParseAll, ReadPayload, WireError, FromValues, FitAll, Fits, PrintAll, Layout, ValidUtf8, Pow256;
    hide PayloadReader.OnPlan, PayloadReader.Took, PayloadReader.EnsureAvailable;
    ServerNoticeFields();
    Pow256Values();
    var _ :- CheckHeader(ServerNoticeType, header, payload);
    DecodedFromPlan(header, payload);
    hide DecodePayload;
    var reader := new PayloadReader(payload, Layout(ServerNoticeType));
    var runId :- reader.ReadString();
    var noticeType :- reader.ReadCode(NoticeCode);
    var message :- reader.ReadString();
    var _ :- reader.Finish();
    var notice := ServerNotice(ServerNoticeType, header.protocolVersion, runId, NoticeFrom(noticeType), message);
    ReadsAs(ServerNoticeMsg(notice), header.protocolVersion, ReadPayload(Layout(ServerNoticeType), payload).value);
    return Ok(ServerNoticeMsg(notice));
  }

  /** The payload decoder of the header's message type. */
  method DecodePayloadByMessageType(header: FixedHeader, payload: seq<byte>)
    returns (r: Result<ProtocolMessage, ProtocolError>)
    ensures r == DecodePayload(header, payload)
  {
    hide DecodePayload;
    match header.messageType
    case AuthRequestType => r := DecodeAuthRequestPayload(header, payload);
    case AuthResponseType => r := DecodeAuthResponsePayload(header, payload);
    case HeartbeatType => r := DecodeHeartbeatPayload(header, payload);
    case HeartbeatAckType => r := DecodeHeartbeatAckPayload(header, payload);
    case VideoFrameType => r := DecodeVideoFramePayload(header, payload);
    case VideoFrameFragmentType => r := DecodeVideoFrameFragmentPayload(header, payload);
    case ClientStatsType => r := DecodeClientStatsPayload(header, payload);
    case ServerNoticeType => r := DecodeServerNoticePayload(header, payload);
  }

  /** The receive path on one packet: header, then version, then payload. */
  method DecodeInboundPacket(expected: Version, packet: seq<byte>) returns (r: Result<ProtocolMessage, ProtocolError>)
    ensures r == DecodePacket(expected, packet)
    ensures r.Ok? <==> |packet| >= FIXED_HEADER_LEN && exists m :: EncodePacket(expected, m) == Ok(ZeroFlags(packet))
  {
    hide DecodePayload, DecodeFixedHeader, EncodePacket, ZeroFlags;
    ExactAcceptance(expected, packet);
    var view :- DecodeFixedHeader(packet);
    var _ :- ValidateProtocolVersion(expected, view.header);
    r := DecodePayloadByMessageType(view.header, view.payload);
  }

  lemma DecodedFromPlan(header: FixedHeader, payload: seq<byte>)
    requires |payload| == header.payloadLength
    ensures var whole := ReadPayload(Layout(header.messageType), payload);
            DecodePayload(header, payload) == if whole.Err? then Err(whole.error)
                                              else Ok(FromValues(header.messageType, header.protocolVersion,
                                                                 whole.value))
  {
  }

  lemma VideoFrameReads(f: VideoFrame, v: Version, vs: seq<Value>)
    requires FitAll(Layout(VideoFrameType), vs) && IsNormal(v, VideoFrameMsg(f))
    requires f.metadataReserved == [0, 0, 0] && f.payloadSize == |f.payload|
    requires vs[0] == Chars(f.clientId) && vs[1] == Chars(f.runId) && vs[2] == Num(f.frameId)
    requires vs[3] == Num(f.captureTimestamp) && vs[4] == Num(f.sendTimestamp) && vs[5] == Bit(f.isKeyframe)
    requires vs[6] == Reserved && vs[7] == Num(f.width) && vs[8] == Num(f.height) && vs[9] == Num(f.fpsNominal)
    requires vs[10] == Num(H264_WIRE) && vs[11] == Raw(f.payload)
    ensures FromValues(VideoFrameType, v, vs) == VideoFrameMsg(f)
  {
    assert Fits(Blob, vs[11]);
    ReadsAs(VideoFrameMsg(f), v, vs);
  }

  lemma VideoFrameFragmentReads(f: VideoFrameFragment, v: Version, vs: seq<Value>)
    requires FitAll(Layout(VideoFrameFragmentType), vs) && IsNormal(v, VideoFrameFragmentMsg(f))
    requires f.chunkPayloadLen == |f.chunkPayload|
    requires vs[0] == Chars(f.clientId) && vs[1] == Chars(f.runId) && vs[2] == Num(f.frameId)
    requires vs[3] == Num(f.captureTimestamp) && vs[4] == Bit(f.isKeyframe) && vs[5] == Num(f.width)
    requires vs[6] == Num(f.height) && vs[7] == Num(f.fpsNominal) && vs[8] == Num(f.totalPayloadLen)
    requires vs[9] == Num(f.chunkIndex) && vs[10] == Num(f.chunkCount) && vs[11] == Raw(f.chunkPayload)
    ensures FromValues(VideoFrameFragmentType, v, vs) == VideoFrameFragmentMsg(f)
  {
    assert Fits(Blob, vs[11]);
    ReadsAs(VideoFrameFragmentMsg(f), v, vs);
  }

  lemma AuthResponseReads(r: AuthResponse, v: Version, vs: seq<Value>)
    requires FitAll(Layout(AuthResponseType), vs) && IsNormal(v, AuthResponseMsg(r))
    requires vs[0] == Chars(r.clientId) && vs[1] == Chars(r.runId) && vs[2] == Bit(r.accepted)
    requires vs[3].Num? && vs[3].n <= 5 && r.reasonCode == ReasonFrom(vs[3].n) && vs[4] == OptText(r.message)
    requires vs[5] == OptU64(r.serverTime) && vs[6] == OptU32(r.expectedProtocolVersion)
    ensures FromValues(AuthResponseType, v, vs) == AuthResponseMsg(r)
  {
    ReadsAs(AuthResponseMsg(r), v, vs);
  }

  lemma ClientStatsReads(s: ClientStats, v: Version, vs: seq<Value>)
    requires FitAll(Layout(ClientStatsType), vs) && IsNormal(v, ClientStatsMsg(s))
    requires vs[0] == Chars(s.clientId) && vs[1] == Chars(s.runId) && vs[2] == Num(s.sentAt)
    requires vs[3] == Num(s.captureFps) && vs[4] == Num(s.droppedFrames) && vs[5] == Num(s.bitrateKbps)
    requires vs[6] == OptObservation(s.heartbeatObservation)
    ensures FromValues(ClientStatsType, v, vs) == ClientStatsMsg(s)
  {
    ReadsAs(ClientStatsMsg(s), v, vs);
  }

  /** A message whose values are the ones read is the message those values stand for. */
  lemma {:induction false} ReadsAs(m: ProtocolMessage, v: Version, vs: seq<Value>)
    requires FitAll(Layout(Kind(m)), vs)
    requires IsNormal(v, m) && EncodeFault(m).None?
    requires forall i :: 0 <= i < |ToValues(m)| && i < |vs| ==> vs[i] == ToValues(m)[i]
    ensures FromValues(Kind(m), v, vs) == m
  {
    ValuesWritable(m);
    hide Layout, ToValues, FromValues;
    assert vs == ToValues(m);
    MessageToValuesAndBack(v, m);
    NormalIffUnchanged(v, m);
  }
}
