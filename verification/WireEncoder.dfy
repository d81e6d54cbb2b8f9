/**
The UDP encoders as they run. A payload encoder appends field after field and may stop half-way; a packet
encoder builds the payload aside and appends header and payload only when both are known to be good.
*/
module WireEncoder {
  import opened Bytes
  import opened Grammar
  import opened Protocol
  import opened Wire
  import opened ByteWriting

  /** The buffer went from `before` to `after`, with result `r`, as `WritePayload` says. */
  predicate Encodes(m: ProtocolMessage, before: seq<byte>, after: seq<byte>, r: Result<(), ProtocolError>) {
    var w := WritePayload(m);
    after == before + w.bytes && r == if w.fault.Some? then Err(w.fault.value) else Ok(())
  }

  lemma {:induction false} JobOf(m: ProtocolMessage)
    ensures EncodeFault(m).None? ==>
              Writable(Layout(Kind(m)), ToValues(m))
              && WritePayload(m) == WriteUpTo(Layout(Kind(m)), ToValues(m), |Layout(Kind(m))|)
    ensures EncodeFault(m).Some? ==> WritePayload(m) == Written([], EncodeFault(m))
  {
    hide EncodeFault, Layout, ToValues;
    if EncodeFault(m).None? {
      ValuesWritable(m);
    }
  }

  /** Three consecutive u32 writes of a job. */
  method WriteThreeU32(a: u32, b: u32, c: u32, output: ByteBuffer)
    requires output.OnJob() && output.pos + 3 <= |output.fs| == |output.vs|
    requires output.fs[output.pos] == output.fs[output.pos + 1] == output.fs[output.pos + 2] == Int(4)
    requires output.vs[output.pos] == Num(a) && output.vs[output.pos + 1] == Num(b)
             && output.vs[output.pos + 2] == Num(c)
    modifies output
    ensures output.fs == old(output.fs) && output.vs == old(output.vs) && output.base == old(output.base)
    ensures output.OnJob() && output.pos == old(output.pos) + 3
    ensures output.bytes == old(output.bytes) + ToLE(a, 4) + ToLE(b, 4) + ToLE(c, 4)
  {
    hide ByteBuffer.OnJob;
    Pow256Values();
    output.WriteInt(a, 4);
    output.WriteInt(b, 4);
    output.WriteInt(c, 4);
  }

  /** Whether the client is accepted, and the reason. */
  method WriteAcceptance(response: AuthResponse, output: ByteBuffer)
    requires output.OnJob() && output.pos == 2 && |output.fs| == |output.vs| == 7
    requires output.fs[2] == Flag && output.fs[3] == Code(ReasonCode)
    requires output.vs[2] == Bit(response.accepted) && output.vs[3] == Num(ReasonWire(response.reasonCode))
    modifies output
    ensures output.fs == old(output.fs) && output.vs == old(output.vs) && output.base == old(output.base)
    ensures output.OnJob() && output.pos == 4
  {
    hide ByteBuffer.OnJob, ByteBuffer.Appended;
    output.WriteBool(response.accepted);
    output.WriteCode(ReasonCode, ReasonWire(response.reasonCode));
  }

  /** The two optional numbers at the end. */
  method WriteExpectations(response: AuthResponse, output: ByteBuffer)
    requires output.OnJob() && output.pos == 5 && |output.fs| == |output.vs| == 7
    requires output.fs[5] == Opt(Int(8)) && output.fs[6] == Opt(Int(4))
    requires output.vs[5] == OptU64(response.serverTime) && output.vs[6] == OptU32(response.expectedProtocolVersion)
    modifies output
    ensures output.fs == old(output.fs) && output.vs == old(output.vs) && output.base == old(output.base)
    ensures output.OnJob() && output.pos == 7
  {
    hide ByteBuffer.OnJob, ByteBuffer.Appended;
    output.WriteOptionalU64(response.serverTime);
    output.WriteOptionalProtocolVersion(response.expectedProtocolVersion);
  }

  lemma ClientStatsValues(s: ClientStats)
    ensures var vs := ToValues(ClientStatsMsg(s));
            && |vs| == 7 && vs[0] == Chars(s.clientId) && vs[1] == Chars(s.runId) && vs[2] == Num(s.sentAt)
            && vs[3] == Num(s.captureFps) && vs[4] == Num(s.droppedFrames) && vs[5] == Num(s.bitrateKbps)
            && vs[6] == OptObservation(s.heartbeatObservation)
  {
  }

  lemma AuthResponseValues(r: AuthResponse)
    ensures var vs := ToValues(AuthResponseMsg(r));
            && |vs| == 7 && vs[0] == Chars(r.clientId) && vs[1] == Chars(r.runId) && vs[2] == Bit(r.accepted)
            && vs[3] == Num(ReasonWire(r.reasonCode)) && vs[4] == OptText(r.message) && vs[5] == OptU64(r.serverTime)
            && vs[6] == OptU32(r.expectedProtocolVersion)
  {
  }

  method EncodeAuthRequestPayload(request: AuthRequest, output: ByteBuffer) returns (r: Result<(), ProtocolError>)
    modifies output
    ensures Encodes(AuthRequestMsg(request), old(output.bytes), output.bytes, r)
  {
    hide Layout, Put, WritePayload, WriteUpTo, Writable, ValidUtf8, ByteBuffer.OnJob, ByteBuffer.Appended;
    AuthRequestFields();
    JobOf(AuthRequestMsg(request));
    Pow256Values();
    output.Begin(Layout(AuthRequestType), ToValues(AuthRequestMsg(request)));
    var _ :- output.WriteString(request.clientId);
    var _ :- output.WriteString(request.runId);
    var _ :- output.WriteString(request.appVersion);
    var _ :- output.WriteString(request.sharedToken);
    var _ :- output.WriteOptionalString(request.displayName);
    output.Done();
    return Ok(());
  }

  method EncodeAuthResponsePayload(response: AuthResponse, output: ByteBuffer) returns (r: Result<(), ProtocolError>)
    modifies output
    ensures Encodes(AuthResponseMsg(response), old(output.bytes), output.bytes, r)
  {
    hide Layout, Put, WritePayload, WriteUpTo, Writable, ValidUtf8, ByteBuffer.OnJob, ByteBuffer.Appended;
    AuthResponseFields();
    AuthResponseValues(response);
    JobOf(AuthResponseMsg(response));
    hide ToValues;
    Pow256Values();
    output.Begin(Layout(AuthResponseType), ToValues(AuthResponseMsg(response)));
    var _ :- output.WriteString(response.clientId);
    var _ :- output.WriteString(response.runId);
    WriteAcceptance(response, output);
    var _ :- output.WriteOptionalString(response.message);
    WriteExpectations(response, output);
    output.Done();
    return Ok(());
  }

  method EncodeHeartbeatPayload(heartbeat: Heartbeat, output: ByteBuffer) returns (r: Result<(), ProtocolError>)
    modifies output
    ensures Encodes(HeartbeatMsg(heartbeat), old(output.bytes), output.bytes, r)
  {
    hide Layout, Put, WritePayload, WriteUpTo, Writable, ValidUtf8, ByteBuffer.OnJob, ByteBuffer.Appended;
    HeartbeatFields();
    JobOf(HeartbeatMsg(heartbeat));
    Pow256Values();
    output.Begin(Layout(HeartbeatType), ToValues(HeartbeatMsg(heartbeat)));
    var _ :- output.WriteString(heartbeat.clientId);
    var _ :- output.WriteString(heartbeat.runId);
    output.WriteInt(heartbeat.sentAt, 8);
    output.WriteOptionalU64(heartbeat.localTime);
    var _ :- output.WriteOptionalString(heartbeat.shortStatus);
    output.Done();
    return Ok(());
  }

  method EncodeHeartbeatAckPayload(ack: HeartbeatAck, output: ByteBuffer) returns (r: Result<(), ProtocolError>)
    modifies output
    ensures Encodes(HeartbeatAckMsg(ack), old(output.bytes), output.bytes, r)
  {
    hide Layout, Put, WritePayload, WriteUpTo, Writable, ValidUtf8, ByteBuffer.OnJob, ByteBuffer.Appended;
    HeartbeatAckFields();
    JobOf(HeartbeatAckMsg(ack));
    Pow256Values();
    output.Begin(Layout(HeartbeatAckType), ToValues(HeartbeatAckMsg(ack)));
    var _ :- output.WriteString(ack.clientId);
    var _ :- output.WriteString(ack.runId);
    output.WriteInt(ack.echoedSentAt, 8);
    output.WriteInt(ack.serverReceivedAt, 8);
    output.WriteInt(ack.serverSentAt, 8);
    output.Done();
    return Ok(());
  }

  method EncodeVideoFramePayload(frame: VideoFrame, output: ByteBuffer) returns (r: Result<(), ProtocolError>)
    modifies output
    ensures Encodes(VideoFrameMsg(frame), old(output.bytes), output.bytes, r)
  {
    hide Layout, Put, WritePayload, WriteUpTo, Writable, ValidUtf8, ByteBuffer.OnJob, ByteBuffer.Appended;
    VideoFrameFields();
    VideoFrameValues(frame);
    JobOf(VideoFrameMsg(frame));
    hide ToValues;
    Pow256Values();
    if frame.metadataReserved != [0, 0, 0] {
      return Err(InvalidMetadataReserved(frame.metadataReserved));
    }
    var sizeFault := SizeFault(frame.payloadSize, frame.payload);
    if sizeFault.Some? {
      return Err(sizeFault.value);
    }
    output.Begin(Layout(VideoFrameType), ToValues(VideoFrameMsg(frame)));
    var _ :- output.WriteString(frame.clientId);
    var _ :- output.WriteString(frame.runId);
    output.WriteInt(frame.frameId, 8);
    output.WriteInt(frame.captureTimestamp, 8);
    output.WriteInt(frame.sendTimestamp, 8);
    output.WriteBool(frame.isKeyframe);
    output.WriteReserved();
    WriteThreeU32(frame.width, frame.height, frame.fpsNominal, output);
    output.WriteCode(CodecCode, H264_WIRE);
    output.WriteBlob(frame.payload);
    output.Done();
    return Ok(());
  }

  method EncodeVideoFrameFragmentPayload(fragment: VideoFrameFragment, output: ByteBuffer)
    returns (r: Result<(), ProtocolError>)
    modifies output
    ensures Encodes(VideoFrameFragmentMsg(fragment), old(output.bytes), output.bytes, r)
  {
    hide Layout, Put, WritePayload, WriteUpTo, Writable, ValidUtf8, ByteBuffer.OnJob, ByteBuffer.Appended;
    VideoFrameFragmentFields();
    VideoFrameFragmentValues(fragment);
    JobOf(VideoFrameFragmentMsg(fragment));
    hide ToValues;
    Pow256Values();
    var sizeFault := SizeFault(fragment.chunkPayloadLen, fragment.chunkPayload);
    if sizeFault.Some? {
      return Err(sizeFault.value);
    }
    output.Begin(Layout(VideoFrameFragmentType), ToValues(VideoFrameFragmentMsg(fragment)));
    var _ :- output.WriteString(fragment.clientId);
    var _ :- output.WriteString(fragment.runId);
    output.WriteInt(fragment.frameId, 8);
    output.WriteInt(fragment.captureTimestamp, 8);
    output.WriteBool(fragment.isKeyframe);
    WriteThreeU32(fragment.width, fragment.height, fragment.fpsNominal, output);
    WriteThreeU32(fragment.totalPayloadLen, fragment.chunkIndex, fragment.chunkCount, output);
    output.WriteBlob(fragment.chunkPayload);
    output.Done();
    return Ok(());
  }

  method EncodeClientStatsPayload(stats: ClientStats, output: ByteBuffer) returns (r: Result<(), ProtocolError>)
    modifies output
    ensures Encodes(ClientStatsMsg(stats), old(output.bytes), output.bytes, r)
  {
    hide Layout, Put, WritePayload, WriteUpTo, Writable, ValidUtf8, ByteBuffer.OnJob, ByteBuffer.Appended;
    ClientStatsFields();
    ClientStatsValues(stats);
    JobOf(ClientStatsMsg(stats));
    hide ToValues;
    Pow256Values();
    output.Begin(Layout(ClientStatsType), ToValues(ClientStatsMsg(stats)));
    var _ :- output.WriteString(stats.clientId);
    var _ :- output.WriteString(stats.runId);
    output.WriteInt(stats.sentAt, 8);
    output.WriteInt(stats.captureFps, 4);
    output.WriteInt(stats.droppedFrames, 8);
    output.WriteInt(stats.bitrateKbps, 4);
    output.WriteObservation(stats.heartbeatObservation);
    output.Done();
    return Ok(());
  }

  method EncodeServerNoticePayload(notice: ServerNotice, output: ByteBuffer) returns (r: Result<(), ProtocolError>)
    modifies output
    ensures Encodes(ServerNoticeMsg(notice), old(output.bytes), output.bytes, r)
  {
    hide Layout, Put, WritePayload, WriteUpTo, Writable, ValidUtf8, ByteBuffer.OnJob, ByteBuffer.Appended;
    ServerNoticeFields();
    JobOf(ServerNoticeMsg(notice));
    Pow256Values();
    output.Begin(Layout(ServerNoticeType), ToValues(ServerNoticeMsg(notice)));
    var _ :- output.WriteString(notice.runId);
    output.WriteCode(NoticeCode, NoticeWire(notice.noticeType));
    var _ :- output.WriteString(notice.message);
    output.Done();
    return Ok(());
  }

  method EncodePayload(m: ProtocolMessage, output: ByteBuffer) returns (r: Result<(), ProtocolError>)
    modifies output
    ensures Encodes(m, old(output.bytes), output.bytes, r)
  {
    hide WritePayload;
    match m
    case AuthRequestMsg(request) => r := EncodeAuthRequestPayload(request, output);
    case AuthResponseMsg(response) => r := EncodeAuthResponsePayload(response, output);
    case HeartbeatMsg(heartbeat) => r := EncodeHeartbeatPayload(heartbeat, output);
    case HeartbeatAckMsg(ack) => r := EncodeHeartbeatAckPayload(ack, output);
    case VideoFrameMsg(frame) => r := EncodeVideoFramePayload(frame, output);
    case VideoFrameFragmentMsg(fragment) => r := EncodeVideoFrameFragmentPayload(fragment, output);
    case ClientStatsMsg(stats) => r := EncodeClientStatsPayload(stats, output);
    case ServerNoticeMsg(notice) => r := EncodeServerNoticePayload(notice, output);
  }

  method EncodeFixedHeader(kind: MessageType, version: Version, payloadLength: u32, output: ByteBuffer)
    modifies output
    ensures output.bytes == old(output.bytes) + HeaderBytes(kind, version, payloadLength)
  {
    output.bytes := output.bytes + ToLE(MessageTypeCode(kind), 2);
    output.bytes := output.bytes + ToLE(FIXED_HEADER_LEN, 2);
    output.bytes := output.bytes + ToLE(version, 4);
    output.bytes := output.bytes + ToLE(payloadLength, 4);
    output.bytes := output.bytes + ToLE(0, 2);
    output.bytes := output.bytes + ToLE(0, 2);
    assert ToLE(0, 2) == [0, 0];
    assert output.bytes == old(output.bytes) + HeaderBytes(kind, version, payloadLength);
  }

  /**
   * Packet encoding is all or nothing: on success exactly header and payload follow the untouched old
   * contents, on failure the output is unchanged, even where the payload encoder wrote part of its payload.
   */
  method EncodeMessage(version: Version, m: ProtocolMessage, output: ByteBuffer) returns (r: Result<(), ProtocolError>)
    modifies output
    ensures EncodePacket(version, m).Ok? ==> r.Ok? && output.bytes == old(output.bytes) + EncodePacket(version, m).value
    ensures EncodePacket(version, m).Err? ==>
              r == Err(EncodePacket(version, m).error) && output.bytes == old(output.bytes)
  {
    hide WritePayload, HeaderBytes;
    var payload := new ByteBuffer();
    var _ :- EncodePayload(m, payload);
    if |payload.bytes| > U32_MAX {
      return Err(InvalidPayloadLength(U32_MAX, |payload.bytes|));
    }
    EncodeFixedHeader(Kind(m), version, |payload.bytes|, output);
    output.bytes := output.bytes + payload.bytes;
    return Ok(());
  }
}
