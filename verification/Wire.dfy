/**
The meaning of the UDP wire format: what bytes stand for what message.

A message is turned into the values of its layout (`ToValues`) and printed; a payload is parsed against
the layout of its header's message type and its values are turned back into a message (`FromValues`).
The imperative codec in `WireCodec` is proved to compute exactly these functions.
*/
module Wire {
  import opened Bytes
  import opened Grammar
  import opened Protocol

  function Layout(kind: MessageType): seq<Field> {
    match kind
    case AuthRequestType => [Str, Str, Str, Str, Opt(Str)]
    case AuthResponseType => [Str, Str, Flag, Code(ReasonCode), Opt(Str), Opt(Int(8)), Opt(Int(4))]
    case HeartbeatType => [Str, Str, Int(8), Opt(Int(8)), Opt(Str)]
    case HeartbeatAckType => [Str, Str, Int(8), Int(8), Int(8)]
    case VideoFrameType =>
      [Str, Str, Int(8), Int(8), Int(8), Flag, Zeros, Int(4), Int(4), Int(4), Code(CodecCode), Blob]
    case VideoFrameFragmentType =>
      [Str, Str, Int(8), Int(8), Flag, Int(4), Int(4), Int(4), Int(4), Int(4), Int(4), Blob]
    case ClientStatsType => [Str, Str, Int(8), Int(4), Int(8), Int(4), Opt(Words(4))]
    case ServerNoticeType => [Str, Code(NoticeCode), Str]
  }

  lemma AuthRequestFields()
    ensures var fs := Layout(AuthRequestType);
            && |fs| == 5 && fs[0] == Str && fs[1] == Str && fs[2] == Str
            && fs[3] == Str && fs[4] == Opt(Str)
  {
  }

  lemma AuthResponseFields()
    ensures var fs := Layout(AuthResponseType);
            && |fs| == 7 && fs[0] == Str && fs[1] == Str && fs[2] == Flag
            && fs[3] == Code(ReasonCode) && fs[4] == Opt(Str) && fs[5] == Opt(Int(8)) && fs[6] == Opt(Int(4))
  {
  }

  lemma HeartbeatFields()
    ensures var fs := Layout(HeartbeatType);
            && |fs| == 5 && fs[0] == Str && fs[1] == Str && fs[2] == Int(8)
            && fs[3] == Opt(Int(8)) && fs[4] == Opt(Str)
  {
  }

  lemma HeartbeatAckFields()
    ensures var fs := Layout(HeartbeatAckType);
            && |fs| == 5 && fs[0] == Str && fs[1] == Str && fs[2] == Int(8)
            && fs[3] == Int(8) && fs[4] == Int(8)
  {
  }

  lemma VideoFrameFields()
    ensures var fs := Layout(VideoFrameType);
            && |fs| == 12 && fs[0] == Str && fs[1] == Str && fs[2] == Int(8)
            && fs[3] == Int(8) && fs[4] == Int(8) && fs[5] == Flag && fs[6] == Zeros && fs[7] == Int(4)
            && fs[8] == Int(4) && fs[9] == Int(4) && fs[10] == Code(CodecCode) && fs[11] == Blob
  {
  }

  lemma VideoFrameFragmentFields()
    ensures var fs := Layout(VideoFrameFragmentType);
            && |fs| == 12 && fs[0] == Str && fs[1] == Str && fs[2] == Int(8)
            && fs[3] == Int(8) && fs[4] == Flag && fs[5] == Int(4) && fs[6] == Int(4) && fs[7] == Int(4)
            && fs[8] == Int(4) && fs[9] == Int(4) && fs[10] == Int(4) && fs[11] == Blob
  {
  }

  lemma ClientStatsFields()
    ensures var fs := Layout(ClientStatsType);
            && |fs| == 7 && fs[0] == Str && fs[1] == Str && fs[2] == Int(8)
            && fs[3] == Int(4) && fs[4] == Int(8) && fs[5] == Int(4) && fs[6] == Opt(Words(4))
  {
  }

  lemma ServerNoticeFields()
    ensures var fs := Layout(ServerNoticeType);
            && |fs| == 3 && fs[0] == Str && fs[1] == Code(NoticeCode) && fs[2] == Str
  {
  }

  // ---------- messages as values ----------

  /** A value a field can be asked to carry: it fits, or it is a string that may be too long. */
  predicate CanPut(f: Field, v: Value) {
    Fits(f, v) || TooLong(v)
  }

  predicate TooLong(v: Value) {
    match v
    case Chars(t) => |t| > U16_MAX
    case Present(Chars(t)) => |t| > U16_MAX
    case _ => false
  }

  function OptText(t: Option<Text>): (v: Value)
    ensures CanPut(Opt(Str), v)
  {
    match t case None => Absent case Some(s) => Present(Chars(s))
  }

  function OptU32(n: Option<u32>): (v: Value)
    ensures CanPut(Opt(Int(4)), v)
  {
    Pow256Values();
    match n case None => Absent case Some(x) => Present(Num(x))
  }

  function OptU64(n: Option<u64>): (v: Value)
    ensures CanPut(Opt(Int(8)), v)
  {
    Pow256Values();
    match n case None => Absent case Some(x) => Present(Num(x))
  }

  function OptObservation(o: Option<HeartbeatAckObservation>): (v: Value)
    ensures CanPut(Opt(Words(4)), v)
  {
    Pow256Values();
    match o
    case None => Absent
    case Some(x) => Present(Series([x.echoedSentAt, x.serverReceivedAt, x.serverSentAt, x.clientReceivedAt]))
  }

  function ToValues(m: ProtocolMessage): seq<Value> {
    match m
    case AuthRequestMsg(r) =>
      [Chars(r.clientId), Chars(r.runId), Chars(r.appVersion), Chars(r.sharedToken), OptText(r.displayName)]
    case AuthResponseMsg(r) =>
      [Chars(r.clientId), Chars(r.runId), Bit(r.accepted), Num(ReasonWire(r.reasonCode)), OptText(r.message),
       OptU64(r.serverTime), OptU32(r.expectedProtocolVersion)]
    case HeartbeatMsg(h) =>
      [Chars(h.clientId), Chars(h.runId), Num(h.sentAt), OptU64(h.localTime), OptText(h.shortStatus)]
    case HeartbeatAckMsg(a) =>
      [Chars(a.clientId), Chars(a.runId), Num(a.echoedSentAt), Num(a.serverReceivedAt), Num(a.serverSentAt)]
    case VideoFrameMsg(f) =>
      [Chars(f.clientId), Chars(f.runId), Num(f.frameId), Num(f.captureTimestamp), Num(f.sendTimestamp),
       Bit(f.isKeyframe), Reserved, Num(f.width), Num(f.height), Num(f.fpsNominal), Num(H264_WIRE), Raw(f.payload)]
    case VideoFrameFragmentMsg(f) =>
      [Chars(f.clientId), Chars(f.runId), Num(f.frameId), Num(f.captureTimestamp), Bit(f.isKeyframe),
       Num(f.width), Num(f.height), Num(f.fpsNominal), Num(f.totalPayloadLen), Num(f.chunkIndex),
       Num(f.chunkCount), Raw(f.chunkPayload)]
    case ClientStatsMsg(s) =>
      [Chars(s.clientId), Chars(s.runId), Num(s.sentAt), Num(s.captureFps), Num(s.droppedFrames),
       Num(s.bitrateKbps), OptObservation(s.heartbeatObservation)]
    case ServerNoticeMsg(n) =>
      [Chars(n.runId), Num(NoticeWire(n.noticeType)), Chars(n.message)]
  }

  lemma VideoFrameValues(f: VideoFrame)
    ensures var vs := ToValues(VideoFrameMsg(f));
            && |vs| == 12 && vs[0] == Chars(f.clientId) && vs[1] == Chars(f.runId) && vs[2] == Num(f.frameId)
            && vs[3] == Num(f.captureTimestamp) && vs[4] == Num(f.sendTimestamp) && vs[5] == Bit(f.isKeyframe)
            && vs[6] == Reserved && vs[7] == Num(f.width) && vs[8] == Num(f.height) && vs[9] == Num(f.fpsNominal)
            && vs[10] == Num(H264_WIRE) && vs[11] == Raw(f.payload)
  {
  }

  lemma VideoFrameFragmentValues(f: VideoFrameFragment)
    ensures var vs := ToValues(VideoFrameFragmentMsg(f));
            && |vs| == 12 && vs[0] == Chars(f.clientId) && vs[1] == Chars(f.runId) && vs[2] == Num(f.frameId)
            && vs[3] == Num(f.captureTimestamp) && vs[4] == Bit(f.isKeyframe) && vs[5] == Num(f.width)
            && vs[6] == Num(f.height) && vs[7] == Num(f.fpsNominal) && vs[8] == Num(f.totalPayloadLen)
            && vs[9] == Num(f.chunkIndex) && vs[10] == Num(f.chunkCount) && vs[11] == Raw(f.chunkPayload)
  {
  }

  // ---------- values as messages ----------

  function AsOptText(v: Value): (o: Option<Text>)
    requires Fits(Opt(Str), v)
    ensures OptText(o) == v
    ensures v.Absent? <==> o.None?
  {
    if v.Absent? then None else
    assert Fits(Str, v.value);
    Some(v.value.text)
  }

  function AsOptU32(v: Value): (o: Option<u32>)
    requires Fits(Opt(Int(4)), v)
    ensures OptU32(o) == v
    ensures v.Absent? <==> o.None?
  {
    if v.Absent? then None else Some(AsU32(v.value))
  }

  function AsOptU64(v: Value): (o: Option<u64>)
    requires Fits(Opt(Int(8)), v)
    ensures OptU64(o) == v
    ensures v.Absent? <==> o.None?
  {
    if v.Absent? then None else Some(AsU64(v.value))
  }

  function AsObservation(clientId: ClientId, runId: RunId, v: Value): (o: Option<HeartbeatAckObservation>)
    requires Fits(Opt(Words(4)), v)
    ensures OptObservation(o) == v
    ensures o.Some? ==> o.value.clientId == clientId && o.value.runId == runId
  {
    if v.Absent? then None else
    Pow256Values();
    assert Fits(Words(4), v.value);
    var w := v.value.words;
    Some(HeartbeatAckObservation(clientId, runId, w[0], w[1], w[2], w[3]))
  }

  function AuthRequestOf(v: Version, vs: seq<Value>): AuthRequest
    requires FitAll(Layout(AuthRequestType), vs)
  {
    FitEach(Layout(AuthRequestType), vs);
    AuthRequestFields();
    hide ValidUtf8, Layout, FitAll;
    AuthRequest(AuthRequestType, v, vs[0].text, vs[1].text, vs[2].text, vs[3].text, AsOptText(vs[4]), [], None)
  }

  function AuthResponseOf(v: Version, vs: seq<Value>): AuthResponse
    requires FitAll(Layout(AuthResponseType), vs)
  {
    FitEach(Layout(AuthResponseType), vs);
    AuthResponseFields();
    hide ValidUtf8, Layout, FitAll;
    AuthResponse(AuthResponseType, v, vs[0].text, vs[1].text, vs[2].on, ReasonFrom(vs[3].n), AsOptText(vs[4]),
                 AsOptU64(vs[5]), AsOptU32(vs[6]))
  }

  function HeartbeatOf(v: Version, vs: seq<Value>): Heartbeat
    requires FitAll(Layout(HeartbeatType), vs)
  {
    FitEach(Layout(HeartbeatType), vs);
    HeartbeatFields();
    hide ValidUtf8, Layout, FitAll;
    Heartbeat(HeartbeatType, v, vs[0].text, vs[1].text, AsU64(vs[2]), AsOptU64(vs[3]), AsOptText(vs[4]))
  }

  function HeartbeatAckOf(v: Version, vs: seq<Value>): HeartbeatAck
    requires FitAll(Layout(HeartbeatAckType), vs)
  {
    FitEach(Layout(HeartbeatAckType), vs);
    HeartbeatAckFields();
    hide ValidUtf8, Layout, FitAll;
    HeartbeatAck(HeartbeatAckType, v, vs[0].text, vs[1].text, AsU64(vs[2]), AsU64(vs[3]), AsU64(vs[4]))
  }

  function VideoFrameOf(v: Version, vs: seq<Value>): VideoFrame
    requires FitAll(Layout(VideoFrameType), vs)
  {
    FitEach(Layout(VideoFrameType), vs);
    VideoFrameFields();
    hide ValidUtf8, Layout, FitAll;
    VideoFrame(VideoFrameType, v, vs[0].text, vs[1].text, AsU64(vs[2]), AsU64(vs[3]), AsU64(vs[4]), vs[5].on,
               [0, 0, 0], AsU32(vs[7]), AsU32(vs[8]), AsU32(vs[9]), H264, |vs[11].bytes|, vs[11].bytes)
  }

  function VideoFrameFragmentOf(v: Version, vs: seq<Value>): VideoFrameFragment
    requires FitAll(Layout(VideoFrameFragmentType), vs)
  {
    FitEach(Layout(VideoFrameFragmentType), vs);
    VideoFrameFragmentFields();
    hide ValidUtf8, Layout, FitAll;
    VideoFrameFragment(VideoFrameFragmentType, v, vs[0].text, vs[1].text, AsU64(vs[2]), AsU64(vs[3]), vs[4].on,
                       AsU32(vs[5]), AsU32(vs[6]), AsU32(vs[7]), AsU32(vs[8]), AsU32(vs[9]), AsU32(vs[10]),
                       |vs[11].bytes|, vs[11].bytes)
  }

  function ClientStatsOf(v: Version, vs: seq<Value>): ClientStats
    requires FitAll(Layout(ClientStatsType), vs)
  {
    FitEach(Layout(ClientStatsType), vs);
    ClientStatsFields();
    hide ValidUtf8, Layout, FitAll;
    ClientStats(ClientStatsType, v, vs[0].text, vs[1].text, AsU64(vs[2]), AsU32(vs[3]), AsU64(vs[4]), AsU32(vs[5]),
                AsObservation(vs[0].text, vs[1].text, vs[6]))
  }

  function ServerNoticeOf(v: Version, vs: seq<Value>): ServerNotice
    requires FitAll(Layout(ServerNoticeType), vs)
  {
    FitEach(Layout(ServerNoticeType), vs);
    ServerNoticeFields();
    hide ValidUtf8, Layout, FitAll;
    ServerNotice(ServerNoticeType, v, vs[0].text, NoticeFrom(vs[1].n), vs[2].text)
  }

  lemma FitEach(fs: seq<Field>, vs: seq<Value>)
    requires FitAll(fs, vs)
    ensures forall i {:trigger vs[i]} :: 0 <= i < |vs| ==> Fits(fs[i], vs[i])
  {
  }

  function FromValues(kind: MessageType, v: Version, vs: seq<Value>): (m: ProtocolMessage)
    requires FitAll(Layout(kind), vs)
    ensures Kind(m) == kind
  {
    hide FitAll, Layout;
    match kind
    case AuthRequestType => AuthRequestMsg(AuthRequestOf(v, vs))
    case AuthResponseType => AuthResponseMsg(AuthResponseOf(v, vs))
    case HeartbeatType => HeartbeatMsg(HeartbeatOf(v, vs))
    case HeartbeatAckType => HeartbeatAckMsg(HeartbeatAckOf(v, vs))
    case VideoFrameType => VideoFrameMsg(VideoFrameOf(v, vs))
    case VideoFrameFragmentType => VideoFrameFragmentMsg(VideoFrameFragmentOf(v, vs))
    case ClientStatsType => ClientStatsMsg(ClientStatsOf(v, vs))
    case ServerNoticeType => ServerNoticeMsg(ServerNoticeOf(v, vs))
  }

  // ---------- decoding ----------

  function WireError(fault: Fault, payloadLen: nat): ProtocolError {
    match fault
    case Short(at, need) => InvalidPayloadLength((at + need) % 0x1_0000_0000, payloadLen)
    case BadUtf8 => InvalidUtf8String
    case BadFlag(b) => InvalidBoolValue(b)
    case BadTag(tag) => InvalidOptionalTag(tag)
    case BadZeros(zeros) => InvalidMetadataReserved(zeros)
    case BadCode(kind, code) =>
      if kind == ReasonCode then UnsupportedAuthResponseReasonCode(code)
      else if kind == CodecCode then UnsupportedCodec(code)
      else UnsupportedNoticeType(code)
  }

  /** A payload as the values of a layout, read to its very end. */
  function ReadPayload(fs: seq<Field>, payload: seq<byte>): (r: Result<seq<Value>, ProtocolError>)
    ensures r.Ok? ==> FitAll(fs, r.value) && PrintAll(fs, r.value) == payload
  {
    var r := ParseAll(fs, payload);
    if r.result.Err? then Err(WireError(r.result.error, |payload|))
    else if r.next != |payload| then Err(InvalidPayloadLength(r.next % 0x1_0000_0000, |payload|))
    else
      Exact(fs, payload);
      Ok(r.result.value)
  }

  function DecodePayload(header: FixedHeader, payload: seq<byte>): Result<ProtocolMessage, ProtocolError> {
    if |payload| != header.payloadLength then Err(InvalidPayloadLength(header.payloadLength, |payload|)) else
    var vs :- ReadPayload(Layout(header.messageType), payload);
    Ok(FromValues(header.messageType, header.protocolVersion, vs))
  }

  function HeaderBytes(kind: MessageType, version: Version, payloadLength: u32): (s: seq<byte>)
    ensures |s| == FIXED_HEADER_LEN
  {
    ToLE(MessageTypeCode(kind), 2) + ToLE(FIXED_HEADER_LEN, 2) + ToLE(version, 4) + ToLE(payloadLength, 4)
    + [0, 0, 0, 0]
  }

  function HeaderInt(packet: seq<byte>, offset: nat, width: nat): (n: nat)
    requires offset + width <= |packet|
    ensures n < Pow256(width)
  {
    IntBound(packet, offset, width);
    IntAt(packet, offset, width)
  }

  function DecodeFixedHeader(packet: seq<byte>): (r: Result<PacketView, ProtocolError>)
    ensures r.Ok? ==>
              |packet| == FIXED_HEADER_LEN + r.value.header.payloadLength
              && r.value.payload == packet[FIXED_HEADER_LEN..]
  {
    if |packet| < FIXED_HEADER_LEN then Err(BufferTooShort) else
    Pow256Values();
    var messageType :- MessageTypeFrom(HeaderInt(packet, 0, 2));
    var headerLength := HeaderInt(packet, 2, 2);
    if headerLength != FIXED_HEADER_LEN then Err(InvalidHeaderLength(headerLength)) else
    var payloadLength := HeaderInt(packet, 8, 4);
    if |packet| != FIXED_HEADER_LEN + payloadLength
    then Err(InvalidPayloadLength(payloadLength, |packet| - FIXED_HEADER_LEN)) else
    Ok(PacketView(
         FixedHeader(messageType, headerLength, HeaderInt(packet, 4, 4), payloadLength,
                     HeaderInt(packet, 12, 2), HeaderInt(packet, 14, 2)),
         packet[FIXED_HEADER_LEN..]))
  }

  function ValidateProtocolVersion(expected: Version, header: FixedHeader): Result<(), ProtocolError> {
    if header.protocolVersion == expected then Ok(())
    else Err(UnsupportedProtocolVersion(expected, header.protocolVersion))
  }

  /** The receive path: fixed header, then version, then the payload of the header's message type. */
  function DecodePacket(expected: Version, packet: seq<byte>): Result<ProtocolMessage, ProtocolError> {
    var view :- DecodeFixedHeader(packet);
    var _ :- ValidateProtocolVersion(expected, view.header);
    DecodePayload(view.header, view.payload)
  }

  // ---------- encoding ----------

  /** The checks a video message makes before it writes anything. */
  function SizeFault(declared: nat, body: seq<byte>): Option<ProtocolError> {
    if |body| > U32_MAX then Some(InvalidPayloadLength(U32_MAX, |body|))
    else if declared != |body| then Some(InvalidPayloadLength(|body|, declared))
    else None
  }

  function EncodeFault(m: ProtocolMessage): Option<ProtocolError> {
    match m
    case VideoFrameMsg(f) =>
      if f.metadataReserved != [0, 0, 0] then Some(InvalidMetadataReserved(f.metadataReserved))
      else SizeFault(f.payloadSize, f.payload)
    case VideoFrameFragmentMsg(f) => SizeFault(f.chunkPayloadLen, f.chunkPayload)
    case _ => None
  }

  /** What was appended, and why it stopped if it did. */
  datatype Written = Written(bytes: seq<byte>, fault: Option<ProtocolError>)

  /** Appending one field. Only a string can fail; an optional one has its tag written by then. */
  function Put(f: Field, v: Value): Written
    requires CanPut(f, v)
  {
    if !TooLong(v) then Written(Print(f, v), None)
    else if v.Present? then Written([1], Some(PayloadStringTooLong(|v.value.text|)))
    else Written([], Some(PayloadStringTooLong(|v.text|)))
  }

  predicate Writable(fs: seq<Field>, vs: seq<Value>) {
    |vs| == |fs| && forall i :: 0 <= i < |fs| ==> CanPut(fs[i], vs[i])
  }

  /** Appending the first `k` fields; the first failing field ends the writing. */
  function WriteUpTo(fs: seq<Field>, vs: seq<Value>, k: nat): Written
    requires Writable(fs, vs) && k <= |fs|
    decreases k
  {
    if k == 0 then Written([], None) else
    var before := WriteUpTo(fs, vs, k - 1);
    if before.fault.Some? then before else
    var w := Put(fs[k - 1], vs[k - 1]);
    Written(before.bytes + w.bytes, w.fault)
  }

  /** What a payload encoder appends, complete or not. */
  function WritePayload(m: ProtocolMessage): Written {
    if EncodeFault(m).Some? then Written([], EncodeFault(m)) else
    ValuesWritable(m);
    WriteUpTo(Layout(Kind(m)), ToValues(m), |Layout(Kind(m))|)
  }

  lemma {:induction false} ValuesWritable(m: ProtocolMessage)
    requires EncodeFault(m).None?
    ensures Writable(Layout(Kind(m)), ToValues(m))
  {
    match m
    case VideoFrameMsg(_) | VideoFrameFragmentMsg(_) => VideoWritable(m);
    case _ => ControlWritable(m);
  }

  lemma VideoWritable(m: ProtocolMessage)
    requires EncodeFault(m).None? && (m.VideoFrameMsg? || m.VideoFrameFragmentMsg?)
    ensures Writable(Layout(Kind(m)), ToValues(m))
  {
    hide ValidUtf8;
    Pow256Values();
  }

  lemma ControlWritable(m: ProtocolMessage)
    requires !m.VideoFrameMsg? && !m.VideoFrameFragmentMsg?
    ensures Writable(Layout(Kind(m)), ToValues(m))
  {
    Pow256Values();
    hide OptText, OptU32, OptU64, OptObservation;
  }

  /** A whole packet: fixed header and payload. */
  function EncodePacket(version: Version, m: ProtocolMessage): Result<seq<byte>, ProtocolError> {
    var w := WritePayload(m);
    if w.fault.Some? then Err(w.fault.value)
    else if |w.bytes| > U32_MAX then Err(InvalidPayloadLength(U32_MAX, |w.bytes|))
    else Ok(HeaderBytes(Kind(m), version, |w.bytes|) + w.bytes)
  }
}
