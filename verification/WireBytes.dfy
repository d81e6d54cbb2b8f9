/**
The UDP wire format byte by byte, with every code, width and position as a numeral: what an accepted message looks
like on the wire, and how a packet that is none is refused.
*/
module WireBytes {
  import opened Bytes
  import opened Grammar
  import opened Protocol
  import opened Wire
  import opened WireTheorems
  import ByteWriting

  // ---------- fields ----------

  function StringBytes(t: seq<byte>): seq<byte>
    requires |t| <= U16_MAX
  {
    U16Bytes(|t|) + t
  }

  function BlobBytes(b: seq<byte>): seq<byte>
    requires |b| <= U32_MAX
  {
    U32Bytes(|b|) + b
  }

  predicate FitsOpt(t: Option<Text>) {
    t.Some? ==> |t.value| <= U16_MAX
  }

  function OptStringBytes(t: Option<Text>): seq<byte>
    requires FitsOpt(t)
  {
    match t case None => [0] case Some(s) => [1] + StringBytes(s)
  }

  function OptU32Bytes(n: Option<u32>): seq<byte> {
    match n case None => [0] case Some(x) => [1] + U32Bytes(x)
  }

  function OptU64Bytes(n: Option<u64>): seq<byte> {
    match n case None => [0] case Some(x) => [1] + U64Bytes(x)
  }

  function ObservationBytes(o: Option<HeartbeatAckObservation>): seq<byte> {
    match o
    case None => [0]
    case Some(x) =>
      [1] + U64Bytes(x.echoedSentAt) + U64Bytes(x.serverReceivedAt) + U64Bytes(x.serverSentAt)
      + U64Bytes(x.clientReceivedAt)
  }

  function BoolBytes(on: bool): seq<byte> {
    if on then [1] else [0]
  }

  function ReasonBytes(reason: ReasonCode): seq<byte> {
    match reason
    case AuthOk => [0, 0]
    case InvalidToken => [1, 0]
    case UnknownClient => [2, 0]
    case ProtocolMismatch => [3, 0]
    case AlreadyConnected => [4, 0]
    case InternalError => [5, 0]
  }

  function NoticeBytes(notice: NoticeType): seq<byte> {
    match notice
    case Warning => [1, 0]
    case Disconnect => [2, 0]
    case ProtocolErrorNotice => [3, 0]
    case AuthExpired => [4, 0]
    case ServerShutdown => [5, 0]
  }

  // ---------- payloads ----------

  /** The strings of a message fit their prefixes, and a video body is as long as it says. */
  predicate Sendable(m: ProtocolMessage) {
    match m
    case AuthRequestMsg(r) =>
      && |r.clientId| <= U16_MAX && |r.runId| <= U16_MAX && |r.appVersion| <= U16_MAX
      && |r.sharedToken| <= U16_MAX && FitsOpt(r.displayName)
    case AuthResponseMsg(r) => |r.clientId| <= U16_MAX && |r.runId| <= U16_MAX && FitsOpt(r.message)
    case HeartbeatMsg(h) => |h.clientId| <= U16_MAX && |h.runId| <= U16_MAX && FitsOpt(h.shortStatus)
    case HeartbeatAckMsg(a) => |a.clientId| <= U16_MAX && |a.runId| <= U16_MAX
    case VideoFrameMsg(f) =>
      && |f.clientId| <= U16_MAX && |f.runId| <= U16_MAX
      && f.metadataReserved == [0, 0, 0] && f.payloadSize == |f.payload| <= U32_MAX
    case VideoFrameFragmentMsg(f) =>
      |f.clientId| <= U16_MAX && |f.runId| <= U16_MAX && f.chunkPayloadLen == |f.chunkPayload| <= U32_MAX
    case ClientStatsMsg(s) => |s.clientId| <= U16_MAX && |s.runId| <= U16_MAX
    case ServerNoticeMsg(n) => |n.runId| <= U16_MAX && |n.message| <= U16_MAX
  }

  /** The fields of a payload on the wire, in order. */
  function FieldBytes(m: ProtocolMessage): seq<seq<byte>>
    requires Sendable(m)
  {
    match m
    case AuthRequestMsg(r) =>
      [StringBytes(r.clientId), StringBytes(r.runId), StringBytes(r.appVersion), StringBytes(r.sharedToken),
       OptStringBytes(r.displayName)]
    case AuthResponseMsg(r) =>
      [StringBytes(r.clientId), StringBytes(r.runId), BoolBytes(r.accepted), ReasonBytes(r.reasonCode),
       OptStringBytes(r.message), OptU64Bytes(r.serverTime), OptU32Bytes(r.expectedProtocolVersion)]
    case HeartbeatMsg(h) =>
      [StringBytes(h.clientId), StringBytes(h.runId), U64Bytes(h.sentAt), OptU64Bytes(h.localTime),
       OptStringBytes(h.shortStatus)]
    case HeartbeatAckMsg(a) =>
      [StringBytes(a.clientId), StringBytes(a.runId), U64Bytes(a.echoedSentAt), U64Bytes(a.serverReceivedAt),
       U64Bytes(a.serverSentAt)]
    case VideoFrameMsg(f) =>
      [StringBytes(f.clientId), StringBytes(f.runId), U64Bytes(f.frameId), U64Bytes(f.captureTimestamp),
       U64Bytes(f.sendTimestamp), BoolBytes(f.isKeyframe), [0, 0, 0], U32Bytes(f.width), U32Bytes(f.height),
       U32Bytes(f.fpsNominal), [1, 0], BlobBytes(f.payload)]
    case VideoFrameFragmentMsg(f) =>
      [StringBytes(f.clientId), StringBytes(f.runId), U64Bytes(f.frameId), U64Bytes(f.captureTimestamp),
       BoolBytes(f.isKeyframe), U32Bytes(f.width), U32Bytes(f.height), U32Bytes(f.fpsNominal),
       U32Bytes(f.totalPayloadLen), U32Bytes(f.chunkIndex), U32Bytes(f.chunkCount), BlobBytes(f.chunkPayload)]
    case ClientStatsMsg(s) =>
      [StringBytes(s.clientId), StringBytes(s.runId), U64Bytes(s.sentAt), U32Bytes(s.captureFps),
       U64Bytes(s.droppedFrames), U32Bytes(s.bitrateKbps), ObservationBytes(s.heartbeatObservation)]
    case ServerNoticeMsg(n) =>
      [StringBytes(n.runId), NoticeBytes(n.noticeType), StringBytes(n.message)]
  }

  function PayloadBytes(m: ProtocolMessage): seq<byte>
    requires Sendable(m)
  {
    Concat(FieldBytes(m), |FieldBytes(m)|)
  }

  // ---------- printed fields are those bytes ----------

  lemma PrintedString(t: Text)
    requires |t| <= U16_MAX
    ensures PrintsAs(Str, Chars(t), StringBytes(t))
  {
    ToLENumerals(|t|, 0, 0, 0);
    hide ToLE, ValidUtf8;
  }

  lemma PrintedBlob(b: seq<byte>)
    requires |b| <= U32_MAX
    ensures PrintsAs(Blob, Raw(b), BlobBytes(b))
  {
    ToLENumerals(0, |b|, 0, 0);
    hide ToLE;
  }

  lemma PrintedNumbers(a: byte, b: u32, c: u64)
    ensures PrintsAs(Int(1), Num(a), [a])
    ensures PrintsAs(Int(4), Num(b), U32Bytes(b))
    ensures PrintsAs(Int(8), Num(c), U64Bytes(c))
  {
    Pow256Values();
    ToLENumerals(0, b, c, a);
    hide ToLE, Pow256;
  }

  lemma PrintedFixed(on: bool)
    ensures PrintsAs(Flag, Bit(on), BoolBytes(on))
    ensures PrintsAs(Zeros, Reserved, [0, 0, 0])
    ensures PrintsAs(Code(CodecCode), Num(H264_WIRE), [1, 0])
  {
    ToLENumerals(1, 0, 0, 0);
    hide ToLE;
  }

  lemma PrintedReason(reason: ReasonCode)
    ensures PrintsAs(Code(ReasonCode), Num(ReasonWire(reason)), ReasonBytes(reason))
  {
    ToLENumerals(ReasonWire(reason), 0, 0, 0);
    hide ToLE;
  }

  lemma PrintedNotice(notice: NoticeType)
    ensures PrintsAs(Code(NoticeCode), Num(NoticeWire(notice)), NoticeBytes(notice))
  {
    ToLENumerals(NoticeWire(notice), 0, 0, 0);
    hide ToLE;
  }

  lemma PrintedOptString(t: Option<Text>)
    requires FitsOpt(t)
    ensures PrintsAs(Opt(Str), OptText(t), OptStringBytes(t))
  {
    if t.Some? {
      PrintedString(t.value);
    }
    hide ToLE, ValidUtf8;
  }

  lemma PrintedOptNumbers(n: Option<u64>, v: Option<u32>)
    ensures PrintsAs(Opt(Int(8)), OptU64(n), OptU64Bytes(n))
    ensures PrintsAs(Opt(Int(4)), OptU32(v), OptU32Bytes(v))
  {
    if n.Some? {
      PrintedNumbers(0, 0, n.value);
    }
    if v.Some? {
      PrintedNumbers(0, v.value, 0);
    }
    hide ToLE, Pow256;
  }

  lemma PresentWords(ws: seq<u64>)
    requires |ws| == 4
    ensures PrintsAs(Opt(Words(4)), Present(Series(ws)), [1] + PrintWords(ws))
  {
    Pow256Values();
    hide Pow256, PrintWords;
    var v: Value := Series(ws);
    assert Fits(Words(4), v) && Print(Words(4), v) == PrintWords(ws);
  }

  lemma FourWordsPrinted(a: u64, b: u64, c: u64, d: u64)
    ensures [1] + PrintWords([a, b, c, d]) == [1] + U64Bytes(a) + U64Bytes(b) + U64Bytes(c) + U64Bytes(d)
  {
    ToLENumerals(0, 0, a, 0);
    ToLENumerals(0, 0, b, 0);
    ToLENumerals(0, 0, c, 0);
    ToLENumerals(0, 0, d, 0);
    ByteWriting.FourWords([], a, b, c, d);
    hide ToLE, U64Bytes, PrintWords;
    assert [] + [1] == [1];
  }

  lemma PrintedWords(a: u64, b: u64, c: u64, d: u64)
    ensures PrintsAs(Opt(Words(4)), Present(Series([a, b, c, d])),
                     [1] + U64Bytes(a) + U64Bytes(b) + U64Bytes(c) + U64Bytes(d))
  {
    var ws: seq<u64> := [a, b, c, d];
    PresentWords(ws);
    FourWordsPrinted(a, b, c, d);
    hide PrintsAs, U64Bytes, PrintWords;
  }

  lemma PrintedObservation(o: Option<HeartbeatAckObservation>)
    ensures PrintsAs(Opt(Words(4)), OptObservation(o), ObservationBytes(o))
  {
    if o.Some? {
      var x := o.value;
      PrintedWords(x.echoedSentAt, x.serverReceivedAt, x.serverSentAt, x.clientReceivedAt);
      hide PrintsAs, U64Bytes, ValidUtf8;
    }
  }

  // ---------- printed payloads are those bytes ----------

  /** Every field of the message is printed as it should be. */
  ghost predicate AllPrintAs(m: ProtocolMessage)
    requires Sendable(m)
  {
    var fs, vs, parts := Layout(Kind(m)), ToValues(m), FieldBytes(m);
    |fs| == |vs| == |parts| && forall i :: 0 <= i < |fs| ==> PrintsAs(fs[i], vs[i], parts[i])
  }

  lemma AuthRequestPrints(r: AuthRequest)
    requires Sendable(AuthRequestMsg(r))
    ensures AllPrintAs(AuthRequestMsg(r))
  {
    AuthRequestFields();
    PrintedString(r.clientId);
    PrintedString(r.runId);
    PrintedString(r.appVersion);
    PrintedString(r.sharedToken);
    PrintedOptString(r.displayName);
    hide PrintsAs, ValidUtf8, StringBytes, OptStringBytes, OptText, Layout;
  }

  lemma AuthResponsePrints(r: AuthResponse)
    requires Sendable(AuthResponseMsg(r))
    ensures AllPrintAs(AuthResponseMsg(r))
  {
    AuthResponseFields();
    PrintedString(r.clientId);
    PrintedString(r.runId);
    PrintedFixed(r.accepted);
    PrintedReason(r.reasonCode);
    PrintedOptString(r.message);
    PrintedOptNumbers(r.serverTime, r.expectedProtocolVersion);
    hide PrintsAs, ValidUtf8, StringBytes, OptStringBytes, OptU64Bytes, OptU32Bytes, BoolBytes, ReasonBytes, OptText,
         OptU64, OptU32, ReasonWire, Layout;
  }

  lemma HeartbeatPrints(h: Heartbeat)
    requires Sendable(HeartbeatMsg(h))
    ensures AllPrintAs(HeartbeatMsg(h))
  {
    HeartbeatFields();
    PrintedString(h.clientId);
    PrintedString(h.runId);
    PrintedNumbers(0, 0, h.sentAt);
    PrintedOptNumbers(h.localTime, None);
    PrintedOptString(h.shortStatus);
    hide PrintsAs, ValidUtf8, StringBytes, OptStringBytes, OptU64Bytes, U64Bytes, OptText, OptU64, Layout;
  }

  lemma HeartbeatAckPrints(a: HeartbeatAck)
    requires Sendable(HeartbeatAckMsg(a))
    ensures AllPrintAs(HeartbeatAckMsg(a))
  {
    HeartbeatAckFields();
    PrintedString(a.clientId);
    PrintedString(a.runId);
    PrintedNumbers(0, 0, a.echoedSentAt);
    PrintedNumbers(0, 0, a.serverReceivedAt);
    PrintedNumbers(0, 0, a.serverSentAt);
    hide PrintsAs, ValidUtf8, StringBytes, U64Bytes, Layout;
  }

  lemma ClientStatsPrints(s: ClientStats)
    requires Sendable(ClientStatsMsg(s))
    ensures AllPrintAs(ClientStatsMsg(s))
  {
    ClientStatsFields();
    PrintedString(s.clientId);
    PrintedString(s.runId);
    PrintedNumbers(0, s.captureFps, s.sentAt);
    PrintedNumbers(0, s.bitrateKbps, s.droppedFrames);
    PrintedObservation(s.heartbeatObservation);
    hide PrintsAs, ValidUtf8, StringBytes, U32Bytes, U64Bytes, ObservationBytes, OptObservation, Layout;
  }

  lemma ServerNoticePrints(n: ServerNotice)
    requires Sendable(ServerNoticeMsg(n))
    ensures AllPrintAs(ServerNoticeMsg(n))
  {
    ServerNoticeFields();
    PrintedString(n.runId);
    PrintedNotice(n.noticeType);
    PrintedString(n.message);
    hide PrintsAs, ValidUtf8, StringBytes, NoticeBytes, NoticeWire, Layout;
  }

  lemma VideoFramePrintsHead(f: VideoFrame)
    requires Sendable(VideoFrameMsg(f))
    ensures var fs, vs, parts := Layout(VideoFrameType), ToValues(VideoFrameMsg(f)), FieldBytes(VideoFrameMsg(f));
            |fs| == |vs| == |parts| == 12 && forall i :: 0 <= i < 6 ==> PrintsAs(fs[i], vs[i], parts[i])
  {
    VideoFrameFields();
    VideoFrameValues(f);
    PrintedString(f.clientId);
    PrintedString(f.runId);
    PrintedNumbers(0, 0, f.frameId);
    PrintedNumbers(0, 0, f.captureTimestamp);
    PrintedNumbers(0, 0, f.sendTimestamp);
    PrintedFixed(f.isKeyframe);
    hide PrintsAs, ValidUtf8, StringBytes, BlobBytes, U32Bytes, U64Bytes, BoolBytes, Layout, ToValues;
  }

  lemma VideoFrameTailBytes(f: VideoFrame)
    requires Sendable(VideoFrameMsg(f))
    ensures var parts := FieldBytes(VideoFrameMsg(f));
            && |parts| == 12 && parts[6] == [0, 0, 0] && parts[7] == U32Bytes(f.width) && parts[8] == U32Bytes(f.height)
            && parts[9] == U32Bytes(f.fpsNominal) && parts[10] == [1, 0] && parts[11] == BlobBytes(f.payload)
  {
    hide StringBytes, BlobBytes, U32Bytes, U64Bytes, BoolBytes, ValidUtf8;
  }

  lemma VideoFramePrintsTail(f: VideoFrame)
    requires Sendable(VideoFrameMsg(f))
    ensures var fs, vs, parts := Layout(VideoFrameType), ToValues(VideoFrameMsg(f)), FieldBytes(VideoFrameMsg(f));
            |fs| == |vs| == |parts| == 12 && forall i :: 6 <= i < 12 ==> PrintsAs(fs[i], vs[i], parts[i])
  {
    VideoFrameFields();
    VideoFrameValues(f);
    VideoFrameTailBytes(f);
    PrintedFixed(f.isKeyframe);
    PrintedNumbers(0, f.width, 0);
    PrintedNumbers(0, f.height, 0);
    PrintedNumbers(0, f.fpsNominal, 0);
    PrintedBlob(f.payload);
    hide PrintsAs, ValidUtf8, BlobBytes, U32Bytes, Layout, ToValues, FieldBytes;
  }

  lemma VideoFramePrints(f: VideoFrame)
    requires Sendable(VideoFrameMsg(f))
    ensures AllPrintAs(VideoFrameMsg(f))
  {
    VideoFramePrintsHead(f);
    VideoFramePrintsTail(f);
    hide PrintsAs, Layout, ToValues, FieldBytes;
  }

  lemma VideoFrameFragmentPrintsHead(f: VideoFrameFragment)
    requires Sendable(VideoFrameFragmentMsg(f))
    ensures var m := VideoFrameFragmentMsg(f);
            var fs, vs, parts := Layout(VideoFrameFragmentType), ToValues(m), FieldBytes(m);
            |fs| == |vs| == |parts| == 12 && forall i :: 0 <= i < 6 ==> PrintsAs(fs[i], vs[i], parts[i])
  {
    VideoFrameFragmentFields();
    VideoFrameFragmentValues(f);
    PrintedString(f.clientId);
    PrintedString(f.runId);
    PrintedNumbers(0, f.width, f.frameId);
    PrintedNumbers(0, 0, f.captureTimestamp);
    PrintedFixed(f.isKeyframe);
    hide PrintsAs, ValidUtf8, StringBytes, BlobBytes, U32Bytes, U64Bytes, BoolBytes, Layout, ToValues;
  }

  lemma VideoFrameFragmentTailBytes(f: VideoFrameFragment)
    requires Sendable(VideoFrameFragmentMsg(f))
    ensures var parts := FieldBytes(VideoFrameFragmentMsg(f));
            && |parts| == 12 && parts[6] == U32Bytes(f.height) && parts[7] == U32Bytes(f.fpsNominal)
            && parts[8] == U32Bytes(f.totalPayloadLen) && parts[9] == U32Bytes(f.chunkIndex)
            && parts[10] == U32Bytes(f.chunkCount) && parts[11] == BlobBytes(f.chunkPayload)
  {
    hide StringBytes, BlobBytes, U32Bytes, U64Bytes, BoolBytes, ValidUtf8;
  }

  lemma VideoFrameFragmentPrintsTail(f: VideoFrameFragment)
    requires Sendable(VideoFrameFragmentMsg(f))
    ensures var m := VideoFrameFragmentMsg(f);
            var fs, vs, parts := Layout(VideoFrameFragmentType), ToValues(m), FieldBytes(m);
            |fs| == |vs| == |parts| == 12 && forall i :: 6 <= i < 12 ==> PrintsAs(fs[i], vs[i], parts[i])
  {
    VideoFrameFragmentFields();
    VideoFrameFragmentValues(f);
    VideoFrameFragmentTailBytes(f);
    PrintedNumbers(0, f.height, 0);
    PrintedNumbers(0, f.fpsNominal, 0);
    PrintedNumbers(0, f.totalPayloadLen, 0);
    PrintedNumbers(0, f.chunkIndex, 0);
    PrintedNumbers(0, f.chunkCount, 0);
    PrintedBlob(f.chunkPayload);
    hide PrintsAs, ValidUtf8, BlobBytes, U32Bytes, Layout, ToValues, FieldBytes;
  }

  lemma VideoFrameFragmentPrints(f: VideoFrameFragment)
    requires Sendable(VideoFrameFragmentMsg(f))
    ensures AllPrintAs(VideoFrameFragmentMsg(f))
  {
    VideoFrameFragmentPrintsHead(f);
    VideoFrameFragmentPrintsTail(f);
    hide PrintsAs, Layout, ToValues, FieldBytes;
  }

  lemma {:induction false} EveryFieldPrints(m: ProtocolMessage)
    requires Sendable(m)
    ensures AllPrintAs(m)
  {
    hide AllPrintAs, Sendable;
    match m
    case AuthRequestMsg(r) => AuthRequestPrints(r);
    case AuthResponseMsg(r) => AuthResponsePrints(r);
    case HeartbeatMsg(h) => HeartbeatPrints(h);
    case HeartbeatAckMsg(a) => HeartbeatAckPrints(a);
    case VideoFrameMsg(f) => VideoFramePrints(f);
    case VideoFrameFragmentMsg(f) => VideoFrameFragmentPrints(f);
    case ClientStatsMsg(s) => ClientStatsPrints(s);
    case ServerNoticeMsg(n) => ServerNoticePrints(n);
  }

  /** The string at position `i` of a fitting message has a 16-bit length. */
  lemma StringFits(m: ProtocolMessage, i: nat)
    requires FitAll(Layout(Kind(m)), ToValues(m)) && i < |Layout(Kind(m))|
    ensures Layout(Kind(m))[i] == Str ==> ToValues(m)[i].Chars? && |ToValues(m)[i].text| <= U16_MAX
    ensures Layout(Kind(m))[i] == Opt(Str) && ToValues(m)[i].Present? ==>
              ToValues(m)[i].value.Chars? && |ToValues(m)[i].value.text| <= U16_MAX
  {
    assert Fits(Layout(Kind(m))[i], ToValues(m)[i]);
  }

  /** What must fit for a message to be written, value by value. */
  lemma {:induction false} FittingIsSendable(m: ProtocolMessage)
    requires EncodeFault(m).None? && FitAll(Layout(Kind(m)), ToValues(m))
    ensures Sendable(m)
  {
    if m.AuthRequestMsg? || m.AuthResponseMsg? || m.HeartbeatMsg? {
      OptionalFitting(m);
    } else {
      PlainFitting(m);
    }
    hide Sendable, FitAll;
  }

  lemma PlainFitting(m: ProtocolMessage)
    requires EncodeFault(m).None? && FitAll(Layout(Kind(m)), ToValues(m))
    requires !m.AuthRequestMsg? && !m.AuthResponseMsg? && !m.HeartbeatMsg?
    ensures Sendable(m)
  {
    hide FitAll, ValidUtf8;
    LayoutStarts(Kind(m));
    StringFits(m, 0);
    StringFits(m, if m.ServerNoticeMsg? then 2 else 1);
  }

  lemma OptionalFitting(m: ProtocolMessage)
    requires FitAll(Layout(Kind(m)), ToValues(m)) && (m.AuthRequestMsg? || m.AuthResponseMsg? || m.HeartbeatMsg?)
    ensures Sendable(m)
  {
    hide FitAll, ValidUtf8;
    LayoutStarts(Kind(m));
    StringFits(m, 0);
    match m
    case AuthRequestMsg(_) =>
      StringFits(m, 1);
      StringFits(m, 2);
      StringFits(m, 3);
      StringFits(m, 4);
    case AuthResponseMsg(_) =>
      StringFits(m, 1);
      StringFits(m, 4);
    case HeartbeatMsg(_) =>
      StringFits(m, 1);
      StringFits(m, 4);
  }

  lemma LayoutStarts(kind: MessageType)
    ensures |Layout(kind)| >= 3 && (kind == AuthRequestType || kind == AuthResponseType || kind == HeartbeatType ==>
                                      |Layout(kind)| >= 5)
  {
  }

  /** A payload is written completely exactly when the message is sendable, and then in exactly these bytes. */
  lemma {:induction false} PayloadOnTheWire(m: ProtocolMessage)
    ensures WritePayload(m).fault.None? <==> Sendable(m)
    ensures Sendable(m) ==> WritePayload(m).bytes == PayloadBytes(m)
  {
    WritesPrintedPayload(m);
    if Sendable(m) {
      EveryFieldPrints(m);
      PrintsInParts(Layout(Kind(m)), ToValues(m), FieldBytes(m));
      SendableHasNoFault(m);
    } else if WritePayload(m).fault.None? {
      FittingIsSendable(m);
    }
    hide WritePayload, Layout, ToValues, FieldBytes, Sendable, EncodeFault, FitAll, PrintAll, Concat, PrintsAs;
  }

  lemma SendableHasNoFault(m: ProtocolMessage)
    requires Sendable(m)
    ensures EncodeFault(m).None?
  {
  }

  // ---------- packets ----------

  function TypeByte(m: ProtocolMessage): byte {
    match m
    case AuthRequestMsg(_) => 1
    case AuthResponseMsg(_) => 2
    case HeartbeatMsg(_) => 3
    case HeartbeatAckMsg(_) => 4
    case VideoFrameMsg(_) => 5
    case ClientStatsMsg(_) => 6
    case ServerNoticeMsg(_) => 7
    case VideoFrameFragmentMsg(_) => 8
  }

  /** A whole packet: the sixteen header bytes, one by one, and the payload. */
  function PacketBytes(v: Version, m: ProtocolMessage): seq<byte>
    requires Sendable(m) && |PayloadBytes(m)| <= U32_MAX
  {
    var n := |PayloadBytes(m)|;
    [TypeByte(m), 0, 16, 0,
     v % 0x100, v / 0x100 % 0x100, v / 0x1_0000 % 0x100, v / 0x100_0000,
     n % 0x100, n / 0x100 % 0x100, n / 0x1_0000 % 0x100, n / 0x100_0000,
     0, 0, 0, 0] + PayloadBytes(m)
  }

  lemma HeaderOnTheWire(m: ProtocolMessage, v: Version, n: u32)
    ensures HeaderBytes(Kind(m), v, n)
         == [TypeByte(m), 0, 16, 0,
             v % 0x100, v / 0x100 % 0x100, v / 0x1_0000 % 0x100, v / 0x100_0000,
             n % 0x100, n / 0x100 % 0x100, n / 0x1_0000 % 0x100, n / 0x100_0000, 0, 0, 0, 0]
  {
    ToLENumerals(MessageTypeCode(Kind(m)), v, 0, 0);
    ToLENumerals(FIXED_HEADER_LEN, n, 0, 0);
    hide ToLE;
  }

  /** A message is encoded exactly when it is sendable and its payload has a 32-bit length, as exactly these bytes. */
  lemma {:induction false} PacketOnTheWire(v: Version, m: ProtocolMessage)
    ensures EncodePacket(v, m).Ok? <==> Sendable(m) && |PayloadBytes(m)| <= U32_MAX
    ensures EncodePacket(v, m).Ok? ==> EncodePacket(v, m).value == PacketBytes(v, m)
  {
    PayloadOnTheWire(m);
    if Sendable(m) && |PayloadBytes(m)| <= U32_MAX {
      HeaderOnTheWire(m, v, |PayloadBytes(m)|);
    }
    hide WritePayload, Sendable, PayloadBytes, HeaderBytes, TypeByte, Kind;
  }

  /** And exactly these bytes are what a receiver of that version takes for the message. */
  lemma {:induction false} PacketUnderstood(v: Version, m: ProtocolMessage)
    requires Sendable(m) && |PayloadBytes(m)| <= U32_MAX
    ensures DecodePacket(v, PacketBytes(v, m)) == Ok(Normal(v, m))
  {
    PacketOnTheWire(v, m);
    hide EncodePacket, DecodePacket, PacketBytes, Sendable, PayloadBytes, Normal;
    PacketRoundTrip(v, m);
  }

  // ---------- what is refused ----------

  /** The checks before the payload, in order, on the bytes themselves. */
  lemma {:induction false} HeaderRefused(v: Version, p: seq<byte>)
    ensures |p| < 16 ==> DecodePacket(v, p) == Err(BufferTooShort)
    ensures |p| >= 16 ==>
              var code, headerLength := U16From(p[0], p[1]), U16From(p[2], p[3]);
              var version := U32From(p[4], p[5], p[6], p[7]);
              var length := U32From(p[8], p[9], p[10], p[11]);
              && (code == 0 || code > 8 ==> DecodePacket(v, p) == Err(UnknownMessageType(code)))
              && (1 <= code <= 8 && headerLength != 16 ==> DecodePacket(v, p) == Err(InvalidHeaderLength(headerLength)))
              && (1 <= code <= 8 && headerLength == 16 && length != |p| - 16 ==>
                    DecodePacket(v, p) == Err(InvalidPayloadLength(length, |p| - 16)))
              && (1 <= code <= 8 && headerLength == 16 && length == |p| - 16 && version != v ==>
                    DecodePacket(v, p) == Err(UnsupportedProtocolVersion(v, version)))
  {
    if |p| >= 16 {
      FromLENumerals(p[0..2]);
      FromLENumerals(p[2..4]);
      FromLENumerals(p[4..8]);
      FromLENumerals(p[8..12]);
    }
    hide FromLE, Pow256, DecodePayload;
  }

  /** The error a malformed field is refused with. */
  ghost predicate RefusedAs(f: Field, bad: seq<byte>, e: ProtocolError) {
    match f
    case Flag => bad != [] && e == InvalidBoolValue(bad[0])
    case Opt(_) => bad != [] && e == InvalidOptionalTag(bad[0])
    case Zeros => |bad| >= 3 && e == InvalidMetadataReserved(bad[..3])
    case Str => e == InvalidUtf8String
    case Code(kind) =>
      |bad| >= 2 &&
      (var code := U16From(bad[0], bad[1]);
       match kind
       case ReasonCode => code > 5 && e == UnsupportedAuthResponseReasonCode(code)
       case CodecCode => code != 1 && e == UnsupportedCodec(code)
       case NoticeCode => (code == 0 || code > 5) && e == UnsupportedNoticeType(code)
       case _ => false)
    case _ => false
  }

  lemma MalformedIsNamed(f: Field, bad: seq<byte>, fault: Fault, payloadLen: nat)
    requires Malformed(f, bad, fault) && (f.Code? ==> f.kind in {ReasonCode, CodecCode, NoticeCode})
    ensures RefusedAs(f, bad, WireError(fault, payloadLen))
  {
    if f.Code? {
      FromLENumerals(bad[..2]);
    }
    hide FromLE, ValidUtf8;
  }

  /**
   * A malformed field is refused under its own name, with the bytes that are wrong, whatever well-formed fields
   * precede it and whatever follows.
   */
  lemma {:induction false} MalformedRefused(header: FixedHeader, vs: seq<Value>, k: nat, bad: seq<byte>, fault: Fault)
    requires FitAll(Layout(header.messageType), vs) && k < |Layout(header.messageType)|
    requires Malformed(Layout(header.messageType)[k], bad, fault)
    requires header.payloadLength == |PrintUpTo(Layout(header.messageType), vs, k) + bad|
    ensures var r := DecodePayload(header, PrintUpTo(Layout(header.messageType), vs, k) + bad);
            r.Err? && RefusedAs(Layout(header.messageType)[k], bad, r.error)
  {
    var fs := Layout(header.messageType);
    FirstMalformed(fs, vs, k, bad, fault);
    if fs[k].Code? {
      CodesOf(header.messageType, k);
    }
    hide Layout, FitAll, PrintUpTo, ParseAll, RefusedAs, Malformed, FromValues, WireError;
    MalformedIsNamed(fs[k], bad, fault, |PrintUpTo(fs, vs, k) + bad|);
  }

  lemma CodesOf(kind: MessageType, k: nat)
    requires k < |Layout(kind)| && Layout(kind)[k].Code?
    ensures Layout(kind)[k].kind in {ReasonCode, CodecCode, NoticeCode}
  {
  }
}
