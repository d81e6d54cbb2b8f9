/** Messages, headers and errors of the UDP wire protocol. */
module Protocol {
  import opened Bytes

  type ClientId = Text
  type RunId = Text
  type Version = u32
  type Timestamp = u64

  const FIXED_HEADER_LEN: nat := 16

  datatype MessageType =
    | AuthRequestType | AuthResponseType | HeartbeatType | HeartbeatAckType
    | VideoFrameType | ClientStatsType | ServerNoticeType | VideoFrameFragmentType

  function MessageTypeCode(kind: MessageType): (n: u16) {
    match kind
    case AuthRequestType => 1
    case AuthResponseType => 2
    case HeartbeatType => 3
    case HeartbeatAckType => 4
    case VideoFrameType => 5
    case ClientStatsType => 6
    case ServerNoticeType => 7
    case VideoFrameFragmentType => 8
  }

  function MessageTypeFrom(n: nat): Result<MessageType, ProtocolError> {
    match n
    case 1 => Ok(AuthRequestType)
    case 2 => Ok(AuthResponseType)
    case 3 => Ok(HeartbeatType)
    case 4 => Ok(HeartbeatAckType)
    case 5 => Ok(VideoFrameType)
    case 6 => Ok(ClientStatsType)
    case 7 => Ok(ServerNoticeType)
    case 8 => Ok(VideoFrameFragmentType)
    case _ => Err(UnknownMessageType(n))
  }

  datatype ReasonCode =
    AuthOk | InvalidToken | UnknownClient | ProtocolMismatch | AlreadyConnected | InternalError

  function ReasonWire(reason: ReasonCode): (n: u16) {
    match reason
    case AuthOk => 0
    case InvalidToken => 1
    case UnknownClient => 2
    case ProtocolMismatch => 3
    case AlreadyConnected => 4
    case InternalError => 5
  }

  function ReasonFrom(n: nat): ReasonCode
    requires n <= 5
  {
    match n
    case 0 => AuthOk
    case 1 => InvalidToken
    case 2 => UnknownClient
    case 3 => ProtocolMismatch
    case 4 => AlreadyConnected
    case _ => InternalError
  }

  datatype NoticeType = Warning | Disconnect | ProtocolErrorNotice | AuthExpired | ServerShutdown

  function NoticeWire(notice: NoticeType): (n: u16) {
    match notice
    case Warning => 1
    case Disconnect => 2
    case ProtocolErrorNotice => 3
    case AuthExpired => 4
    case ServerShutdown => 5
  }

  function NoticeFrom(n: nat): NoticeType
    requires 1 <= n <= 5
  {
    match n
    case 1 => Warning
    case 2 => Disconnect
    case 3 => ProtocolErrorNotice
    case 4 => AuthExpired
    case _ => ServerShutdown
  }

  datatype Codec = H264

  const H264_WIRE: u16 := 1

  datatype ProtocolError =
    | BufferTooShort
    | InvalidHeaderLength(headerLength: nat)
    | InvalidPayloadLength(expected: u32, actual: nat)
    | InvalidOptionalTag(tag: nat)
    | InvalidBoolValue(flag: nat)
    | InvalidMetadataReserved(reserved: seq<byte>)
    | InvalidUtf8String
    | UnsupportedAuthResponseReasonCode(code: nat)
    | UnsupportedCodec(code: nat)
    | UnsupportedNoticeType(code: nat)
    | UnknownMessageType(code: nat)
    | UnexpectedMessageType(wanted: MessageType, found: MessageType)
    | UnsupportedProtocolVersion(wantedVersion: Version, foundVersion: Version)
    | PayloadStringTooLong(length: nat)

  datatype FixedHeader = FixedHeader(
    messageType: MessageType,
    headerLength: u16,
    protocolVersion: Version,
    payloadLength: u32,
    flags: u16,
    reserved: u16)

  datatype PacketView = PacketView(header: FixedHeader, payload: seq<byte>)

  datatype AuthRequest = AuthRequest(
    messageType: MessageType,
    protocolVersion: Version,
    clientId: ClientId,
    runId: RunId,
    appVersion: Text,
    sharedToken: Text,
    displayName: Option<Text>,
    capabilities: seq<Text>,
    requestedVideoProfile: Option<Text>)

  datatype AuthResponse = AuthResponse(
    messageType: MessageType,
    protocolVersion: Version,
    clientId: ClientId,
    runId: RunId,
    accepted: bool,
    reasonCode: ReasonCode,
    message: Option<Text>,
    serverTime: Option<Timestamp>,
    expectedProtocolVersion: Option<Version>)

  datatype Heartbeat = Heartbeat(
    messageType: MessageType,
    protocolVersion: Version,
    clientId: ClientId,
    runId: RunId,
    sentAt: Timestamp,
    localTime: Option<Timestamp>,
    shortStatus: Option<Text>)

  datatype HeartbeatAck = HeartbeatAck(
    messageType: MessageType,
    protocolVersion: Version,
    clientId: ClientId,
    runId: RunId,
    echoedSentAt: Timestamp,
    serverReceivedAt: Timestamp,
    serverSentAt: Timestamp)

  datatype HeartbeatAckObservation = HeartbeatAckObservation(
    clientId: ClientId,
    runId: RunId,
    echoedSentAt: Timestamp,
    serverReceivedAt: Timestamp,
    serverSentAt: Timestamp,
    clientReceivedAt: Timestamp)

  /** `payloadSize` is the declared size, a `usize` separate from the bytes carried. */
  datatype VideoFrame = VideoFrame(
    messageType: MessageType,
    protocolVersion: Version,
    clientId: ClientId,
    runId: RunId,
    frameId: u64,
    captureTimestamp: Timestamp,
    sendTimestamp: Timestamp,
    isKeyframe: bool,
    metadataReserved: seq<byte>,
    width: u32,
    height: u32,
    fpsNominal: u32,
    codec: Codec,
    payloadSize: nat,
    payload: seq<byte>)

  datatype VideoFrameFragment = VideoFrameFragment(
    messageType: MessageType,
    protocolVersion: Version,
    clientId: ClientId,
    runId: RunId,
    frameId: u64,
    captureTimestamp: Timestamp,
    isKeyframe: bool,
    width: u32,
    height: u32,
    fpsNominal: u32,
    totalPayloadLen: u32,
    chunkIndex: u32,
    chunkCount: u32,
    chunkPayloadLen: nat,
    chunkPayload: seq<byte>)

  datatype ClientStats = ClientStats(
    messageType: MessageType,
    protocolVersion: Version,
    clientId: ClientId,
    runId: RunId,
    sentAt: Timestamp,
    captureFps: u32,
    droppedFrames: u64,
    bitrateKbps: u32,
    heartbeatObservation: Option<HeartbeatAckObservation>)

  datatype ServerNotice = ServerNotice(
    messageType: MessageType,
    protocolVersion: Version,
    runId: RunId,
    noticeType: NoticeType,
    message: Text)

  datatype ProtocolMessage =
    | AuthRequestMsg(request: AuthRequest)
    | AuthResponseMsg(response: AuthResponse)
    | HeartbeatMsg(heartbeat: Heartbeat)
    | HeartbeatAckMsg(ack: HeartbeatAck)
    | VideoFrameMsg(frame: VideoFrame)
    | VideoFrameFragmentMsg(fragment: VideoFrameFragment)
    | ClientStatsMsg(stats: ClientStats)
    | ServerNoticeMsg(notice: ServerNotice)

  function Kind(m: ProtocolMessage): MessageType {
    match m
    case AuthRequestMsg(_) => AuthRequestType
    case AuthResponseMsg(_) => AuthResponseType
    case HeartbeatMsg(_) => HeartbeatType
    case HeartbeatAckMsg(_) => HeartbeatAckType
    case VideoFrameMsg(_) => VideoFrameType
    case VideoFrameFragmentMsg(_) => VideoFrameFragmentType
    case ClientStatsMsg(_) => ClientStatsType
    case ServerNoticeMsg(_) => ServerNoticeType
  }
}
