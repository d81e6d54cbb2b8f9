/**
The server-to-switcher handoff frames: a length-prefixed body whose layout depends on what it carries.
Unlike the UDP format it is not canonical: a flag byte is any non-zero value, and an optional frame id is
carried as a flag byte and a value that is there even when the flag is off.
*/
module Handoff {
  import opened Bytes
  import opened Grammar
  import opened Protocol

  datatype ReadMode = InspectOldest | InspectLatest | InspectLatestDecodable | DequeueOldest

  function ReadModeWire(mode: ReadMode): (n: nat)
    ensures KnownCode(ReadModeCode, n) && ReadModeFrom(n) == mode
  {
    match mode
    case InspectOldest => 1
    case InspectLatest => 2
    case InspectLatestDecodable => 3
    case DequeueOldest => 4
  }

  function ReadModeFrom(n: nat): ReadMode
    requires KnownCode(ReadModeCode, n)
  {
    if n == 1 then InspectOldest else if n == 2 then InspectLatest
    else if n == 3 then InspectLatestDecodable else DequeueOldest
  }

  datatype DecodableSource = NoSource | FromQueue | FromRetainedKeyframe

  function SourceWire(source: DecodableSource): (n: nat)
    ensures KnownCode(SourceCode, n) && SourceFrom(n) == source
  {
    match source
    case NoSource => 0
    case FromQueue => 1
    case FromRetainedKeyframe => 2
  }

  function SourceFrom(n: nat): DecodableSource
    requires KnownCode(SourceCode, n)
  {
    if n == 0 then NoSource else if n == 1 then FromQueue else FromRetainedKeyframe
  }

  datatype NoFrameReason = NoFramesQueuedForClient | NoFramesQueuedForRequestedRun | NoDecodableFrameAvailable

  function NoFrameWire(reason: NoFrameReason): (n: nat)
    ensures KnownCode(NoFrameCode, n) && NoFrameFrom(n) == reason
  {
    match reason
    case NoFramesQueuedForClient => 1
    case NoFramesQueuedForRequestedRun => 2
    case NoDecodableFrameAvailable => 3
  }

  function NoFrameFrom(n: nat): NoFrameReason
    requires KnownCode(NoFrameCode, n)
  {
    if n == 1 then NoFramesQueuedForClient else if n == 2 then NoFramesQueuedForRequestedRun
    else NoDecodableFrameAvailable
  }

  datatype HandoffErrorKind =
    SourceUnavailable | RequestTimeout | InvalidScope | UnsupportedReadMode | MalformedResponse | SourceShutdown

  function ErrorWire(error: HandoffErrorKind): (n: nat)
    ensures KnownCode(HandoffErrorCode, n) && ErrorFrom(n) == error
  {
    match error
    case SourceUnavailable => 1
    case RequestTimeout => 2
    case InvalidScope => 3
    case UnsupportedReadMode => 4
    case MalformedResponse => 5
    case SourceShutdown => 6
  }

  function ErrorFrom(n: nat): HandoffErrorKind
    requires KnownCode(HandoffErrorCode, n)
  {
    if n == 1 then SourceUnavailable else if n == 2 then RequestTimeout else if n == 3 then InvalidScope
    else if n == 4 then UnsupportedReadMode else if n == 5 then MalformedResponse else SourceShutdown
  }

  datatype Request = Request(
    handoffVersion: u32,
    requestId: u64,
    clientId: ClientId,
    runId: RunId,
    readMode: ReadMode)

  datatype HandoffFrame = HandoffFrame(
    clientId: ClientId,
    runId: RunId,
    frameId: u64,
    captureTimestamp: Timestamp,
    sendTimestamp: Timestamp,
    queuedAt: Timestamp,
    width: u32,
    height: u32,
    fpsNominal: u32,
    isKeyframe: bool,
    codec: Codec,
    encodedPayloadLen: u32,
    encodedPayload: seq<byte>)

  datatype Response =
    | FrameRead(
        requestId: u64,
        remainingClientQueueLen: u32,
        decodableSource: DecodableSource,
        retainedKeyframeAvailable: bool,
        retainedKeyframeFrameId: Option<u64>,
        frame: HandoffFrame)
    | NoFrame(
        requestId: u64,
        clientId: ClientId,
        runId: RunId,
        readMode: ReadMode,
        clientQueueLen: u32,
        noFrameReason: NoFrameReason,
        decodableSource: DecodableSource,
        retainedKeyframeAvailable: bool,
        retainedKeyframeFrameId: Option<u64>)
    | HandoffError(requestId: u64, error: HandoffErrorKind)

  datatype CodecError =
    | FramePrefixTooShort(actualLen: nat)
    | TruncatedFrame(declaredBodyLen: nat, actualBodyLen: nat)
    | TrailingBytes(trailingLen: nat)
    | UnexpectedEof(needed: nat, remaining: nat)
    | InvalidUtf8
    | UnknownReadMode(code: nat)
    | UnknownDecodableSource(code: nat)
    | UnknownNoFrameReason(code: nat)
    | UnknownResponseKind(code: nat)
    | UnknownHandoffErrorCode(code: nat)
    | UnknownCodec(code: nat)
    | StringTooLong(field: string, len: nat)
    | BodyTooLong(len: nat)
    | PayloadLengthMismatch(declaredLen: nat, actualPayloadLen: nat)

  // ---------- layouts ----------

  const FRAME_READ_KIND: nat := 1
  const NO_FRAME_KIND: nat := 2
  const ERROR_KIND: nat := 3

  const REQUEST_LAYOUT: seq<Field> := [Int(4), Int(8), Str, Str, Code(ReadModeCode)]

  const RESPONSE_HEAD: seq<Field> := [Int(8), Int(1)]

  /** The whole body of a response of the given kind, head included. */
  function ResponseLayout(kind: nat): seq<Field>
    requires FRAME_READ_KIND <= kind <= ERROR_KIND
  {
    if kind == FRAME_READ_KIND then
      [Int(8), Int(1), Int(4), Code(SourceCode), Int(1), Int(8), Str, Str, Int(8), Int(8), Int(8), Int(8),
       Int(4), Int(4), Int(4), Int(1), Code(CodecCode), Blob]
    else if kind == NO_FRAME_KIND then
      [Int(8), Int(1), Int(4), Code(NoFrameCode), Code(SourceCode), Int(1), Int(8), Str, Str, Code(ReadModeCode)]
    else
      [Int(8), Int(1), Code(HandoffErrorCode)]
  }

  // ---------- as values ----------

  function RequestValues(r: Request): seq<Value> {
    [Num(r.handoffVersion), Num(r.requestId), Chars(r.clientId), Chars(r.runId), Num(ReadModeWire(r.readMode))]
  }

  function KindOf(r: Response): (k: nat)
    ensures FRAME_READ_KIND <= k <= ERROR_KIND
  {
    match r
    case FrameRead(_, _, _, _, _, _) => FRAME_READ_KIND
    case NoFrame(_, _, _, _, _, _, _, _, _) => NO_FRAME_KIND
    case HandoffError(_, _) => ERROR_KIND
  }

  function FlagNum(on: bool): Value {
    Num(if on then 1 else 0)
  }

  /** `id.unwrap_or(0)`, written whether or not the flag before it is on. */
  function IdNum(id: Option<u64>): Value {
    Num(match id case None => 0 case Some(n) => n)
  }

  function ResponseValues(r: Response): seq<Value> {
    match r
    case FrameRead(requestId, remaining, source, available, id, f) =>
      [Num(requestId), Num(FRAME_READ_KIND), Num(remaining), Num(SourceWire(source)), FlagNum(available), IdNum(id),
       Chars(f.clientId), Chars(f.runId), Num(f.frameId), Num(f.captureTimestamp), Num(f.sendTimestamp),
       Num(f.queuedAt), Num(f.width), Num(f.height), Num(f.fpsNominal), FlagNum(f.isKeyframe), Num(H264_WIRE),
       Raw(f.encodedPayload)]
    case NoFrame(requestId, clientId, runId, mode, queueLen, reason, source, available, id) =>
      [Num(requestId), Num(NO_FRAME_KIND), Num(queueLen), Num(NoFrameWire(reason)), Num(SourceWire(source)),
       FlagNum(available), IdNum(id), Chars(clientId), Chars(runId), Num(ReadModeWire(mode))]
    case HandoffError(requestId, error) =>
      [Num(requestId), Num(ERROR_KIND), Num(ErrorWire(error))]
  }

  // ---------- back from values ----------

  /** `flag.then_some(id)`. */
  function IdIf(flag: Value, id: Value): Option<u64>
    requires Fits(Int(1), flag) && Fits(Int(8), id)
  {
    if flag.n != 0 then Some(AsU64(id)) else None
  }

  function RequestOf(vs: seq<Value>): Request
    requires FitAll(REQUEST_LAYOUT, vs)
  {
    assert Fits(REQUEST_LAYOUT[0], vs[0]) && Fits(REQUEST_LAYOUT[1], vs[1]) && Fits(REQUEST_LAYOUT[2], vs[2])
        && Fits(REQUEST_LAYOUT[3], vs[3]) && Fits(REQUEST_LAYOUT[4], vs[4]);
    Request(AsU32(vs[0]), AsU64(vs[1]), vs[2].text, vs[3].text, ReadModeFrom(vs[4].n))
  }

  lemma FrameReadHeadFits(vs: seq<Value>)
    requires FitAll(ResponseLayout(FRAME_READ_KIND), vs)
    ensures |vs| == 18
    ensures Fits(Int(8), vs[0]) && Fits(Int(1), vs[1]) && Fits(Int(4), vs[2]) && Fits(Code(SourceCode), vs[3])
    ensures Fits(Int(1), vs[4]) && Fits(Int(8), vs[5]) && Fits(Str, vs[6]) && Fits(Str, vs[7])
  {
    hide Fits;
  }

  lemma FrameReadTailFits(vs: seq<Value>)
    requires FitAll(ResponseLayout(FRAME_READ_KIND), vs)
    ensures |vs| == 18
    ensures Fits(Int(8), vs[8]) && Fits(Int(8), vs[9]) && Fits(Int(8), vs[10]) && Fits(Int(8), vs[11])
    ensures Fits(Int(4), vs[12]) && Fits(Int(4), vs[13]) && Fits(Int(4), vs[14]) && Fits(Int(1), vs[15])
    ensures Fits(Code(CodecCode), vs[16]) && Fits(Blob, vs[17])
  {
    hide Fits;
  }

  function FrameReadOf(vs: seq<Value>): Response
    requires FitAll(ResponseLayout(FRAME_READ_KIND), vs)
  {
    FrameReadHeadFits(vs);
    FrameReadTailFits(vs);
    hide FitAll, ResponseLayout, ValidUtf8;
    FrameRead(
      AsU64(vs[0]), AsU32(vs[2]), SourceFrom(vs[3].n), vs[4].n != 0, IdIf(vs[4], vs[5]),
      HandoffFrame(vs[6].text, vs[7].text, AsU64(vs[8]), AsU64(vs[9]), AsU64(vs[10]), AsU64(vs[11]),
                   AsU32(vs[12]), AsU32(vs[13]), AsU32(vs[14]), vs[15].n != 0, H264, |vs[17].bytes|, vs[17].bytes))
  }

  lemma NoFrameFits(vs: seq<Value>)
    requires FitAll(ResponseLayout(NO_FRAME_KIND), vs)
    ensures |vs| == 10
    ensures Fits(Int(8), vs[0]) && Fits(Int(1), vs[1]) && Fits(Int(4), vs[2]) && Fits(Code(NoFrameCode), vs[3])
    ensures Fits(Code(SourceCode), vs[4]) && Fits(Int(1), vs[5]) && Fits(Int(8), vs[6])
    ensures Fits(Str, vs[7]) && Fits(Str, vs[8]) && Fits(Code(ReadModeCode), vs[9])
  {
    hide Fits;
  }

  function NoFrameOf(vs: seq<Value>): Response
    requires FitAll(ResponseLayout(NO_FRAME_KIND), vs)
  {
    NoFrameFits(vs);
    hide FitAll, ResponseLayout, ValidUtf8;
    NoFrame(AsU64(vs[0]), vs[7].text, vs[8].text, ReadModeFrom(vs[9].n), AsU32(vs[2]), NoFrameFrom(vs[3].n),
            SourceFrom(vs[4].n), vs[5].n != 0, IdIf(vs[5], vs[6]))
  }

  function ErrorOf(vs: seq<Value>): Response
    requires FitAll(ResponseLayout(ERROR_KIND), vs)
  {
    assert Fits(ResponseLayout(ERROR_KIND)[0], vs[0]) && Fits(ResponseLayout(ERROR_KIND)[2], vs[2]);
    HandoffError(AsU64(vs[0]), ErrorFrom(vs[2].n))
  }

  function ResponseOf(kind: nat, vs: seq<Value>): Response
    requires FRAME_READ_KIND <= kind <= ERROR_KIND && FitAll(ResponseLayout(kind), vs)
  {
    if kind == FRAME_READ_KIND then FrameReadOf(vs) else if kind == NO_FRAME_KIND then NoFrameOf(vs) else ErrorOf(vs)
  }

  // ---------- frames ----------

  const LENGTH_PREFIX_LEN: nat := 4

  function FrameBody(body: seq<byte>): Result<seq<byte>, CodecError> {
    if |body| > U32_MAX then Err(BodyTooLong(|body|)) else Ok(ToLE(|body|, LENGTH_PREFIX_LEN) + body)
  }

  function UnframeBody(frame: seq<byte>): Result<seq<byte>, CodecError> {
    if |frame| < LENGTH_PREFIX_LEN then Err(FramePrefixTooShort(|frame|)) else
    var declared, actual := IntAt(frame, 0, LENGTH_PREFIX_LEN), |frame| - LENGTH_PREFIX_LEN;
    if actual < declared then Err(TruncatedFrame(declared, actual))
    else if actual > declared then Err(TrailingBytes(actual - declared))
    else Ok(frame[LENGTH_PREFIX_LEN..])
  }

  // ---------- decoding ----------

  /** The layouts used here have no tags, strict flags or reserved bytes, so only the first three cases arise. */
  function BodyError(fault: Fault, bodyLen: nat): CodecError {
    match fault
    case Short(at, need) => UnexpectedEof(need, if at <= bodyLen then bodyLen - at else 0)
    case BadCode(kind, code) =>
      (match kind
       case ReadModeCode => UnknownReadMode(code)
       case SourceCode => UnknownDecodableSource(code)
       case NoFrameCode => UnknownNoFrameReason(code)
       case HandoffErrorCode => UnknownHandoffErrorCode(code)
       case _ => UnknownCodec(code))
    case _ => InvalidUtf8
  }

  function ReadBody(fs: seq<Field>, body: seq<byte>): (r: Result<seq<Value>, CodecError>)
    ensures r.Ok? ==> FitAll(fs, r.value) && PrintAll(fs, r.value) == body
  {
    var r := ParseAll(fs, body);
    if r.result.Err? then Err(BodyError(r.result.error, |body|))
    else if r.next != |body| then Err(TrailingBytes(|body| - r.next))
    else
      Exact(fs, body);
      Ok(r.result.value)
  }

  function DecodeRequest(frame: seq<byte>): Result<Request, CodecError> {
    var body :- UnframeBody(frame);
    var vs :- ReadBody(REQUEST_LAYOUT, body);
    Ok(RequestOf(vs))
  }

  /** The head of a response body is nine bytes; the kind is the last of them. */
  lemma HeadParts(body: seq<byte>)
    ensures var head := ParseAll(RESPONSE_HEAD, body);
            if |body| >= 9 then head == Parsed(Ok([Num(IntAt(body, 0, 8)), Num(IntAt(body, 8, 1))]), 9)
            else if |body| == 8 then head == Parsed(Err(Short(8, 1)), 8)
            else head == Parsed(Err(Short(0, 8)), 0)
  {
    var none := ParseUpTo(RESPONSE_HEAD, 0, body);
    var first := ParseUpTo(RESPONSE_HEAD, 1, body);
    assert RESPONSE_HEAD[0] == Int(8) && RESPONSE_HEAD[1] == Int(1);
    if |body| >= 8 {
      assert ParseField(Int(8), body, none.next) == Parsed(Ok(Num(IntAt(body, 0, 8))), 8);
      assert first.result.value == [Num(IntAt(body, 0, 8))];
      if |body| >= 9 {
        assert ParseAll(RESPONSE_HEAD, body).result.value == [Num(IntAt(body, 0, 8)), Num(IntAt(body, 8, 1))];
      }
    }
  }

  /** The kind byte of a response body, once its head can be read. */
  function ResponseKind(body: seq<byte>): Result<nat, CodecError> {
    var head := ParseAll(RESPONSE_HEAD, body);
    if head.result.Err? then Err(BodyError(head.result.error, |body|)) else
    HeadParts(body);
    var kind := IntAt(body, 8, 1);
    if FRAME_READ_KIND <= kind <= ERROR_KIND then Ok(kind) else Err(UnknownResponseKind(kind))
  }

  function DecodeResponseBody(body: seq<byte>): Result<Response, CodecError> {
    var kind :- ResponseKind(body);
    var vs :- ReadBody(ResponseLayout(kind), body);
    Ok(ResponseOf(kind, vs))
  }

  function DecodeResponse(frame: seq<byte>): Result<Response, CodecError> {
    var body :- UnframeBody(frame);
    DecodeResponseBody(body)
  }

  // ---------- encoding ----------

  function StringFault(clientId: ClientId, runId: RunId): Option<CodecError> {
    if |clientId| > U16_MAX then Some(StringTooLong("client_id", |clientId|))
    else if |runId| > U16_MAX then Some(StringTooLong("run_id", |runId|))
    else None
  }

  function ResponseFault(r: Response): Option<CodecError> {
    match r
    case FrameRead(_, _, _, _, _, f) =>
      if f.encodedPayloadLen != |f.encodedPayload|
      then Some(PayloadLengthMismatch(f.encodedPayloadLen, |f.encodedPayload|))
      else StringFault(f.clientId, f.runId)
    case NoFrame(_, clientId, runId, _, _, _, _, _, _) => StringFault(clientId, runId)
    case HandoffError(_, _) => None
  }

  function EncodeRequest(r: Request): Result<seq<byte>, CodecError> {
    if StringFault(r.clientId, r.runId).Some? then Err(StringFault(r.clientId, r.runId).value) else
    RequestValuesFit(r);
    FrameBody(PrintAll(REQUEST_LAYOUT, RequestValues(r)))
  }

  function EncodeResponse(r: Response): Result<seq<byte>, CodecError> {
    if ResponseFault(r).Some? then Err(ResponseFault(r).value) else
    ResponseValuesFit(r);
    FrameBody(PrintAll(ResponseLayout(KindOf(r)), ResponseValues(r)))
  }

  lemma RequestValuesFit(r: Request)
    requires StringFault(r.clientId, r.runId).None?
    ensures FitAll(REQUEST_LAYOUT, RequestValues(r))
  {
    Pow256Values();
    hide ValidUtf8;
  }

  lemma {:induction false} FrameReadValuesFit(r: Response)
    requires r.FrameRead? && ResponseFault(r).None?
    ensures FitAll(ResponseLayout(FRAME_READ_KIND), ResponseValues(r))
  {
    Pow256Values();
    hide ValidUtf8;
  }

  lemma NoFrameValuesFit(r: Response)
    requires r.NoFrame? && ResponseFault(r).None?
    ensures FitAll(ResponseLayout(NO_FRAME_KIND), ResponseValues(r))
  {
    Pow256Values();
    hide ValidUtf8;
  }

  lemma {:induction false} ResponseValuesFit(r: Response)
    requires ResponseFault(r).None?
    ensures FitAll(ResponseLayout(KindOf(r)), ResponseValues(r))
  {
    Pow256Values();
    match r
    case FrameRead(_, _, _, _, _, _) => FrameReadValuesFit(r);
    case NoFrame(_, _, _, _, _, _, _, _, _) => NoFrameValuesFit(r);
    case HandoffError(_, _) =>
  }
}
