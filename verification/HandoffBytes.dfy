/** The handoff frames byte by byte, with every code, width and position as a numeral, and how others are refused. */
module HandoffBytes {
  import opened Bytes
  import opened Grammar
  import opened WireBytes
  import opened Handoff
  import opened HandoffTheorems

  function ModeByte(mode: ReadMode): seq<byte> {
    match mode
    case InspectOldest => [1]
    case InspectLatest => [2]
    case InspectLatestDecodable => [3]
    case DequeueOldest => [4]
  }

  function SourceByte(source: DecodableSource): seq<byte> {
    match source
    case NoSource => [0]
    case FromQueue => [1]
    case FromRetainedKeyframe => [2]
  }

  function ReasonByte(reason: NoFrameReason): seq<byte> {
    match reason
    case NoFramesQueuedForClient => [1]
    case NoFramesQueuedForRequestedRun => [2]
    case NoDecodableFrameAvailable => [3]
  }

  function ErrorByte(error: HandoffErrorKind): seq<byte> {
    match error
    case SourceUnavailable => [1]
    case RequestTimeout => [2]
    case InvalidScope => [3]
    case UnsupportedReadMode => [4]
    case MalformedResponse => [5]
    case SourceShutdown => [6]
  }

  function IdBytes(id: Option<u64>): seq<byte> {
    U64Bytes(match id case None => 0 case Some(n) => n)
  }

  /** The fields of a request body, in order. */
  function RequestFields(r: Request): seq<seq<byte>>
    requires |r.clientId| <= U16_MAX && |r.runId| <= U16_MAX
  {
    [U32Bytes(r.handoffVersion), U64Bytes(r.requestId), StringBytes(r.clientId), StringBytes(r.runId),
     ModeByte(r.readMode)]
  }

  predicate Sendable(r: Response) {
    match r
    case FrameRead(_, _, _, _, _, f) =>
      |f.clientId| <= U16_MAX && |f.runId| <= U16_MAX && f.encodedPayloadLen == |f.encodedPayload|
    case NoFrame(_, clientId, runId, _, _, _, _, _, _) => |clientId| <= U16_MAX && |runId| <= U16_MAX
    case HandoffError(_, _) => true
  }

  function HeadFields(r: Response): seq<seq<byte>>
    requires r.FrameRead?
  {
    [U64Bytes(r.requestId), [1], U32Bytes(r.remainingClientQueueLen), SourceByte(r.decodableSource),
     BoolBytes(r.retainedKeyframeAvailable), IdBytes(r.retainedKeyframeFrameId)]
  }

  function FrameFields(f: HandoffFrame): seq<seq<byte>>
    requires |f.clientId| <= U16_MAX && |f.runId| <= U16_MAX && |f.encodedPayload| <= U32_MAX
  {
    [StringBytes(f.clientId), StringBytes(f.runId), U64Bytes(f.frameId), U64Bytes(f.captureTimestamp),
     U64Bytes(f.sendTimestamp), U64Bytes(f.queuedAt), U32Bytes(f.width), U32Bytes(f.height), U32Bytes(f.fpsNominal),
     BoolBytes(f.isKeyframe), [1, 0], BlobBytes(f.encodedPayload)]
  }

  /** The fields of a response body, in order, the kind byte second. */
  function ResponseFields(r: Response): seq<seq<byte>>
    requires Sendable(r)
  {
    match r
    case FrameRead(_, _, _, _, _, f) => HeadFields(r) + FrameFields(f)
    case NoFrame(requestId, clientId, runId, mode, queueLen, reason, source, available, id) =>
      [U64Bytes(requestId), [2], U32Bytes(queueLen), ReasonByte(reason), SourceByte(source), BoolBytes(available),
       IdBytes(id), StringBytes(clientId), StringBytes(runId), ModeByte(mode)]
    case HandoffError(requestId, error) => [U64Bytes(requestId), [3], ErrorByte(error)]
  }

  /** A body behind its length. */
  function Framed(body: seq<byte>): seq<byte>
    requires |body| <= U32_MAX
  {
    var n := |body|;
    [n % 0x100, n / 0x100 % 0x100, n / 0x1_0000 % 0x100, n / 0x100_0000] + body
  }

  // ---------- printed fields are those bytes ----------

  lemma PrintedByte(kind: CodeKind, n: byte)
    requires KnownCode(kind, n) && CodeWidth(kind) == 1
    ensures PrintsAs(Code(kind), Num(n), [n])
  {
    ToLENumerals(0, 0, 0, n);
    hide ToLE;
  }

  lemma PrintedCodes(mode: ReadMode, source: DecodableSource, reason: NoFrameReason, error: HandoffErrorKind)
    ensures PrintsAs(Code(ReadModeCode), Num(ReadModeWire(mode)), ModeByte(mode))
    ensures PrintsAs(Code(SourceCode), Num(SourceWire(source)), SourceByte(source))
    ensures PrintsAs(Code(NoFrameCode), Num(NoFrameWire(reason)), ReasonByte(reason))
    ensures PrintsAs(Code(HandoffErrorCode), Num(ErrorWire(error)), ErrorByte(error))
  {
    PrintedByte(ReadModeCode, ReadModeWire(mode));
    PrintedByte(SourceCode, SourceWire(source));
    PrintedByte(NoFrameCode, NoFrameWire(reason));
    PrintedByte(HandoffErrorCode, ErrorWire(error));
    hide PrintsAs;
  }

  lemma PrintedFlag(on: bool)
    ensures PrintsAs(Int(1), FlagNum(on), BoolBytes(on))
  {
    PrintedNumbers(if on then 1 else 0, 0, 0);
    hide PrintsAs;
  }

  lemma PrintedId(id: Option<u64>)
    ensures PrintsAs(Int(8), IdNum(id), IdBytes(id))
  {
    PrintedNumbers(0, 0, match id case None => 0 case Some(n) => n);
    hide PrintsAs, U64Bytes;
  }

  lemma RequestPrints(r: Request)
    requires |r.clientId| <= U16_MAX && |r.runId| <= U16_MAX
    ensures FitAll(REQUEST_LAYOUT, RequestValues(r))
    ensures PrintAll(REQUEST_LAYOUT, RequestValues(r)) == Concat(RequestFields(r), 5)
  {
    PrintedNumbers(0, r.handoffVersion, r.requestId);
    PrintedString(r.clientId);
    PrintedString(r.runId);
    PrintedCodes(r.readMode, NoSource, NoFramesQueuedForClient, SourceUnavailable);
    hide PrintsAs, ValidUtf8, U32Bytes, U64Bytes, StringBytes, ModeByte, ReadModeWire;
    PrintsInParts(REQUEST_LAYOUT, RequestValues(r), RequestFields(r));
  }

  /** Every field of the response is printed as it should be. */
  ghost predicate AllPrintAs(r: Response)
    requires Sendable(r)
  {
    var fs, vs, parts := ResponseLayout(KindOf(r)), ResponseValues(r), ResponseFields(r);
    |fs| == |vs| == |parts| && forall i :: 0 <= i < |fs| ==> PrintsAs(fs[i], vs[i], parts[i])
  }

  lemma HeadPrints(r: Response)
    requires r.FrameRead?
    ensures var fs, vs, parts := ResponseLayout(FRAME_READ_KIND), ResponseValues(r), HeadFields(r);
            |fs| == |vs| == 18 && |parts| == 6 && forall i :: 0 <= i < 6 ==> PrintsAs(fs[i], vs[i], parts[i])
  {
    FrameReadFields();
    FrameReadHeadItems(r);
    PrintedNumbers(1, r.remainingClientQueueLen, r.requestId);
    PrintedCodes(InspectOldest, r.decodableSource, NoFramesQueuedForClient, SourceUnavailable);
    PrintedFlag(r.retainedKeyframeAvailable);
    PrintedId(r.retainedKeyframeFrameId);
    hide PrintsAs, ValidUtf8, U32Bytes, U64Bytes, SourceByte, SourceWire, BoolBytes, IdBytes, FlagNum, IdNum,
         ResponseLayout, ResponseValues;
  }

  lemma IdsAndTimesPrint(r: Response)
    requires r.FrameRead? && Sendable(r)
    ensures var fs, vs, parts := ResponseLayout(FRAME_READ_KIND), ResponseValues(r), FrameFields(r.frame);
            |fs| == |vs| == 18 && |parts| == 12 && forall i :: 0 <= i < 6 ==> PrintsAs(fs[i + 6], vs[i + 6], parts[i])
  {
    FrameReadFields();
    FrameReadHeadItems(r);
    FrameReadTailItems(r);
    PrintedString(r.frame.clientId);
    PrintedString(r.frame.runId);
    PrintedNumbers(0, 0, r.frame.frameId);
    PrintedNumbers(0, 0, r.frame.captureTimestamp);
    PrintedNumbers(0, 0, r.frame.sendTimestamp);
    PrintedNumbers(0, 0, r.frame.queuedAt);
    hide PrintsAs, ValidUtf8, U32Bytes, U64Bytes, StringBytes, BlobBytes, BoolBytes, ResponseLayout, ResponseValues;
  }

  lemma PictureFields(f: HandoffFrame)
    requires |f.clientId| <= U16_MAX && |f.runId| <= U16_MAX && |f.encodedPayload| <= U32_MAX
    ensures var parts := FrameFields(f);
            && |parts| == 12 && parts[6] == U32Bytes(f.width) && parts[7] == U32Bytes(f.height)
            && parts[8] == U32Bytes(f.fpsNominal) && parts[9] == BoolBytes(f.isKeyframe) && parts[10] == [1, 0]
            && parts[11] == BlobBytes(f.encodedPayload)
  {
    hide ValidUtf8, U32Bytes, U64Bytes, StringBytes, BlobBytes, BoolBytes;
  }

  lemma PicturePrints(r: Response)
    requires r.FrameRead? && Sendable(r)
    ensures var fs, vs, parts := ResponseLayout(FRAME_READ_KIND), ResponseValues(r), FrameFields(r.frame);
            |fs| == |vs| == 18 && |parts| == 12 && forall i :: 6 <= i < 12 ==> PrintsAs(fs[i + 6], vs[i + 6], parts[i])
  {
    FrameReadFields();
    FrameReadTailItems(r);
    PictureFields(r.frame);
    PrintedNumbers(0, r.frame.width, 0);
    PrintedNumbers(0, r.frame.height, 0);
    PrintedNumbers(0, r.frame.fpsNominal, 0);
    PrintedFlag(r.frame.isKeyframe);
    PrintedFixed(true);
    PrintedBlob(r.frame.encodedPayload);
    hide PrintsAs, ValidUtf8, U32Bytes, U64Bytes, StringBytes, BlobBytes, BoolBytes, FlagNum, ResponseLayout,
         ResponseValues, FrameFields;
  }

  lemma FrameReadPrints(r: Response)
    requires r.FrameRead? && Sendable(r)
    ensures AllPrintAs(r)
  {
    HeadPrints(r);
    IdsAndTimesPrint(r);
    PicturePrints(r);
    hide PrintsAs, ResponseLayout, ResponseValues, HeadFields, FrameFields, ValidUtf8;
    var fs, vs, parts := ResponseLayout(FRAME_READ_KIND), ResponseValues(r), ResponseFields(r);
    forall i | 0 <= i < 18
      ensures PrintsAs(fs[i], vs[i], parts[i])
    {
      if i >= 6 {
        assert PrintsAs(fs[i - 6 + 6], vs[i - 6 + 6], FrameFields(r.frame)[i - 6]);
      }
    }
  }

  lemma NoFramePrints(r: Response)
    requires r.NoFrame? && Sendable(r)
    ensures AllPrintAs(r)
  {
    NoFrameFields();
    NoFrameItems(r);
    PrintedNumbers(2, r.clientQueueLen, r.requestId);
    PrintedCodes(r.readMode, r.decodableSource, r.noFrameReason, SourceUnavailable);
    PrintedFlag(r.retainedKeyframeAvailable);
    PrintedId(r.retainedKeyframeFrameId);
    PrintedString(r.clientId);
    PrintedString(r.runId);
    hide PrintsAs, ValidUtf8, U32Bytes, U64Bytes, StringBytes, BoolBytes, IdBytes, FlagNum, IdNum, ModeByte,
         SourceByte, ReasonByte, ReadModeWire, SourceWire, NoFrameWire, ResponseLayout, ResponseValues;
  }

  lemma ErrorPrints(r: Response)
    requires r.HandoffError?
    ensures AllPrintAs(r)
  {
    PrintedNumbers(3, 0, r.requestId);
    PrintedCodes(InspectOldest, NoSource, NoFramesQueuedForClient, r.error);
    hide PrintsAs, U64Bytes, ErrorByte, ErrorWire;
  }

  // ---------- frames ----------

  lemma FramedOnTheWire(body: seq<byte>)
    requires |body| <= U32_MAX
    ensures FrameBody(body) == Ok(Framed(body))
  {
    ToLENumerals(0, |body|, 0, 0);
    hide ToLE;
  }

  /** A request is encoded as exactly these bytes, and understood from them. */
  lemma {:induction false} RequestOnTheWire(r: Request)
    requires |r.clientId| <= U16_MAX && |r.runId| <= U16_MAX
    ensures var body := Concat(RequestFields(r), 5);
            |body| <= U32_MAX && EncodeRequest(r) == Ok(Framed(body)) && DecodeRequest(Framed(body)) == Ok(r)
  {
    RequestPrints(r);
    RequestSize(r);
    FramedOnTheWire(Concat(RequestFields(r), 5));
    hide FrameBody, Framed, PrintAll, FitAll, RequestFields, RequestValues, Concat;
    assert EncodeRequest(r) == Ok(Framed(Concat(RequestFields(r), 5)));
    RequestRoundTrip(r);
  }

  lemma RequestSize(r: Request)
    requires FitAll(REQUEST_LAYOUT, RequestValues(r))
    ensures |PrintAll(REQUEST_LAYOUT, RequestValues(r))| == 17 + |r.clientId| + |r.runId|
  {
    var fs, vs := REQUEST_LAYOUT, RequestValues(r);
    hide Print, Fits, PrintUpTo, FitAll, ValidUtf8;
    assert SizeUpTo(fs, vs, 2) == 12;
    assert SizeUpTo(fs, vs, 5) == 12 + (2 + |r.clientId|) + (2 + |r.runId|) + 1;
  }

  lemma {:induction false} EveryFieldPrints(r: Response)
    requires Sendable(r)
    ensures AllPrintAs(r)
  {
    hide AllPrintAs, Sendable;
    match r
    case FrameRead(_, _, _, _, _, _) => FrameReadPrints(r);
    case NoFrame(_, _, _, _, _, _, _, _, _) => NoFramePrints(r);
    case HandoffError(_, _) => ErrorPrints(r);
  }

  lemma SendableIff(r: Response)
    ensures Sendable(r) <==> ResponseFault(r).None?
  {
    hide ValidUtf8;
  }

  /** A response is encoded exactly when it is sendable and its body fits, and then as exactly these bytes. */
  lemma {:induction false} ResponseOnTheWire(r: Response)
    ensures EncodeResponse(r).Ok? <==> Sendable(r) && BodySize(r) <= U32_MAX
    ensures EncodeResponse(r).Ok? ==>
              var body := Concat(ResponseFields(r), |ResponseFields(r)|);
              |body| <= U32_MAX && EncodeResponse(r) == Ok(Framed(body))
              && DecodeResponse(Framed(body)) == Ok(NormalResponse(r))
  {
    EncodedIff(r);
    SendableIff(r);
    if EncodeResponse(r).Ok? {
      EveryFieldPrints(r);
      PrintsInParts(ResponseLayout(KindOf(r)), ResponseValues(r), ResponseFields(r));
      ResponseRoundTrip(r);
      ResponseBodyFits(r);
      FramedOnTheWire(Concat(ResponseFields(r), |ResponseFields(r)|));
    }
    hide FrameBody, Framed, PrintAll, FitAll, ResponseFields, ResponseValues, Concat, Sendable, ResponseFault, BodySize,
         ResponseLayout, NormalResponse, DecodeResponse, PrintsAs;
  }

  lemma ResponseBodyFits(r: Response)
    requires EncodeResponse(r).Ok?
    ensures ResponseFault(r).None? && FitAll(ResponseLayout(KindOf(r)), ResponseValues(r))
    ensures |PrintAll(ResponseLayout(KindOf(r)), ResponseValues(r))| <= U32_MAX
  {
    ResponseValuesFit(r);
    hide ResponseFault, ResponseLayout, ResponseValues, PrintAll, FitAll;
  }

  // ---------- what is refused ----------

  /** The checks on the frame around a body, in order, on the bytes themselves. */
  lemma FrameRefused(frame: seq<byte>)
    ensures |frame| < 4 ==> UnframeBody(frame) == Err(FramePrefixTooShort(|frame|))
    ensures |frame| >= 4 ==>
              var declared, actual := U32From(frame[0], frame[1], frame[2], frame[3]), |frame| - 4;
              && (actual < declared ==> UnframeBody(frame) == Err(TruncatedFrame(declared, actual)))
              && (actual > declared ==> UnframeBody(frame) == Err(TrailingBytes(actual - declared)))
              && (actual == declared ==> UnframeBody(frame) == Ok(frame[4..]))
    ensures UnframeBody(frame).Err? ==>
              && DecodeRequest(frame) == Err(UnframeBody(frame).error)
              && DecodeResponse(frame) == Err(UnframeBody(frame).error)
  {
    if |frame| >= 4 {
      FromLENumerals(frame[0..4]);
    }
    hide FromLE;
  }

  /** The error a malformed field is refused with. */
  ghost predicate RefusedAs(f: Field, bad: seq<byte>, e: CodecError) {
    match f
    case Str => e == InvalidUtf8
    case Code(kind) =>
      |bad| >= 1 &&
      (match kind
       case ReadModeCode => (bad[0] == 0 || bad[0] > 4) && e == UnknownReadMode(bad[0])
       case SourceCode => bad[0] > 2 && e == UnknownDecodableSource(bad[0])
       case NoFrameCode => (bad[0] == 0 || bad[0] > 3) && e == UnknownNoFrameReason(bad[0])
       case HandoffErrorCode => (bad[0] == 0 || bad[0] > 6) && e == UnknownHandoffErrorCode(bad[0])
       case CodecCode => |bad| >= 2 && U16From(bad[0], bad[1]) != 1 && e == UnknownCodec(U16From(bad[0], bad[1]))
       case _ => false)
    case _ => false
  }

  lemma MalformedIsNamed(f: Field, bad: seq<byte>, fault: Fault, bodyLen: nat)
    requires Malformed(f, bad, fault) && (f.Str? || (f.Code? && f.kind !in {ReasonCode, NoticeCode}))
    ensures RefusedAs(f, bad, BodyError(fault, bodyLen))
  {
    if f.Code? {
      FromLENumerals(bad[..CodeWidth(f.kind)]);
    }
    hide FromLE, ValidUtf8;
  }

  /** A malformed field of a request is refused under its own name, whatever precedes and follows it. */
  lemma {:induction false} RequestMalformed(vs: seq<Value>, k: nat, bad: seq<byte>, fault: Fault)
    requires FitAll(REQUEST_LAYOUT, vs) && k < |REQUEST_LAYOUT| && Malformed(REQUEST_LAYOUT[k], bad, fault)
    requires |PrintUpTo(REQUEST_LAYOUT, vs, k) + bad| <= U32_MAX
    ensures var r := DecodeRequest(Framed(PrintUpTo(REQUEST_LAYOUT, vs, k) + bad));
            r.Err? && RefusedAs(REQUEST_LAYOUT[k], bad, r.error)
  {
    var body := PrintUpTo(REQUEST_LAYOUT, vs, k) + bad;
    FramedOnTheWire(body);
    FramedBody(body);
    FirstMalformed(REQUEST_LAYOUT, vs, k, bad, fault);
    MalformedIsNamed(REQUEST_LAYOUT[k], bad, fault, |body|);
    hide FitAll, PrintUpTo, ParseAll, RefusedAs, Malformed, BodyError, FrameBody, Framed, UnframeBody;
  }

  /** An unknown kind byte is refused as such, whatever else the body holds. */
  lemma UnknownKind(body: seq<byte>)
    requires |body| >= 9 && (body[8] == 0 || body[8] > 3)
    ensures DecodeResponseBody(body) == Err(UnknownResponseKind(body[8]))
  {
    HeadParts(body);
    FromLENumerals(body[8..9]);
    hide ParseAll, FromLE;
  }

  lemma {:induction false} KindOfPrefix(kind: nat, vs: seq<Value>, k: nat, body: seq<byte>)
    requires FRAME_READ_KIND <= kind <= ERROR_KIND && FitAll(ResponseLayout(kind), vs)
    requires |vs| == |ResponseLayout(kind)| && 2 <= k <= |vs| && vs[1] == Num(kind)
    requires PrintUpTo(ResponseLayout(kind), vs, k) <= body
    ensures ResponseKind(body) == Ok(kind)
  {
    hide ResponseLayout, FitAll, PrintUpTo, ParseField;
    PrintThenParseUpTo(ResponseLayout(kind), vs, k, body);
    ReadsOn(ResponseLayout(kind), 2, k, body);
    HeadFirst(kind, 2, body);
    HeadParts(body);
    var head := ParseUpTo(RESPONSE_HEAD, 2, body).result.value;
    assert head == vs[..k][..2];
    assert head[1] == vs[1];
  }

  /** A malformed field of a response is refused under its own name, whatever precedes and follows it. */
  lemma {:induction false} ResponseMalformed(kind: nat, vs: seq<Value>, k: nat, bad: seq<byte>, fault: Fault)
    requires FRAME_READ_KIND <= kind <= ERROR_KIND && FitAll(ResponseLayout(kind), vs)
    requires |vs| == |ResponseLayout(kind)| && 2 <= k < |vs| && vs[1] == Num(kind)
    requires Malformed(ResponseLayout(kind)[k], bad, fault)
    ensures var r := DecodeResponseBody(PrintUpTo(ResponseLayout(kind), vs, k) + bad);
            r.Err? && RefusedAs(ResponseLayout(kind)[k], bad, r.error)
  {
    var fs := ResponseLayout(kind);
    var body := PrintUpTo(fs, vs, k) + bad;
    KindOfPrefix(kind, vs, k, body);
    FirstMalformed(fs, vs, k, bad, fault);
    OnlyThese(kind, k, bad, fault);
    MalformedIsNamed(fs[k], bad, fault, |body|);
    hide ResponseLayout, FitAll, PrintUpTo, ParseAll, RefusedAs, Malformed, BodyError, ResponseKind, ResponseOf;
  }

  lemma OnlyThese(kind: nat, k: nat, bad: seq<byte>, fault: Fault)
    requires FRAME_READ_KIND <= kind <= ERROR_KIND && k < |ResponseLayout(kind)|
    requires Malformed(ResponseLayout(kind)[k], bad, fault)
    ensures var f := ResponseLayout(kind)[k]; f.Str? || (f.Code? && f.kind !in {ReasonCode, NoticeCode})
  {
    hide FromLE, ValidUtf8, KnownCode;
  }
}
