/**
The handoff codec as it runs: a cursor that moves over a frame body, and encoders that grow one. Each is proved
to compute exactly what `Handoff` says.
*/
module HandoffCodec {
  import opened Bytes
  import opened Grammar
  import opened Protocol
  import opened Wire
  import opened WireTheorems
  import opened ByteWriting
  import opened Handoff
  import opened HandoffTheorems

  /** If `input` can be read as `plan` at all, `v` is its value at position `i`. */
  ghost predicate Supplied(plan: seq<Field>, input: seq<byte>, i: nat, v: Value) {
    var whole := ReadBody(plan, input);
    whole.Ok? ==> i < |whole.value| && whole.value[i] == v
  }

  /** The first `pos` fields of `plan` are read and the cursor is at `offset`. */
  ghost predicate StandsAt(plan: seq<Field>, input: seq<byte>, pos: nat, offset: nat) {
    pos <= |plan| && ParseUpTo(plan, pos, input).result.Ok? && ParseUpTo(plan, pos, input).next == offset
  }

  /**
   * A cursor over one frame body. The ghost `plan` is the layout being read and `pos` the number of its fields
   * read so far; a failing read decides the outcome of the whole plan.
   */
  function NumResult(r: Result<nat, CodecError>): Result<Value, CodecError> {
    if r.Ok? then Ok(Num(r.value)) else Err(r.error)
  }

  class BodyReader {
    const input: seq<byte>
    var offset: nat
    ghost var plan: seq<Field>
    ghost var pos: nat

    ghost predicate OnPlan()
      reads this
    {
      offset <= |input| && StandsAt(plan, input, pos, offset)
    }

    ghost predicate At(f: Field)
      reads this
    {
      pos < |plan| && plan[pos] == f
    }

    /** The next field of the plan was read with result `r`. */
    twostate predicate Followed(new r: Result<Value, CodecError>)
      reads this
    {
      && plan == old(plan)
      && if r.Ok?
         then OnPlan() && pos == old(pos) + 1 && Supplied(plan, input, old(pos), r.value)
         else ReadBody(plan, input) == Err(r.error)
    }

    constructor (input: seq<byte>, ghost plan: seq<Field>)
      ensures this.input == input && this.plan == plan
      ensures offset == 0 && OnPlan() && pos == 0
    {
      this.input := input;
      this.plan := plan;
      offset := 0;
      pos := 0;
    }

    /** From here on the fields to come are those of another layout that starts the same way. */
    ghost method Continue(plan: seq<Field>)
      requires OnPlan() && pos <= |plan| && ParseUpTo(plan, pos, input) == ParseUpTo(this.plan, pos, input)
      modifies this`plan
      ensures this.plan == plan && OnPlan()
    {
      this.plan := plan;
    }

    /** What reading `f` next means for the plan, before it is done. */
    lemma Ahead(f: Field)
      requires OnPlan() && At(f)
      ensures var s := ParseField(f, input, offset);
              if s.result.Ok?
              then StandsAt(plan, input, pos + 1, s.next) && Supplied(plan, input, pos, s.result.value)
              else ReadBody(plan, input) == Err(BodyError(s.result.error, |input|))
    {
      NextRead(plan, pos, input);
    }

    /** The same for an integer. */
    lemma IntAhead(width: nat)
      requires OnPlan() && At(Int(width))
      ensures offset + width > |input| ==> ReadBody(plan, input) == Err(UnexpectedEof(width, |input| - offset))
      ensures offset + width <= |input| ==>
                (var n := FromLE(input[offset..offset + width]);
                 && n == IntAt(input, offset, width) < Pow256(width)
                 && StandsAt(plan, input, pos + 1, offset + width) && Supplied(plan, input, pos, Num(n)))
    {
      Ahead(Int(width));
      IntField(input, offset, width);
      hide ParseField, IntAt, StandsAt, Supplied, ReadBody, ToLE, FromLE, Pow256, KnownCode, ValidUtf8;
    }

    method ReadExact(len: nat) returns (r: Result<seq<byte>, CodecError>)
      requires offset <= |input|
      modifies this`offset
      ensures offset <= |input|
      ensures old(offset) + len <= |input| ==> offset == old(offset) + len && r == Ok(input[old(offset)..offset])
      ensures old(offset) + len > |input| ==> offset == old(offset) && r == Err(UnexpectedEof(len, |input| - offset))
    {
      var remaining := |input| - offset;
      if remaining < len {
        return Err(UnexpectedEof(len, remaining));
      }
      var start := offset;
      offset := start + len;
      return Ok(input[start..offset]);
    }

    /** The bytes of an integer, and the integer. */
    method TakeInt(width: nat) returns (r: Result<nat, CodecError>)
      requires offset <= |input|
      modifies this`offset
      ensures offset <= |input|
      ensures old(offset) + width <= |input| ==>
                offset == old(offset) + width && r == Ok(FromLE(input[old(offset)..old(offset) + width]))
      ensures old(offset) + width > |input| ==>
                offset == old(offset) && r == Err(UnexpectedEof(width, |input| - offset))
    {
      hide FromLE;
      var bytes :- ReadExact(width);
      return Ok(FromLE(bytes));
    }

    /** `read_u8`, `read_u16`, `read_u32` and `read_u64`, by width. */
    method ReadInt(width: nat) returns (r: Result<nat, CodecError>)
      requires OnPlan() && At(Int(width))
      modifies this
      ensures Followed(NumResult(r))
      ensures r.Ok? ==>
                r.value < Pow256(width) && old(offset) + width <= |input| && r.value == IntAt(input, old(offset), width)
      ensures r.Err? ==> old(offset) + width > |input| && r.error == UnexpectedEof(width, |input| - old(offset))
    {
      IntAhead(width);
      hide IntAt, StandsAt, Supplied, ReadBody, FromLE, Pow256;
      r := TakeInt(width);
      if r.Ok? {
        pos := pos + 1;
      }
    }

    /** A wire code of the kind's width and its conversion to an enumeration. */
    method ReadCode(kind: CodeKind) returns (r: Result<nat, CodecError>)
      requires OnPlan() && At(Code(kind))
      modifies this
      ensures Followed(NumResult(r))
      ensures r.Ok? ==> KnownCode(kind, r.value)
    {
      Ahead(Code(kind));
      hide StandsAt, Supplied, ReadBody, FromLE, KnownCode, ValidUtf8;
      var bytes :- ReadExact(CodeWidth(kind));
      var code := FromLE(bytes);
      if !KnownCode(kind, code) {
        return Err(BodyError(BadCode(kind, code), |input|));
      }
      pos := pos + 1;
      return Ok(code);
    }

    /** A length of `width` bytes and `read_exact` of that many. */
    method ReadSized(width: nat) returns (r: Result<seq<byte>, CodecError>)
      requires offset <= |input|
      modifies this`offset
      ensures offset <= |input|
      ensures var s := ParseSized(input, old(offset), width);
              offset == s.next
              && r == if s.result.Ok? then Ok(s.result.value) else Err(BodyError(s.result.error, |input|))
      ensures r.Ok? ==> |r.value| < Pow256(width)
    {
      hide FromLE, Pow256, ToLE;
      var prefix :- ReadExact(width);
      IntBound(input, old(offset), width);
      var bytes :- ReadExact(FromLE(prefix));
      return Ok(bytes);
    }

    method ReadString() returns (r: Result<Text, CodecError>)
      requires OnPlan() && At(Str)
      modifies this
      ensures Followed(if r.Ok? then Ok(Chars(r.value)) else Err(r.error))
    {
      Ahead(Str);
      hide StandsAt, Supplied, ReadBody, ValidUtf8, ParseSized;
      var bytes :- ReadSized(2);
      if !ValidUtf8(bytes) {
        return Err(CodecError.InvalidUtf8);
      }
      pos := pos + 1;
      return Ok(bytes);
    }

    /** `read_u32` followed by `read_bytes` of that length. */
    method ReadBlob() returns (r: Result<seq<byte>, CodecError>)
      requires OnPlan() && At(Blob)
      modifies this
      ensures Followed(if r.Ok? then Ok(Raw(r.value)) else Err(r.error))
      ensures r.Ok? ==> |r.value| <= U32_MAX
    {
      Ahead(Blob);
      Pow256Values();
      hide StandsAt, Supplied, ReadBody, ValidUtf8, ParseSized, Pow256;
      var bytes :- ReadSized(4);
      pos := pos + 1;
      return Ok(bytes);
    }

    method EnsureConsumed() returns (r: Result<(), CodecError>)
      requires OnPlan() && pos == |plan|
      ensures r.Err? ==> ReadBody(plan, input) == Err(r.error)
      ensures r.Ok? ==> ReadBody(plan, input).Ok?
    {
      return if offset == |input| then Ok(()) else Err(TrailingBytes(|input| - offset));
    }
  }

  lemma IntField(p: seq<byte>, o: nat, width: nat)
    requires o <= |p|
    ensures o + width > |p| ==> ParseField(Int(width), p, o) == Parsed(Err(Short(o, width)), o)
    ensures o + width <= |p| ==>
              && ParseField(Int(width), p, o) == Parsed(Ok(Num(FromLE(p[o..o + width]))), o + width)
              && FromLE(p[o..o + width]) == IntAt(p, o, width) < Pow256(width)
  {
    if o + width <= |p| {
      IntBound(p, o, width);
    }
    hide FromLE, Pow256;
  }

  // ---------- requests ----------

  /** The values read, one by one, are the whole request. */
  lemma RequestReads(vs: seq<Value>, version: u32, id: u64, clientId: ClientId, runId: RunId, mode: nat)
    requires FitAll(REQUEST_LAYOUT, vs) && KnownCode(ReadModeCode, mode)
    requires |vs| > 4 && vs[0] == Num(version) && vs[1] == Num(id) && vs[2] == Chars(clientId) && vs[3] == Chars(runId)
    requires vs[4] == Num(mode)
    ensures RequestOf(vs) == Request(version, id, clientId, runId, ReadModeFrom(mode))
  {
  }

  method DecodeRequestFrame(frame: seq<byte>) returns (r: Result<Request, CodecError>)
    ensures r == DecodeRequest(frame)
  {
    hide ReadBody, RequestOf, FitAll, PrintAll, ParseUpTo, UnframeBody, ValidUtf8, Pow256, BodyReader.OnPlan;
    Pow256Values();
    var body :- UnframeBody(frame);
    var reader := new BodyReader(body, REQUEST_LAYOUT);
    var handoffVersion :- reader.ReadInt(4);
    var requestId :- reader.ReadInt(8);
    var clientId :- reader.ReadString();
    var runId :- reader.ReadString();
    var readMode :- reader.ReadCode(ReadModeCode);
    var _ :- reader.EnsureConsumed();
    RequestReads(ReadBody(REQUEST_LAYOUT, body).value, handoffVersion, requestId, clientId, runId, readMode);
    return Ok(Request(handoffVersion, requestId, clientId, runId, ReadModeFrom(readMode)));
  }

  // ---------- responses ----------

  /** Consecutive u32 fields of a plan. */
  method ReadThreeU32(reader: BodyReader) returns (r: Result<(u32, u32, u32), CodecError>)
    requires reader.OnPlan() && reader.pos + 3 <= |reader.plan|
    requires forall i :: reader.pos <= i < reader.pos + 3 ==> reader.plan[i] == Int(4)
    modifies reader
    ensures reader.plan == old(reader.plan)
    ensures r.Err? ==> ReadBody(reader.plan, reader.input) == Err(r.error)
    ensures r.Ok? ==>
              && reader.OnPlan() && reader.pos == old(reader.pos) + 3
              && Supplied(reader.plan, reader.input, old(reader.pos), Num(r.value.0))
              && Supplied(reader.plan, reader.input, old(reader.pos) + 1, Num(r.value.1))
              && Supplied(reader.plan, reader.input, old(reader.pos) + 2, Num(r.value.2))
  {
    hide ReadBody, Pow256, BodyReader.OnPlan;
    Pow256Values();
    var a :- reader.ReadInt(4);
    var b :- reader.ReadInt(4);
    var c :- reader.ReadInt(4);
    return Ok((a, b, c));
  }

  /** Consecutive u64 fields of a plan. */
  method ReadFourU64(reader: BodyReader) returns (r: Result<(u64, u64, u64, u64), CodecError>)
    requires reader.OnPlan() && reader.pos + 4 <= |reader.plan|
    requires forall i :: reader.pos <= i < reader.pos + 4 ==> reader.plan[i] == Int(8)
    modifies reader
    ensures reader.plan == old(reader.plan)
    ensures r.Err? ==> ReadBody(reader.plan, reader.input) == Err(r.error)
    ensures r.Ok? ==>
              && reader.OnPlan() && reader.pos == old(reader.pos) + 4
              && Supplied(reader.plan, reader.input, old(reader.pos), Num(r.value.0))
              && Supplied(reader.plan, reader.input, old(reader.pos) + 1, Num(r.value.1))
              && Supplied(reader.plan, reader.input, old(reader.pos) + 2, Num(r.value.2))
              && Supplied(reader.plan, reader.input, old(reader.pos) + 3, Num(r.value.3))
  {
    hide ReadBody, Pow256, BodyReader.OnPlan;
    Pow256Values();
    var a :- reader.ReadInt(8);
    var b :- reader.ReadInt(8);
    var c :- reader.ReadInt(8);
    var d :- reader.ReadInt(8);
    return Ok((a, b, c, d));
  }

  /** The frame a list of values of a `FrameRead` body carries. */
  predicate CarriesFrame(vs: seq<Value>, f: HandoffFrame) {
    && |vs| == 18 && vs[6] == Chars(f.clientId) && vs[7] == Chars(f.runId) && vs[8] == Num(f.frameId)
    && vs[9] == Num(f.captureTimestamp) && vs[10] == Num(f.sendTimestamp) && vs[11] == Num(f.queuedAt)
    && vs[12] == Num(f.width) && vs[13] == Num(f.height) && vs[14] == Num(f.fpsNominal)
    && vs[15].Num? && f.isKeyframe == (vs[15].n != 0)
    && vs[17] == Raw(f.encodedPayload) && f.encodedPayloadLen == |f.encodedPayload|
  }

  ghost predicate SuppliedFrame(input: seq<byte>, f: HandoffFrame) {
    var whole := ReadBody(ResponseLayout(FRAME_READ_KIND), input);
    whole.Ok? ==> CarriesFrame(whole.value, f)
  }

  lemma SuppliesFrame(input: seq<byte>, keyframe: nat, f: HandoffFrame)
    requires var plan := ResponseLayout(FRAME_READ_KIND);
             && Supplied(plan, input, 6, Chars(f.clientId)) && Supplied(plan, input, 7, Chars(f.runId))
             && Supplied(plan, input, 8, Num(f.frameId)) && Supplied(plan, input, 9, Num(f.captureTimestamp))
             && Supplied(plan, input, 10, Num(f.sendTimestamp)) && Supplied(plan, input, 11, Num(f.queuedAt))
             && Supplied(plan, input, 12, Num(f.width)) && Supplied(plan, input, 13, Num(f.height))
             && Supplied(plan, input, 14, Num(f.fpsNominal)) && Supplied(plan, input, 15, Num(keyframe))
             && Supplied(plan, input, 17, Raw(f.encodedPayload))
    requires f.isKeyframe == (keyframe != 0) && f.encodedPayloadLen == |f.encodedPayload|
    ensures SuppliedFrame(input, f)
  {
    LayoutSizes();
    hide ParseAll, PrintAll, Fits, ResponseLayout, ValidUtf8;
  }

  lemma FrameReadReads(vs: seq<Value>, requestId: u64, remaining: u32, source: nat, available: byte, id: u64,
                       f: HandoffFrame)
    requires FitAll(ResponseLayout(FRAME_READ_KIND), vs) && KnownCode(SourceCode, source)
    requires CarriesFrame(vs, f) && vs[0] == Num(requestId) && vs[2] == Num(remaining) && vs[3] == Num(source)
    requires vs[4] == Num(available) && vs[5] == Num(id)
    ensures FrameReadOf(vs)
         == FrameRead(requestId, remaining, SourceFrom(source), available != 0,
                      if available != 0 then Some(id) else None, f)
  {
    FrameReadHeadFits(vs);
    FrameReadTailFits(vs);
    hide FitAll, ResponseLayout, ValidUtf8, Fits;
  }

  lemma NoFrameReads(vs: seq<Value>, requestId: u64, len: u32, reason: nat, source: nat, available: byte, id: u64,
                     clientId: ClientId, runId: RunId, mode: nat)
    requires FitAll(ResponseLayout(NO_FRAME_KIND), vs) && |vs| == 10
    requires KnownCode(NoFrameCode, reason) && KnownCode(SourceCode, source) && KnownCode(ReadModeCode, mode)
    requires vs[0] == Num(requestId) && vs[2] == Num(len) && vs[3] == Num(reason) && vs[4] == Num(source)
    requires vs[5] == Num(available) && vs[6] == Num(id) && vs[7] == Chars(clientId) && vs[8] == Chars(runId)
    requires vs[9] == Num(mode)
    ensures NoFrameOf(vs)
         == NoFrame(requestId, clientId, runId, ReadModeFrom(mode), len, NoFrameFrom(reason), SourceFrom(source),
                    available != 0, if available != 0 then Some(id) else None)
  {
    NoFrameFits(vs);
    hide FitAll, ResponseLayout, ValidUtf8, Fits;
  }

  /** The frame inside a `FrameRead` body, from `client_id` to the end of the payload. */
  method DecodeFrame(reader: BodyReader) returns (r: Result<HandoffFrame, CodecError>)
    requires reader.OnPlan() && reader.plan == ResponseLayout(FRAME_READ_KIND) && reader.pos == 6
    modifies reader
    ensures reader.plan == old(reader.plan)
    ensures r.Err? ==> ReadBody(reader.plan, reader.input) == Err(r.error)
    ensures r.Ok? ==> reader.OnPlan() && reader.pos == 18
    ensures r.Ok? ==> SuppliedFrame(reader.input, r.value)
  {
    FrameReadFields();
    Pow256Values();
    hide ReadBody, Supplied, Pow256, BodyReader.OnPlan, ResponseLayout, ValidUtf8;
    var clientId :- reader.ReadString();
    var runId :- reader.ReadString();
    var times :- ReadFourU64(reader);
    var sizes :- ReadThreeU32(reader);
    var isKeyframe :- reader.ReadInt(1);
    var codec :- reader.ReadCode(CodecCode);
    var encodedPayload :- reader.ReadBlob();
    var frame := HandoffFrame(clientId, runId, times.0, times.1, times.2, times.3, sizes.0, sizes.1, sizes.2,
                              isKeyframe != 0, H264, |encodedPayload|, encodedPayload);
    SuppliesFrame(reader.input, isKeyframe, frame);
    return Ok(frame);
  }

  /** What a decoder of the rest of a response body answers, once the head has named the kind. */
  ghost predicate Answers(kind: nat, body: seq<byte>, r: Result<Response, CodecError>)
    requires FRAME_READ_KIND <= kind <= ERROR_KIND
  {
    var whole := ReadBody(ResponseLayout(kind), body);
    r == if whole.Ok? then Ok(ResponseOf(kind, whole.value)) else Err(whole.error)
  }

  lemma {:induction false} AnswersFrameRead(body: seq<byte>, requestId: u64, remaining: u32, source: nat,
                                            available: byte, id: u64, f: HandoffFrame)
    requires var plan := ResponseLayout(FRAME_READ_KIND);
             && ReadBody(plan, body).Ok? && KnownCode(SourceCode, source) && SuppliedFrame(body, f)
             && Supplied(plan, body, 0, Num(requestId)) && Supplied(plan, body, 2, Num(remaining))
             && Supplied(plan, body, 3, Num(source)) && Supplied(plan, body, 4, Num(available))
             && Supplied(plan, body, 5, Num(id))
    ensures Answers(FRAME_READ_KIND, body,
                    Ok(FrameRead(requestId, remaining, SourceFrom(source), available != 0,
                                 if available != 0 then Some(id) else None, f)))
  {
    hide ParseAll, PrintAll, Fits, ResponseLayout, ValidUtf8, FrameReadOf;
    FrameReadReads(ReadBody(ResponseLayout(FRAME_READ_KIND), body).value, requestId, remaining, source, available, id,
                   f);
  }

  lemma AnswersNoFrame(body: seq<byte>, requestId: u64, len: u32, reason: nat, source: nat, available: byte, id: u64,
                       clientId: ClientId, runId: RunId, mode: nat)
    requires var plan := ResponseLayout(NO_FRAME_KIND);
             && ReadBody(plan, body).Ok?
             && KnownCode(NoFrameCode, reason) && KnownCode(SourceCode, source) && KnownCode(ReadModeCode, mode)
             && Supplied(plan, body, 0, Num(requestId)) && Supplied(plan, body, 2, Num(len))
             && Supplied(plan, body, 3, Num(reason)) && Supplied(plan, body, 4, Num(source))
             && Supplied(plan, body, 5, Num(available)) && Supplied(plan, body, 6, Num(id))
             && Supplied(plan, body, 7, Chars(clientId)) && Supplied(plan, body, 8, Chars(runId))
             && Supplied(plan, body, 9, Num(mode))
    ensures Answers(NO_FRAME_KIND, body,
                    Ok(NoFrame(requestId, clientId, runId, ReadModeFrom(mode), len, NoFrameFrom(reason),
                               SourceFrom(source),
                               available != 0, if available != 0 then Some(id) else None)))
  {
    LayoutSizes();
    hide ParseAll, PrintAll, Fits, ResponseLayout, ValidUtf8, NoFrameOf;
    NoFrameReads(ReadBody(ResponseLayout(NO_FRAME_KIND), body).value, requestId, len, reason, source, available, id,
                 clientId, runId, mode);
  }

  lemma AnswersError(body: seq<byte>, requestId: u64, error: nat)
    requires var plan := ResponseLayout(ERROR_KIND);
             && ReadBody(plan, body).Ok? && KnownCode(HandoffErrorCode, error)
             && Supplied(plan, body, 0, Num(requestId)) && Supplied(plan, body, 2, Num(error))
    ensures Answers(ERROR_KIND, body, Ok(HandoffError(requestId, ErrorFrom(error))))
  {
    hide ParseAll, PrintAll, Fits, KnownCode;
  }

  /** The three arms of the match on the kind byte. */
  method DecodeFrameRead(reader: BodyReader, requestId: u64) returns (r: Result<Response, CodecError>)
    requires reader.OnPlan() && reader.plan == ResponseLayout(FRAME_READ_KIND) && reader.pos == 2
    requires Supplied(reader.plan, reader.input, 0, Num(requestId))
    modifies reader
    ensures reader.plan == old(reader.plan)
    ensures r.Err? ==> ReadBody(reader.plan, reader.input) == Err(r.error)
    ensures r.Ok? ==> reader.OnPlan() && reader.pos == 18
    ensures r.Ok? && ReadBody(reader.plan, reader.input).Ok? ==> Answers(FRAME_READ_KIND, reader.input, r)
  {
    FrameReadFields();
    Pow256Values();
    hide ReadBody, Supplied, Pow256, BodyReader.OnPlan, ResponseLayout, ValidUtf8, KnownCode, Answers, SuppliedFrame,
         ResponseOf;
    var remaining :- reader.ReadInt(4);
    var source :- reader.ReadCode(SourceCode);
    var available :- reader.ReadInt(1);
    var id :- reader.ReadInt(8);
    var frame :- DecodeFrame(reader);
    if ReadBody(reader.plan, reader.input).Ok? {
      AnswersFrameRead(reader.input, requestId, remaining, source, available, id, frame);
    }
    return Ok(FrameRead(requestId, remaining, SourceFrom(source), available != 0,
                        if available != 0 then Some(id) else None, frame));
  }

  method DecodeNoFrame(reader: BodyReader, requestId: u64) returns (r: Result<Response, CodecError>)
    requires reader.OnPlan() && reader.plan == ResponseLayout(NO_FRAME_KIND) && reader.pos == 2
    requires Supplied(reader.plan, reader.input, 0, Num(requestId))
    modifies reader
    ensures reader.plan == old(reader.plan)
    ensures r.Err? ==> ReadBody(reader.plan, reader.input) == Err(r.error)
    ensures r.Ok? ==> reader.OnPlan() && reader.pos == 10
    ensures r.Ok? && ReadBody(reader.plan, reader.input).Ok? ==> Answers(NO_FRAME_KIND, reader.input, r)
  {
    NoFrameFields();
    Pow256Values();
    hide ReadBody, Supplied, Pow256, BodyReader.OnPlan, ResponseLayout, ValidUtf8, KnownCode, Answers, ResponseOf;
    var len :- reader.ReadInt(4);
    var reason :- reader.ReadCode(NoFrameCode);
    var source :- reader.ReadCode(SourceCode);
    var available :- reader.ReadInt(1);
    var id :- reader.ReadInt(8);
    var clientId :- reader.ReadString();
    var runId :- reader.ReadString();
    var mode :- reader.ReadCode(ReadModeCode);
    if ReadBody(reader.plan, reader.input).Ok? {
      AnswersNoFrame(reader.input, requestId, len, reason, source, available, id, clientId, runId, mode);
    }
    return Ok(NoFrame(requestId, clientId, runId, ReadModeFrom(mode), len, NoFrameFrom(reason), SourceFrom(source),
                      available != 0, if available != 0 then Some(id) else None));
  }

  method DecodeHandoffError(reader: BodyReader, requestId: u64) returns (r: Result<Response, CodecError>)
    requires reader.OnPlan() && reader.plan == ResponseLayout(ERROR_KIND) && reader.pos == 2
    requires Supplied(reader.plan, reader.input, 0, Num(requestId))
    modifies reader
    ensures reader.plan == old(reader.plan)
    ensures r.Err? ==> ReadBody(reader.plan, reader.input) == Err(r.error)
    ensures r.Ok? ==> reader.OnPlan() && reader.pos == 3
    ensures r.Ok? && ReadBody(reader.plan, reader.input).Ok? ==> Answers(ERROR_KIND, reader.input, r)
  {
    assert ResponseLayout(ERROR_KIND)[2] == Code(HandoffErrorCode);
    hide ReadBody, Supplied, BodyReader.OnPlan, ResponseLayout, KnownCode, Answers, ResponseOf;
    var error :- reader.ReadCode(HandoffErrorCode);
    if ReadBody(reader.plan, reader.input).Ok? {
      AnswersError(reader.input, requestId, error);
    }
    return Ok(HandoffError(requestId, ErrorFrom(error)));
  }

  /** What the head alone already settles about a body. */
  lemma {:induction false} AfterHead(kind: nat, body: seq<byte>)
    requires |body| >= 9 && FRAME_READ_KIND <= kind <= ERROR_KIND && kind == IntAt(body, 8, 1)
    ensures 2 <= |ResponseLayout(kind)|
    ensures ParseUpTo(ResponseLayout(kind), 2, body) == ParseUpTo(RESPONSE_HEAD, 2, body)
    ensures Supplied(ResponseLayout(kind), body, 0, Num(IntAt(body, 0, 8)))
    ensures ResponseKind(body) == Ok(kind)
  {
    hide ReadBody, ResponseLayout;
    HeadFirst(kind, 2, body);
    HeadParts(body);
    if ReadBody(ResponseLayout(kind), body).Ok? {
      KindAgrees(kind, body);
    }
  }

  /** The head is read through its own two-field layout; `Err` only says that it was cut. */
  method DecodeResponseHead(reader: BodyReader) returns (r: Result<(u64, byte), CodecError>)
    requires reader.OnPlan() && reader.plan == RESPONSE_HEAD && reader.offset == 0 && reader.pos == 0
    modifies reader
    ensures reader.plan == RESPONSE_HEAD
    ensures r.Err? ==> ResponseKind(reader.input) == Err(r.error)
    ensures r.Ok? ==> reader.OnPlan() && reader.pos == 2 && |reader.input| >= 9
                      && r.value == (IntAt(reader.input, 0, 8), IntAt(reader.input, 8, 1))
  {
    HeadParts(reader.input);
    Pow256Values();
    hide Pow256, ValidUtf8, Print, Fits, ParseUpTo;
    var requestId :- reader.ReadInt(8);
    HeadOffset(reader.input);
    var kind :- reader.ReadInt(1);
    return Ok((requestId, kind));
  }

  lemma HeadOffset(body: seq<byte>)
    requires |body| >= 8
    ensures ParseUpTo(RESPONSE_HEAD, 1, body).next == 8
  {
    assert RESPONSE_HEAD[0] == Int(8) && ParseUpTo(RESPONSE_HEAD, 0, body).next == 0;
  }

  method DecodeResponseFrame(frame: seq<byte>) returns (r: Result<Response, CodecError>)
    ensures r == DecodeResponse(frame)
  {
    hide ReadBody, Supplied, BodyReader.OnPlan, ResponseLayout, KnownCode, UnframeBody, ParseAll, ParseUpTo, ResponseOf;
    var body :- UnframeBody(frame);
    var reader := new BodyReader(body, RESPONSE_HEAD);
    var head :- DecodeResponseHead(reader);
    HeadParts(body);
    r := DecodeAnswer(reader, head.0, head.1);
  }

  method DecodeAnswer(reader: BodyReader, requestId: u64, kind: byte) returns (r: Result<Response, CodecError>)
    requires reader.OnPlan() && reader.plan == RESPONSE_HEAD && reader.pos == 2 && |reader.input| >= 9
    requires requestId == IntAt(reader.input, 0, 8) && kind == IntAt(reader.input, 8, 1)
    modifies reader
    ensures r == DecodeResponseBody(reader.input)
  {
    if kind < FRAME_READ_KIND || kind > ERROR_KIND {
      HeadParts(reader.input);
      return Err(UnknownResponseKind(kind));
    }
    AfterHead(kind, reader.input);
    hide Supplied, ReadBody, BodyReader.OnPlan, KnownCode, ParseUpTo, ResponseOf, ResponseKind, ValidUtf8;
    reader.Continue(ResponseLayout(kind));
    LayoutSizes();
    hide ResponseLayout;
    var response;
    if kind == FRAME_READ_KIND {
      response :- DecodeFrameRead(reader, requestId);
    } else if kind == NO_FRAME_KIND {
      response :- DecodeNoFrame(reader, requestId);
    } else {
      response :- DecodeHandoffError(reader, requestId);
    }
    var _ :- reader.EnsureConsumed();
    return Ok(response);
  }

  // ---------- encoding ----------

  /** A string that does not fit its prefix is refused under its own name, with nothing written. */
  method PushString(output: ByteBuffer, field: string, value: Text) returns (r: Result<(), CodecError>)
    requires output.OnJob() && output.At(Str, Chars(value))
    modifies output
    ensures output.fs == old(output.fs) && output.vs == old(output.vs) && output.base == old(output.base)
    ensures |value| > U16_MAX ==> r == Err(StringTooLong(field, |value|)) && output.bytes == old(output.bytes)
    ensures |value| <= U16_MAX ==> r == Ok(()) && output.OnJob() && output.pos == old(output.pos) + 1
  {
    hide Writable, WriteUpTo, ValidUtf8, ByteBuffer.OnJob;
    var written := output.WriteString(value);
    if written.Err? {
      return Err(StringTooLong(field, |value|));
    }
    return Ok(());
  }

  /** `push_u8`, `push_u16`, `push_u32` and `push_u64`, by width, as the next field of a job. */
  method PushInt(output: ByteBuffer, n: nat, width: nat)
    requires output.OnJob() && output.At(Int(width), Num(n)) && n < Pow256(width)
    modifies output
    ensures output.fs == old(output.fs) && output.vs == old(output.vs) && output.base == old(output.base)
    ensures output.OnJob() && output.pos == old(output.pos) + 1
  {
    hide ByteBuffer.OnJob, ByteBuffer.Appended;
    output.WriteInt(n, width);
  }

  method PushCode(output: ByteBuffer, kind: CodeKind, n: nat)
    requires output.OnJob() && output.At(Code(kind), Num(n)) && KnownCode(kind, n)
    modifies output
    ensures output.fs == old(output.fs) && output.vs == old(output.vs) && output.base == old(output.base)
    ensures output.OnJob() && output.pos == old(output.pos) + 1
  {
    hide ByteBuffer.OnJob, ByteBuffer.Appended;
    output.WriteCode(kind, n);
  }

  /** A job whose fields all fit leaves exactly the printed body. */
  lemma JobDone(fs: seq<Field>, vs: seq<Value>)
    requires FitAll(fs, vs)
    ensures Writable(fs, vs) && WriteUpTo(fs, vs, |fs|) == Written(PrintAll(fs, vs), None)
  {
    forall i | 0 <= i < |fs|
      ensures CanPut(fs[i], vs[i])
    {
      assert Fits(fs[i], vs[i]);
    }
    WritePrints(fs, vs, |fs|);
  }

  lemma RequestWritable(r: Request)
    ensures Writable(REQUEST_LAYOUT, RequestValues(r))
  {
    Pow256Values();
    hide ValidUtf8;
  }

  /** The job of encoding a request, and what it has written when it is done. */
  lemma RequestJob(r: Request)
    ensures Writable(REQUEST_LAYOUT, RequestValues(r))
    ensures StringFault(r.clientId, r.runId).None? ==>
              FitAll(REQUEST_LAYOUT, RequestValues(r))
              && WriteUpTo(REQUEST_LAYOUT, RequestValues(r), 5).bytes == PrintAll(REQUEST_LAYOUT, RequestValues(r))
  {
    RequestWritable(r);
    hide ValidUtf8, StringFault;
    if StringFault(r.clientId, r.runId).None? {
      RequestValuesFit(r);
      JobDone(REQUEST_LAYOUT, RequestValues(r));
    }
  }

  method EncodeRequestFrame(request: Request) returns (r: Result<seq<byte>, CodecError>)
    ensures r == EncodeRequest(request)
  {
    RequestJob(request);
    Pow256Values();
    hide Pow256, Writable, WriteUpTo, FitAll, PrintAll, Put, ByteBuffer.OnJob, KnownCode, ValidUtf8, FrameBody;
    var body := new ByteBuffer();
    body.Begin(REQUEST_LAYOUT, RequestValues(request));
    PushInt(body, request.handoffVersion, 4);
    PushInt(body, request.requestId, 8);
    var _ :- PushString(body, "client_id", request.clientId);
    var _ :- PushString(body, "run_id", request.runId);
    PushCode(body, ReadModeCode, ReadModeWire(request.readMode));
    body.Done();
    assert body.bytes == WriteUpTo(REQUEST_LAYOUT, RequestValues(request), 5).bytes;
    return FrameBody(body.bytes);
  }

  /** The response with both ids blanked, so that no string is too long. */
  function Anonymous(r: Response): Response {
    match r
    case FrameRead(request, remaining, source, available, id, f) =>
      FrameRead(request, remaining, source, available, id, f.(clientId := [], runId := []))
    case NoFrame(request, _, _, mode, len, reason, source, available, id) =>
      NoFrame(request, [], [], mode, len, reason, source, available, id)
    case HandoffError(_, _) => r
  }

  /** Apart from its two ids, every value of a response fits its field. */
  lemma {:induction false} ResponseWritable(r: Response)
    requires r.FrameRead? ==> r.frame.encodedPayloadLen == |r.frame.encodedPayload|
    ensures Writable(ResponseLayout(KindOf(r)), ResponseValues(r))
  {
    var fs, vs, ws := ResponseLayout(KindOf(r)), ResponseValues(r), ResponseValues(Anonymous(r));
    ResponseValuesFit(Anonymous(r));
    assert KindOf(Anonymous(r)) == KindOf(r);
    assert |vs| == |ws|;
    hide ResponseLayout;
    forall i | 0 <= i < |fs|
      ensures CanPut(fs[i], vs[i])
    {
      assert Fits(fs[i], ws[i]);
      AnonymousValue(r, i);
    }
  }

  lemma AnonymousValue(r: Response, i: nat)
    requires i < |ResponseValues(r)| && |ResponseValues(r)| == |ResponseValues(Anonymous(r))|
    ensures ResponseValues(r)[i] == ResponseValues(Anonymous(r))[i]
         || (ResponseValues(r)[i].Chars? && ResponseValues(Anonymous(r))[i].Chars?)
  {
    hide ValidUtf8;
  }

  lemma ResponseJob(r: Response)
    requires r.FrameRead? ==> r.frame.encodedPayloadLen == |r.frame.encodedPayload|
    ensures var fs, vs := ResponseLayout(KindOf(r)), ResponseValues(r);
            && Writable(fs, vs)
            && (ResponseFault(r).None? ==> FitAll(fs, vs) && WriteUpTo(fs, vs, |fs|).bytes == PrintAll(fs, vs))
  {
    ResponseWritable(r);
    hide ResponseLayout, ResponseValues, ResponseFault;
    if ResponseFault(r).None? {
      ResponseValuesFit(r);
      JobDone(ResponseLayout(KindOf(r)), ResponseValues(r));
    }
  }

  /** Consecutive u32 fields of a job. */
  method PushThreeU32(a: u32, b: u32, c: u32, output: ByteBuffer)
    requires output.OnJob() && output.pos + 3 <= |output.fs| == |output.vs|
    requires output.fs[output.pos] == output.fs[output.pos + 1] == output.fs[output.pos + 2] == Int(4)
    requires output.vs[output.pos] == Num(a) && output.vs[output.pos + 1] == Num(b)
             && output.vs[output.pos + 2] == Num(c)
    modifies output
    ensures output.fs == old(output.fs) && output.vs == old(output.vs) && output.base == old(output.base)
    ensures output.OnJob() && output.pos == old(output.pos) + 3
  {
    hide Pow256, ByteBuffer.OnJob;
    Pow256Values();
    PushInt(output, a, 4);
    PushInt(output, b, 4);
    PushInt(output, c, 4);
  }

  /** Consecutive u64 fields of a job. */
  method PushFourU64(a: u64, b: u64, c: u64, d: u64, output: ByteBuffer)
    requires output.OnJob() && output.pos + 4 <= |output.fs| == |output.vs|
    requires forall i :: output.pos <= i < output.pos + 4 ==> output.fs[i] == Int(8)
    requires output.vs[output.pos] == Num(a) && output.vs[output.pos + 1] == Num(b)
    requires output.vs[output.pos + 2] == Num(c) && output.vs[output.pos + 3] == Num(d)
    modifies output
    ensures output.fs == old(output.fs) && output.vs == old(output.vs) && output.base == old(output.base)
    ensures output.OnJob() && output.pos == old(output.pos) + 4
  {
    hide Pow256, ByteBuffer.OnJob;
    Pow256Values();
    PushInt(output, a, 8);
    PushInt(output, b, 8);
    PushInt(output, c, 8);
    PushInt(output, d, 8);
  }

  lemma ResponseHeadFields(kind: nat)
    requires FRAME_READ_KIND <= kind <= ERROR_KIND
    ensures var fs := ResponseLayout(kind); |fs| > 2 && fs[0] == Int(8) && fs[1] == Int(1)
  {
  }

  /** The request id and the kind byte, which start every response. */
  method PushResponseHead(requestId: u64, kind: nat, output: ByteBuffer)
    requires output.OnJob() && output.pos == 0 && FRAME_READ_KIND <= kind <= ERROR_KIND
    requires output.fs == ResponseLayout(kind) && |output.vs| > 1
    requires output.vs[0] == Num(requestId) && output.vs[1] == Num(kind)
    modifies output
    ensures output.fs == old(output.fs) && output.vs == old(output.vs) && output.base == old(output.base)
    ensures output.OnJob() && output.pos == 2
  {
    ResponseHeadFields(kind);
    Pow256Values();
    hide ResponseLayout, Pow256, ByteBuffer.OnJob;
    PushInt(output, requestId, 8);
    PushInt(output, kind, 1);
  }

  /** Whether a keyframe is retained, and its id or zero. */
  method PushRetained(available: bool, id: Option<u64>, output: ByteBuffer)
    requires output.OnJob() && output.pos + 1 < |output.fs| == |output.vs|
    requires output.fs[output.pos] == Int(1) && output.fs[output.pos + 1] == Int(8)
    requires output.vs[output.pos] == FlagNum(available) && output.vs[output.pos + 1] == IdNum(id)
    modifies output
    ensures output.fs == old(output.fs) && output.vs == old(output.vs) && output.base == old(output.base)
    ensures output.OnJob() && output.pos == old(output.pos) + 2
  {
    Pow256Values();
    hide Pow256, ByteBuffer.OnJob;
    PushInt(output, if available then 1 else 0, 1);
    PushInt(output, match id case None => 0 case Some(n) => n, 8);
  }

  method PushIds(clientId: ClientId, runId: RunId, output: ByteBuffer) returns (done: Result<(), CodecError>)
    requires output.OnJob() && output.pos + 1 < |output.fs| == |output.vs|
    requires output.fs[output.pos] == output.fs[output.pos + 1] == Str
    requires output.vs[output.pos] == Chars(clientId) && output.vs[output.pos + 1] == Chars(runId)
    modifies output
    ensures output.fs == old(output.fs) && output.vs == old(output.vs) && output.base == old(output.base)
    ensures StringFault(clientId, runId).Some? ==> done == Err(StringFault(clientId, runId).value)
    ensures StringFault(clientId, runId).None? ==> done == Ok(()) && output.OnJob() && output.pos == old(output.pos) + 2
  {
    hide ByteBuffer.OnJob, ValidUtf8;
    var _ :- PushString(output, "client_id", clientId);
    var _ :- PushString(output, "run_id", runId);
    return Ok(());
  }

  method PushFrameRead(r: Response, output: ByteBuffer) returns (done: Result<(), CodecError>)
    requires r.FrameRead? && r.frame.encodedPayloadLen == |r.frame.encodedPayload|
    requires output.OnJob() && output.pos == 0
    requires output.fs == ResponseLayout(FRAME_READ_KIND) && output.vs == ResponseValues(r)
    modifies output
    ensures output.fs == old(output.fs) && output.vs == old(output.vs) && output.base == old(output.base)
    ensures ResponseFault(r).Some? ==> done == Err(ResponseFault(r).value)
    ensures ResponseFault(r).None? ==> done == Ok(()) && output.OnJob() && output.pos == 18
  {
    hide ResponseLayout, ResponseValues, ByteBuffer.OnJob, ValidUtf8, StringFault;
    PushFrameReadHead(r, output);
    done := PushFrame(r, output);
  }

  /** Everything before the frame itself. */
  method PushFrameReadHead(r: Response, output: ByteBuffer)
    requires r.FrameRead? && output.OnJob() && output.pos == 0
    requires output.fs == ResponseLayout(FRAME_READ_KIND) && output.vs == ResponseValues(r)
    modifies output
    ensures output.fs == old(output.fs) && output.vs == old(output.vs) && output.base == old(output.base)
    ensures output.OnJob() && output.pos == 6
  {
    FrameReadFields();
    FrameReadHeadItems(r);
    hide ResponseLayout, ResponseValues, KnownCode, FlagNum, IdNum, ByteBuffer.OnJob, ValidUtf8;
    PushResponseHead(r.requestId, FRAME_READ_KIND, output);
    PushU32AndSource(r.remainingClientQueueLen, r.decodableSource, output);
    PushRetained(r.retainedKeyframeAvailable, r.retainedKeyframeFrameId, output);
  }

  method PushFrame(r: Response, output: ByteBuffer) returns (done: Result<(), CodecError>)
    requires r.FrameRead? && r.frame.encodedPayloadLen == |r.frame.encodedPayload|
    requires output.OnJob() && output.pos == 6
    requires output.fs == ResponseLayout(FRAME_READ_KIND) && output.vs == ResponseValues(r)
    modifies output
    ensures output.fs == old(output.fs) && output.vs == old(output.vs) && output.base == old(output.base)
    ensures StringFault(r.frame.clientId, r.frame.runId).Some? ==>
              done == Err(StringFault(r.frame.clientId, r.frame.runId).value)
    ensures StringFault(r.frame.clientId, r.frame.runId).None? ==> done == Ok(()) && output.OnJob() && output.pos == 18
  {
    FrameReadFields();
    FrameReadHeadItems(r);
    FrameReadTailItems(r);
    hide ResponseLayout, ResponseValues, FlagNum, IdNum, ByteBuffer.OnJob, ValidUtf8, StringFault;
    var _ :- PushIds(r.frame.clientId, r.frame.runId, output);
    PushFrameTail(r.frame, output);
    return Ok(());
  }

  method PushU32AndSource(n: u32, source: DecodableSource, output: ByteBuffer)
    requires output.OnJob() && output.pos + 1 < |output.fs| == |output.vs|
    requires output.fs[output.pos] == Int(4) && output.fs[output.pos + 1] == Code(SourceCode)
    requires output.vs[output.pos] == Num(n) && output.vs[output.pos + 1] == Num(SourceWire(source))
    modifies output
    ensures output.fs == old(output.fs) && output.vs == old(output.vs) && output.base == old(output.base)
    ensures output.OnJob() && output.pos == old(output.pos) + 2
  {
    Pow256Values();
    hide Pow256, KnownCode, ByteBuffer.OnJob;
    PushInt(output, n, 4);
    PushCode(output, SourceCode, SourceWire(source));
  }

  /** The frame after its two ids. */
  method PushFrameTail(f: HandoffFrame, output: ByteBuffer)
    requires output.OnJob() && output.pos == 8 && |output.vs| == 18
    requires output.fs == ResponseLayout(FRAME_READ_KIND)
    requires f.encodedPayloadLen == |f.encodedPayload|
    requires output.vs[8] == Num(f.frameId) && output.vs[9] == Num(f.captureTimestamp)
             && output.vs[10] == Num(f.sendTimestamp)
    requires output.vs[11] == Num(f.queuedAt) && output.vs[12] == Num(f.width) && output.vs[13] == Num(f.height)
    requires output.vs[14] == Num(f.fpsNominal) && output.vs[15] == FlagNum(f.isKeyframe)
    requires output.vs[16] == Num(H264_WIRE) && output.vs[17] == Raw(f.encodedPayload)
    modifies output
    ensures output.fs == old(output.fs) && output.vs == old(output.vs) && output.base == old(output.base)
    ensures output.OnJob() && output.pos == 18
  {
    FrameReadFields();
    Pow256Values();
    hide ResponseLayout, Pow256, ByteBuffer.OnJob, ValidUtf8;
    PushFourU64(f.frameId, f.captureTimestamp, f.sendTimestamp, f.queuedAt, output);
    PushThreeU32(f.width, f.height, f.fpsNominal, output);
    PushInt(output, if f.isKeyframe then 1 else 0, 1);
    PushCode(output, CodecCode, H264_WIRE);
    PushBlob(output, f.encodedPayload);
  }

  /** The payload length and the payload itself. */
  method PushBlob(output: ByteBuffer, value: seq<byte>)
    requires output.OnJob() && output.At(Blob, Raw(value)) && |value| <= U32_MAX
    modifies output
    ensures output.fs == old(output.fs) && output.vs == old(output.vs) && output.base == old(output.base)
    ensures output.OnJob() && output.pos == old(output.pos) + 1
  {
    hide ByteBuffer.OnJob, ByteBuffer.Appended;
    output.WriteBlob(value);
  }

  method PushNoFrame(r: Response, output: ByteBuffer) returns (done: Result<(), CodecError>)
    requires r.NoFrame? && output.OnJob() && output.pos == 0
    requires output.fs == ResponseLayout(NO_FRAME_KIND) && output.vs == ResponseValues(r)
    modifies output
    ensures output.fs == old(output.fs) && output.vs == old(output.vs) && output.base == old(output.base)
    ensures ResponseFault(r).Some? ==> done == Err(ResponseFault(r).value)
    ensures ResponseFault(r).None? ==> done == Ok(()) && output.OnJob() && output.pos == 10
  {
    NoFrameFields();
    NoFrameItems(r);
    Pow256Values();
    hide ResponseLayout, ResponseValues, Pow256, KnownCode, FlagNum, IdNum, ByteBuffer.OnJob, ValidUtf8, StringFault;
    PushResponseHead(r.requestId, NO_FRAME_KIND, output);
    PushInt(output, r.clientQueueLen, 4);
    PushCode(output, NoFrameCode, NoFrameWire(r.noFrameReason));
    PushCode(output, SourceCode, SourceWire(r.decodableSource));
    PushRetained(r.retainedKeyframeAvailable, r.retainedKeyframeFrameId, output);
    var _ :- PushIds(r.clientId, r.runId, output);
    PushCode(output, ReadModeCode, ReadModeWire(r.readMode));
    return Ok(());
  }

  method EncodeResponseFrame(response: Response) returns (r: Result<seq<byte>, CodecError>)
    ensures r == EncodeResponse(response)
  {
    if response.FrameRead? && response.frame.encodedPayloadLen != |response.frame.encodedPayload| {
      return Err(PayloadLengthMismatch(response.frame.encodedPayloadLen, |response.frame.encodedPayload|));
    }
    var body := new ByteBuffer();
    var _ :- PushResponse(response, body);
    return FrameBody(body.bytes);
  }

  method PushResponse(r: Response, body: ByteBuffer) returns (done: Result<(), CodecError>)
    requires r.FrameRead? ==> r.frame.encodedPayloadLen == |r.frame.encodedPayload|
    requires body.bytes == []
    modifies body
    ensures ResponseFault(r).Some? ==> done == Err(ResponseFault(r).value)
    ensures ResponseFault(r).None? ==>
              done == Ok(()) && FitAll(ResponseLayout(KindOf(r)), ResponseValues(r))
              && body.bytes == PrintAll(ResponseLayout(KindOf(r)), ResponseValues(r))
  {
    ResponseJob(r);
    LayoutSizes();
    hide ResponseLayout, ResponseValues, Writable, WriteUpTo, FitAll, PrintAll, ByteBuffer.OnJob, ValidUtf8;
    body.Begin(ResponseLayout(KindOf(r)), ResponseValues(r));
    match r {
      case FrameRead(_, _, _, _, _, _) =>
        var _ :- PushFrameRead(r, body);
      case NoFrame(_, _, _, _, _, _, _, _, _) =>
        var _ :- PushNoFrame(r, body);
      case HandoffError(_, _) =>
        PushError(r, body);
    }
    body.Done();
    assert body.bytes == WriteUpTo(body.fs, body.vs, |body.fs|).bytes;
    return Ok(());
  }

  method PushError(r: Response, output: ByteBuffer)
    requires r.HandoffError? && output.OnJob() && output.pos == 0
    requires output.fs == ResponseLayout(ERROR_KIND) && output.vs == ResponseValues(r)
    modifies output
    ensures output.fs == old(output.fs) && output.vs == old(output.vs) && output.base == old(output.base)
    ensures output.OnJob() && output.pos == 3
  {
    hide ByteBuffer.OnJob, ValidUtf8, KnownCode;
    PushResponseHead(r.requestId, ERROR_KIND, output);
    PushCode(output, HandoffErrorCode, ErrorWire(r.error));
  }
}
