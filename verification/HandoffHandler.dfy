/** One handoff request answered from the video queue, and what reaches the switcher of the answer. */
module HandoffHandler {
  import opened Bytes
  import opened Protocol
  import opened Handoff
  import opened HandoffTheorems
  import opened VideoQueue
  import ConfigText

  /** The length of the white-space character `s` starts with, or 0 when it starts with none. */
  function SpaceLen(s: seq<byte>): (k: nat)
    ensures k <= |s|
  {
    if s == [] then 0
    else if s[0] == 0x20 || 0x09 <= s[0] <= 0x0D then 1
    else if |s| >= 2 && s[0] == 0xC2 && (s[1] == 0x85 || s[1] == 0xA0) then 2
    else if |s| < 3 then 0
    else if s[..3] == [0xE1, 0x9A, 0x80] || s[..3] == [0xE2, 0x81, 0x9F] || s[..3] == [0xE3, 0x80, 0x80] then 3
    else if s[..2] == [0xE2, 0x80] && (0x80 <= s[2] <= 0x8A || s[2] == 0xA8 || s[2] == 0xA9 || s[2] == 0xAF) then 3
    else 0
  }

  /** `text.trim().is_empty()`. */
  predicate Blank(s: seq<byte>)
    decreases |s|
  {
    s == [] || (SpaceLen(s) > 0 && Blank(s[SpaceLen(s)..]))
  }

  // ---------- what is blank ----------

  /** The UTF-8 bytes of a character of at most three. */
  function Utf8(c: char): seq<byte>
    requires c as int < 0x1_0000
  {
    var n := c as int;
    if n < 0x80 then [n]
    else if n < 0x800 then [0xC0 + n / 0x40, 0x80 + n % 0x40]
    else [0xE0 + n / 0x1000, 0x80 + n / 0x40 % 0x40, 0x80 + n % 0x40]
  }

  predicate AllSpace(cs: string) {
    forall i :: 0 <= i < |cs| ==> ConfigText.IsSpace(cs[i])
  }

  function Utf8All(cs: string): seq<byte>
    requires AllSpace(cs)
  {
    if cs == [] then [] else Utf8(cs[0]) + Utf8All(cs[1..])
  }

  lemma SpaceRead(c: char, rest: seq<byte>)
    requires ConfigText.IsSpace(c)
    ensures SpaceLen(Utf8(c) + rest) == |Utf8(c)| > 0
  {
    var s := Utf8(c) + rest;
    assert |Utf8(c)| == 3 ==> s[..3] == Utf8(c) && s[..2] == Utf8(c)[..2];
  }

  lemma SpaceFound(s: seq<byte>) returns (c: char)
    requires SpaceLen(s) > 0
    ensures ConfigText.IsSpace(c) && Utf8(c) == s[..SpaceLen(s)]
  {
    if SpaceLen(s) == 1 {
      c := s[0] as char;
    } else if SpaceLen(s) == 2 {
      c := ((s[0] as int - 0xC0) * 0x40 + (s[1] as int - 0x80)) as char;
    } else {
      c := ((s[0] as int - 0xE0) * 0x1000 + (s[1] as int - 0x80) * 0x40 + (s[2] as int - 0x80)) as char;
      assert s[..3] == [s[0], s[1], s[2]];
    }
  }

  lemma {:induction false} BlankIsSpaces(s: seq<byte>) returns (cs: string)
    requires Blank(s)
    ensures AllSpace(cs) && Utf8All(cs) == s
    decreases |s|
  {
    if s == [] {
      cs := [];
    } else {
      var k := SpaceLen(s);
      var c := SpaceFound(s);
      var rest := BlankIsSpaces(s[k..]);
      hide SpaceLen, Utf8, ConfigText.IsSpace;
      cs := [c] + rest;
      assert cs[1..] == rest;
      assert s == s[..k] + s[k..];
    }
  }

  lemma {:induction false} SpacesAreBlank(cs: string)
    requires AllSpace(cs)
    ensures Blank(Utf8All(cs))
  {
    if cs != [] {
      var first, rest := Utf8(cs[0]), Utf8All(cs[1..]);
      SpaceRead(cs[0], rest);
      SpacesAreBlank(cs[1..]);
      hide SpaceLen, Utf8, ConfigText.IsSpace;
      assert (first + rest)[|first|..] == rest;
    }
  }

  /** A text is blank exactly when it is made of white-space characters, encoded one after the other. */
  lemma BlankIff(s: seq<byte>)
    ensures Blank(s) <==> exists cs: string :: AllSpace(cs) && Utf8All(cs) == s
  {
    hide Blank, AllSpace, Utf8All;
    if Blank(s) {
      var cs := BlankIsSpaces(s);
    }
    if exists cs: string :: AllSpace(cs) && Utf8All(cs) == s {
      var cs: string :| AllSpace(cs) && Utf8All(cs) == s;
      SpacesAreBlank(cs);
    }
  }

  // ---------- answers ----------

  /** The lengths a response has to carry in 32 bits do fit; the handler stops the program when they do not. */
  ghost predicate Countable(s: State) {
    && (forall c :: |Queue(s, c)| <= U32_MAX)
    && (forall c, f :: f in Queue(s, c) ==> f.payloadLen <= U32_MAX)
    && (forall k, f :: AtKey(s, k) == Some(f) ==> f.payloadLen <= U32_MAX)
  }

  function AnswerFrame(f: QueuedFrame): HandoffFrame
    requires f.payloadLen <= U32_MAX
  {
    var v := f.frame;
    HandoffFrame(v.clientId, v.runId, v.frameId, v.captureTimestamp, v.sendTimestamp, f.queuedAt, v.width, v.height,
                 v.fpsNominal, v.isKeyframe, v.codec, f.payloadLen, v.payload)
  }

  function Answer(request: Request, r: ReadResult): Response
    requires match r
             case FrameAvailable(f, _, remaining, _, _, _) => f.payloadLen <= U32_MAX && remaining <= U32_MAX
             case NoFrameAvailable(_, _, len, _, _, _, _) => len <= U32_MAX
  {
    match r
    case FrameAvailable(f, _, remaining, source, available, id) =>
      FrameRead(request.requestId, remaining, source, available, id, AnswerFrame(f))
    case NoFrameAvailable(clientId, runId, len, reason, source, available, id) =>
      NoFrame(request.requestId, clientId, runId, request.readMode, len, reason, source, available, id)
  }

  predicate InvalidRequest(request: Request) {
    Blank(request.clientId) || Blank(request.runId)
  }

  function Handle(s: State, request: Request): (State, Response)
    requires Inv(s) && Countable(s)
  {
    if InvalidRequest(request) then (s, HandoffError(request.requestId, InvalidScope)) else
    ReadIsCountable(s, request.clientId, request.runId, request.readMode);
    var (s', r) := Read(s, request.clientId, request.runId, request.readMode);
    (s', Answer(request, r))
  }

  lemma ReadShortens(s: State, clientId: ClientId, runId: RunId, mode: ReadMode)
    ensures |Queue(Read(s, clientId, runId, mode).0, clientId)| <= |Queue(s, clientId)|
  {
    PopRunShortens(s, clientId, runId, clientId);
    hide PopRun, Queue, RunFrames, Retained;
  }

  lemma ReadIsCountable(s: State, clientId: ClientId, runId: RunId, mode: ReadMode)
    requires Inv(s) && Countable(s)
    ensures match Read(s, clientId, runId, mode).1
            case FrameAvailable(f, _, remaining, _, _, _) => f.payloadLen <= U32_MAX && remaining <= U32_MAX
            case NoFrameAvailable(_, _, len, _, _, _, _) => len <= U32_MAX
  {
    ReadShortens(s, clientId, runId, mode);
    if Read(s, clientId, runId, mode).1.FrameAvailable? {
      ReadIsHeld(s, clientId, runId, mode);
    }
    hide Choose, Queue, AtKey, RunFrames, Retained, Inv;
  }

  // ---------- whole runs ----------

  /** The stores of a program that reads its frames from the wire: every length is the true one and fits its field. */
  ghost predicate Honest(e: Event) {
    e.StoreFrame? ==>
      && e.maxFrames <= U32_MAX
      && e.payloadLen == |e.frame.payload| <= U32_MAX
      && |e.frame.clientId| <= U16_MAX && |e.frame.runId| <= U16_MAX
  }

  ghost predicate AllHonest(trace: seq<Event>) {
    forall i :: 0 <= i < |trace| ==> Honest(trace[i])
  }

  lemma StoredIsHonest(trace: seq<Event>, f: QueuedFrame)
    requires AllHonest(trace) && f in AllEntered(Reports(trace))
    ensures f.payloadLen == |f.frame.payload| <= U32_MAX
    ensures |f.frame.clientId| <= U16_MAX && |f.frame.runId| <= U16_MAX
  {
    var i := EnteredByEvent(trace, f);
    assert Honest(trace[i]);
    hide Reports, AllEntered;
  }

  /** The 32-bit conversions of the handler never fail after a run of honest stores. */
  lemma {:induction false} AlwaysCountable(trace: seq<Event>)
    requires AllHonest(trace)
    ensures Inv(Run(trace)) && Countable(Run(trace))
  {
    hide Queue, AtKey, Run;
    RunKeepsInv(trace);
    forall c
      ensures |Queue(Run(trace), c)| <= U32_MAX
    {
      forall i | 0 <= i < |trace|
        ensures LimitedTo(trace[i], U32_MAX)
      {
        assert Honest(trace[i]);
      }
      NeverOverCapacity(trace, U32_MAX, c);
    }
    forall c, f | f in Queue(Run(trace), c)
      ensures f.payloadLen <= U32_MAX
    {
      QueuedWasStored(trace, c, f);
      StoredIsHonest(trace, f);
    }
    forall k, f | AtKey(Run(trace), k) == Some(f)
      ensures f.payloadLen <= U32_MAX
    {
      RetainedWasStored(trace, k, f);
      StoredIsHonest(trace, f);
    }
  }

  /** The flag and the id of an answer always agree. */
  lemma AnswersAgree(s: State, request: Request)
    requires Inv(s) && Countable(s)
    ensures FlagAgrees(Handle(s, request).1)
  {
    ReadIsCountable(s, request.clientId, request.runId, request.readMode);
    hide Choose, Queue, Inv, Countable, RunFrames, Blank;
  }

  lemma {:induction false} AnswerIsEncodable(trace: seq<Event>, request: Request)
    requires AllHonest(trace) && |request.clientId| <= U16_MAX && |request.runId| <= U16_MAX
    requires Inv(Run(trace)) && Countable(Run(trace))
    ensures ResponseFault(Handle(Run(trace), request).1).None?
  {
    var s := Run(trace);
    var r := Read(s, request.clientId, request.runId, request.readMode).1;
    ReadIsCountable(s, request.clientId, request.runId, request.readMode);
    if r.FrameAvailable? {
      var i := AnsweredWasStored(trace, request.clientId, request.runId, request.readMode);
      assert Honest(trace[i]);
    }
    hide Choose, Queue, AtKey, Inv, Countable, RunFrames, Blank, Run, Retained;
  }

  /** The answer of the handler fits the wire exactly when it carries no frame, or one that is not too long. */
  predicate FitsWire(answer: Response) {
    answer.FrameRead? ==>
      78 + |answer.frame.clientId| + |answer.frame.runId| + |answer.frame.encodedPayload| <= U32_MAX
  }

  lemma AnswerSize(answer: Response)
    requires ResponseFault(answer).None?
    ensures BodySize(answer) <= U32_MAX <==> FitsWire(answer)
  {
    hide ValidUtf8;
  }

  /**
   * After any run of honest stores, reads and pops, the answer to any request that fits the wire is encoded exactly
   * when its body has a 32-bit length, which only a frame can fail, and then it is decoded without change.
   */
  lemma {:induction false} AnswerSurvives(trace: seq<Event>, request: Request)
    requires AllHonest(trace) && |request.clientId| <= U16_MAX && |request.runId| <= U16_MAX
    ensures Inv(Run(trace)) && Countable(Run(trace))
    ensures var answer := Handle(Run(trace), request).1;
            var sent := EncodeResponse(answer);
            && (sent.Ok? <==> FitsWire(answer))
            && (if sent.Ok? then DecodeResponse(sent.value) == Ok(answer)
                else sent == Err(BodyTooLong(BodySize(answer))))
  {
    AlwaysCountable(trace);
    AnswerIsEncodable(trace, request);
    AnswersAgree(Run(trace), request);
    hide Handle, Run, DecodeResponse, EncodeResponse, FlagAgrees, Inv, Countable, ResponseFault, AllHonest, FitsWire,
         BodySize;
    var answer := Handle(Run(trace), request).1;
    EncodedIff(answer);
    AnswerSize(answer);
    if EncodeResponse(answer).Ok? {
      IdenticalExactlyWhenFlagAgrees(answer);
    }
  }

  /** A request with a blank id is refused before the queue is looked at; any other one is never refused. */
  lemma RefusedIffBlank(s: State, request: Request)
    requires Inv(s) && Countable(s)
    ensures Handle(s, request).1.HandoffError? <==> Blank(request.clientId) || Blank(request.runId)
    ensures Handle(s, request).1.HandoffError? ==> Handle(s, request).0 == s
    ensures Handle(s, request).1.requestId == request.requestId
  {
    hide Read, Inv, Countable, Blank;
  }

  // ---------- what reaches the switcher ----------

  /** Field by field, `h` shows the stored frame `q`. */
  predicate Shows(h: HandoffFrame, q: QueuedFrame) {
    && h.clientId == q.frame.clientId && h.runId == q.frame.runId && h.frameId == q.frame.frameId
    && h.captureTimestamp == q.frame.captureTimestamp && h.sendTimestamp == q.frame.sendTimestamp
    && h.queuedAt == q.queuedAt && h.width == q.frame.width && h.height == q.frame.height
    && h.fpsNominal == q.frame.fpsNominal && h.isKeyframe == q.frame.isKeyframe && h.codec == q.frame.codec
    && h.encodedPayloadLen == q.payloadLen && h.encodedPayload == q.frame.payload
  }

  /** An answer, field by field, against the request and the queue. */
  lemma AnswerFields(s: State, request: Request)
    requires Inv(s) && Countable(s) && !InvalidRequest(request)
    ensures var kept := ScopeKey(request.clientId, request.runId) in s.retained;
            var read := Read(s, request.clientId, request.runId, request.readMode).1;
            match Handle(s, request).1
            case FrameRead(id, remaining, source, available, keptId, frame) =>
              && read.FrameAvailable? && id == request.requestId && Shows(frame, read.frame) && source == read.source
              && remaining + (if request.readMode == DequeueOldest then 1 else 0) == |Queue(s, request.clientId)|
              && available == kept && keptId.Some? == kept
              && (kept ==> keptId.value == s.retained[ScopeKey(request.clientId, request.runId)].frame.frameId)
            case NoFrame(id, clientId, runId, mode, len, reason, source, available, keptId) =>
              && read.NoFrameAvailable? && id == request.requestId
              && clientId == request.clientId && runId == request.runId && mode == request.readMode
              && len == |Queue(s, request.clientId)| && reason == read.reason && source == NoSource
              && available == kept && keptId.Some? == kept
              && (kept ==> keptId.value == s.retained[ScopeKey(request.clientId, request.runId)].frame.frameId)
            case HandoffError(_, _) => false
  {
    ReadAccounts(s, request.clientId, request.runId, request.readMode);
    ReadIsCountable(s, request.clientId, request.runId, request.readMode);
    hide Read, Queue, ScopeKey, Inv, Countable, InvalidRequest, ValidUtf8;
  }

  /** A frame of 78 bytes and its ids and payload can be answered, and this is what the switcher decodes then. */
  ghost predicate Brought(sent: Result<seq<byte>, CodecError>, requestId: u64, q: QueuedFrame) {
    var size := 78 + |q.frame.clientId| + |q.frame.runId| + |q.frame.payload|;
    if size > U32_MAX then sent == Err(BodyTooLong(size)) else
    && sent.Ok? && DecodeResponse(sent.value).Ok? && DecodeResponse(sent.value).value.FrameRead?
    && DecodeResponse(sent.value).value.requestId == requestId
    && Shows(DecodeResponse(sent.value).value.frame, q)
  }

  ghost predicate Brings(trace: seq<Event>, request: Request, q: QueuedFrame)
    requires Inv(Run(trace)) && Countable(Run(trace))
  {
    Brought(EncodeResponse(Handle(Run(trace), request).1), request.requestId, q)
  }

  lemma ShownIsBrought(answer: Response, sent: Result<seq<byte>, CodecError>, q: QueuedFrame)
    requires answer.FrameRead? && Shows(answer.frame, q) && (sent.Ok? <==> FitsWire(answer))
    requires if sent.Ok? then DecodeResponse(sent.value) == Ok(answer) else sent == Err(BodyTooLong(BodySize(answer)))
    ensures Brought(sent, answer.requestId, q)
  {
    hide DecodeResponse, ValidUtf8;
  }

  lemma {:induction false} AnswerBrings(trace: seq<Event>, request: Request)
    requires AllHonest(trace) && |request.clientId| <= U16_MAX && |request.runId| <= U16_MAX
    requires !InvalidRequest(request)
    requires Read(Run(trace), request.clientId, request.runId, request.readMode).1.FrameAvailable?
    ensures Inv(Run(trace)) && Countable(Run(trace))
    ensures Brings(trace, request, Read(Run(trace), request.clientId, request.runId, request.readMode).1.frame)
  {
    AlwaysCountable(trace);
    AnswerSurvives(trace, request);
    AnswerFields(Run(trace), request);
    hide Read, EncodeResponse, DecodeResponse, Handle, Run, Inv, Countable, InvalidRequest, AllHonest, Queue, ScopeKey,
         Shows, FitsWire, BodySize, Brought;
    var answer := Handle(Run(trace), request).1;
    var read := Read(Run(trace), request.clientId, request.runId, request.readMode).1;
    ShownIsBrought(answer, EncodeResponse(answer), read.frame);
  }

  /**
   * From the stores to the switcher: after any run of honest stores over slash-free client ids, a request for the
   * latest decodable frame of a scope brings the switcher exactly the last keyframe stored for that scope, even
   * when it has long left the queue. Only a keyframe too long for a 32-bit body length is not brought.
   */
  lemma {:induction false} SwitcherSeesLastKeyframe(trace: seq<Event>, clients: set<ClientId>, request: Request)
    requires AllHonest(trace) && SlashFree(clients) && StoresOnly(trace, clients) && request.clientId in clients
    requires |request.clientId| <= U16_MAX && |request.runId| <= U16_MAX && !InvalidRequest(request)
    requires request.readMode == InspectLatestDecodable
    requires LastKeyframe(In(trace, request.clientId, request.runId)).Some?
    ensures Inv(Run(trace)) && Countable(Run(trace))
    ensures Brings(trace, request, LastKeyframe(In(trace, request.clientId, request.runId)).value)
  {
    AlwaysCountable(trace);
    DecodableIsLastKeyframe(trace, clients, request.clientId, request.runId);
    hide Read, Run, In, LastKeyframe, RunFrames, Inv, Countable, InvalidRequest, AllHonest, SlashFree, StoresOnly,
         Brings;
    AnswerBrings(trace, request);
  }

  /**
   * And for the other three modes, whatever the client ids: while anything of the scope is queued, a request for the
   * latest frame brings the last frame ever stored for it, and one for the oldest, taken or only inspected, the
   * first frame stored for it that has not left the queue.
   */
  lemma {:induction false} SwitcherSeesQueue(trace: seq<Event>, request: Request)
    requires AllHonest(trace)
    requires |request.clientId| <= U16_MAX && |request.runId| <= U16_MAX && !InvalidRequest(request)
    requires request.readMode != InspectLatestDecodable && StillQueued(trace, request.clientId, request.runId)
    ensures Inv(Run(trace)) && Countable(Run(trace))
    ensures Brings(trace, request, Expected(trace, request.clientId, request.runId, request.readMode))
  {
    AlwaysCountable(trace);
    AnsweredByMode(trace, request.clientId, request.runId, request.readMode);
    hide Read, Run, StillQueued, Expected, Inv, Countable, InvalidRequest, AllHonest, Brings;
    AnswerBrings(trace, request);
  }
}
