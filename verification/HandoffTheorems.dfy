/** What the handoff frames promise, over every request, every response and every byte string. */
module HandoffTheorems {
  import opened Bytes
  import opened Grammar
  import opened Protocol
  import opened Handoff

  // ---------- framing ----------

  lemma FramedBody(body: seq<byte>)
    requires FrameBody(body).Ok?
    ensures UnframeBody(FrameBody(body).value) == Ok(body)
  {
    var frame := FrameBody(body).value;
    assert frame[0..LENGTH_PREFIX_LEN] == ToLE(|body|, LENGTH_PREFIX_LEN);
    Pow256Values();
    FromToLE(|body|, LENGTH_PREFIX_LEN);
  }

  lemma UnframedFrame(frame: seq<byte>)
    requires UnframeBody(frame).Ok?
    ensures FrameBody(UnframeBody(frame).value) == Ok(frame)
  {
    IntBound(frame, 0, LENGTH_PREFIX_LEN);
    Pow256Values();
    assert frame == frame[0..LENGTH_PREFIX_LEN] + frame[LENGTH_PREFIX_LEN..];
  }

  /** A frame that is cut anywhere never reaches its decoder. */
  lemma CutFrame(frame: seq<byte>, n: nat)
    requires UnframeBody(frame).Ok? && n < |frame|
    ensures UnframeBody(frame[..n]) ==
            Err(if n < LENGTH_PREFIX_LEN then FramePrefixTooShort(n)
                else TruncatedFrame(|frame| - LENGTH_PREFIX_LEN, n - LENGTH_PREFIX_LEN))
    ensures DecodeRequest(frame[..n]).Err? && DecodeResponse(frame[..n]).Err?
  {
    if n >= LENGTH_PREFIX_LEN {
      assert frame[..n][0..LENGTH_PREFIX_LEN] == frame[0..LENGTH_PREFIX_LEN];
    }
  }

  /** Bytes after a frame are counted exactly. */
  lemma ExtendedFrame(frame: seq<byte>, extra: seq<byte>)
    requires UnframeBody(frame).Ok? && extra != []
    ensures UnframeBody(frame + extra) == Err(TrailingBytes(|extra|))
    ensures DecodeRequest(frame + extra) == Err(TrailingBytes(|extra|))
    ensures DecodeResponse(frame + extra) == Err(TrailingBytes(|extra|))
  {
    assert (frame + extra)[0..LENGTH_PREFIX_LEN] == frame[0..LENGTH_PREFIX_LEN];
  }

  /** What either encoder can produce. */
  ghost predicate Encoded(frame: seq<byte>) {
    (exists r: Request :: EncodeRequest(r) == Ok(frame)) || (exists r: Response :: EncodeResponse(r) == Ok(frame))
  }

  /** No encoded frame, of either direction, is a proper prefix of another. */
  lemma SelfDelimiting(f1: seq<byte>, f2: seq<byte>)
    requires Encoded(f1) && Encoded(f2)
    ensures !(f1 < f2)
  {
    EncodedUnframes(f1);
    EncodedUnframes(f2);
    if f1 < f2 {
      assert f2[..|f1|] == f1;
      CutFrame(f2, |f1|);
    }
  }

  lemma EncodedUnframes(frame: seq<byte>)
    requires Encoded(frame)
    ensures UnframeBody(frame).Ok?
  {
    hide EncodeRequest, EncodeResponse;
    if r: Request :| EncodeRequest(r) == Ok(frame) {
      EncodedRequestUnframes(r);
    } else {
      var r: Response :| EncodeResponse(r) == Ok(frame);
      EncodedResponseUnframes(r);
    }
  }

  lemma EncodedRequestUnframes(r: Request)
    requires EncodeRequest(r).Ok?
    ensures StringFault(r.clientId, r.runId).None? && FitAll(REQUEST_LAYOUT, RequestValues(r))
    ensures UnframeBody(EncodeRequest(r).value) == Ok(PrintAll(REQUEST_LAYOUT, RequestValues(r)))
  {
    hide FrameBody, UnframeBody, FitAll, PrintAll, RequestValues, ValidUtf8;
    RequestValuesFit(r);
    FramedBody(PrintAll(REQUEST_LAYOUT, RequestValues(r)));
  }

  lemma EncodedResponseUnframes(r: Response)
    requires EncodeResponse(r).Ok?
    ensures ResponseFault(r).None? && FitAll(ResponseLayout(KindOf(r)), ResponseValues(r))
    ensures UnframeBody(EncodeResponse(r).value) == Ok(PrintAll(ResponseLayout(KindOf(r)), ResponseValues(r)))
  {
    hide FrameBody, UnframeBody, FitAll, PrintAll, ResponseLayout, ResponseValues, ResponseFault, ValidUtf8;
    ResponseValuesFit(r);
    FramedBody(PrintAll(ResponseLayout(KindOf(r)), ResponseValues(r)));
  }

  // ---------- requests ----------

  lemma RequestToValuesAndBack(r: Request)
    requires FitAll(REQUEST_LAYOUT, RequestValues(r))
    ensures RequestOf(RequestValues(r)) == r
  {
    hide ValidUtf8;
  }

  lemma ValuesToRequestAndBack(vs: seq<Value>)
    requires FitAll(REQUEST_LAYOUT, vs)
    ensures StringFault(RequestOf(vs).clientId, RequestOf(vs).runId).None?
    ensures RequestValues(RequestOf(vs)) == vs
  {
    hide ValidUtf8;
    assert Fits(REQUEST_LAYOUT[0], vs[0]) && Fits(REQUEST_LAYOUT[1], vs[1]) && Fits(REQUEST_LAYOUT[2], vs[2])
        && Fits(REQUEST_LAYOUT[3], vs[3]) && Fits(REQUEST_LAYOUT[4], vs[4]);
  }

  lemma ReadsPrinted(fs: seq<Field>, vs: seq<Value>)
    requires FitAll(fs, vs)
    ensures ReadBody(fs, PrintAll(fs, vs)) == Ok(vs)
  {
    RoundTrip(fs, vs);
  }

  lemma RequestRoundTrip(r: Request)
    requires EncodeRequest(r).Ok?
    ensures DecodeRequest(EncodeRequest(r).value) == Ok(r)
  {
    EncodedRequestUnframes(r);
    hide EncodeRequest, UnframeBody, ReadBody, FitAll, PrintAll, RequestOf, RequestValues;
    ReadsPrinted(REQUEST_LAYOUT, RequestValues(r));
    RequestToValuesAndBack(r);
  }

  /** A byte string is accepted as a request only if it is the encoding of that request. */
  lemma {:induction false} RequestReencode(frame: seq<byte>)
    requires DecodeRequest(frame).Ok?
    ensures EncodeRequest(DecodeRequest(frame).value) == Ok(frame)
  {
    hide FrameBody, UnframeBody, ReadBody, FitAll, PrintAll, RequestOf, RequestValues;
    var body := UnframeBody(frame).value;
    UnframedFrame(frame);
    ValuesToRequestAndBack(ReadBody(REQUEST_LAYOUT, body).value);
  }

  /** The accepted request frames are exactly the encoded ones, and each stands for one request. */
  lemma RequestExactAcceptance(frame: seq<byte>, r: Request)
    ensures DecodeRequest(frame) == Ok(r) <==> EncodeRequest(r) == Ok(frame)
  {
    if DecodeRequest(frame) == Ok(r) {
      RequestReencode(frame);
    }
    if EncodeRequest(r) == Ok(frame) {
      RequestRoundTrip(r);
    }
  }

  lemma CutBody(fs: seq<Field>, body: seq<byte>, n: nat)
    requires ReadBody(fs, body).Ok? && n < |body|
    ensures ReadBody(fs, body[..n]).Err? && ReadBody(fs, body[..n]).error.UnexpectedEof?
  {
    CutUpTo(fs, ReadBody(fs, body).value, |fs|, body[..n]);
  }

  /** Cutting the body of an accepted request and framing it again is always an unexpected end. */
  lemma {:induction false} ReframedRequest(frame: seq<byte>, n: nat)
    requires DecodeRequest(frame).Ok? && n < |UnframeBody(frame).value|
    ensures var cut := FrameBody(UnframeBody(frame).value[..n]);
            cut.Ok? && DecodeRequest(cut.value).Err? && DecodeRequest(cut.value).error.UnexpectedEof?
  {
    hide ReadBody, RequestOf;
    var body := UnframeBody(frame).value;
    UnframedFrame(frame);
    FramedBody(body[..n]);
    hide FrameBody, UnframeBody;
    CutBody(REQUEST_LAYOUT, body, n);
  }

  // ---------- responses ----------

  function NormalId(available: bool, id: Option<u64>): Option<u64> {
    if !available then None else if id.None? then Some(0) else id
  }

  /** What is left of a response on the wire: the id is present exactly when the flag says so. */
  function NormalResponse(r: Response): Response {
    match r
    case FrameRead(request, remaining, source, available, id, frame) =>
      FrameRead(request, remaining, source, available, NormalId(available, id), frame)
    case NoFrame(request, client, run, mode, len, reason, source, available, id) =>
      NoFrame(request, client, run, mode, len, reason, source, available, NormalId(available, id))
    case HandoffError(_, _) => r
  }

  /** The flag and the id of the retained keyframe agree. */
  predicate FlagAgrees(r: Response) {
    !r.HandoffError? ==> (r.retainedKeyframeAvailable <==> r.retainedKeyframeFrameId.Some?)
  }

  /** Where a layout keeps its availability flag; the id comes right after it. */
  function FlagAt(kind: nat): nat {
    if kind == FRAME_READ_KIND then 4 else 5
  }

  const KEYFRAME_AT: nat := 15

  /** The values of a body are the ones an encoder writes: flags 0 or 1, and no id behind a flag that is off. */
  predicate Canonical(kind: nat, vs: seq<Value>)
    requires FRAME_READ_KIND <= kind <= ERROR_KIND && FitAll(ResponseLayout(kind), vs)
  {
    LayoutSizes();
    kind == ERROR_KIND ||
    (LayoutFlags(kind, vs);
     && vs[FlagAt(kind)].n <= 1
     && (vs[FlagAt(kind)].n == 0 ==> vs[FlagAt(kind) + 1].n == 0)
     && (kind == FRAME_READ_KIND ==> vs[KEYFRAME_AT].n <= 1))
  }

  lemma LayoutSizes()
    ensures |ResponseLayout(FRAME_READ_KIND)| == 18 && |ResponseLayout(NO_FRAME_KIND)| == 10
    ensures |ResponseLayout(ERROR_KIND)| == 3
  {
  }

  lemma LayoutFlags(kind: nat, vs: seq<Value>)
    requires FRAME_READ_KIND <= kind < ERROR_KIND && FitAll(ResponseLayout(kind), vs)
    ensures FlagAt(kind) + 1 < |vs| && Fits(Int(1), vs[FlagAt(kind)]) && Fits(Int(8), vs[FlagAt(kind) + 1])
    ensures kind == FRAME_READ_KIND ==> KEYFRAME_AT < |vs| && Fits(Int(1), vs[KEYFRAME_AT])
  {
    if kind == FRAME_READ_KIND {
      FrameReadHeadFits(vs);
      FrameReadTailFits(vs);
    } else {
      NoFrameFits(vs);
    }
  }

  /** A flag as an encoder writes it. */
  function Strict(flag: Value): Value
    requires flag.Num?
  {
    FlagNum(flag.n != 0)
  }

  /** The values an encoder writes for a response read from `vs`. */
  function Canonicalise(kind: nat, vs: seq<Value>): seq<Value>
    requires FRAME_READ_KIND <= kind <= ERROR_KIND && FitAll(ResponseLayout(kind), vs)
  {
    if kind == ERROR_KIND then vs else
    LayoutFlags(kind, vs);
    var flag, id := vs[FlagAt(kind)], vs[FlagAt(kind) + 1];
    var ws := vs[FlagAt(kind) := Strict(flag)][FlagAt(kind) + 1 := if flag.n == 0 then Num(0) else id];
    if kind == FRAME_READ_KIND then ws[KEYFRAME_AT := Strict(vs[KEYFRAME_AT])] else ws
  }

  /** What `Canonicalise` does to a `FrameRead` body, position by position. */
  lemma CanonicalFrameRead(vs: seq<Value>, i: nat)
    requires FitAll(ResponseLayout(FRAME_READ_KIND), vs) && i < |vs| == 18
    requires Fits(Int(1), vs[4]) && Fits(Int(1), vs[15])
    ensures |Canonicalise(FRAME_READ_KIND, vs)| == 18
    ensures Canonicalise(FRAME_READ_KIND, vs)[i]
         == if i == 4 || i == 15 then Strict(vs[i]) else if i == 5 && vs[4].n == 0 then Num(0) else vs[i]
  {
    hide FitAll, ResponseLayout, Fits;
  }

  lemma FrameReadIsHonest(vs: seq<Value>)
    requires FitAll(ResponseLayout(FRAME_READ_KIND), vs)
    ensures ResponseFault(FrameReadOf(vs)).None?
  {
    FrameReadHeadFits(vs);
    FrameReadTailFits(vs);
    hide FitAll, ResponseLayout, ValidUtf8;
  }

  lemma FrameReadHeadAndBack(vs: seq<Value>, i: nat)
    requires FitAll(ResponseLayout(FRAME_READ_KIND), vs) && vs[1] == Num(FRAME_READ_KIND) && i < 8
    ensures |ResponseValues(FrameReadOf(vs))| == |Canonicalise(FRAME_READ_KIND, vs)| == 18
    ensures ResponseValues(FrameReadOf(vs))[i] == Canonicalise(FRAME_READ_KIND, vs)[i]
  {
    FrameReadHeadFits(vs);
    FrameReadTailFits(vs);
    CanonicalFrameRead(vs, i);
    hide FitAll, ResponseLayout, ValidUtf8, Canonicalise;
  }

  lemma FrameReadTailAndBack(vs: seq<Value>, i: nat)
    requires FitAll(ResponseLayout(FRAME_READ_KIND), vs) && 8 <= i < 18
    ensures |ResponseValues(FrameReadOf(vs))| == |Canonicalise(FRAME_READ_KIND, vs)| == 18
    ensures ResponseValues(FrameReadOf(vs))[i] == Canonicalise(FRAME_READ_KIND, vs)[i]
  {
    FrameReadHeadFits(vs);
    FrameReadTailFits(vs);
    CanonicalFrameRead(vs, i);
    hide FitAll, ResponseLayout, ValidUtf8, Canonicalise;
  }

  lemma FrameReadAndBack(vs: seq<Value>)
    requires FitAll(ResponseLayout(FRAME_READ_KIND), vs) && vs[1] == Num(FRAME_READ_KIND)
    ensures ResponseFault(FrameReadOf(vs)).None?
    ensures ResponseValues(FrameReadOf(vs)) == Canonicalise(FRAME_READ_KIND, vs)
  {
    FrameReadIsHonest(vs);
    hide FitAll, ResponseLayout, FrameReadOf, ResponseValues, Canonicalise, ResponseFault;
    var r := FrameReadOf(vs);
    FrameReadHeadAndBack(vs, 0);
    forall i | 0 <= i < 18
      ensures ResponseValues(r)[i] == Canonicalise(FRAME_READ_KIND, vs)[i]
    {
      if i < 8 {
        FrameReadHeadAndBack(vs, i);
      } else {
        FrameReadTailAndBack(vs, i);
      }
    }
  }

  lemma NoFrameAndBack(vs: seq<Value>)
    requires FitAll(ResponseLayout(NO_FRAME_KIND), vs) && vs[1] == Num(NO_FRAME_KIND)
    ensures ResponseFault(NoFrameOf(vs)).None?
    ensures ResponseValues(NoFrameOf(vs)) == Canonicalise(NO_FRAME_KIND, vs)
  {
    NoFrameFits(vs);
    LayoutFlags(NO_FRAME_KIND, vs);
    hide FitAll, ResponseLayout, ValidUtf8;
  }

  lemma ErrorAndBack(vs: seq<Value>)
    requires FitAll(ResponseLayout(ERROR_KIND), vs) && vs[1] == Num(ERROR_KIND)
    ensures ResponseValues(ErrorOf(vs)) == vs
  {
    assert Fits(ResponseLayout(ERROR_KIND)[0], vs[0]) && Fits(ResponseLayout(ERROR_KIND)[2], vs[2]);
  }

  lemma {:induction false} ValuesToResponseAndBack(kind: nat, vs: seq<Value>)
    requires FRAME_READ_KIND <= kind <= ERROR_KIND && FitAll(ResponseLayout(kind), vs) && vs[1] == Num(kind)
    ensures var r := ResponseOf(kind, vs);
            KindOf(r) == kind && ResponseFault(r).None? && ResponseValues(r) == Canonicalise(kind, vs)
  {
    hide FitAll, ResponseLayout, Canonicalise, ResponseValues;
    if kind == FRAME_READ_KIND {
      FrameReadAndBack(vs);
    } else if kind == NO_FRAME_KIND {
      NoFrameAndBack(vs);
    } else {
      ErrorAndBack(vs);
      UnchangedError(vs);
    }
  }

  lemma UnchangedError(vs: seq<Value>)
    requires FitAll(ResponseLayout(ERROR_KIND), vs)
    ensures Canonicalise(ERROR_KIND, vs) == vs
  {
  }

  lemma FrameReadToValuesAndBack(r: Response)
    requires r.FrameRead? && ResponseFault(r).None? && FitAll(ResponseLayout(FRAME_READ_KIND), ResponseValues(r))
    ensures FrameReadOf(ResponseValues(r)) == NormalResponse(r)
  {
    FrameReadHeadFits(ResponseValues(r));
    FrameReadTailFits(ResponseValues(r));
    hide FitAll, ResponseLayout, ValidUtf8;
  }

  lemma NoFrameToValuesAndBack(r: Response)
    requires r.NoFrame? && FitAll(ResponseLayout(NO_FRAME_KIND), ResponseValues(r))
    ensures NoFrameOf(ResponseValues(r)) == NormalResponse(r)
  {
    NoFrameFits(ResponseValues(r));
    hide FitAll, ResponseLayout, ValidUtf8;
  }

  lemma ResponseToValuesAndBack(r: Response)
    requires ResponseFault(r).None? && FitAll(ResponseLayout(KindOf(r)), ResponseValues(r))
    ensures ResponseOf(KindOf(r), ResponseValues(r)) == NormalResponse(r)
  {
    hide FrameReadOf, NoFrameOf, NormalResponse, ResponseValues, FitAll, ResponseLayout;
    match r
    case FrameRead(_, _, _, _, _, _) => FrameReadToValuesAndBack(r);
    case NoFrame(_, _, _, _, _, _, _, _, _) => NoFrameToValuesAndBack(r);
    case HandoffError(_, _) => ErrorToValuesAndBack(r);
  }

  lemma ErrorToValuesAndBack(r: Response)
    requires r.HandoffError? && FitAll(ResponseLayout(ERROR_KIND), ResponseValues(r))
    ensures ErrorOf(ResponseValues(r)) == NormalResponse(r)
  {
  }

  /** Every layout starts with the head the kind is taken from. */
  lemma {:induction false} HeadFirst(kind: nat, k: nat, body: seq<byte>)
    requires FRAME_READ_KIND <= kind <= ERROR_KIND && k <= 2
    ensures 2 <= |ResponseLayout(kind)|
    ensures ParseUpTo(ResponseLayout(kind), k, body) == ParseUpTo(RESPONSE_HEAD, k, body)
  {
    if k > 0 {
      HeadFirst(kind, k - 1, body);
    }
  }

  /** The kind looked up first is the value the whole layout then finds at position 1. */
  lemma KindAgrees(kind: nat, body: seq<byte>)
    requires FRAME_READ_KIND <= kind <= ERROR_KIND && ReadBody(ResponseLayout(kind), body).Ok?
    ensures var vs := ReadBody(ResponseLayout(kind), body).value;
            |body| >= 9 && |vs| > 1 && vs[0] == Num(IntAt(body, 0, 8)) && vs[1] == Num(IntAt(body, 8, 1))
  {
    hide ResponseLayout, ParseField, FitAll, PrintAll;
    HeadFirst(kind, 2, body);
    ReadsOn(ResponseLayout(kind), 2, |ResponseLayout(kind)|, body);
    HeadParts(body);
    var head := ParseUpTo(RESPONSE_HEAD, 2, body).result.value;
    assert head[0] == Num(IntAt(body, 0, 8)) && head[1] == Num(IntAt(body, 8, 1));
  }

  /** A successful response decoding, taken apart. */
  lemma DecodedResponse(body: seq<byte>)
    requires DecodeResponseBody(body).Ok?
    ensures ResponseKind(body).Ok? && FRAME_READ_KIND <= ResponseKind(body).value <= ERROR_KIND
    ensures var kind := ResponseKind(body).value;
            ReadBody(ResponseLayout(kind), body).Ok? &&
            var vs := ReadBody(ResponseLayout(kind), body).value;
            FitAll(ResponseLayout(kind), vs) && |vs| > 1 && vs[1] == Num(kind)
            && PrintAll(ResponseLayout(kind), vs) == body
            && DecodeResponseBody(body).value == ResponseOf(kind, vs)
  {
    hide ReadBody, ResponseLayout, FitAll, PrintAll, ResponseOf;
    KindAgrees(ResponseKind(body).value, body);
    HeadParts(body);
  }

  /** A printed layout whose second value names its kind decodes through that kind. */
  lemma PrintedDecodes(kind: nat, vs: seq<Value>)
    requires FRAME_READ_KIND <= kind <= ERROR_KIND && FitAll(ResponseLayout(kind), vs)
    requires |vs| > 1 && vs[1] == Num(kind)
    ensures DecodeResponseBody(PrintAll(ResponseLayout(kind), vs)) == Ok(ResponseOf(kind, vs))
  {
    hide ReadBody, ResponseLayout, FitAll, PrintAll, ResponseOf;
    var body := PrintAll(ResponseLayout(kind), vs);
    ReadsPrinted(ResponseLayout(kind), vs);
    KindAgrees(kind, body);
    HeadParts(body);
  }

  /** Encoding then decoding gives the response in normal form. */
  lemma ResponseRoundTrip(r: Response)
    requires EncodeResponse(r).Ok?
    ensures DecodeResponse(EncodeResponse(r).value) == Ok(NormalResponse(r))
  {
    EncodedResponseUnframes(r);
    hide EncodeResponse, UnframeBody, ResponseOf, ResponseLayout, FitAll, PrintAll, ResponseFault, DecodeResponseBody,
         NormalResponse;
    ResponseToValuesAndBack(r);
    assert ResponseValues(r)[1] == Num(KindOf(r));
    hide ResponseValues, KindOf;
    PrintedDecodes(KindOf(r), ResponseValues(r));
  }

  /** Decoding gives back the identical response exactly when flag and id agree. */
  lemma IdenticalExactlyWhenFlagAgrees(r: Response)
    requires EncodeResponse(r).Ok?
    ensures DecodeResponse(EncodeResponse(r).value) == Ok(r) <==> FlagAgrees(r)
  {
    ResponseRoundTrip(r);
    hide EncodeResponse, DecodeResponse;
    assert NormalResponse(r) == r <==> FlagAgrees(r);
  }

  // ---------- re-encoding ----------

  lemma {:induction false} SameLength(fs: seq<Field>, vs: seq<Value>, ws: seq<Value>, k: nat)
    requires FitAll(fs, vs) && FitAll(fs, ws) && k <= |fs|
    requires forall i :: 0 <= i < k ==> |Print(fs[i], vs[i])| == |Print(fs[i], ws[i])|
    ensures |PrintUpTo(fs, vs, k)| == |PrintUpTo(fs, ws, k)|
    decreases k
  {
    if k > 0 {
      SameLength(fs, vs, ws, k - 1);
    }
  }

  lemma FlagFits(width: nat, n: nat, m: nat)
    requires Fits(Int(width), Num(n)) && m <= n
    ensures Fits(Int(width), Num(m)) && |Print(Int(width), Num(m))| == |Print(Int(width), Num(n))|
  {
  }

  /** A canonical value fits where the original did, in as many bytes. */
  lemma CanonicalField(kind: nat, vs: seq<Value>, i: nat)
    requires FRAME_READ_KIND <= kind <= ERROR_KIND && FitAll(ResponseLayout(kind), vs) && i < |vs|
    ensures |Canonicalise(kind, vs)| == |vs|
    ensures Fits(ResponseLayout(kind)[i], Canonicalise(kind, vs)[i])
    ensures |Print(ResponseLayout(kind)[i], vs[i])| == |Print(ResponseLayout(kind)[i], Canonicalise(kind, vs)[i])|
  {
    assert Fits(ResponseLayout(kind)[i], vs[i]);
    var w := Canonicalise(kind, vs)[i];
    hide FitAll;
    if kind != ERROR_KIND && w != vs[i] {
      LayoutFlags(kind, vs);
      FlagFields(kind);
      hide ResponseLayout, Print, Fits;
      if i == FlagAt(kind) + 1 {
        FlagFits(8, vs[i].n, w.n);
      } else {
        FlagFits(1, vs[i].n, w.n);
      }
    }
  }

  lemma CanonicalFits(kind: nat, vs: seq<Value>)
    requires FRAME_READ_KIND <= kind <= ERROR_KIND && FitAll(ResponseLayout(kind), vs)
    ensures FitAll(ResponseLayout(kind), Canonicalise(kind, vs))
    ensures |PrintAll(ResponseLayout(kind), Canonicalise(kind, vs))| == |PrintAll(ResponseLayout(kind), vs)|
    ensures |vs| > 1 && Canonicalise(kind, vs)[1] == vs[1]
  {
    hide Fits, Print;
    LayoutSizes();
    var fs, ws := ResponseLayout(kind), Canonicalise(kind, vs);
    assert |vs| > 1 && ws[1] == vs[1] && |ws| == |vs|;
    hide ResponseLayout, Canonicalise;
    forall i | 0 <= i < |fs|
      ensures Fits(fs[i], ws[i]) && |Print(fs[i], vs[i])| == |Print(fs[i], ws[i])|
    {
      CanonicalField(kind, vs, i);
    }
    SameLength(fs, vs, ws, |fs|);
  }

  lemma UnchangedIffCanonical(kind: nat, vs: seq<Value>)
    requires FRAME_READ_KIND <= kind <= ERROR_KIND && FitAll(ResponseLayout(kind), vs)
    ensures Canonicalise(kind, vs) == vs <==> Canonical(kind, vs)
  {
    if kind != ERROR_KIND {
      LayoutFlags(kind, vs);
    }
    hide ResponseLayout, FitAll;
  }

  lemma PrintInjective(fs: seq<Field>, vs: seq<Value>, ws: seq<Value>)
    requires FitAll(fs, vs) && FitAll(fs, ws)
    ensures PrintAll(fs, vs) == PrintAll(fs, ws) <==> vs == ws
  {
    RoundTrip(fs, vs);
    RoundTrip(fs, ws);
  }

  /** The body of an accepted response frame holds what an encoder writes. */
  predicate CanonicalBody(body: seq<byte>)
    requires DecodeResponseBody(body).Ok?
  {
    DecodedResponse(body);
    var kind := ResponseKind(body).value;
    Canonical(kind, ReadBody(ResponseLayout(kind), body).value)
  }

  lemma {:induction false} BodyFixpoint(body: seq<byte>)
    requires DecodeResponseBody(body).Ok?
    ensures var r := DecodeResponseBody(body).value;
            && ResponseFault(r).None? && FitAll(ResponseLayout(KindOf(r)), ResponseValues(r))
            && var again := PrintAll(ResponseLayout(KindOf(r)), ResponseValues(r));
            |again| == |body| && DecodeResponseBody(again) == Ok(r) && (again == body <==> CanonicalBody(body))
  {
    DecodedResponse(body);
    var kind, r := ResponseKind(body).value, DecodeResponseBody(body).value;
    var vs := ReadBody(ResponseLayout(kind), body).value;
    var ws := Canonicalise(kind, vs);
    ValuesToResponseAndBack(kind, vs);
    CanonicalFits(kind, vs);
    BodyAgain(kind, vs);
    UnchangedIffCanonical(kind, vs);
    PrintInjective(ResponseLayout(kind), vs, ws);
    hide DecodeResponseBody, ResponseKind, ReadBody, ResponseLayout, FitAll, PrintAll, ResponseOf, Canonicalise,
         Canonical, ResponseValues, ResponseFault, KindOf;
  }

  /** The canonical values of a response stand for the same response. */
  lemma BodyAgain(kind: nat, vs: seq<Value>)
    requires FRAME_READ_KIND <= kind <= ERROR_KIND && FitAll(ResponseLayout(kind), vs) && vs[1] == Num(kind)
    ensures FitAll(ResponseLayout(kind), Canonicalise(kind, vs))
    ensures DecodeResponseBody(PrintAll(ResponseLayout(kind), Canonicalise(kind, vs))) == Ok(ResponseOf(kind, vs))
  {
    var r := ResponseOf(kind, vs);
    ValuesToResponseAndBack(kind, vs);
    CanonicalFits(kind, vs);
    ResponseToValuesAndBack(r);
    hide ResponseLayout, FitAll, PrintAll, ResponseValues, Canonicalise, DecodeResponseBody;
    DecodedFlagAgrees(kind, vs);
    hide ResponseOf;
    PrintedDecodes(kind, ResponseValues(r));
  }

  /** A decoded response is always in normal form. */
  lemma DecodedFlagAgrees(kind: nat, vs: seq<Value>)
    requires FRAME_READ_KIND <= kind <= ERROR_KIND && FitAll(ResponseLayout(kind), vs)
    ensures FlagAgrees(ResponseOf(kind, vs)) && NormalResponse(ResponseOf(kind, vs)) == ResponseOf(kind, vs)
  {
    if kind == FRAME_READ_KIND {
      FrameReadHeadFits(vs);
      FrameReadTailFits(vs);
    } else if kind == NO_FRAME_KIND {
      NoFrameFits(vs);
    }
    hide FitAll, ResponseLayout, ValidUtf8;
  }

  /**
   * Re-encoding any accepted response frame succeeds, keeps its length and its meaning, and gives the same bytes
   * exactly when the frame was canonical already.
   */
  lemma {:induction false} ResponseFixpoint(frame: seq<byte>)
    requires DecodeResponse(frame).Ok?
    ensures var again := EncodeResponse(DecodeResponse(frame).value);
            && again.Ok? && |again.value| == |frame|
            && DecodeResponse(again.value) == DecodeResponse(frame)
            && (again.value == frame <==> CanonicalBody(UnframeBody(frame).value))
  {
    var body := UnframeBody(frame).value;
    BodyFixpoint(body);
    var r := DecodeResponseBody(body).value;
    var again := PrintAll(ResponseLayout(KindOf(r)), ResponseValues(r));
    UnframedFrame(frame);
    assert FrameBody(again).Ok?;
    FramedBody(again);
    hide DecodeResponseBody, ResponseLayout, FitAll, PrintAll, ResponseValues, ResponseFault, KindOf, UnframeBody,
         CanonicalBody;
  }

  /** Two accepted response frames carry the same response exactly when they re-encode to the same bytes. */
  lemma {:induction false} SameResponseSameCanonicalFrame(f1: seq<byte>, f2: seq<byte>)
    ensures var r1, r2 := DecodeResponse(f1), DecodeResponse(f2);
            r1.Ok? && r2.Ok? ==> (r1 == r2 <==> EncodeResponse(r1.value) == EncodeResponse(r2.value))
  {
    hide DecodeResponse, EncodeResponse;
    if DecodeResponse(f1).Ok? && DecodeResponse(f2).Ok? {
      ResponseFixpoint(f1);
      ResponseFixpoint(f2);
    }
  }

  /** Cutting the body of an accepted response and framing it again is always an unexpected end. */
  lemma {:induction false} ReframedResponse(frame: seq<byte>, n: nat)
    requires DecodeResponse(frame).Ok? && n < |UnframeBody(frame).value|
    ensures var cut := FrameBody(UnframeBody(frame).value[..n]);
            cut.Ok? && DecodeResponse(cut.value).Err? && DecodeResponse(cut.value).error.UnexpectedEof?
  {
    var body := UnframeBody(frame).value;
    UnframedFrame(frame);
    FramedBody(body[..n]);
    hide FrameBody, UnframeBody;
    CutResponse(body, n);
  }

  lemma CutResponse(body: seq<byte>, n: nat)
    requires DecodeResponseBody(body).Ok? && n < |body|
    ensures DecodeResponseBody(body[..n]).Err? && DecodeResponseBody(body[..n]).error.UnexpectedEof?
  {
    DecodedResponse(body);
    hide ReadBody, ResponseLayout, FitAll, PrintAll, ResponseOf, ResponseKind, KnownCode;
    CutHead(body, n);
    if n >= 9 {
      CutBody(ResponseLayout(ResponseKind(body).value), body, n);
    }
  }

  lemma CutHead(body: seq<byte>, n: nat)
    requires ResponseKind(body).Ok? && n < |body|
    ensures if n >= 9 then ResponseKind(body[..n]) == ResponseKind(body)
            else ResponseKind(body[..n]).Err? && ResponseKind(body[..n]).error.UnexpectedEof?
  {
    HeadParts(body);
    HeadParts(body[..n]);
    hide ParseAll;
    if n >= 9 {
      assert body[..n][8..9] == body[8..9];
    }
  }

  lemma FlagFields(kind: nat)
    requires FRAME_READ_KIND <= kind < ERROR_KIND
    ensures var fs := ResponseLayout(kind);
            && FlagAt(kind) + 1 < |fs| && fs[FlagAt(kind)] == Int(1) && fs[FlagAt(kind) + 1] == Int(8)
            && (kind == FRAME_READ_KIND ==> KEYFRAME_AT < |fs| && fs[KEYFRAME_AT] == Int(1))
  {
  }

  // ---------- sizes ----------

  const FRAME_READ_FIXED_LEN: nat := 78
  const NO_FRAME_FIXED_LEN: nat := 29
  const HANDOFF_ERROR_LEN: nat := 10

  /** The length of the body of a response: its fixed fields, its strings and its payload. */
  function BodySize(r: Response): nat {
    match r
    case FrameRead(_, _, _, _, _, f) => FRAME_READ_FIXED_LEN + |f.clientId| + |f.runId| + |f.encodedPayload|
    case NoFrame(_, clientId, runId, _, _, _, _, _, _) => NO_FRAME_FIXED_LEN + |clientId| + |runId|
    case HandoffError(_, _) => HANDOFF_ERROR_LEN
  }

  lemma FrameReadFields()
    ensures var fs := ResponseLayout(FRAME_READ_KIND);
            && |fs| == 18 && fs[2] == Int(4) && fs[3] == Code(SourceCode) && fs[4] == Int(1) && fs[5] == Int(8)
            && fs[6] == Str && fs[7] == Str && fs[8] == fs[9] == fs[10] == fs[11] == Int(8)
            && fs[12] == fs[13] == fs[14] == Int(4) && fs[15] == Int(1) && fs[16] == Code(CodecCode) && fs[17] == Blob
  {
  }

  lemma NoFrameFields()
    ensures var fs := ResponseLayout(NO_FRAME_KIND);
            && |fs| == 10 && fs[2] == Int(4) && fs[3] == Code(NoFrameCode) && fs[4] == Code(SourceCode)
            && fs[5] == Int(1)
            && fs[6] == Int(8) && fs[7] == Str && fs[8] == Str && fs[9] == Code(ReadModeCode)
  {
  }

  lemma NoFrameItems(r: Response)
    requires r.NoFrame?
    ensures var vs := ResponseValues(r);
            && |vs| == 10 && vs[0] == Num(r.requestId) && vs[1] == Num(NO_FRAME_KIND) && vs[2] == Num(r.clientQueueLen)
            && vs[3] == Num(NoFrameWire(r.noFrameReason)) && vs[4] == Num(SourceWire(r.decodableSource))
            && vs[5] == FlagNum(r.retainedKeyframeAvailable) && vs[6] == IdNum(r.retainedKeyframeFrameId)
            && vs[7] == Chars(r.clientId) && vs[8] == Chars(r.runId) && vs[9] == Num(ReadModeWire(r.readMode))
  {
  }

  lemma FrameReadHeadItems(r: Response)
    requires r.FrameRead?
    ensures var vs := ResponseValues(r);
            && |vs| == 18 && vs[0] == Num(r.requestId) && vs[1] == Num(FRAME_READ_KIND)
            && vs[2] == Num(r.remainingClientQueueLen) && vs[3] == Num(SourceWire(r.decodableSource))
            && vs[4] == FlagNum(r.retainedKeyframeAvailable) && vs[5] == IdNum(r.retainedKeyframeFrameId)
            && vs[6] == Chars(r.frame.clientId) && vs[7] == Chars(r.frame.runId)
  {
    hide ValidUtf8, SourceWire, KnownCode, FlagNum, IdNum;
  }

  lemma FrameReadTailItems(r: Response)
    requires r.FrameRead?
    ensures var vs, f := ResponseValues(r), r.frame;
            && |vs| == 18 && vs[8] == Num(f.frameId) && vs[9] == Num(f.captureTimestamp)
            && vs[10] == Num(f.sendTimestamp) && vs[11] == Num(f.queuedAt) && vs[12] == Num(f.width)
            && vs[13] == Num(f.height) && vs[14] == Num(f.fpsNominal) && vs[15] == FlagNum(f.isKeyframe)
            && vs[16] == Num(H264_WIRE) && vs[17] == Raw(f.encodedPayload)
  {
    hide ValidUtf8, SourceWire, KnownCode, FlagNum, IdNum;
  }

  lemma FrameReadHeadSize(r: Response)
    requires r.FrameRead? && FitAll(ResponseLayout(FRAME_READ_KIND), ResponseValues(r))
    ensures |ResponseLayout(FRAME_READ_KIND)| == 18
    ensures SizeUpTo(ResponseLayout(FRAME_READ_KIND), ResponseValues(r), 8)
         == 27 + |r.frame.clientId| + |r.frame.runId|
  {
    FrameReadFields();
    FrameReadHeadItems(r);
    hide Print, Fits, PrintUpTo, FitAll, ValidUtf8, ResponseLayout, ResponseValues;
    assert SizeUpTo(ResponseLayout(FRAME_READ_KIND), ResponseValues(r), 6) == 23;
  }

  lemma FrameReadSize(r: Response)
    requires r.FrameRead? && FitAll(ResponseLayout(FRAME_READ_KIND), ResponseValues(r))
    ensures |PrintAll(ResponseLayout(FRAME_READ_KIND), ResponseValues(r))| == BodySize(r)
  {
    FrameReadHeadSize(r);
    FrameReadFields();
    FrameReadTailItems(r);
    hide Print, Fits, PrintUpTo, FitAll, ValidUtf8, ResponseLayout, ResponseValues;
    var fs, vs := ResponseLayout(FRAME_READ_KIND), ResponseValues(r);
    assert SizeUpTo(fs, vs, 12) == SizeUpTo(fs, vs, 8) + 32;
    assert SizeUpTo(fs, vs, 18) == SizeUpTo(fs, vs, 12) + 15 + (4 + |r.frame.encodedPayload|);
  }

  lemma NoFrameSize(r: Response)
    requires r.NoFrame? && FitAll(ResponseLayout(NO_FRAME_KIND), ResponseValues(r))
    ensures |PrintAll(ResponseLayout(NO_FRAME_KIND), ResponseValues(r))| == BodySize(r)
  {
    var fs, vs := ResponseLayout(NO_FRAME_KIND), ResponseValues(r);
    hide Print, Fits, PrintUpTo, FitAll, ValidUtf8;
    assert SizeUpTo(fs, vs, 7) == 24;
    assert SizeUpTo(fs, vs, 10) == 24 + (2 + |r.clientId|) + (2 + |r.runId|) + 1;
  }

  lemma HandoffErrorSize(r: Response)
    requires r.HandoffError? && FitAll(ResponseLayout(ERROR_KIND), ResponseValues(r))
    ensures |PrintAll(ResponseLayout(ERROR_KIND), ResponseValues(r))| == BodySize(r)
  {
    var fs, vs := ResponseLayout(ERROR_KIND), ResponseValues(r);
    hide Print, Fits, PrintUpTo, FitAll;
    assert SizeUpTo(fs, vs, 2) == 9;
  }

  /** A response is encoded exactly when its fields are in order and its body has a 32-bit length. */
  lemma EncodedIff(r: Response)
    ensures EncodeResponse(r).Ok? <==> ResponseFault(r).None? && BodySize(r) <= U32_MAX
    ensures EncodeResponse(r).Err? ==>
              EncodeResponse(r).error
              == if ResponseFault(r).Some? then ResponseFault(r).value else BodyTooLong(BodySize(r))
  {
    if ResponseFault(r).None? {
      ResponseValuesFit(r);
      match r
      case FrameRead(_, _, _, _, _, _) => FrameReadSize(r);
      case NoFrame(_, _, _, _, _, _, _, _, _) => NoFrameSize(r);
      case HandoffError(_, _) => HandoffErrorSize(r);
    }
    hide ResponseFault, ResponseValues, ResponseLayout, FitAll, PrintAll, BodySize, ToLE;
  }
}
