/** Sender side: one encoded video frame split into datagram-sized fragments. */
module Fragmentation {
  import opened Bytes
  import opened Grammar
  import opened Protocol
  import opened Wire
  import opened WireTheorems
  import opened WireSizes

  datatype FragmentationPolicy = FragmentationPolicy(safeMaxDatagramLen: nat, targetChunkPayloadLen: nat)

  const DEFAULT_POLICY := FragmentationPolicy(1200, 1024)

  datatype FragmentationPlan = FragmentationPlan(totalPayloadLen: nat, chunkPayloadLen: nat, chunkCount: u32)

  datatype FragmentationError =
    | FragmentPayloadCapacityTooSmall(safeMaxDatagramLen: nat, fragmentOverheadLen: nat)
    | Encode(error: ProtocolError)

  function OverheadLen(frame: VideoFrame): nat {
    FIXED_HEADER_LEN + 2 + |frame.clientId| + 2 + |frame.runId| + VIDEO_FRAME_FRAGMENT_NUMERIC_METADATA_LEN
  }

  function DivCeil(a: nat, b: nat): nat
    requires b > 0
  {
    (a + b - 1) / b
  }

  /** With room for a chunk, a payload is divided by the chunk length, which must not be zero then. */
  predicate CanPlan(policy: FragmentationPolicy, frame: VideoFrame) {
    OverheadLen(frame) < policy.safeMaxDatagramLen && frame.payload != [] ==> policy.targetChunkPayloadLen > 0
  }

  /** Cutting into chunks of length zero is refused even when there is nothing to cut. */
  predicate CanCut(policy: FragmentationPolicy, frame: VideoFrame) {
    OverheadLen(frame) < policy.safeMaxDatagramLen ==> policy.targetChunkPayloadLen > 0
  }

  function Plan(policy: FragmentationPolicy, frame: VideoFrame): (r: Result<FragmentationPlan, FragmentationError>)
    requires CanPlan(policy, frame)
    ensures r.Ok? ==> r.value.chunkPayloadLen <= policy.targetChunkPayloadLen
    ensures r.Ok? && CanCut(policy, frame) ==> r.value.chunkPayloadLen > 0
    ensures r.Ok? ==> OverheadLen(frame) + r.value.chunkPayloadLen <= policy.safeMaxDatagramLen
    ensures r.Err? ==> r.error == FragmentPayloadCapacityTooSmall(policy.safeMaxDatagramLen, OverheadLen(frame))
    ensures policy.safeMaxDatagramLen <= OverheadLen(frame) ==> r.Err?
  {
    var overhead := OverheadLen(frame);
    if overhead >= policy.safeMaxDatagramLen
    then Err(FragmentPayloadCapacityTooSmall(policy.safeMaxDatagramLen, overhead)) else
    var room := policy.safeMaxDatagramLen - overhead;
    var chunkPayloadLen := if policy.targetChunkPayloadLen < room then policy.targetChunkPayloadLen else room;
    var chunkCount := if frame.payload == [] then 0 else DivCeil(|frame.payload|, chunkPayloadLen);
    if chunkCount > U32_MAX
    then Err(FragmentPayloadCapacityTooSmall(policy.safeMaxDatagramLen, overhead)) else
    Ok(FragmentationPlan(|frame.payload|, chunkPayloadLen, chunkCount))
  }

  /** `payload.chunks(n)`: pieces of `n` bytes, the last one possibly shorter. */
  function Chunks(payload: seq<byte>, n: nat): (cs: seq<seq<byte>>)
    requires n > 0
    ensures forall i :: 0 <= i < |cs| ==> 1 <= |cs[i]| <= n
    decreases |payload|
  {
    if payload == [] then []
    else if |payload| <= n then [payload]
    else [payload[..n]] + Chunks(payload[n..], n)
  }

  function Flatten(cs: seq<seq<byte>>): seq<byte> {
    if cs == [] then [] else cs[0] + Flatten(cs[1..])
  }

  /** Cutting loses nothing, keeps the order, and makes as many pieces as the plan counts. */
  lemma {:induction false} ChunksCover(payload: seq<byte>, n: nat)
    requires n > 0
    ensures Flatten(Chunks(payload, n)) == payload
    ensures |Chunks(payload, n)| == DivCeil(|payload|, n)
    decreases |payload|
  {
    if payload == [] {
      SmallQuotient(n - 1, n, 0);
    } else if |payload| <= n {
      SmallQuotient(|payload| + n - 1, n, 1);
      assert Flatten([payload]) == payload + Flatten([]);
    } else {
      ChunksCover(payload[n..], n);
      assert Chunks(payload, n)[1..] == Chunks(payload[n..], n);
      NextQuotient(|payload| - 1, n);
    }
  }

  lemma SmallQuotient(a: nat, n: nat, q: nat)
    requires n > 0 && q <= 1 && q * n <= a < q * n + n
    ensures a / n == q
  {
    if q == 1 {
      NextQuotient(a - n, n);
    }
  }

  lemma {:induction false} NextQuotient(a: nat, n: nat)
    requires n > 0
    ensures (a + n) / n == a / n + 1
  {
    var q, r := a / n, a % n;
    assert a + n == n * (q + 1) + r;
    DivUnique(a + n, n, q + 1, r);
  }

  function FragmentAt(frame: VideoFrame, plan: FragmentationPlan, index: u32, chunk: seq<byte>): VideoFrameFragment
    requires plan.totalPayloadLen <= U32_MAX
  {
    VideoFrameFragment(VideoFrameFragmentType, frame.protocolVersion, frame.clientId, frame.runId, frame.frameId,
                       frame.captureTimestamp, frame.isKeyframe, frame.width, frame.height, frame.fpsNominal,
                       plan.totalPayloadLen, index, plan.chunkCount, |chunk|, chunk)
  }

  /** What the splitter yields: one fragment per chunk, numbered from zero. */
  function Fragments(policy: FragmentationPolicy, frame: VideoFrame)
    : (r: Result<seq<VideoFrameFragment>, FragmentationError>)
    requires CanCut(policy, frame)
  {
    var plan :- Plan(policy, frame);
    if plan.totalPayloadLen > U32_MAX then Err(Encode(InvalidPayloadLength(U32_MAX, plan.totalPayloadLen))) else
    var cs := Chunks(frame.payload, plan.chunkPayloadLen);
    ChunkIndexFits(frame.payload, plan.chunkPayloadLen, plan.chunkCount);
    Ok(FragmentList(frame, plan, cs))
  }

  function FragmentList(frame: VideoFrame, plan: FragmentationPlan, cs: seq<seq<byte>>): (fs: seq<VideoFrameFragment>)
    requires plan.totalPayloadLen <= U32_MAX && |cs| <= U32_MAX
    ensures |fs| == |cs| && forall i :: 0 <= i < |fs| ==> fs[i] == FragmentAt(frame, plan, i, cs[i])
  {
    seq(|cs|, i requires 0 <= i < |cs| => FragmentAt(frame, plan, i, cs[i]))
  }

  lemma {:induction false} ChunkIndexFits(payload: seq<byte>, n: nat, count: nat)
    requires n > 0 && (payload != [] ==> count == DivCeil(|payload|, n))
    ensures |Chunks(payload, n)| <= count
    ensures payload != [] ==> |Chunks(payload, n)| == count
  {
    ChunksCover(payload, n);
  }

  method Fragment(policy: FragmentationPolicy, frame: VideoFrame)
    returns (r: Result<seq<VideoFrameFragment>, FragmentationError>)
    requires CanCut(policy, frame)
    ensures r == Fragments(policy, frame)
  {
    var plan :- Plan(policy, frame);
    if plan.totalPayloadLen > U32_MAX {
      return Err(Encode(InvalidPayloadLength(U32_MAX, plan.totalPayloadLen)));
    }
    ghost var cs := Chunks(frame.payload, plan.chunkPayloadLen);
    ChunkIndexFits(frame.payload, plan.chunkPayloadLen, plan.chunkCount);
    hide Plan, Chunks, FragmentAt, FragmentList, ValidUtf8;
    var fragments, rest, chunkIndex := [], frame.payload, 0;
    while rest != []
      invariant chunkIndex == |fragments| <= |cs| && |cs| <= plan.chunkCount
      invariant Chunks(rest, plan.chunkPayloadLen) == cs[chunkIndex..]
      invariant forall i :: 0 <= i < chunkIndex ==> fragments[i] == FragmentAt(frame, plan, i, cs[i])
      decreases |rest|
    {
      var n := if |rest| < plan.chunkPayloadLen then |rest| else plan.chunkPayloadLen;
      NextChunk(rest, plan.chunkPayloadLen);
      assert cs[chunkIndex] == cs[chunkIndex..][0];
      fragments := fragments + [FragmentAt(frame, plan, chunkIndex, rest[..n])];
      rest := rest[n..];
      chunkIndex := chunkIndex + 1;
    }
    NoMoreChunks(plan.chunkPayloadLen);
    assert fragments == FragmentList(frame, plan, cs);
    return Ok(fragments);
  }

  lemma NextChunk(rest: seq<byte>, n: nat)
    requires n > 0 && rest != []
    ensures var k := if |rest| < n then |rest| else n;
            && |Chunks(rest, n)| > 0 && Chunks(rest, n)[0] == rest[..k]
            && Chunks(rest, n)[1..] == Chunks(rest[k..], n)
  {
  }

  lemma NoMoreChunks(n: nat)
    requires n > 0
    ensures Chunks([], n) == []
  {
  }

  /** Every fragment carries the frame's identity and metadata, its own place, and its piece of the payload. */
  lemma FragmentsShape(policy: FragmentationPolicy, frame: VideoFrame)
    requires CanCut(policy, frame) && Fragments(policy, frame).Ok?
    ensures var fs := Fragments(policy, frame).value;
            && (forall i :: 0 <= i < |fs| ==>
                  fs[i].chunkIndex == i && fs[i].chunkCount == |fs| && fs[i].chunkPayloadLen == |fs[i].chunkPayload|
                  && fs[i].totalPayloadLen == |frame.payload|)
            && |fs| <= U32_MAX
            && (frame.payload != [] ==> |fs| > 0)
            && Flatten(Payloads(fs)) == frame.payload
  {
    var plan := Plan(policy, frame).value;
    var fs := Fragments(policy, frame).value;
    ChunksCover(frame.payload, plan.chunkPayloadLen);
    ChunkIndexFits(frame.payload, plan.chunkPayloadLen, plan.chunkCount);
    assert Payloads(fs) == Chunks(frame.payload, plan.chunkPayloadLen);
    if frame.payload != [] {
      assert Flatten([]) == [];
    }
  }

  function Payloads(fs: seq<VideoFrameFragment>): seq<seq<byte>> {
    seq(|fs|, i requires 0 <= i < |fs| => fs[i].chunkPayload)
  }

  /**
   * Each fragment of a frame the sender could encode is itself encodable, its datagram respects the safe
   * limit, and a receiver of the same version decodes it back unchanged. So the sender's later
   * `PacketTooLarge` check on fragments never fires.
   */
  lemma {:induction false} FragmentDatagram(policy: FragmentationPolicy, frame: VideoFrame, i: nat)
    requires CanCut(policy, frame) && Fragments(policy, frame).Ok?
    requires policy.safeMaxDatagramLen <= U32_MAX
    requires EncodePacket(frame.protocolVersion, VideoFrameMsg(frame)).Ok?
    requires i < |Fragments(policy, frame).value|
    ensures var m := VideoFrameFragmentMsg(Fragments(policy, frame).value[i]);
            && EncodePacket(frame.protocolVersion, m).Ok?
            && |EncodePacket(frame.protocolVersion, m).value| == OverheadLen(frame) + |m.fragment.chunkPayload|
            && |EncodePacket(frame.protocolVersion, m).value| <= policy.safeMaxDatagramLen
            && DecodePacket(frame.protocolVersion, EncodePacket(frame.protocolVersion, m).value) == Ok(m)
  {
    var f := Fragments(policy, frame).value[i];
    var m := VideoFrameFragmentMsg(f);
    StringsFit(frame, f);
    VideoFrameFragmentSize(f);
    hide WritePayload, DecodePacket, Chunks;
    IdenticalExactlyWhenNormal(frame.protocolVersion, m);
  }

  lemma StringsFit(frame: VideoFrame, f: VideoFrameFragment)
    requires EncodePacket(frame.protocolVersion, VideoFrameMsg(frame)).Ok?
    requires f.clientId == frame.clientId && f.runId == frame.runId
    requires f.chunkPayloadLen == |f.chunkPayload| <= U32_MAX
    ensures WritePayload(VideoFrameFragmentMsg(f)).fault.None?
  {
    WritesPrintedPayload(VideoFrameMsg(frame));
    WritesPrintedPayload(VideoFrameFragmentMsg(f));
    hide WritePayload, FitAll, Layout, ToValues;
    FrameStrings(frame);
    FragmentFits(f);
  }

  lemma FrameStrings(frame: VideoFrame)
    requires FitAll(Layout(VideoFrameType), ToValues(VideoFrameMsg(frame)))
    ensures |frame.clientId| <= U16_MAX && |frame.runId| <= U16_MAX
  {
    var vs := ToValues(VideoFrameMsg(frame));
    hide ValidUtf8;
    assert Fits(Str, vs[0]) && Fits(Str, vs[1]);
  }

  lemma FragmentFits(f: VideoFrameFragment)
    requires |f.clientId| <= U16_MAX && |f.runId| <= U16_MAX && |f.chunkPayload| <= U32_MAX
    ensures FitAll(Layout(VideoFrameFragmentType), ToValues(VideoFrameFragmentMsg(f)))
  {
    Pow256Values();
    hide ValidUtf8;
  }

  // ---------- no more fragments than needed ----------

  /** A chunk length the policy allows for the frame. */
  predicate Allowed(policy: FragmentationPolicy, frame: VideoFrame, limit: nat) {
    limit <= policy.targetChunkPayloadLen && OverheadLen(frame) + limit <= policy.safeMaxDatagramLen
  }

  lemma CeilIs(a: nat, b: nat)
    requires a > 0 && b > 0
    ensures DivCeil(a, b) > 0 && (DivCeil(a, b) - 1) * b < a <= DivCeil(a, b) * b
  {
    var q, r := (a + b - 1) / b, (a + b - 1) % b;
    assert a + b - 1 == b * q + r;
    assert b * q == q * b && (q - 1) * b == q * b - b;
  }

  lemma Times(a: nat, b: nat, c: nat)
    requires b <= c
    ensures a * b <= a * c
  {
  }

  /** A plan takes the longest chunks the policy allows, and no more of them than the payload needs. */
  lemma PlanIsLongest(policy: FragmentationPolicy, frame: VideoFrame)
    requires CanPlan(policy, frame) && Plan(policy, frame).Ok?
    ensures var plan := Plan(policy, frame).value;
            && Allowed(policy, frame, plan.chunkPayloadLen)
            && (plan.chunkPayloadLen == policy.targetChunkPayloadLen
                || OverheadLen(frame) + plan.chunkPayloadLen == policy.safeMaxDatagramLen)
            && (forall limit: nat :: Allowed(policy, frame, limit) ==> limit <= plan.chunkPayloadLen)
            && plan.totalPayloadLen == |frame.payload|
            && (if frame.payload == [] then plan.chunkCount == 0
                else plan.chunkCount > 0
                     && (plan.chunkCount - 1) * plan.chunkPayloadLen < |frame.payload|
                        <= plan.chunkCount * plan.chunkPayloadLen)
  {
    if frame.payload != [] {
      CeilIs(|frame.payload|, Plan(policy, frame).value.chunkPayloadLen);
    }
    hide OverheadLen, DivCeil;
  }

  /** There is no plan exactly when not one byte has room, or no allowed length gives a 32-bit number of chunks. */
  lemma PlanRefusedIff(policy: FragmentationPolicy, frame: VideoFrame)
    requires CanPlan(policy, frame)
    ensures Plan(policy, frame).Err? <==>
              || policy.safeMaxDatagramLen <= OverheadLen(frame)
              || forall limit: nat :: Allowed(policy, frame, limit) ==> U32_MAX * limit < |frame.payload|
    ensures Plan(policy, frame).Err? ==>
              Plan(policy, frame).error
              == FragmentPayloadCapacityTooSmall(policy.safeMaxDatagramLen, OverheadLen(frame))
  {
    if OverheadLen(frame) < policy.safeMaxDatagramLen {
      var room := policy.safeMaxDatagramLen - OverheadLen(frame);
      var longest := if policy.targetChunkPayloadLen < room then policy.targetChunkPayloadLen else room;
      LongestDecides(policy, frame, longest);
      if frame.payload != [] {
        CeilIs(|frame.payload|, longest);
        TooManyIff(|frame.payload|, longest, DivCeil(|frame.payload|, longest));
      } else {
        assert Allowed(policy, frame, 0);
      }
      hide OverheadLen, DivCeil, Allowed;
    }
  }

  lemma LongestDecides(policy: FragmentationPolicy, frame: VideoFrame, longest: nat)
    requires Allowed(policy, frame, longest) && forall limit: nat :: Allowed(policy, frame, limit) ==> limit <= longest
    ensures (forall limit: nat :: Allowed(policy, frame, limit) ==> U32_MAX * limit < |frame.payload|)
       <==> U32_MAX * longest < |frame.payload|
  {
  }

  lemma TooManyIff(a: nat, b: nat, n: nat)
    requires b > 0 && n > 0 && (n - 1) * b < a <= n * b
    ensures n > U32_MAX <==> U32_MAX * b < a
  {
    if n > U32_MAX {
      Times(b, U32_MAX, n - 1);
    } else {
      Times(b, n, U32_MAX);
    }
  }

  /** A frame is cut exactly when it has a plan and a 32-bit length. */
  lemma FragmentsRefusedIff(policy: FragmentationPolicy, frame: VideoFrame)
    requires CanCut(policy, frame)
    ensures Fragments(policy, frame).Err? <==> Plan(policy, frame).Err? || |frame.payload| > U32_MAX
    ensures Fragments(policy, frame).Err? ==>
              Fragments(policy, frame).error
              == if Plan(policy, frame).Err? then Plan(policy, frame).error
                 else Encode(InvalidPayloadLength(U32_MAX, |frame.payload|))
  {
    hide Chunks, DivCeil, OverheadLen;
  }

  lemma {:induction false} ChunkLengths(payload: seq<byte>, n: nat, i: nat)
    requires n > 0 && i + 1 < |Chunks(payload, n)|
    ensures |Chunks(payload, n)[i]| == n
    decreases |payload|
  {
    if i > 0 {
      ChunkLengths(payload[n..], n, i - 1);
    }
  }

  /**
   * A payload is cut into as few fragments as the policy allows: no allowed chunk length could do with one fewer.
   * Every fragment but the last is filled up.
   */
  lemma {:induction false} FewestFragments(policy: FragmentationPolicy, frame: VideoFrame, limit: nat)
    requires CanCut(policy, frame) && Fragments(policy, frame).Ok? && frame.payload != []
    requires Allowed(policy, frame, limit)
    ensures var fs := Fragments(policy, frame).value;
            && |fs| > 0 && (|fs| - 1) * limit < |frame.payload|
            && forall i :: 0 <= i < |fs| - 1 ==> |fs[i].chunkPayload| == Plan(policy, frame).value.chunkPayloadLen
  {
    var plan, fs := Plan(policy, frame).value, Fragments(policy, frame).value;
    PlanIsLongest(policy, frame);
    ChunksCover(frame.payload, plan.chunkPayloadLen);
    ChunkIndexFits(frame.payload, plan.chunkPayloadLen, plan.chunkCount);
    forall i | 0 <= i < |fs| - 1
      ensures |fs[i].chunkPayload| == plan.chunkPayloadLen
    {
      ChunkLengths(frame.payload, plan.chunkPayloadLen, i);
    }
    Times(|fs| - 1, limit, plan.chunkPayloadLen);
    hide Plan, Chunks, DivCeil, OverheadLen, Allowed, Flatten;
  }
}
