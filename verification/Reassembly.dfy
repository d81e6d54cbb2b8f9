/** Receiver side: the state machine that puts fragments back together, over every sequence of arrivals. */
module Reassembly {
  import opened Bytes
  import opened Protocol
  import opened Fragmentation

  datatype Key = Key(clientId: ClientId, runId: RunId, frameId: u64)

  datatype FrameState = FrameState(
    protocolVersion: Version,
    captureTimestamp: Timestamp,
    isKeyframe: bool,
    width: u32,
    height: u32,
    fpsNominal: u32,
    totalPayloadLen: u32,
    chunkCount: u32,
    chunks: seq<Option<seq<byte>>>,
    duplicateCount: nat)

  datatype RejectReason =
    ChunkCountZero | ChunkIndexOutOfRange | ChunkPayloadLenMismatch | MetadataMismatch | ReassembledPayloadLenMismatch

  datatype Summary = Summary(
    key: Key,
    fragmentsReceived: nat,
    fragmentsMissing: seq<nat>,
    completedFrameQueued: bool,
    rejectedFragmentReason: Option<RejectReason>,
    duplicateCount: nat)

  datatype Outcome =
    | FragmentStored(summary: Summary)
    | DuplicateFragmentIgnored(summary: Summary)
    | RejectedFragment(summary: Summary)
    | FrameComplete(summary: Summary, frame: VideoFrame)

  type Frames = map<Key, FrameState>

  function KeyOf(f: VideoFrameFragment): Key {
    Key(f.clientId, f.runId, f.frameId)
  }

  function NewState(f: VideoFrameFragment): FrameState {
    FrameState(f.protocolVersion, f.captureTimestamp, f.isKeyframe, f.width, f.height, f.fpsNominal,
               f.totalPayloadLen, f.chunkCount, seq(f.chunkCount, _ => None), 0)
  }

  function Received(chunks: seq<Option<seq<byte>>>): nat {
    if chunks == [] then 0 else (if chunks[0].Some? then 1 else 0) + Received(chunks[1..])
  }

  function MissingFrom(chunks: seq<Option<seq<byte>>>, index: nat): seq<nat> {
    if chunks == [] then [] else (if chunks[0].None? then [index] else []) + MissingFrom(chunks[1..], index + 1)
  }

  /** `reassemble_payload`: the chunks present, in index order. */
  function Joined(chunks: seq<Option<seq<byte>>>): seq<byte> {
    if chunks == [] then [] else (if chunks[0].Some? then chunks[0].value else []) + Joined(chunks[1..])
  }

  predicate IsComplete(st: FrameState) {
    Received(st.chunks) == st.chunkCount
  }

  function ShapeFault(f: VideoFrameFragment): Option<RejectReason> {
    if f.chunkCount == 0 then Some(ChunkCountZero)
    else if f.chunkIndex >= f.chunkCount then Some(ChunkIndexOutOfRange)
    else if f.chunkPayloadLen != |f.chunkPayload| then Some(ChunkPayloadLenMismatch)
    else None
  }

  predicate MetadataMatches(st: FrameState, f: VideoFrameFragment) {
    && st.protocolVersion == f.protocolVersion
    && st.captureTimestamp == f.captureTimestamp
    && st.isKeyframe == f.isKeyframe
    && st.width == f.width
    && st.height == f.height
    && st.fpsNominal == f.fpsNominal
    && st.totalPayloadLen == f.totalPayloadLen
    && st.chunkCount == f.chunkCount
  }

  function SummaryOf(key: Key, st: FrameState, queued: bool, reason: Option<RejectReason>): Summary {
    Summary(key, Received(st.chunks), MissingFrom(st.chunks, 0), queued, reason, st.duplicateCount)
  }

  function FrameOf(key: Key, st: FrameState, payload: seq<byte>): VideoFrame {
    VideoFrame(VideoFrameType, st.protocolVersion, key.clientId, key.runId, key.frameId, st.captureTimestamp,
               st.captureTimestamp, st.isKeyframe, [0, 0, 0], st.width, st.height, st.fpsNominal, H264,
               |payload|, payload)
  }

  /** Every tracked frame has one slot per announced chunk. */
  ghost predicate WellFormed(frames: Frames) {
    forall key :: key in frames ==> |frames[key].chunks| == frames[key].chunkCount > 0
  }

  /** One arrival: the new state and what is reported. */
  function Apply(frames: Frames, f: VideoFrameFragment): (r: (Frames, Outcome))
    requires WellFormed(frames)
    ensures WellFormed(r.0)
  {
    var key := KeyOf(f);
    if ShapeFault(f).Some? then (frames, RejectedFragment(Summary(key, 0, [], false, ShapeFault(f), 0))) else
    var st := if key in frames then frames[key] else NewState(f);
    if !MetadataMatches(st, f)
    then (frames, RejectedFragment(SummaryOf(key, st, false, Some(MetadataMismatch)))) else
    if st.chunks[f.chunkIndex].Some? then
      var dup := st.(duplicateCount := st.duplicateCount + 1);
      (frames[key := dup], DuplicateFragmentIgnored(SummaryOf(key, dup, false, None)))
    else
      var filled := st.(chunks := st.chunks[f.chunkIndex := Some(f.chunkPayload)]);
      if !IsComplete(filled) then (frames[key := filled], FragmentStored(SummaryOf(key, filled, false, None)))
      else if |Joined(filled.chunks)| != st.totalPayloadLen
      then (frames[key := filled],
            RejectedFragment(SummaryOf(key, filled, false, Some(ReassembledPayloadLenMismatch))))
      else (frames - {key},
            FrameComplete(SummaryOf(key, filled, true, None), FrameOf(key, filled, Joined(filled.chunks))))
  }

  // ---------- counting slots ----------

  lemma {:induction false} SlotCounts(chunks: seq<Option<seq<byte>>>, index: nat)
    ensures Received(chunks) + |MissingFrom(chunks, index)| == |chunks|
    ensures Received(chunks) == |chunks| <==> forall i :: 0 <= i < |chunks| ==> chunks[i].Some?
    decreases |chunks|
  {
    if chunks != [] {
      SlotCounts(chunks[1..], index + 1);
      if forall i :: 0 <= i < |chunks[1..]| ==> chunks[1..][i].Some? {
        assert forall i :: 1 <= i < |chunks| ==> chunks[i] == chunks[1..][i - 1];
      } else {
        var i :| 0 <= i < |chunks[1..]| && !chunks[1..][i].Some?;
        assert !chunks[i + 1].Some?;
      }
    }
  }

  /** The missing list holds exactly the indices of the empty slots, in ascending order. */
  lemma {:induction false} MissingExactly(chunks: seq<Option<seq<byte>>>, index: nat)
    ensures forall i: nat ::
              i in MissingFrom(chunks, index) <==> index <= i < index + |chunks| && chunks[i - index].None?
    ensures forall a, b :: 0 <= a < b < |MissingFrom(chunks, index)| ==>
                             MissingFrom(chunks, index)[a] < MissingFrom(chunks, index)[b]
    decreases |chunks|
  {
    if chunks != [] {
      var rest := MissingFrom(chunks[1..], index + 1);
      MissingExactly(chunks[1..], index + 1);
      forall i: nat
        ensures i in MissingFrom(chunks, index) <==> index <= i < index + |chunks| && chunks[i - index].None?
      {
        assert i in rest <==> index + 1 <= i < index + |chunks| && chunks[1..][i - index - 1].None?;
      }
      forall k | 0 <= k < |rest|
        ensures rest[k] > index
      {
        assert rest[k] in rest;
      }
    }
  }

  /** With no slot empty, the joined payload is the chunks one after the other. */
  lemma {:induction false} JoinedAll(chunks: seq<Option<seq<byte>>>, payloads: seq<seq<byte>>)
    requires |chunks| == |payloads| && forall i :: 0 <= i < |chunks| ==> chunks[i] == Some(payloads[i])
    ensures Joined(chunks) == Flatten(payloads)
    decreases |chunks|
  {
    if chunks != [] {
      JoinedAll(chunks[1..], payloads[1..]);
    }
  }

  // ---------- the fragments of one frame ----------

  predicate SameMetadata(f: VideoFrameFragment, g: VideoFrameFragment) {
    MetadataMatches(NewState(f), g)
  }

  /** `fs` are all the fragments of one frame with identity `key`, in index order. */
  predicate SplitOf(fs: seq<VideoFrameFragment>, key: Key) {
    && |fs| > 0
    && (forall i :: 0 <= i < |fs| ==>
          KeyOf(fs[i]) == key && SameMetadata(fs[0], fs[i]) && fs[i].chunkIndex == i
          && fs[i].chunkCount == |fs| && fs[i].chunkPayloadLen == |fs[i].chunkPayload|)
    && |Flatten(Payloads(fs))| == fs[0].totalPayloadLen
  }

  /** The frame those fragments make. */
  function Assembled(fs: seq<VideoFrameFragment>): VideoFrame
    requires |fs| > 0
  {
    FrameOf(KeyOf(fs[0]), NewState(fs[0]), Flatten(Payloads(fs)))
  }

  /** The indices below `n`. */
  function All(n: nat): (s: set<nat>)
    ensures forall i: nat :: i in s <==> i < n
  {
    if n == 0 then {} else All(n - 1) + {n - 1}
  }

  function Copies(n: nat, frame: VideoFrame): seq<VideoFrame> {
    if n == 0 then [] else Copies(n - 1, frame) + [frame]
  }

  /** The state holds exactly the chunks of `fs` whose indices are in `got`. */
  ghost predicate Tracks(frames: Frames, key: Key, fs: seq<VideoFrameFragment>, got: set<nat>) {
    if got == {} then key !in frames else
    && key in frames
    && |fs| > 0 && MetadataMatches(frames[key], fs[0])
    && |frames[key].chunks| == |fs|
    && forall i :: 0 <= i < |fs| ==> frames[key].chunks[i] == if i in got then Some(fs[i].chunkPayload) else None
  }

  lemma {:induction false} OtherKeysUntouched(frames: Frames, f: VideoFrameFragment, key: Key)
    requires WellFormed(frames) && key != KeyOf(f)
    ensures var frames' := Apply(frames, f).0;
            (key in frames' <==> key in frames) && (key in frames ==> frames'[key] == frames[key])
  {
  }

  /** One arrival of a fragment of the frame, seen as an update of the set of indices held. */
  lemma {:induction false} ArrivalStep(frames: Frames, key: Key, fs: seq<VideoFrameFragment>, got: set<nat>, i: nat)
    requires WellFormed(frames) && SplitOf(fs, key) && Tracks(frames, key, fs, got)
    requires got < All(|fs|) && i < |fs|
    ensures var (frames', out) := Apply(frames, fs[i]);
            if i in got then out.DuplicateFragmentIgnored? && Tracks(frames', key, fs, got)
            else if got + {i} != All(|fs|) then out.FragmentStored? && Tracks(frames', key, fs, got + {i})
            else out.FrameComplete? && out.frame == Assembled(fs) && Tracks(frames', key, fs, {})
  {
    var st := if key in frames then frames[key] else NewState(fs[i]);
    assert ShapeFault(fs[i]).None?;
    assert MetadataMatches(st, fs[i]) by {
      assert SameMetadata(fs[0], fs[i]);
    }
    assert forall j :: 0 <= j < |fs| ==> st.chunks[j] == if j in got then Some(fs[j].chunkPayload) else None;
    if i !in got {
      var chunks := st.chunks[i := Some(fs[i].chunkPayload)];
      CompleteIffAll(chunks, fs, got + {i});
      if got + {i} == All(|fs|) {
        JoinedAll(chunks, Payloads(fs));
        assert SameMetadata(fs[0], fs[i]);
      }
    }
  }

  lemma {:induction false} CompleteIffAll(chunks: seq<Option<seq<byte>>>, fs: seq<VideoFrameFragment>, got: set<nat>)
    requires |chunks| == |fs| && got <= All(|fs|)
    requires forall i :: 0 <= i < |fs| ==> chunks[i] == if i in got then Some(fs[i].chunkPayload) else None
    ensures Received(chunks) == |fs| <==> got == All(|fs|)
  {
    SlotCounts(chunks, 0);
    if forall i :: 0 <= i < |chunks| ==> chunks[i].Some? {
      forall i: nat | i < |fs|
        ensures i in got
      {
        assert chunks[i].Some?;
      }
    }
  }

  // ---------- whole runs ----------

  /** The state and the reports after a sequence of arrivals. */
  function Run(frames: Frames, trace: seq<VideoFrameFragment>): (r: (Frames, seq<Outcome>))
    requires WellFormed(frames)
    ensures WellFormed(r.0) && |r.1| == |trace|
    decreases |trace|
  {
    if trace == [] then (frames, []) else
    var before := Run(frames, trace[..|trace| - 1]);
    var (frames', out) := Apply(before.0, trace[|trace| - 1]);
    (frames', before.1 + [out])
  }

  /** The frames completed for `key`, in order. */
  function Emitted(outs: seq<Outcome>, key: Key): seq<VideoFrame> {
    if outs == [] then [] else
    var out := outs[|outs| - 1];
    Emitted(outs[..|outs| - 1], key) + if out.FrameComplete? && out.summary.key == key then [out.frame] else []
  }

  /** The indices of `key` that arrived since its last completion. */
  function Pending(trace: seq<VideoFrameFragment>, key: Key, n: nat): set<nat>
    decreases |trace|
  {
    if trace == [] then {} else
    var before, f := Pending(trace[..|trace| - 1], key, n), trace[|trace| - 1];
    if KeyOf(f) != key then before
    else if before + {f.chunkIndex} == All(n) then {} else before + {f.chunkIndex}
  }

  /** How often `key` had all its indices together. */
  function Completions(trace: seq<VideoFrameFragment>, key: Key, n: nat): nat
    decreases |trace|
  {
    if trace == [] then 0 else
    var before, f := trace[..|trace| - 1], trace[|trace| - 1];
    Completions(before, key, n) + if KeyOf(f) == key && Pending(before, key, n) + {f.chunkIndex} == All(n) then 1 else 0
  }

  ghost predicate OnlyFrom(trace: seq<VideoFrameFragment>, key: Key, fs: seq<VideoFrameFragment>) {
    forall f :: f in trace && KeyOf(f) == key ==> f in fs
  }

  /** What holds of the state and the reports after `trace`. */
  ghost predicate Collected(start: Frames, trace: seq<VideoFrameFragment>, key: Key, fs: seq<VideoFrameFragment>)
    requires WellFormed(start) && |fs| > 0
  {
    && Pending(trace, key, |fs|) < All(|fs|)
    && Tracks(Run(start, trace).0, key, fs, Pending(trace, key, |fs|))
    && Emitted(Run(start, trace).1, key) == Copies(Completions(trace, key, |fs|), Assembled(fs))
  }

  /**
   * The state machine refines set collection. Whatever else arrives in between, for a frame whose
   * fragments are `fs` the state always holds exactly the indices pending, the frames completed are copies
   * of the assembled frame, and there are as many of them as times the indices were all together.
   */
  lemma {:induction false} RunCollects(start: Frames, trace: seq<VideoFrameFragment>, key: Key,
                                       fs: seq<VideoFrameFragment>)
    requires WellFormed(start) && key !in start && SplitOf(fs, key) && OnlyFrom(trace, key, fs)
    ensures Collected(start, trace, key, fs)
    decreases |trace|
  {
    if trace == [] {
      assert 0 in All(|fs|);
    } else {
      var t, f := trace[..|trace| - 1], trace[|trace| - 1];
      assert trace == t + [f];
      RunCollects(start, t, key, fs);
      CollectOne(start, t, f, key, fs);
    }
  }

  lemma {:induction false} CollectOne(start: Frames, t: seq<VideoFrameFragment>, f: VideoFrameFragment, key: Key,
                                      fs: seq<VideoFrameFragment>)
    requires WellFormed(start) && SplitOf(fs, key) && (KeyOf(f) == key ==> f in fs)
    requires Collected(start, t, key, fs)
    ensures Collected(start, t + [f], key, fs)
  {
    hide Apply, Tracks, Pending, Assembled, SplitOf, Completions, Run, Emitted, WellFormed;
    RunStep(Run(start, t).0, t, f, key, fs);
    RunSnoc(start, t, f, key);
  }

  lemma {:induction false} RunSnoc(start: Frames, t: seq<VideoFrameFragment>, f: VideoFrameFragment, key: Key)
    requires WellFormed(start)
    ensures var (after, out) := Apply(Run(start, t).0, f);
            && Run(start, t + [f]) == (after, Run(start, t).1 + [out])
            && Emitted(Run(start, t + [f]).1, key)
               == Emitted(Run(start, t).1, key)
                  + if out.FrameComplete? && out.summary.key == key then [out.frame] else []
  {
    assert (t + [f])[..|t + [f]| - 1] == t;
    var outs, out := Run(start, t).1, Apply(Run(start, t).0, f).1;
    assert (outs + [out])[..|outs + [out]| - 1] == outs;
    hide Apply;
  }

  lemma {:induction false} RunStep(before: Frames, t: seq<VideoFrameFragment>, f: VideoFrameFragment, key: Key,
                                   fs: seq<VideoFrameFragment>)
    requires WellFormed(before) && SplitOf(fs, key) && (KeyOf(f) == key ==> f in fs)
    requires Pending(t, key, |fs|) < All(|fs|) && Tracks(before, key, fs, Pending(t, key, |fs|))
    ensures Pending(t + [f], key, |fs|) < All(|fs|)
    ensures var (after, out) := Apply(before, f);
            && Tracks(after, key, fs, Pending(t + [f], key, |fs|))
            && (out.FrameComplete? && out.summary.key == key <==>
                Completions(t + [f], key, |fs|) == Completions(t, key, |fs|) + 1)
            && (out.FrameComplete? && out.summary.key == key ==> out.frame == Assembled(fs))
            && Completions(t, key, |fs|) <= Completions(t + [f], key, |fs|) <= Completions(t, key, |fs|) + 1
  {
    SummaryKey(before, f);
    assert (t + [f])[..|t + [f]| - 1] == t;
    if KeyOf(f) == key {
      var i :| 0 <= i < |fs| && fs[i] == f;
      ArrivalStep(before, key, fs, Pending(t, key, |fs|), i);
      assert i in All(|fs|) && 0 in All(|fs|);
    } else {
      OtherKeysUntouched(before, f, key);
    }
    hide Apply, Assembled;
  }

  lemma {:induction false} SummaryKey(frames: Frames, f: VideoFrameFragment)
    requires WellFormed(frames)
    ensures Apply(frames, f).1.summary.key == KeyOf(f)
  {
  }

  // ---------- delivery ----------

  /** The indices of `key` that arrived at all. */
  function Arrived(trace: seq<VideoFrameFragment>, key: Key): set<nat>
    decreases |trace|
  {
    if trace == [] then {} else
    var f := trace[|trace| - 1];
    Arrived(trace[..|trace| - 1], key) + if KeyOf(f) == key then {f.chunkIndex} else {}
  }

  lemma {:induction false} UntilFirstCompletion(trace: seq<VideoFrameFragment>, key: Key, n: nat)
    requires Completions(trace, key, n) == 0
    ensures Pending(trace, key, n) == Arrived(trace, key)
    decreases |trace|
  {
    if trace != [] {
      UntilFirstCompletion(trace[..|trace| - 1], key, n);
    }
  }

  /** However often and in whatever order they come, once all fragments arrived the frame was completed. */
  lemma {:induction false} DeliveredWhenAllArrived(start: Frames, trace: seq<VideoFrameFragment>, key: Key,
                                                   fs: seq<VideoFrameFragment>)
    requires WellFormed(start) && key !in start && SplitOf(fs, key) && OnlyFrom(trace, key, fs)
    requires Arrived(trace, key) == All(|fs|)
    ensures Emitted(Run(start, trace).1, key) != []
    ensures forall frame :: frame in Emitted(Run(start, trace).1, key) ==> frame == Assembled(fs)
  {
    RunCollects(start, trace, key, fs);
    var n := Completions(trace, key, |fs|);
    if n == 0 {
      UntilFirstCompletion(trace, key, |fs|);
    }
    CopiesOnly(n, Assembled(fs));
  }

  lemma {:induction false} CopiesOnly(n: nat, frame: VideoFrame)
    ensures |Copies(n, frame)| == n
    ensures forall x :: x in Copies(n, frame) ==> x == frame
  {
    if n > 0 {
      CopiesOnly(n - 1, frame);
    }
  }

  /** No index of `key` arrives twice. */
  ghost predicate NoRepeats(trace: seq<VideoFrameFragment>, key: Key) {
    forall a, b :: 0 <= a < b < |trace| && KeyOf(trace[a]) == key && KeyOf(trace[b]) == key
                   ==> trace[a].chunkIndex != trace[b].chunkIndex
  }

  lemma {:induction false} ArrivalWitness(trace: seq<VideoFrameFragment>, key: Key, i: nat)
    requires i in Arrived(trace, key)
    ensures exists a :: 0 <= a < |trace| && KeyOf(trace[a]) == key && trace[a].chunkIndex == i
    decreases |trace|
  {
    var t, f := trace[..|trace| - 1], trace[|trace| - 1];
    if i in Arrived(t, key) {
      ArrivalWitness(t, key, i);
      var a :| 0 <= a < |t| && KeyOf(t[a]) == key && t[a].chunkIndex == i;
      assert trace[a] == t[a];
    }
  }

  lemma {:induction false} CompletedOnce(trace: seq<VideoFrameFragment>, key: Key, n: nat)
    requires NoRepeats(trace, key)
    requires forall f :: f in trace && KeyOf(f) == key ==> f.chunkIndex < n
    ensures Completions(trace, key, n) <= 1
    ensures Completions(trace, key, n) == 1 ==> Pending(trace, key, n) == {} && Arrived(trace, key) == All(n)
    decreases |trace|
  {
    if trace != [] {
      var t, f := trace[..|trace| - 1], trace[|trace| - 1];
      CompletedOnce(t, key, n);
      if Completions(t, key, n) == 0 {
        UntilFirstCompletion(t, key, n);
      } else if KeyOf(f) == key {
        assert f in trace && f.chunkIndex in Arrived(t, key);
        ArrivalWitness(t, key, f.chunkIndex);
      }
    }
  }

  /** If each fragment arrives exactly once, exactly one frame comes out and nothing of it stays behind. */
  lemma {:induction false} DeliveredExactlyOnce(start: Frames, trace: seq<VideoFrameFragment>, key: Key,
                                                fs: seq<VideoFrameFragment>)
    requires WellFormed(start) && key !in start && SplitOf(fs, key) && OnlyFrom(trace, key, fs)
    requires Arrived(trace, key) == All(|fs|) && NoRepeats(trace, key)
    ensures Emitted(Run(start, trace).1, key) == [Assembled(fs)]
    ensures key !in Run(start, trace).0
  {
    RunCollects(start, trace, key, fs);
    CompletedOnce(trace, key, |fs|);
    if Completions(trace, key, |fs|) == 0 {
      UntilFirstCompletion(trace, key, |fs|);
    }
    assert Copies(1, Assembled(fs)) == [] + [Assembled(fs)];
  }

  // ---------- provenance ----------

  /** Every chunk held came from a fragment that arrived, of that key, at that index, with that metadata. */
  ghost predicate HeldChunksArrived(frames: Frames, trace: seq<VideoFrameFragment>) {
    forall key, i :: key in frames && 0 <= i < |frames[key].chunks| && frames[key].chunks[i].Some? ==>
      ArrivedAs(frames, trace, key, i)
  }

  ghost predicate ArrivedAs(frames: Frames, trace: seq<VideoFrameFragment>, key: Key, i: nat)
    requires key in frames && i < |frames[key].chunks|
  {
    exists f :: f in trace && KeyOf(f) == key && f.chunkIndex == i && MetadataMatches(frames[key], f)
                && f.chunkPayloadLen == |f.chunkPayload| && frames[key].chunks[i] == Some(f.chunkPayload)
  }

  lemma {:induction false} HeldStep(frames: Frames, trace: seq<VideoFrameFragment>, f: VideoFrameFragment)
    requires WellFormed(frames) && HeldChunksArrived(frames, trace)
    ensures HeldChunksArrived(Apply(frames, f).0, trace + [f])
  {
    var after := Apply(frames, f).0;
    forall key, i | key in after && 0 <= i < |after[key].chunks| && after[key].chunks[i].Some?
      ensures ArrivedAs(after, trace + [f], key, i)
    {
      if key == KeyOf(f) && i == f.chunkIndex && (key !in frames || frames[key].chunks[i].None?) {
        assert f in trace + [f];
      } else {
        assert ArrivedAs(frames, trace, key, i);
        var g :| g in trace && KeyOf(g) == key && g.chunkIndex == i && MetadataMatches(frames[key], g)
                 && g.chunkPayloadLen == |g.chunkPayload| && frames[key].chunks[i] == Some(g.chunkPayload);
        assert g in trace + [f];
      }
    }
  }

  lemma {:induction false} HeldAlways(trace: seq<VideoFrameFragment>)
    ensures HeldChunksArrived(Run(map[], trace).0, trace)
    decreases |trace|
  {
    if trace != [] {
      var t, f := trace[..|trace| - 1], trace[|trace| - 1];
      HeldAlways(t);
      HeldStep(Run(map[], t).0, t, f);
      assert trace == t + [f];
    }
  }

  /** The state of the frame of `f` once `f` is stored. */
  function FilledBy(frames: Frames, f: VideoFrameFragment): FrameState
    requires WellFormed(frames) && ShapeFault(f).None?
    requires KeyOf(f) in frames ==> frames[KeyOf(f)].chunkCount == f.chunkCount
  {
    var st := if KeyOf(f) in frames then frames[KeyOf(f)] else NewState(f);
    st.(chunks := st.chunks[f.chunkIndex := Some(f.chunkPayload)])
  }

  lemma {:induction false} CompleteFacts(frames: Frames, f: VideoFrameFragment)
    requires WellFormed(frames) && Apply(frames, f).1.FrameComplete?
    ensures ShapeFault(f).None? && (KeyOf(f) in frames ==> MetadataMatches(frames[KeyOf(f)], f))
    ensures var st := FilledBy(frames, f);
            && MetadataMatches(st, f) && |st.chunks| == st.chunkCount
            && (forall i :: 0 <= i < |st.chunks| ==> st.chunks[i].Some?)
            && |Joined(st.chunks)| == st.totalPayloadLen
            && Apply(frames, f).1.frame == FrameOf(KeyOf(f), st, Joined(st.chunks))
  {
    SlotCounts(FilledBy(frames, f).chunks, 0);
  }

  /** The first `k` chunks of a full state, as the fragments they arrived in. */
  lemma {:induction false} PartsOf(frames: Frames, trace: seq<VideoFrameFragment>, f: VideoFrameFragment, k: nat)
      returns (parts: seq<VideoFrameFragment>)
    requires WellFormed(frames) && HeldChunksArrived(frames, trace) && Apply(frames, f).1.FrameComplete?
    requires k <= f.chunkCount
    ensures |parts| == k
    ensures forall i :: 0 <= i < k ==> PartAt(parts[i], trace + [f], f, i)
    ensures (CompleteFacts(frames, f);
             forall i :: 0 <= i < k ==> FilledBy(frames, f).chunks[i] == Some(parts[i].chunkPayload))
  {
    CompleteFacts(frames, f);
    if k == 0 {
      return [];
    }
    parts := PartsOf(frames, trace, f, k - 1);
    var i, key := k - 1, KeyOf(f);
    if i == f.chunkIndex {
      assert f in trace + [f];
      parts := parts + [f];
    } else {
      assert key in frames && frames[key].chunks[i] == FilledBy(frames, f).chunks[i];
      assert ArrivedAs(frames, trace, key, i);
      var g :| g in trace && KeyOf(g) == key && g.chunkIndex == i && MetadataMatches(frames[key], g)
               && g.chunkPayloadLen == |g.chunkPayload| && frames[key].chunks[i] == Some(g.chunkPayload);
      assert g in trace + [f];
      parts := parts + [g];
    }
  }

  /** `p` arrived, belongs to the frame of `f`, and is its piece number `i`. */
  predicate PartAt(p: VideoFrameFragment, trace: seq<VideoFrameFragment>, f: VideoFrameFragment, i: nat) {
    p in trace && KeyOf(p) == KeyOf(f) && SameMetadata(f, p) && p.chunkIndex == i
    && p.chunkPayloadLen == |p.chunkPayload|
  }

  /**
   * Every frame ever completed, over any sequence of arrivals, is the in-order concatenation of fragments
   * that did arrive, that agree on identity and metadata, and whose sizes add up to the announced total.
   */
  lemma CompletedOnlyFromArrivals(trace: seq<VideoFrameFragment>, f: VideoFrameFragment)
    requires Apply(Run(map[], trace).0, f).1.FrameComplete?
    ensures exists parts ::
              && SplitOf(parts, KeyOf(f)) && (forall p :: p in parts ==> p in trace + [f])
              && Apply(Run(map[], trace).0, f).1.frame == Assembled(parts)
  {
    var frames := Run(map[], trace).0;
    HeldAlways(trace);
    var parts := PartsOf(frames, trace, f, f.chunkCount);
    CompleteFacts(frames, f);
    JoinedAll(FilledBy(frames, f).chunks, Payloads(parts));
    PartsAreSplit(parts, trace + [f], f);
  }

  lemma {:induction false} PartsAreSplit(parts: seq<VideoFrameFragment>, trace: seq<VideoFrameFragment>,
                                         f: VideoFrameFragment)
    requires |parts| == f.chunkCount > 0
    requires forall i :: 0 <= i < |parts| ==> PartAt(parts[i], trace, f, i)
    requires |Flatten(Payloads(parts))| == f.totalPayloadLen
    ensures SplitOf(parts, KeyOf(f)) && (forall p :: p in parts ==> p in trace)
    ensures Assembled(parts) == FrameOf(KeyOf(f), NewState(f), Flatten(Payloads(parts)))
  {
    assert PartAt(parts[0], trace, f, 0);
    forall i | 0 <= i < |parts|
      ensures KeyOf(parts[i]) == KeyOf(f) && SameMetadata(parts[0], parts[i]) && parts[i].chunkIndex == i
              && parts[i].chunkCount == |parts| && parts[i].chunkPayloadLen == |parts[i].chunkPayload|
    {
      assert PartAt(parts[i], trace, f, i);
    }
    forall p | p in parts
      ensures p in trace
    {
      var i :| 0 <= i < |parts| && parts[i] == p;
      assert PartAt(parts[i], trace, f, i);
    }
  }
}
