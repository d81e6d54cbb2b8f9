/**
When a frame is completed at all, over every sequence of arrivals: fragments of one key may repeat, contradict each
other and lie about sizes, and fragments of other frames come in between.
*/
module FirstCompletion {
  import opened Bytes
  import opened Protocol
  import opened Reassembly

  /** A fragment of this key that passes the checks on its own shape. */
  predicate Shaped(f: VideoFrameFragment, key: Key) {
    KeyOf(f) == key && ShapeFault(f).None?
  }

  /** The first such fragment: it fixes metadata, number of chunks and total length for the key. */
  function Opening(trace: seq<VideoFrameFragment>, key: Key): (o: Option<VideoFrameFragment>)
    ensures o.Some? ==> Shaped(o.value, key) && o.value in trace
    decreases |trace|
  {
    if trace == [] then None else
    var before, f := Opening(trace[..|trace| - 1], key), trace[|trace| - 1];
    if before.Some? then before else if Shaped(f, key) then Some(f) else None
  }

  /** The first chunk of index `i` that agrees with the opening fragment. */
  function FirstChunk(trace: seq<VideoFrameFragment>, key: Key, i: nat): Option<seq<byte>>
    decreases |trace|
  {
    if trace == [] then None else
    var before, f, o := FirstChunk(trace[..|trace| - 1], key, i), trace[|trace| - 1], Opening(trace, key);
    if before.Some? then before
    else if o.Some? && Shaped(f, key) && f.chunkIndex == i && SameMetadata(o.value, f)
    then Some(f.chunkPayload) else None
  }

  /** The first chunks, index by index. */
  function Slots(trace: seq<VideoFrameFragment>, key: Key): (slots: seq<Option<seq<byte>>>)
    requires Opening(trace, key).Some?
    ensures |slots| == Opening(trace, key).value.chunkCount
    ensures forall i :: 0 <= i < |slots| ==> slots[i] == FirstChunk(trace, key, i)
  {
    seq(Opening(trace, key).value.chunkCount, i requires 0 <= i => FirstChunk(trace, key, i))
  }

  /** How many arrivals repeat a chunk that came before. */
  function Repeats(trace: seq<VideoFrameFragment>, key: Key): nat
    decreases |trace|
  {
    if trace == [] then 0 else
    var before, f := trace[..|trace| - 1], trace[|trace| - 1];
    Repeats(before, key) + if IsRepeat(before, f, key) then 1 else 0
  }

  /** A well-shaped fragment that agrees with the opening one, for an index that has come already. */
  predicate IsRepeat(before: seq<VideoFrameFragment>, f: VideoFrameFragment, key: Key) {
    var o := Opening(before, key);
    Shaped(f, key) && o.Some? && SameMetadata(o.value, f) && FirstChunk(before, key, f.chunkIndex).Some?
  }

  predicate Full(slots: seq<Option<seq<byte>>>) {
    forall i :: 0 <= i < |slots| ==> slots[i].Some?
  }

  /** Every index has come, and the first chunks have the announced total length. */
  predicate Completes(trace: seq<VideoFrameFragment>, key: Key) {
    && Opening(trace, key).Some?
    && Full(Slots(trace, key))
    && |Joined(Slots(trace, key))| == Opening(trace, key).value.totalPayloadLen
  }

  /** The frame the first chunks make. */
  function FirstFrame(trace: seq<VideoFrameFragment>, key: Key): VideoFrame
    requires Opening(trace, key).Some?
  {
    FrameOf(key, NewState(Opening(trace, key).value), Joined(Slots(trace, key)))
  }

  /** The state of the key says exactly which fragments came first. */
  ghost predicate Tracked(frames: Frames, trace: seq<VideoFrameFragment>, key: Key) {
    match Opening(trace, key)
    case None => key !in frames
    case Some(o) =>
      && key in frames && MetadataMatches(frames[key], o) && frames[key].chunks == Slots(trace, key)
      && frames[key].duplicateCount == Repeats(trace, key)
  }

  // ---------- one more arrival ----------

  lemma {:induction false} OpeningStep(t: seq<VideoFrameFragment>, f: VideoFrameFragment, key: Key)
    ensures Opening(t + [f], key)
         == if Opening(t, key).Some? then Opening(t, key) else if Shaped(f, key) then Some(f) else None
  {
    assert (t + [f])[..|t + [f]| - 1] == t;
  }

  lemma {:induction false} ChunkStep(t: seq<VideoFrameFragment>, f: VideoFrameFragment, key: Key, i: nat)
    ensures FirstChunk(t + [f], key, i)
         == if FirstChunk(t, key, i).Some? then FirstChunk(t, key, i)
            else if Opening(t + [f], key).Some? && Shaped(f, key) && f.chunkIndex == i
                    && SameMetadata(Opening(t + [f], key).value, f) then Some(f.chunkPayload) else None
  {
    assert (t + [f])[..|t + [f]| - 1] == t;
  }

  lemma {:induction false} RepeatStep(t: seq<VideoFrameFragment>, f: VideoFrameFragment, key: Key)
    ensures Repeats(t + [f], key) == Repeats(t, key) + if IsRepeat(t, f, key) then 1 else 0
  {
    assert (t + [f])[..|t + [f]| - 1] == t;
  }

  lemma {:induction false} NoRepeatBeforeOpening(t: seq<VideoFrameFragment>, key: Key)
    requires Opening(t, key).None?
    ensures Repeats(t, key) == 0
    decreases |t|
  {
    if t != [] {
      NoRepeatBeforeOpening(t[..|t| - 1], key);
    }
  }

  lemma {:induction false} NothingBeforeOpening(t: seq<VideoFrameFragment>, key: Key, i: nat)
    requires Opening(t, key).None?
    ensures FirstChunk(t, key, i).None?
    decreases |t|
  {
    if t != [] {
      NothingBeforeOpening(t[..|t| - 1], key, i);
    }
  }

  /** A fragment that is not taken changes nothing of what came first. */
  lemma {:induction false} SlotsKept(t: seq<VideoFrameFragment>, f: VideoFrameFragment, key: Key)
    requires Opening(t, key).Some?
    requires var o := Opening(t, key).value;
             !Shaped(f, key) || !SameMetadata(o, f) || FirstChunk(t, key, f.chunkIndex).Some?
    ensures Opening(t + [f], key) == Opening(t, key) && Slots(t + [f], key) == Slots(t, key)
  {
    hide Opening, FirstChunk, SameMetadata, Shaped;
    OpeningStep(t, f, key);
    forall i | 0 <= i < |Slots(t, key)|
      ensures Slots(t + [f], key)[i] == Slots(t, key)[i]
    {
      ChunkStep(t, f, key, i);
    }
  }

  /** A fragment that is taken fills its slot. */
  lemma {:induction false} SlotFilled(t: seq<VideoFrameFragment>, f: VideoFrameFragment, key: Key)
    requires Opening(t, key).Some? && Shaped(f, key)
    requires SameMetadata(Opening(t, key).value, f) && FirstChunk(t, key, f.chunkIndex).None?
    requires f.chunkIndex < Opening(t, key).value.chunkCount
    ensures Opening(t + [f], key) == Opening(t, key)
    ensures Slots(t + [f], key) == Slots(t, key)[f.chunkIndex := Some(f.chunkPayload)]
  {
    hide Opening, FirstChunk, SameMetadata, Shaped;
    OpeningStep(t, f, key);
    forall i | 0 <= i < |Slots(t, key)|
      ensures Slots(t + [f], key)[i] == Slots(t, key)[f.chunkIndex := Some(f.chunkPayload)][i]
    {
      ChunkStep(t, f, key, i);
    }
  }

  /** The opening fragment fills its own slot and no other. */
  lemma {:induction false} SlotOpened(t: seq<VideoFrameFragment>, f: VideoFrameFragment, key: Key)
    requires Opening(t, key).None? && Shaped(f, key) && f.chunkIndex < f.chunkCount
    ensures Opening(t + [f], key) == Some(f)
    ensures Slots(t + [f], key) == NewState(f).chunks[f.chunkIndex := Some(f.chunkPayload)]
  {
    hide Opening, FirstChunk, Shaped;
    OpeningStep(t, f, key);
    forall i | 0 <= i < |Slots(t + [f], key)|
      ensures Slots(t + [f], key)[i] == NewState(f).chunks[f.chunkIndex := Some(f.chunkPayload)][i]
    {
      ChunkStep(t, f, key, i);
      NothingBeforeOpening(t, key, i);
    }
  }

  /** Once completed, what came first never changes again. */
  lemma {:induction false} CompletesStays(t: seq<VideoFrameFragment>, f: VideoFrameFragment, key: Key)
    requires Opening(t, key).Some? && Full(Slots(t, key))
    ensures Opening(t + [f], key) == Opening(t, key) && Slots(t + [f], key) == Slots(t, key)
  {
    hide Opening, FirstChunk;
    OpeningStep(t, f, key);
    forall i | 0 <= i < |Slots(t, key)|
      ensures Slots(t + [f], key)[i] == Slots(t, key)[i]
    {
      ChunkStep(t, f, key, i);
      assert Slots(t, key)[i].Some?;
    }
  }

  // ---------- the state machine agrees ----------

  lemma {:induction false} MetadataCarries(st: FrameState, o: VideoFrameFragment, f: VideoFrameFragment)
    requires MetadataMatches(st, o)
    ensures MetadataMatches(st, f) <==> SameMetadata(o, f)
  {
  }

  lemma {:induction false} CompleteIffFull(st: FrameState)
    requires |st.chunks| == st.chunkCount
    ensures IsComplete(st) <==> Full(st.chunks)
  {
    SlotCounts(st.chunks, 0);
  }

  /** What one arrival does, in terms of what came first. */
  ghost predicate Stepped(frames: Frames, t: seq<VideoFrameFragment>, f: VideoFrameFragment, key: Key)
    requires WellFormed(frames)
  {
    var (frames', out) := Apply(frames, f);
    if Completes(t + [f], key)
    then KeyOf(f) == key && out.FrameComplete? && out.frame == FirstFrame(t + [f], key)
    else Tracked(frames', t + [f], key) && (KeyOf(f) == key ==> !out.FrameComplete?)
  }

  /** A fragment that is not of this key, is malformed, or contradicts or repeats what came first. */
  lemma {:induction false} IgnoredStep(frames: Frames, t: seq<VideoFrameFragment>, f: VideoFrameFragment, key: Key)
    requires WellFormed(frames) && Tracked(frames, t, key) && !Completes(t, key)
    requires Shaped(f, key) ==>
               Opening(t, key).Some? &&
               (!SameMetadata(Opening(t, key).value, f) || FirstChunk(t, key, f.chunkIndex).Some?)
    ensures Stepped(frames, t, f, key)
  {
    hide Opening, FirstChunk, Repeats, Joined, Received, MissingFrom;
    OpeningStep(t, f, key);
    RepeatStep(t, f, key);
    if Opening(t, key).Some? {
      SlotsKept(t, f, key);
      MetadataCarries(frames[key], Opening(t, key).value, f);
    }
    if KeyOf(f) != key {
      OtherKeysUntouched(frames, f, key);
    }
  }

  /** The slot of a fragment that is taken, filled in the state. */
  lemma {:induction false} TakenStep(frames: Frames, t: seq<VideoFrameFragment>, f: VideoFrameFragment, key: Key,
                                     st: FrameState)
    requires WellFormed(frames) && Shaped(f, key)
    requires st == if key in frames then frames[key] else NewState(f)
    requires MetadataMatches(st, f) && |st.chunks| == st.chunkCount && st.chunks[f.chunkIndex].None?
    requires Opening(t + [f], key).Some? && MetadataMatches(st, Opening(t + [f], key).value)
    requires Slots(t + [f], key) == st.chunks[f.chunkIndex := Some(f.chunkPayload)]
    requires st.duplicateCount == Repeats(t + [f], key)
    ensures Stepped(frames, t, f, key)
  {
    hide Opening, FirstChunk, Repeats, Joined, Received, MissingFrom, Slots;
    var filled := st.(chunks := st.chunks[f.chunkIndex := Some(f.chunkPayload)]);
    CompleteIffFull(filled);
  }

  lemma {:induction false} ArrivalOf(frames: Frames, t: seq<VideoFrameFragment>, f: VideoFrameFragment, key: Key)
    requires WellFormed(frames) && Tracked(frames, t, key) && !Completes(t, key)
    ensures Stepped(frames, t, f, key)
  {
    hide Opening, FirstChunk, Repeats, Joined, Received, MissingFrom, Stepped, Completes;
    if !Shaped(f, key) {
      IgnoredStep(frames, t, f, key);
    } else if Opening(t, key).None? {
      SlotOpened(t, f, key);
      NoRepeatBeforeOpening(t, key);
      RepeatStep(t, f, key);
      TakenStep(frames, t, f, key, NewState(f));
    } else {
      var o := Opening(t, key).value;
      MetadataCarries(frames[key], o, f);
      if !SameMetadata(o, f) || FirstChunk(t, key, f.chunkIndex).Some? {
        IgnoredStep(frames, t, f, key);
      } else {
        SlotFilled(t, f, key);
        RepeatStep(t, f, key);
        TakenStep(frames, t, f, key, frames[key]);
      }
    }
  }

  // ---------- whole runs ----------

  /** The first frame completed for the key so far, or else the state it is in. */
  ghost predicate Decided(start: Frames, trace: seq<VideoFrameFragment>, key: Key)
    requires WellFormed(start)
  {
    var (frames, outs) := Run(start, trace);
    if Completes(trace, key)
    then Emitted(outs, key) != [] && Emitted(outs, key)[0] == FirstFrame(trace, key)
    else Emitted(outs, key) == [] && Tracked(frames, trace, key)
  }

  lemma {:induction false} DecidedStep(start: Frames, t: seq<VideoFrameFragment>, f: VideoFrameFragment, key: Key)
    requires WellFormed(start) && Decided(start, t, key)
    ensures Decided(start, t + [f], key)
  {
    RunSnoc(start, t, f, key);
    SummaryKey(Run(start, t).0, f);
    hide Run, Apply, Opening, FirstChunk, Slots, Full, Joined, Emitted, Tracked;
    if Completes(t, key) {
      CompletesStays(t, f, key);
    } else {
      ArrivalOf(Run(start, t).0, t, f, key);
    }
  }

  lemma {:induction false} AlwaysDecided(start: Frames, trace: seq<VideoFrameFragment>, key: Key)
    requires WellFormed(start) && key !in start
    ensures Decided(start, trace, key)
    decreases |trace|
  {
    if trace != [] {
      var n := |trace| - 1;
      AlwaysDecided(start, trace[..n], key);
      DecidedStep(start, trace[..n], trace[n], key);
      assert trace == trace[..n] + [trace[n]];
    }
    hide Apply, Joined;
  }

  /**
   * The exact delivery condition. Take any arrivals at all. A key that was not yet tracked is completed, once or more,
   * exactly when, for its first well-shaped fragment, every index announced there has come with that metadata, and
   * the first chunks to come add up to the total announced there. The first frame completed consists of those chunks.
   */
  lemma {:induction false} CompletedIff(start: Frames, trace: seq<VideoFrameFragment>, key: Key)
    requires WellFormed(start) && key !in start
    ensures Emitted(Run(start, trace).1, key) != [] <==> Completes(trace, key)
    ensures Completes(trace, key) ==> Emitted(Run(start, trace).1, key)[0] == FirstFrame(trace, key)
  {
    AlwaysDecided(start, trace, key);
    hide Run, Emitted, Completes, FirstFrame, Tracked;
  }

  lemma {:induction false} StaysFull(trace: seq<VideoFrameFragment>, more: seq<VideoFrameFragment>, key: Key)
    requires Opening(trace, key).Some? && Full(Slots(trace, key))
    ensures Opening(trace + more, key) == Opening(trace, key) && Slots(trace + more, key) == Slots(trace, key)
    decreases |more|
  {
    hide Opening, Slots, Full;
    if more == [] {
      assert trace + more == trace;
    } else {
      var n := |more| - 1;
      StaysFull(trace, more[..n], key);
      CompletesStays(trace + more[..n], more[n], key);
      assert trace + more == (trace + more[..n]) + [more[n]];
    }
  }

  /**
   * The other end of it: a key whose slots are all filled, but with the wrong total, is never completed any more,
   * whatever arrives later, and stays in the state for ever.
   */
  lemma {:induction false} StuckForever(start: Frames, trace: seq<VideoFrameFragment>, more: seq<VideoFrameFragment>,
                                        key: Key)
    requires WellFormed(start) && key !in start
    requires Opening(trace, key).Some? && Full(Slots(trace, key)) && !Completes(trace, key)
    ensures Emitted(Run(start, trace + more).1, key) == []
    ensures var frames := Run(start, trace + more).0;
            key in frames && frames[key].chunks == Slots(trace, key)
  {
    StaysFull(trace, more, key);
    AlwaysDecided(start, trace + more, key);
    hide Run, Emitted, Opening, Slots, Full, Joined;
  }

  /** It takes no more than one fragment that announces a total which is not its own length. */
  lemma OneWrongChunk(f: VideoFrameFragment)
    requires ShapeFault(f).None? && f.chunkCount == 1 && f.totalPayloadLen != |f.chunkPayload|
    ensures Opening([f], KeyOf(f)).Some? && Full(Slots([f], KeyOf(f))) && !Completes([f], KeyOf(f))
  {
    SlotOpened([], f, KeyOf(f));
    assert [] + [f] == [f];
    assert Slots([f], KeyOf(f)) == [Some(f.chunkPayload)];
    assert [Some(f.chunkPayload)][1..] == [];
    assert Joined([Some(f.chunkPayload)]) == f.chunkPayload + [];
  }

  // ---------- what is reported ----------

  /** The progress a summary gives is that of the first chunks that have come. */
  ghost predicate Accounts(s: Summary, trace: seq<VideoFrameFragment>, key: Key)
    requires Opening(trace, key).Some?
  {
    var count := Opening(trace, key).value.chunkCount;
    && s.key == key && s.fragmentsReceived + |s.fragmentsMissing| == count
    && (forall i: nat :: i in s.fragmentsMissing <==> i < count && FirstChunk(trace, key, i).None?)
    && (forall a, b :: 0 <= a < b < |s.fragmentsMissing| ==> s.fragmentsMissing[a] < s.fragmentsMissing[b])
    && s.duplicateCount == Repeats(trace, key)
  }

  /** The report on a fragment of its own shape alone: it names the first check that fails. */
  predicate ShapeReport(f: VideoFrameFragment, out: Outcome) {
    out == RejectedFragment(Summary(KeyOf(f), 0, [], false, Some(
      if f.chunkCount == 0 then ChunkCountZero
      else if f.chunkIndex >= f.chunkCount then ChunkIndexOutOfRange
      else ChunkPayloadLenMismatch), 0))
  }

  /** What is reported of fragment `f` after `t`. */
  ghost predicate Reported(t: seq<VideoFrameFragment>, f: VideoFrameFragment, out: Outcome) {
    var key, after := KeyOf(f), t + [f];
    if f.chunkCount == 0 || f.chunkIndex >= f.chunkCount || f.chunkPayloadLen != |f.chunkPayload|
    then ShapeReport(f, out) else
    && Opening(after, key).Some? && Accounts(out.summary, after, key)
    && (out.summary.completedFrameQueued <==> out.FrameComplete?)
    && if !SameMetadata(Opening(after, key).value, f)
       then out.RejectedFragment? && out.summary.rejectedFragmentReason == Some(MetadataMismatch)
       else if FirstChunk(t, key, f.chunkIndex).Some?
       then out.DuplicateFragmentIgnored? && out.summary.rejectedFragmentReason == None
       else if !Full(Slots(after, key))
       then out.FragmentStored? && out.summary.rejectedFragmentReason == None
       else if |Joined(Slots(after, key))| != Opening(after, key).value.totalPayloadLen
       then out.RejectedFragment? && out.summary.rejectedFragmentReason == Some(ReassembledPayloadLenMismatch)
       else out.FrameComplete? && out.summary.rejectedFragmentReason == None
  }

  lemma {:induction false} SummaryAccounts(trace: seq<VideoFrameFragment>, key: Key, st: FrameState, queued: bool,
                                           reason: Option<RejectReason>)
    requires Opening(trace, key).Some? && st.chunks == Slots(trace, key) && st.duplicateCount == Repeats(trace, key)
    ensures Accounts(SummaryOf(key, st, queued, reason), trace, key)
  {
    hide Opening, FirstChunk, Repeats;
    SlotCounts(st.chunks, 0);
    MissingExactly(st.chunks, 0);
  }

  lemma {:induction false} TakenReport(frames: Frames, t: seq<VideoFrameFragment>, f: VideoFrameFragment,
                                       st: FrameState)
    requires WellFormed(frames) && Shaped(f, KeyOf(f)) && FirstChunk(t, KeyOf(f), f.chunkIndex).None?
    requires st == if KeyOf(f) in frames then frames[KeyOf(f)] else NewState(f)
    requires MetadataMatches(st, f) && |st.chunks| == st.chunkCount && st.chunks[f.chunkIndex].None?
    requires var o := Opening(t + [f], KeyOf(f)); o.Some? && MetadataMatches(st, o.value) && SameMetadata(o.value, f)
    requires Slots(t + [f], KeyOf(f)) == st.chunks[f.chunkIndex := Some(f.chunkPayload)]
    requires st.duplicateCount == Repeats(t + [f], KeyOf(f))
    ensures Reported(t, f, Apply(frames, f).1)
  {
    hide Opening, FirstChunk, Repeats, Joined, Received, MissingFrom, Slots, Accounts, SummaryOf;
    var key, filled := KeyOf(f), st.(chunks := st.chunks[f.chunkIndex := Some(f.chunkPayload)]);
    CompleteIffFull(filled);
    SummaryAccounts(t + [f], key, filled, false, None);
    SummaryAccounts(t + [f], key, filled, false, Some(ReassembledPayloadLenMismatch));
    SummaryAccounts(t + [f], key, filled, true, None);
    SummarySays(key, filled);
  }

  lemma SummarySays(key: Key, st: FrameState)
    ensures forall queued, reason :: SummaryOf(key, st, queued, reason).completedFrameQueued == queued
    ensures forall queued, reason :: SummaryOf(key, st, queued, reason).rejectedFragmentReason == reason
  {
  }

  lemma {:induction false} IgnoredReport(frames: Frames, t: seq<VideoFrameFragment>, f: VideoFrameFragment)
    requires WellFormed(frames) && Tracked(frames, t, KeyOf(f)) && Shaped(f, KeyOf(f)) && Opening(t, KeyOf(f)).Some?
    requires !SameMetadata(Opening(t, KeyOf(f)).value, f) || FirstChunk(t, KeyOf(f), f.chunkIndex).Some?
    ensures Reported(t, f, Apply(frames, f).1)
  {
    hide Opening, FirstChunk, Repeats, Joined, Received, MissingFrom, Accounts, SummaryOf;
    var key := KeyOf(f);
    var o, st := Opening(t, key).value, frames[key];
    MetadataCarries(st, o, f);
    SlotsKept(t, f, key);
    RepeatStep(t, f, key);
    if SameMetadata(o, f) {
      var again := st.(duplicateCount := st.duplicateCount + 1);
      SummaryAccounts(t + [f], key, again, false, None);
      SummarySays(key, again);
    } else {
      SummaryAccounts(t + [f], key, st, false, Some(MetadataMismatch));
      SummarySays(key, st);
    }
  }

  lemma {:induction false} ReportOf(frames: Frames, t: seq<VideoFrameFragment>, f: VideoFrameFragment)
    requires WellFormed(frames) && Tracked(frames, t, KeyOf(f))
    ensures Reported(t, f, Apply(frames, f).1)
  {
    hide Opening, FirstChunk, Repeats, Joined, Received, MissingFrom, Accounts, Full;
    var key := KeyOf(f);
    if Shaped(f, key) {
      if Opening(t, key).None? {
        SlotOpened(t, f, key);
        NoRepeatBeforeOpening(t, key);
        NothingBeforeOpening(t, key, f.chunkIndex);
        RepeatStep(t, f, key);
        TakenReport(frames, t, f, NewState(f));
      } else {
        var o := Opening(t, key).value;
        MetadataCarries(frames[key], o, f);
        if !SameMetadata(o, f) || FirstChunk(t, key, f.chunkIndex).Some? {
          IgnoredReport(frames, t, f);
        } else {
          SlotFilled(t, f, key);
          RepeatStep(t, f, key);
          TakenReport(frames, t, f, frames[key]);
        }
      }
    }
  }

  /**
   * What every arrival reports, over every run, until its key is completed: the first of its own checks that fails,
   * or else the exact progress of the key and whether the fragment contradicts, repeats, adds, ends with the wrong
   * total, or completes.
   */
  lemma {:induction false} ReportsExact(start: Frames, trace: seq<VideoFrameFragment>, f: VideoFrameFragment)
    requires WellFormed(start) && KeyOf(f) !in start && !Completes(trace, KeyOf(f))
    ensures Reported(trace, f, Apply(Run(start, trace).0, f).1)
  {
    AlwaysDecided(start, trace, KeyOf(f));
    hide Run, Apply, Emitted, Completes, Tracked, Reported;
    ReportOf(Run(start, trace).0, trace, f);
  }
}
