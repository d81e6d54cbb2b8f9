/**
The server side as it runs: the queue and the reassembly state are objects whose methods update them in place.
Each method is proved to do exactly what `VideoQueue` and `Reassembly` say of its state.
*/
module VideoServer {
  import opened Bytes
  import opened Protocol
  import opened Handoff
  import opened VideoQueue
  import opened HandoffHandler
  import opened Reassembly

  class VideoFrameQueue {
    var framesByClient: map<ClientId, seq<QueuedFrame>>
    var retained: map<seq<byte>, QueuedFrame>

    function Contents(): State
      reads this
    {
      State(framesByClient, retained)
    }

    constructor ()
      ensures Contents() == EMPTY
    {
      framesByClient, retained := map[], map[];
    }

    method StoreFrame(frame: VideoFrame, payloadLen: nat, queuedAt: Timestamp, maxFrames: nat) returns (r: StoreResult)
      modifies this
      ensures (Contents(), r) == Store(old(Contents()), frame, payloadLen, queuedAt, maxFrames)
    {
      hide ValidUtf8, ScopeKey;
      if maxFrames == 0 {
        return CapacityZero;
      }
      var queue := if frame.clientId in framesByClient then framesByClient[frame.clientId] else [];
      var previousLen, dropped := |queue|, None;
      if previousLen >= maxFrames {
        dropped := Some(queue[0]);
        queue := queue[1..];
      }
      var queued := QueuedFrame(frame, payloadLen, queuedAt);
      if frame.isKeyframe {
        retained := retained[ScopeKey(frame.clientId, frame.runId) := queued];
      }
      queue := queue + [queued];
      framesByClient := framesByClient[frame.clientId := queue];
      return Stored(queued, previousLen, |queue|, dropped);
    }

    /** Put back what is left of a client's queue, dropping the client when nothing is. */
    method Keep(clientId: ClientId, queue: seq<QueuedFrame>)
      modifies this`framesByClient
      ensures Contents() == WithQueue(old(Contents()), clientId, queue)
    {
      if queue == [] {
        framesByClient := framesByClient - {clientId};
      } else {
        framesByClient := framesByClient[clientId := queue];
      }
    }

    method PopFrontOf(clientId: ClientId) returns (r: Option<QueuedFrame>)
      modifies this`framesByClient
      ensures (Contents(), r) == PopFront(old(Contents()), clientId)
    {
      hide ValidUtf8, WithQueue;
      if clientId !in framesByClient {
        return None;
      }
      var queue := framesByClient[clientId];
      r := if queue == [] then None else Some(queue[0]);
      Keep(clientId, if queue == [] then [] else queue[1..]);
    }

    /** The position of the first frame of the run, found by looking at one frame after the other. */
    method Position(queue: seq<QueuedFrame>, runId: RunId) returns (i: nat)
      ensures i == FirstOfRun(queue, runId)
    {
      i := 0;
      while i < |queue| && queue[i].frame.runId != runId
        invariant i <= |queue| && FirstOfRun(queue, runId) == i + FirstOfRun(queue[i..], runId)
      {
        i := i + 1;
      }
    }

    method PopFrontOfRun(clientId: ClientId, runId: RunId) returns (r: Option<QueuedFrame>)
      modifies this`framesByClient
      ensures (Contents(), r) == PopRun(old(Contents()), clientId, runId)
    {
      hide ValidUtf8, WithQueue, FirstOfRun;
      if clientId !in framesByClient {
        return None;
      }
      var queue := framesByClient[clientId];
      var i := Position(queue, runId);
      if i == |queue| {
        return None;
      }
      r := Some(queue[i]);
      Keep(clientId, queue[..i] + queue[i + 1..]);
    }

    /** The oldest, the latest and the latest decodable frame of a run, and how many it has, in one pass. */
    method Scan(clientId: ClientId, runId: RunId)
      returns (count: nat, oldest: Option<QueuedFrame>, latest: Option<QueuedFrame>, decodable: Option<QueuedFrame>)
      ensures var inRun := RunFrames(Contents(), clientId, runId);
              && count == |inRun|
              && oldest == (if inRun == [] then None else Some(inRun[0]))
              && latest == Last(inRun)
              && decodable == LastKeyframe(inRun)
    {
      var queue := if clientId in framesByClient then framesByClient[clientId] else [];
      count, oldest, latest, decodable := 0, None, None, None;
      var i := 0;
      while i < |queue|
        invariant i <= |queue|
        invariant var inRun := Filter(InRun(runId), queue[..i]);
                  && count == |inRun|
                  && oldest == (if inRun == [] then None else Some(inRun[0]))
                  && latest == Last(inRun)
                  && decodable == LastKeyframe(inRun)
      {
        var inRun, f := Filter(InRun(runId), queue[..i]), queue[i];
        OneMore(queue, runId, i);
        hide Filter, LastKeyframe, ValidUtf8;
        if f.frame.runId == runId {
          count := count + 1;
          oldest := if oldest.None? then Some(f) else oldest;
          latest := Some(f);
          decodable := if f.frame.isKeyframe then Some(f) else decodable;
        }
        i := i + 1;
      }
      assert queue[..i] == queue;
    }

    method ReadFrame(clientId: ClientId, runId: RunId, mode: ReadMode) returns (r: ReadResult)
      modifies this`framesByClient
      ensures (Contents(), r) == Read(old(Contents()), clientId, runId, mode)
    {
      hide ValidUtf8, RunFrames, LastKeyframe, PopRun;
      var queueLen := if clientId in framesByClient then |framesByClient[clientId]| else 0;
      var runLen, oldest, latest, decodable := Scan(clientId, runId);
      var key := ScopeKey(clientId, runId);
      var kept := if key in retained then Some(retained[key]) else None;
      var keptId := if kept.Some? then Some(kept.value.frame.frameId) else None;
      var chosen, source := None, NoSource;
      match mode {
        case InspectOldest => chosen := oldest;
        case InspectLatest => chosen := latest;
        case InspectLatestDecodable =>
          if decodable.Some? {
            chosen, source := decodable, FromQueue;
          } else if kept.Some? {
            chosen, source := kept, FromRetainedKeyframe;
          }
        case DequeueOldest => chosen := PopFrontOfRun(clientId, runId);
      }
      if chosen.None? {
        return NoFrameAvailable(clientId, runId, queueLen, ReasonFor(mode, queueLen, runLen), NoSource, kept.Some?,
                                keptId);
      }
      var remaining := if clientId in framesByClient then |framesByClient[clientId]| else 0;
      return FrameAvailable(chosen.value, mode, remaining, source, kept.Some?, keptId);
    }

    method HandleRequest(request: Request) returns (r: Response)
      requires Inv(Contents()) && Countable(Contents())
      modifies this`framesByClient
      ensures (Contents(), r) == Handle(old(Contents()), request)
    {
      hide Read, Blank, Inv, Countable;
      if Blank(request.clientId) || Blank(request.runId) {
        return HandoffError(request.requestId, InvalidScope);
      }
      ReadIsCountable(Contents(), request.clientId, request.runId, request.readMode);
      var result := ReadFrame(request.clientId, request.runId, request.readMode);
      return Answer(request, result);
    }
  }

  lemma OneMore(queue: seq<QueuedFrame>, runId: RunId, i: nat)
    requires i < |queue|
    ensures var before, after := Filter(InRun(runId), queue[..i]), Filter(InRun(runId), queue[..i + 1]);
            && after == before + (if queue[i].frame.runId == runId then [queue[i]] else [])
            && LastKeyframe(after)
               == if queue[i].frame.runId == runId && queue[i].frame.isKeyframe
                  then Some(queue[i]) else LastKeyframe(before)
  {
    var before, f := Filter(InRun(runId), queue[..i]), queue[i];
    assert queue[..i + 1][..i] == queue[..i];
    FilterOne((q: QueuedFrame) => q.frame.isKeyframe, f);
    LastKeyframeOf(before, [f]);
    LastKeyframeOf(before, []);
  }

  // ---------- reassembly ----------

  class FrameReassembly {
    var frames: Frames

    constructor ()
      ensures frames == map[] && WellFormed(frames)
    {
      frames := map[];
    }

    /** The payload of a frame, chunk after chunk. */
    method ReassemblePayload(chunks: seq<Option<seq<byte>>>) returns (payload: seq<byte>)
      ensures payload == Joined(chunks)
    {
      payload := [];
      var i := 0;
      while i < |chunks|
        invariant i <= |chunks| && payload + Joined(chunks[i..]) == Joined(chunks)
      {
        if chunks[i].Some? {
          payload := payload + chunks[i].value;
        }
        assert chunks[i..][1..] == chunks[i + 1..];
        i := i + 1;
      }
    }

    /** One fragment; a frame it completes leaves the reassembly state and goes to the queue. */
    method ApplyFragment(queue: VideoFrameQueue, f: VideoFrameFragment, queuedAt: Timestamp, maxFrames: nat)
      returns (out: Outcome, stored: Option<StoreResult>)
      requires WellFormed(frames)
      modifies this, queue
      ensures WellFormed(frames) && (frames, out) == Apply(old(frames), f)
      ensures !out.FrameComplete? ==> stored.None? && queue.Contents() == old(queue.Contents())
      ensures out.FrameComplete? ==>
                stored.Some? &&
                (queue.Contents(), stored.value)
                == Store(old(queue.Contents()), out.frame, |out.frame.payload|, queuedAt, maxFrames)
    {
      hide Store, ValidUtf8, Received, MissingFrom, Joined;
      stored := None;
      var key := KeyOf(f);
      if ShapeFault(f).Some? {
        return RejectedFragment(Summary(key, 0, [], false, ShapeFault(f), 0)), None;
      }
      var st := if key in frames then frames[key] else NewState(f);
      if !MetadataMatches(st, f) {
        return RejectedFragment(SummaryOf(key, st, false, Some(MetadataMismatch))), None;
      }
      if st.chunks[f.chunkIndex].Some? {
        st := st.(duplicateCount := st.duplicateCount + 1);
        frames := frames[key := st];
        return DuplicateFragmentIgnored(SummaryOf(key, st, false, None)), None;
      }
      st := st.(chunks := st.chunks[f.chunkIndex := Some(f.chunkPayload)]);
      frames := frames[key := st];
      if !IsComplete(st) {
        return FragmentStored(SummaryOf(key, st, false, None)), None;
      }
      var payload := ReassemblePayload(st.chunks);
      if |payload| != st.totalPayloadLen {
        return RejectedFragment(SummaryOf(key, st, false, Some(ReassembledPayloadLenMismatch))), None;
      }
      var frame := FrameOf(key, st, payload);
      var result := queue.StoreFrame(frame, |payload|, queuedAt, maxFrames);
      frames := frames - {key};
      assert frames == old(frames) - {key};
      return FrameComplete(SummaryOf(key, st, true, None), frame), Some(result);
    }
  }
}
