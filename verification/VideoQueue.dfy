/**
The server's video queue: per client a short bounded queue that drops its oldest frame, read by client and run,
and one retained keyframe for every scope. The theorems are about every sequence of stores, reads and pops.
*/
module VideoQueue {
  import opened Bytes
  import opened Protocol
  import opened Handoff

  /** `payloadLen` is what the storing caller declared, not necessarily the length of the payload. */
  datatype QueuedFrame = QueuedFrame(frame: VideoFrame, payloadLen: nat, queuedAt: Timestamp)

  datatype State = State(frames: map<ClientId, seq<QueuedFrame>>, retained: map<seq<byte>, QueuedFrame>)

  datatype StoreResult =
    | Stored(queued: QueuedFrame, previousLen: nat, currentLen: nat, droppedOldest: Option<QueuedFrame>)
    | CapacityZero

  datatype ReadResult =
    | FrameAvailable(
        frame: QueuedFrame,
        mode: ReadMode,
        remainingLen: nat,
        source: DecodableSource,
        retainedAvailable: bool,
        retainedFrameId: Option<u64>)
    | NoFrameAvailable(
        clientId: ClientId,
        runId: RunId,
        queueLen: nat,
        reason: NoFrameReason,
        source: DecodableSource,
        retainedAvailable: bool,
        retainedFrameId: Option<u64>)

  const SLASH: byte := 0x2F

  /** `"{client}/{run}"`. */
  function ScopeKey(clientId: ClientId, runId: RunId): seq<byte> {
    clientId + [SLASH] + runId
  }

  function KeyOfFrame(q: QueuedFrame): seq<byte> {
    ScopeKey(q.frame.clientId, q.frame.runId)
  }

  function Queue(s: State, clientId: ClientId): seq<QueuedFrame> {
    if clientId in s.frames then s.frames[clientId] else []
  }

  function Filter(p: QueuedFrame -> bool, q: seq<QueuedFrame>): seq<QueuedFrame> {
    if q == [] then [] else Filter(p, q[..|q| - 1]) + if p(q[|q| - 1]) then [q[|q| - 1]] else []
  }

  function InRun(runId: RunId): QueuedFrame -> bool {
    (q: QueuedFrame) => q.frame.runId == runId
  }

  /** `frames_for_client_run`. */
  function RunFrames(s: State, clientId: ClientId, runId: RunId): seq<QueuedFrame> {
    Filter(InRun(runId), Queue(s, clientId))
  }

  function Last(q: seq<QueuedFrame>): Option<QueuedFrame> {
    if q == [] then None else Some(q[|q| - 1])
  }

  function LastKeyframe(q: seq<QueuedFrame>): Option<QueuedFrame> {
    Last(Filter((f: QueuedFrame) => f.frame.isKeyframe, q))
  }

  function Retained(s: State, clientId: ClientId, runId: RunId): Option<QueuedFrame> {
    if ScopeKey(clientId, runId) in s.retained then Some(s.retained[ScopeKey(clientId, runId)]) else None
  }

  // ---------- operations ----------

  function Store(s: State, frame: VideoFrame, payloadLen: nat, queuedAt: Timestamp, maxFrames: nat)
    : (State, StoreResult)
  {
    if maxFrames == 0 then (s, CapacityZero) else
    var queue := Queue(s, frame.clientId);
    var dropped := if |queue| >= maxFrames then Some(queue[0]) else None;
    var queued := QueuedFrame(frame, payloadLen, queuedAt);
    var kept := (if dropped.Some? then queue[1..] else queue) + [queued];
    (State(s.frames[frame.clientId := kept],
           if frame.isKeyframe then s.retained[KeyOfFrame(queued) := queued] else s.retained),
     Stored(queued, |queue|, |kept|, dropped))
  }

  /** An emptied queue is removed from the map. */
  function WithQueue(s: State, clientId: ClientId, queue: seq<QueuedFrame>): State {
    s.(frames := if queue == [] then s.frames - {clientId} else s.frames[clientId := queue])
  }

  function PopFront(s: State, clientId: ClientId): (State, Option<QueuedFrame>) {
    var queue := Queue(s, clientId);
    if clientId !in s.frames then (s, None)
    else if queue == [] then (WithQueue(s, clientId, []), None)
    else (WithQueue(s, clientId, queue[1..]), Some(queue[0]))
  }

  /** The position of the first frame of the run, or the length. */
  function FirstOfRun(q: seq<QueuedFrame>, runId: RunId): (i: nat)
    ensures i <= |q| && (i < |q| ==> q[i].frame.runId == runId)
    ensures forall j :: 0 <= j < i ==> q[j].frame.runId != runId
  {
    if q == [] || q[0].frame.runId == runId then 0 else 1 + FirstOfRun(q[1..], runId)
  }

  function PopRun(s: State, clientId: ClientId, runId: RunId): (State, Option<QueuedFrame>) {
    var queue := Queue(s, clientId);
    var i := FirstOfRun(queue, runId);
    if i == |queue| then (s, None) else (WithQueue(s, clientId, queue[..i] + queue[i + 1..]), Some(queue[i]))
  }

  /** The state after choosing, the frame chosen, and where a decodable frame came from. */
  function Choose(s: State, clientId: ClientId, runId: RunId, mode: ReadMode)
    : (State, Option<QueuedFrame>, DecodableSource)
  {
    var inRun := RunFrames(s, clientId, runId);
    match mode
    case InspectOldest => (s, if inRun == [] then None else Some(inRun[0]), NoSource)
    case InspectLatest => (s, Last(inRun), NoSource)
    case InspectLatestDecodable =>
      if LastKeyframe(inRun).Some? then (s, LastKeyframe(inRun), FromQueue)
      else if Retained(s, clientId, runId).Some? then (s, Retained(s, clientId, runId), FromRetainedKeyframe)
      else (s, None, NoSource)
    case DequeueOldest =>
      var (s', popped) := PopRun(s, clientId, runId); (s', popped, NoSource)
  }

  function ReasonFor(mode: ReadMode, clientLen: nat, runLen: nat): NoFrameReason {
    if clientLen == 0 then NoFramesQueuedForClient
    else if runLen == 0 then NoFramesQueuedForRequestedRun
    else if mode == InspectLatestDecodable then NoDecodableFrameAvailable
    else NoFramesQueuedForRequestedRun
  }

  function Read(s: State, clientId: ClientId, runId: RunId, mode: ReadMode): (State, ReadResult) {
    var retained := Retained(s, clientId, runId);
    var id := if retained.Some? then Some(retained.value.frame.frameId) else None;
    var (s', chosen, source) := Choose(s, clientId, runId, mode);
    (s', match chosen
         case Some(frame) => FrameAvailable(frame, mode, |Queue(s', clientId)|, source, retained.Some?, id)
         case None =>
           NoFrameAvailable(clientId, runId, |Queue(s, clientId)|,
                            ReasonFor(mode, |Queue(s, clientId)|, |RunFrames(s, clientId, runId)|),
                            NoSource, retained.Some?, id))
  }

  // ---------- filters ----------

  lemma {:induction false} FilterSplit(p: QueuedFrame -> bool, a: seq<QueuedFrame>, b: seq<QueuedFrame>)
    ensures Filter(p, a + b) == Filter(p, a) + Filter(p, b)
    decreases |b|
  {
    if b == [] {
      assert a + b == a;
    } else {
      var n := |b| - 1;
      assert (a + b)[..|a + b| - 1] == a + b[..n];
      FilterSplit(p, a, b[..n]);
    }
  }

  lemma FilterOne(p: QueuedFrame -> bool, f: QueuedFrame)
    ensures Filter(p, [f]) == if p(f) then [f] else []
  {
    assert [f][..0] == [];
  }

  lemma {:induction false} FilterNone(p: QueuedFrame -> bool, q: seq<QueuedFrame>)
    requires forall i :: 0 <= i < |q| ==> !p(q[i])
    ensures Filter(p, q) == []
    decreases |q|
  {
    if q != [] {
      FilterNone(p, q[..|q| - 1]);
    }
  }

  lemma {:induction false} FilterAgree(p: QueuedFrame -> bool, p': QueuedFrame -> bool, q: seq<QueuedFrame>)
    requires forall i :: 0 <= i < |q| ==> p(q[i]) == p'(q[i])
    ensures Filter(p, q) == Filter(p', q)
    decreases |q|
  {
    if q != [] {
      FilterAgree(p, p', q[..|q| - 1]);
    }
  }

  lemma {:induction false} FilterHolds(p: QueuedFrame -> bool, q: seq<QueuedFrame>, i: nat)
    requires i < |Filter(p, q)|
    ensures p(Filter(p, q)[i]) && Filter(p, q)[i] in q
    decreases |q|
  {
    var before := q[..|q| - 1];
    if i < |Filter(p, before)| {
      FilterHolds(p, before, i);
    }
  }

  lemma {:induction false} LastKeyframeOf(a: seq<QueuedFrame>, b: seq<QueuedFrame>)
    ensures LastKeyframe(a + b) == if LastKeyframe(b).Some? then LastKeyframe(b) else LastKeyframe(a)
  {
    FilterSplit((f: QueuedFrame) => f.frame.isKeyframe, a, b);
  }

  lemma LastKeyframeHolds(q: seq<QueuedFrame>)
    requires LastKeyframe(q).Some?
    ensures LastKeyframe(q).value.frame.isKeyframe && LastKeyframe(q).value in q
  {
    var keyframes := Filter((f: QueuedFrame) => f.frame.isKeyframe, q);
    FilterHolds((f: QueuedFrame) => f.frame.isKeyframe, q, |keyframes| - 1);
  }

  lemma FilterAround(p: QueuedFrame -> bool, a: seq<QueuedFrame>, f: QueuedFrame, b: seq<QueuedFrame>)
    ensures Filter(p, a + [f] + b) == Filter(p, a) + (if p(f) then [f] else []) + Filter(p, b)
    ensures Filter(p, a + b) == Filter(p, a) + Filter(p, b)
  {
    FilterSplit(p, a + [f], b);
    FilterSplit(p, a, [f]);
    FilterSplit(p, a, b);
    FilterOne(p, f);
    hide Filter;
  }

  lemma Around<T>(q: seq<T>, i: nat)
    requires i < |q|
    ensures q[..i] + [q[i]] + q[i + 1..] == q
  {
  }

  lemma NoneBeforeFirst(q: seq<QueuedFrame>, runId: RunId)
    ensures Filter(InRun(runId), q[..FirstOfRun(q, runId)]) == []
  {
    FilterNone(InRun(runId), q[..FirstOfRun(q, runId)]);
  }

  lemma Glue<T>(before: seq<T>, x: T, after: seq<T>)
    requires before == []
    ensures before + [x] + after == [x] + (before + after)
  {
  }

  /** Taking out the first frame of a run takes the head of that run. */
  lemma {:induction false} PopsRunHead(q: seq<QueuedFrame>, runId: RunId, i: nat)
    requires i == FirstOfRun(q, runId) < |q|
    ensures Filter(InRun(runId), q) == [q[i]] + Filter(InRun(runId), q[..i] + q[i + 1..])
  {
    var p, before, after := InRun(runId), q[..i], q[i + 1..];
    assert p(q[i]);
    NoneBeforeFirst(q, runId);
    hide Filter, FirstOfRun, InRun;
    Around(q, i);
    FilterAround(p, before, q[i], after);
    Glue(Filter(p, before), q[i], Filter(p, after));
  }

  /** And it takes nothing of another run. */
  lemma PopsNoOther(q: seq<QueuedFrame>, runId: RunId, i: nat, other: RunId)
    requires i == FirstOfRun(q, runId) < |q| && other != runId
    ensures Filter(InRun(other), q) == Filter(InRun(other), q[..i] + q[i + 1..])
  {
    FilterAround(InRun(other), q[..i], q[i], q[i + 1..]);
    Around(q, i);
    hide Filter, FirstOfRun;
  }

  // ---------- runs ----------

  datatype Event =
    | StoreFrame(frame: VideoFrame, payloadLen: nat, queuedAt: Timestamp, maxFrames: nat)
    | ReadFrame(clientId: ClientId, runId: RunId, mode: ReadMode)
    | PopClient(clientId: ClientId)

  datatype Report =
    | StoreReport(stored: StoreResult)
    | ReadReport(read: ReadResult)
    | PopReport(popped: Option<QueuedFrame>)

  const EMPTY: State := State(map[], map[])

  function Step(s: State, e: Event): (State, Report) {
    match e
    case StoreFrame(frame, payloadLen, queuedAt, maxFrames) =>
      var (s', r) := Store(s, frame, payloadLen, queuedAt, maxFrames); (s', StoreReport(r))
    case ReadFrame(clientId, runId, mode) =>
      var (s', r) := Read(s, clientId, runId, mode); (s', ReadReport(r))
    case PopClient(clientId) =>
      var (s', r) := PopFront(s, clientId); (s', PopReport(r))
  }

  function Run(trace: seq<Event>): State {
    if trace == [] then EMPTY else Step(Run(trace[..|trace| - 1]), trace[|trace| - 1]).0
  }

  function Reports(trace: seq<Event>): (r: seq<Report>)
    ensures |r| == |trace|
  {
    if trace == [] then [] else
    Reports(trace[..|trace| - 1]) + [Step(Run(trace[..|trace| - 1]), trace[|trace| - 1]).1]
  }

  /** The frame a report says went in. */
  function Entered(r: Report): seq<QueuedFrame> {
    if r.StoreReport? && r.stored.Stored? then [r.stored.queued] else []
  }

  /** The frame a report says came out: evicted, dequeued or popped. */
  function Left(r: Report): seq<QueuedFrame> {
    match r
    case StoreReport(Stored(_, _, _, Some(f))) => [f]
    case ReadReport(FrameAvailable(f, DequeueOldest, _, _, _, _)) => [f]
    case PopReport(Some(f)) => [f]
    case _ => []
  }

  function AllEntered(rs: seq<Report>): seq<QueuedFrame> {
    if rs == [] then [] else AllEntered(rs[..|rs| - 1]) + Entered(rs[|rs| - 1])
  }

  function AllLeft(rs: seq<Report>): seq<QueuedFrame> {
    if rs == [] then [] else AllLeft(rs[..|rs| - 1]) + Left(rs[|rs| - 1])
  }

  function InScope(clientId: ClientId, runId: RunId): QueuedFrame -> bool {
    (q: QueuedFrame) => q.frame.clientId == clientId && q.frame.runId == runId
  }

  /** What one client and run put in, and what came out of it, in order. */
  function In(trace: seq<Event>, clientId: ClientId, runId: RunId): seq<QueuedFrame> {
    Filter(InScope(clientId, runId), AllEntered(Reports(trace)))
  }

  function Out(trace: seq<Event>, clientId: ClientId, runId: RunId): seq<QueuedFrame> {
    Filter(InScope(clientId, runId), AllLeft(Reports(trace)))
  }

  /** Queues are never left empty and hold only their own client's frames; keyframes are retained under their key. */
  ghost predicate Inv(s: State) {
    && (forall c :: c in s.frames ==>
          s.frames[c] != [] && forall i :: 0 <= i < |s.frames[c]| ==> s.frames[c][i].frame.clientId == c)
    && (forall k :: k in s.retained ==> s.retained[k].frame.isKeyframe && KeyOfFrame(s.retained[k]) == k)
  }

  predicate AllOf(clientId: ClientId, q: seq<QueuedFrame>) {
    forall i :: 0 <= i < |q| ==> q[i].frame.clientId == clientId
  }

  lemma WithQueueKeepsInv(s: State, clientId: ClientId, queue: seq<QueuedFrame>)
    requires Inv(s) && AllOf(clientId, queue)
    ensures Inv(WithQueue(s, clientId, queue))
    ensures Queue(WithQueue(s, clientId, queue), clientId) == queue
    ensures forall c :: c != clientId ==> Queue(WithQueue(s, clientId, queue), c) == Queue(s, c)
  {
    hide KeyOfFrame, ValidUtf8;
  }

  lemma QueueIsOwn(s: State, clientId: ClientId)
    requires Inv(s)
    ensures AllOf(clientId, Queue(s, clientId))
  {
    hide KeyOfFrame, ValidUtf8;
  }

  lemma NeverEmpty(s: State, clientId: ClientId)
    requires Inv(s)
    ensures clientId in s.frames <==> Queue(s, clientId) != []
  {
  }

  lemma StoreKeepsInv(s: State, frame: VideoFrame, payloadLen: nat, queuedAt: Timestamp, maxFrames: nat)
    requires Inv(s)
    ensures Inv(Store(s, frame, payloadLen, queuedAt, maxFrames).0)
  {
    QueueIsOwn(s, frame.clientId);
    hide KeyOfFrame, ValidUtf8;
  }

  /** One frame taken out of a client's queue. */
  lemma Removed(s: State, clientId: ClientId, i: nat)
    requires Inv(s) && i < |Queue(s, clientId)|
    ensures var queue := Queue(s, clientId);
            var s' := WithQueue(s, clientId, queue[..i] + queue[i + 1..]);
            && Inv(s') && Queue(s', clientId) == queue[..i] + queue[i + 1..]
            && forall c :: c != clientId ==> Queue(s', c) == Queue(s, c)
  {
    QueueIsOwn(s, clientId);
    hide Inv, WithQueue, Queue, ValidUtf8;
    var queue := Queue(s, clientId);
    WithQueueKeepsInv(s, clientId, queue[..i] + queue[i + 1..]);
  }

  lemma PopRunKeepsInv(s: State, clientId: ClientId, runId: RunId)
    requires Inv(s)
    ensures Inv(PopRun(s, clientId, runId).0)
  {
    hide Inv, WithQueue, ValidUtf8, FirstOfRun, Queue;
    if FirstOfRun(Queue(s, clientId), runId) < |Queue(s, clientId)| {
      Removed(s, clientId, FirstOfRun(Queue(s, clientId), runId));
    }
  }

  lemma PopFrontKeepsInv(s: State, clientId: ClientId)
    requires Inv(s)
    ensures Inv(PopFront(s, clientId).0)
  {
    QueueIsOwn(s, clientId);
    NeverEmpty(s, clientId);
    hide Inv, WithQueue, ValidUtf8;
    if Queue(s, clientId) != [] {
      WithQueueKeepsInv(s, clientId, Queue(s, clientId)[1..]);
    }
  }

  lemma {:induction false} StepKeepsInv(s: State, e: Event)
    requires Inv(s)
    ensures Inv(Step(s, e).0)
  {
    hide Inv, Store, PopRun, PopFront;
    match e
    case StoreFrame(frame, payloadLen, queuedAt, maxFrames) => StoreKeepsInv(s, frame, payloadLen, queuedAt, maxFrames);
    case ReadFrame(clientId, runId, mode) => PopRunKeepsInv(s, clientId, runId);
    case PopClient(clientId) => PopFrontKeepsInv(s, clientId);
  }

  lemma {:induction false} RunKeepsInv(trace: seq<Event>)
    ensures Inv(Run(trace))
    decreases |trace|
  {
    if trace != [] {
      RunKeepsInv(trace[..|trace| - 1]);
      StepKeepsInv(Run(trace[..|trace| - 1]), trace[|trace| - 1]);
    }
  }

  // ---------- first in, first out, for every client and run ----------

  /** What goes out and then stays, in order, is what was there and then came in. */
  ghost predicate Balanced(s: State, left: seq<QueuedFrame>, s': State, entered: seq<QueuedFrame>, clientId: ClientId,
                           runId: RunId) {
    Filter(InScope(clientId, runId), left) + RunFrames(s', clientId, runId)
 == RunFrames(s, clientId, runId) + Filter(InScope(clientId, runId), entered)
  }

  lemma FilterScope(f: QueuedFrame, clientId: ClientId, runId: RunId)
    ensures Filter(InScope(clientId, runId), [f])
         == if f.frame.clientId == clientId then Filter(InRun(runId), [f]) else []
    ensures Filter(InScope(clientId, runId), []) == []
  {
    FilterOne(InScope(clientId, runId), f);
    FilterOne(InRun(runId), f);
  }

  lemma SameQueueBalanced(s: State, left: seq<QueuedFrame>, s': State, entered: seq<QueuedFrame>, clientId: ClientId,
                          runId: RunId)
    requires Queue(s', clientId) == Queue(s, clientId)
    requires Filter(InScope(clientId, runId), left) == Filter(InScope(clientId, runId), entered) == []
    ensures Balanced(s, left, s', entered, clientId, runId)
  {
    hide Queue, Filter;
  }

  lemma HeadAndRest<T>(q: seq<T>)
    requires q != []
    ensures [q[0]] + q[1..] == q
  {
  }

  lemma {:induction false} Shifted(p: QueuedFrame -> bool, queue: seq<QueuedFrame>, queued: QueuedFrame)
    requires queue != []
    ensures Filter(p, [queue[0]]) + Filter(p, queue[1..] + [queued]) == Filter(p, queue) + Filter(p, [queued])
  {
    var head, rest := [queue[0]], queue[1..];
    HeadAndRest(queue);
    FilterSplit(p, head, rest);
    FilterSplit(p, rest, [queued]);
    hide Filter;
  }

  lemma OtherStoreLaw(s: State, frame: VideoFrame, payloadLen: nat, queuedAt: Timestamp, maxFrames: nat,
                      clientId: ClientId, runId: RunId)
    requires Inv(s) && (frame.clientId != clientId || maxFrames == 0)
    ensures var (s', r) := Store(s, frame, payloadLen, queuedAt, maxFrames);
            Balanced(s, Left(StoreReport(r)), s', Entered(StoreReport(r)), clientId, runId)
  {
    var queue := Queue(s, frame.clientId);
    QueueIsOwn(s, frame.clientId);
    FilterScope(QueuedFrame(frame, payloadLen, queuedAt), clientId, runId);
    if queue != [] {
      FilterScope(queue[0], clientId, runId);
    }
    hide Filter, Balanced, Inv, ValidUtf8;
    var (s', r) := Store(s, frame, payloadLen, queuedAt, maxFrames);
    SameQueueBalanced(s, Left(StoreReport(r)), s', Entered(StoreReport(r)), clientId, runId);
  }

  /** A store appends the frame, and evicts the oldest one exactly when the queue is full; its report says so. */
  lemma StoreShifts(s: State, frame: VideoFrame, payloadLen: nat, queuedAt: Timestamp, maxFrames: nat)
    requires maxFrames > 0
    ensures var (s', r) := Store(s, frame, payloadLen, queuedAt, maxFrames);
            var queue, full := Queue(s, frame.clientId), |Queue(s, frame.clientId)| >= maxFrames;
            && Queue(s', frame.clientId) == (if full then queue[1..] else queue)
               + [QueuedFrame(frame, payloadLen, queuedAt)]
            && Left(StoreReport(r)) == (if full then [queue[0]] else [])
            && Entered(StoreReport(r)) == [QueuedFrame(frame, payloadLen, queuedAt)]
            && r.Stored? && r.previousLen == |queue| && r.currentLen == (if full then |queue| else |queue| + 1)
            && r.droppedOldest == (if full then Some(queue[0]) else None)
  {
    hide KeyOfFrame, ValidUtf8;
  }

  lemma {:induction false} OwnStoreLaw(s: State, frame: VideoFrame, payloadLen: nat, queuedAt: Timestamp,
                                       maxFrames: nat, runId: RunId)
    requires Inv(s) && maxFrames > 0
    ensures var (s', r) := Store(s, frame, payloadLen, queuedAt, maxFrames);
            Balanced(s, Left(StoreReport(r)), s', Entered(StoreReport(r)), frame.clientId, runId)
  {
    var queue, queued := Queue(s, frame.clientId), QueuedFrame(frame, payloadLen, queuedAt);
    QueueIsOwn(s, frame.clientId);
    FilterScope(queued, frame.clientId, runId);
    FilterSplit(InRun(runId), queue, [queued]);
    if queue != [] {
      Shifted(InRun(runId), queue, queued);
      FilterScope(queue[0], frame.clientId, runId);
    }
    StoreShifts(s, frame, payloadLen, queuedAt, maxFrames);
    hide Store, Queue, Left, Entered, Filter, Inv, ValidUtf8, InRun, InScope;
  }

  lemma TakenFirst(q: seq<QueuedFrame>, which: RunId, i: nat, runId: RunId)
    requires i == FirstOfRun(q, which) < |q|
    ensures Filter(InRun(runId), q)
         == (if which == runId then [q[i]] else []) + Filter(InRun(runId), q[..i] + q[i + 1..])
  {
    if runId == which {
      PopsRunHead(q, which, i);
    } else {
      PopsNoOther(q, which, i, runId);
    }
    hide Filter, FirstOfRun, InRun;
  }

  /** What a dequeue takes and leaves, for the run it is asked for and for every other one. */
  lemma PopRunShifts(s: State, from: ClientId, which: RunId, clientId: ClientId, runId: RunId)
    requires Inv(s)
    ensures var (s', popped) := PopRun(s, from, which);
            (RunFrames(s, clientId, runId)
             == (if popped.Some? && from == clientId && which == runId then [popped.value] else [])
                + RunFrames(s', clientId, runId))
    ensures var popped := PopRun(s, from, which).1;
            popped.Some? ==> popped.value.frame.clientId == from && popped.value.frame.runId == which
  {
    hide WithQueue, Filter, Inv, Queue, FirstOfRun, InRun, ValidUtf8;
    var queue, i := Queue(s, from), FirstOfRun(Queue(s, from), which);
    if i < |queue| {
      QueueIsOwn(s, from);
      Removed(s, from, i);
      TakenFirst(queue, which, i, runId);
    }
  }

  lemma PopRunLaw(s: State, from: ClientId, which: RunId, clientId: ClientId, runId: RunId)
    requires Inv(s)
    ensures var (s', popped) := PopRun(s, from, which);
            Balanced(s, if popped.Some? then [popped.value] else [], s', [], clientId, runId)
  {
    var popped := PopRun(s, from, which).1;
    PopRunShifts(s, from, which, clientId, runId);
    if popped.Some? {
      FilterOne(InScope(clientId, runId), popped.value);
    }
    assert Filter(InScope(clientId, runId), []) == [];
    hide PopRun, RunFrames, Filter, Inv;
  }

  lemma PopFrontLaw(s: State, from: ClientId, clientId: ClientId, runId: RunId)
    requires Inv(s)
    ensures var (s', popped) := PopFront(s, from);
            Balanced(s, if popped.Some? then [popped.value] else [], s', [], clientId, runId)
  {
    var queue := Queue(s, from);
    QueueIsOwn(s, from);
    NeverEmpty(s, from);
    if queue != [] {
      FilterScope(queue[0], clientId, runId);
      WithQueueKeepsInv(s, from, queue[1..]);
      FilterSplit(InRun(runId), [queue[0]], queue[1..]);
      assert [queue[0]] + queue[1..] == queue;
      hide WithQueue, Filter, Inv;
    }
  }

  lemma {:induction false} StepLaw(s: State, e: Event, clientId: ClientId, runId: RunId)
    requires Inv(s)
    ensures Balanced(s, Left(Step(s, e).1), Step(s, e).0, Entered(Step(s, e).1), clientId, runId)
  {
    hide Inv, Store, PopRun, PopFront, Balanced, RunFrames, Retained;
    match e
    case StoreFrame(frame, payloadLen, queuedAt, maxFrames) =>
      if frame.clientId == clientId && maxFrames > 0 {
        OwnStoreLaw(s, frame, payloadLen, queuedAt, maxFrames, runId);
      } else {
        OtherStoreLaw(s, frame, payloadLen, queuedAt, maxFrames, clientId, runId);
      }
    case ReadFrame(from, which, mode) =>
      PopRunLaw(s, from, which, clientId, runId);
      InspectLaw(s, clientId, runId);
    case PopClient(from) =>
      PopFrontLaw(s, from, clientId, runId);
  }

  lemma InspectLaw(s: State, clientId: ClientId, runId: RunId)
    ensures Balanced(s, [], s, [], clientId, runId)
  {
  }

  lemma Chain<T>(out: seq<T>, left: seq<T>, rest: seq<T>, before: seq<T>, entered: seq<T>, all: seq<T>)
    requires left + rest == before + entered && out + before == all
    ensures (out + left) + rest == all + entered
  {
    assert (out + left) + rest == out + (left + rest);
    assert out + (before + entered) == (out + before) + entered;
  }

  /**
   * After every sequence of stores, reads and pops, what went into a client's run is exactly what came out of it
   * followed by what is still queued: nothing is lost unreported, repeated or reordered.
   */
  lemma {:induction false} FirstInFirstOut(trace: seq<Event>, clientId: ClientId, runId: RunId)
    ensures Out(trace, clientId, runId) + RunFrames(Run(trace), clientId, runId) == In(trace, clientId, runId)
    decreases |trace|
  {
    var p := InScope(clientId, runId);
    if trace != [] {
      var n := |trace| - 1;
      var s, e := Run(trace[..n]), trace[n];
      FirstInFirstOut(trace[..n], clientId, runId);
      RunKeepsInv(trace[..n]);
      StepLaw(s, e, clientId, runId);
      LastReport(trace);
      hide Filter, Step, Run, Reports, RunFrames, AllLeft, AllEntered, Left, Entered, Inv;
      FilterSplit(p, AllLeft(Reports(trace[..n])), Left(Step(s, e).1));
      FilterSplit(p, AllEntered(Reports(trace[..n])), Entered(Step(s, e).1));
      Chain(Out(trace[..n], clientId, runId), Filter(p, Left(Step(s, e).1)), RunFrames(Run(trace), clientId, runId),
            RunFrames(s, clientId, runId), Filter(p, Entered(Step(s, e).1)), In(trace[..n], clientId, runId));
    }
  }

  lemma LastReport(trace: seq<Event>)
    requires trace != []
    ensures var n := |trace| - 1;
            && Run(trace) == Step(Run(trace[..n]), trace[n]).0
            && AllLeft(Reports(trace)) == AllLeft(Reports(trace[..n])) + Left(Step(Run(trace[..n]), trace[n]).1)
            && AllEntered(Reports(trace))
               == AllEntered(Reports(trace[..n])) + Entered(Step(Run(trace[..n]), trace[n]).1)
  {
    var n := |trace| - 1;
    hide Step, Left, Entered;
    assert Reports(trace)[..n] == Reports(trace[..n]);
  }

  // ---------- the bound ----------

  predicate LimitedTo(e: Event, limit: nat) {
    e.StoreFrame? ==> e.maxFrames <= limit
  }

  lemma {:induction false} StepKeepsBound(s: State, e: Event, limit: nat, clientId: ClientId)
    requires Inv(s) && LimitedTo(e, limit) && |Queue(s, clientId)| <= limit
    ensures |Queue(Step(s, e).0, clientId)| <= limit
  {
    hide ValidUtf8, KeyOfFrame, Filter;
    match e
    case StoreFrame(frame, payloadLen, queuedAt, maxFrames) =>
    case ReadFrame(from, which, mode) =>
      PopRunShortens(s, from, which, clientId);
      hide PopRun;
    case PopClient(from) =>
  }

  lemma PopRunShortens(s: State, from: ClientId, which: RunId, clientId: ClientId)
    ensures |Queue(PopRun(s, from, which).0, clientId)| <= |Queue(s, clientId)|
  {
    hide ValidUtf8, FirstOfRun;
  }

  /** No queue ever outgrows the largest limit it was stored under. */
  lemma {:induction false} NeverOverCapacity(trace: seq<Event>, limit: nat, clientId: ClientId)
    requires forall i :: 0 <= i < |trace| ==> LimitedTo(trace[i], limit)
    ensures |Queue(Run(trace), clientId)| <= limit
    decreases |trace|
  {
    if trace != [] {
      NeverOverCapacity(trace[..|trace| - 1], limit, clientId);
      RunKeepsInv(trace[..|trace| - 1]);
      StepKeepsBound(Run(trace[..|trace| - 1]), trace[|trace| - 1], limit, clientId);
    }
  }

  // ---------- retained keyframes ----------

  function UnderKey(key: seq<byte>): QueuedFrame -> bool {
    (q: QueuedFrame) => KeyOfFrame(q) == key
  }

  function AtKey(s: State, key: seq<byte>): Option<QueuedFrame> {
    if key in s.retained then Some(s.retained[key]) else None
  }

  /** What is retained under a key is the last keyframe ever stored under it; reads and pops never touch it. */
  lemma {:induction false} RetainsLastKeyframe(trace: seq<Event>, key: seq<byte>)
    ensures AtKey(Run(trace), key) == LastKeyframe(Filter(UnderKey(key), AllEntered(Reports(trace))))
    decreases |trace|
  {
    if trace == [] {
      assert AllEntered(Reports(trace)) == [];
    } else {
      var n := |trace| - 1;
      var s, e := Run(trace[..n]), trace[n];
      RetainsLastKeyframe(trace[..n], key);
      LastReport(trace);
      StepRetains(s, e, key);
      hide Filter, Step, Run, Reports, AllEntered, Entered, AtKey, LastKeyframe;
      var all, new_ := AllEntered(Reports(trace[..n])), Entered(Step(s, e).1);
      FilterSplit(UnderKey(key), all, new_);
      LastKeyframeOf(Filter(UnderKey(key), all), Filter(UnderKey(key), new_));
    }
  }

  lemma {:induction false} ReadsRetain(s: State, e: Event)
    requires !e.StoreFrame?
    ensures Step(s, e).0.retained == s.retained && Entered(Step(s, e).1) == []
  {
    hide Queue, RunFrames, FirstOfRun, Retained;
  }

  lemma StoreRetains(s: State, e: Event, key: seq<byte>)
    requires e.StoreFrame?
    ensures var queued := QueuedFrame(e.frame, e.payloadLen, e.queuedAt);
            if e.maxFrames == 0 then Step(s, e).0 == s && Entered(Step(s, e).1) == []
            else
              && Entered(Step(s, e).1) == [queued]
              && AtKey(Step(s, e).0, key)
                 == if KeyOfFrame(queued) == key && queued.frame.isKeyframe then Some(queued) else AtKey(s, key)
  {
    hide Queue, KeyOfFrame, ValidUtf8;
  }

  lemma {:induction false} StepRetains(s: State, e: Event, key: seq<byte>)
    ensures var entered := LastKeyframe(Filter(UnderKey(key), Entered(Step(s, e).1)));
            AtKey(Step(s, e).0, key) == if entered.Some? then entered else AtKey(s, key)
  {
    NoKeyframe(key);
    if e.StoreFrame? {
      OneKeyframe(QueuedFrame(e.frame, e.payloadLen, e.queuedAt), key);
      StoreRetains(s, e, key);
    } else {
      ReadsRetain(s, e);
    }
    hide Step, Entered, Filter, LastKeyframe, KeyOfFrame;
  }

  lemma NoKeyframe(key: seq<byte>)
    ensures LastKeyframe(Filter(UnderKey(key), [])) == None
  {
  }

  lemma {:induction false} OneKeyframe(queued: QueuedFrame, key: seq<byte>)
    ensures LastKeyframe(Filter(UnderKey(key), [queued]))
         == if KeyOfFrame(queued) == key && queued.frame.isKeyframe then Some(queued) else None
  {
    FilterOne(UnderKey(key), queued);
    FilterOne((f: QueuedFrame) => f.frame.isKeyframe, queued);
  }

  // ---------- scopes that share a key ----------

  predicate SlashPrefix(c1: ClientId, c2: ClientId) {
    c1 + [SLASH] <= c2
  }

  lemma ShorterIsPrefix(c1: ClientId, r1: RunId, c2: ClientId, r2: RunId)
    requires ScopeKey(c1, r1) == ScopeKey(c2, r2) && |c1| < |c2|
    ensures SlashPrefix(c1, c2)
  {
    hide ValidUtf8;
    var k := ScopeKey(c1, r1);
    assert k[..|c1| + 1] == c1 + [SLASH];
    assert c2[..|c1| + 1] == k[..|c2|][..|c1| + 1];
  }

  lemma SameKeySameScope(c1: ClientId, r1: RunId, c2: ClientId, r2: RunId)
    requires ScopeKey(c1, r1) == ScopeKey(c2, r2) && !SlashPrefix(c1, c2) && !SlashPrefix(c2, c1)
    ensures c1 == c2 && r1 == r2
  {
    if |c1| < |c2| {
      ShorterIsPrefix(c1, r1, c2, r2);
    }
    if |c2| < |c1| {
      ShorterIsPrefix(c2, r2, c1, r1);
    }
    hide ValidUtf8, SlashPrefix;
    var k := ScopeKey(c1, r1);
    assert c1 == k[..|c1|] == c2;
    assert r1 == k[|c1| + 1..] == r2;
  }

  lemma {:induction false} ValidSuffix(a: seq<byte>, b: seq<byte>)
    requires ValidUtf8(a) && ValidUtf8(a + b)
    ensures ValidUtf8(b)
    decreases |a|
  {
    if a == [] {
      assert a + b == b;
    } else {
      var k := Utf8CharLen(a);
      assert Utf8CharLen(a + b) == k;
      assert (a + b)[k..] == a[k..] + b;
      ValidSuffix(a[k..], b);
    }
  }

  lemma {:induction false} ValidAppend(a: seq<byte>, b: seq<byte>)
    requires ValidUtf8(a) && ValidUtf8(b)
    ensures ValidUtf8(a + b)
    decreases |a|
  {
    if a == [] {
      assert a + b == b;
    } else {
      var k := Utf8CharLen(a);
      assert Utf8CharLen(a + b) == k;
      assert (a + b)[k..] == a[k..] + b;
      ValidAppend(a[k..], b);
    }
  }

  lemma SlashIsText()
    ensures ValidUtf8([SLASH])
  {
    assert [SLASH][1..] == [];
  }

  /** What follows the slash is text of its own, and so is the run id it makes. */
  lemma TailIsText(c1: ClientId, c2: ClientId, tail: seq<byte>)
    requires c2 == c1 + [SLASH] + tail
    ensures ValidUtf8(tail + [SLASH])
  {
    SlashIsText();
    hide ValidUtf8;
    ValidAppend(c1, [SLASH]);
    ValidSuffix(c1 + [SLASH], tail);
    ValidAppend(tail, [SLASH]);
  }

  /** When one client id continues another after a slash, some run of each has the same key. */
  lemma SharedKey(c1: ClientId, c2: ClientId) returns (r1: RunId)
    requires SlashPrefix(c1, c2)
    ensures ScopeKey(c1, r1) == ScopeKey(c2, [])
  {
    var tail := c2[|c1| + 1..];
    TailIsText(c1, c2, tail);
    r1 := tail + [SLASH];
    hide ValidUtf8;
    assert c1 + [SLASH] + r1 == c2 + [SLASH] + [];
  }

  /** No client id in use continues another one after a slash. */
  ghost predicate SlashFree(clients: set<ClientId>) {
    forall c1, c2 :: c1 in clients && c2 in clients ==> !SlashPrefix(c1, c2)
  }

  ghost predicate StoresOnly(trace: seq<Event>, clients: set<ClientId>) {
    forall i :: 0 <= i < |trace| && trace[i].StoreFrame? ==> trace[i].frame.clientId in clients
  }

  lemma {:induction false} EnteredAreOfClients(trace: seq<Event>, clients: set<ClientId>)
    requires StoresOnly(trace, clients)
    ensures forall f :: f in AllEntered(Reports(trace)) ==> f.frame.clientId in clients
    decreases |trace|
  {
    if trace != [] {
      EnteredAreOfClients(trace[..|trace| - 1], clients);
      LastReport(trace);
      hide Queue, RunFrames;
    }
  }

  /** With slash-free client ids, what is retained for a scope is the last keyframe of exactly that scope. */
  lemma {:induction false} RetainsOwnScope(trace: seq<Event>, clients: set<ClientId>, clientId: ClientId, runId: RunId)
    requires SlashFree(clients) && StoresOnly(trace, clients) && clientId in clients
    ensures Retained(Run(trace), clientId, runId) == LastKeyframe(In(trace, clientId, runId))
  {
    var all, key := AllEntered(Reports(trace)), ScopeKey(clientId, runId);
    RetainsLastKeyframe(trace, key);
    EnteredAreOfClients(trace, clients);
    forall i | 0 <= i < |all|
      ensures UnderKey(key)(all[i]) == InScope(clientId, runId)(all[i])
    {
      assert all[i].frame.clientId in clients;
      if KeyOfFrame(all[i]) == key {
        SameKeySameScope(clientId, runId, all[i].frame.clientId, all[i].frame.runId);
      }
    }
    hide Filter, AllEntered, Reports, Run, LastKeyframe;
    FilterAgree(UnderKey(key), InScope(clientId, runId), all);
  }

  /** A scope whose key another scope shares is answered with the other one's keyframe. */
  lemma SharedKeyMixes(c1: ClientId, r1: RunId, frame: VideoFrame)
    requires frame.isKeyframe && ScopeKey(c1, r1) == ScopeKey(frame.clientId, frame.runId) && c1 != frame.clientId
    ensures var trace := [StoreFrame(frame, |frame.payload|, 0, 1)];
            && Retained(Run(trace), c1, r1) == Some(QueuedFrame(frame, |frame.payload|, 0))
            && LastKeyframe(In(trace, c1, r1)) == None
            && Read(Run(trace), c1, r1, InspectLatestDecodable).1
               == FrameAvailable(QueuedFrame(frame, |frame.payload|, 0), InspectLatestDecodable, 0,
                                 FromRetainedKeyframe, true, Some(frame.frameId))
  {
    var trace := [StoreFrame(frame, |frame.payload|, 0, 1)];
    var queued := QueuedFrame(frame, |frame.payload|, 0);
    LastReport(trace);
    hide Filter, KeyOfFrame, Reports;
    assert trace[..0] == [];
    assert Run(trace[..0]) == EMPTY;
    assert AllEntered(Reports(trace)) == [queued] by {
      assert Reports([]) == [];
    }
    FilterOne(InScope(c1, r1), queued);
    assert In(trace, c1, r1) == [];
    assert Queue(Run(trace), c1) == [];
    AnswersRetained(Run(trace), c1, r1);
  }

  /** With nothing queued for the client, the decodable read answers what is retained. */
  lemma AnswersRetained(s: State, clientId: ClientId, runId: RunId)
    requires Queue(s, clientId) == [] && Retained(s, clientId, runId).Some?
    ensures var f := Retained(s, clientId, runId).value;
            (Read(s, clientId, runId, InspectLatestDecodable)
             == (s, FrameAvailable(f, InspectLatestDecodable, 0, FromRetainedKeyframe, true, Some(f.frame.frameId))))
  {
    assert RunFrames(s, clientId, runId) == [];
    assert LastKeyframe([]) == None;
    hide Retained, Filter, LastKeyframe;
  }

  /** Retained keyframes never cross scopes, whatever happens, exactly when the client ids in use are slash-free. */
  lemma {:induction false} NeverCrossesScopesIffSlashFree(clients: set<ClientId>)
    ensures SlashFree(clients)
       <==> forall trace, c, r :: StoresOnly(trace, clients) && c in clients
                              ==> Retained(Run(trace), c, r) == LastKeyframe(In(trace, c, r))
  {
    if SlashFree(clients) {
      forall trace, c, r | StoresOnly(trace, clients) && c in clients
        ensures Retained(Run(trace), c, r) == LastKeyframe(In(trace, c, r))
      {
        RetainsOwnScope(trace, clients, c, r);
      }
    } else {
      var c1, c2 :| c1 in clients && c2 in clients && SlashPrefix(c1, c2);
      var trace, r := CrossedScope(c1, c2);
      assert StoresOnly(trace, clients);
    }
  }

  /** One stored keyframe is enough to be read under a scope that it does not belong to. */
  lemma {:induction false} CrossedScope(c1: ClientId, c2: ClientId) returns (trace: seq<Event>, r: RunId)
    requires SlashPrefix(c1, c2)
    ensures |trace| == 1 && trace[0].StoreFrame? && trace[0].frame.clientId == c2
    ensures Retained(Run(trace), c1, r) != LastKeyframe(In(trace, c1, r))
  {
    r := SharedKey(c1, c2);
    var frame := VideoFrame(VideoFrameType, 1, c2, [], 0, 0, 0, true, [0, 0, 0], 0, 0, 0, H264, 0, []);
    SharedKeyMixes(c1, r, frame);
    trace := [StoreFrame(frame, |frame.payload|, 0, 1)];
  }

  // ---------- what the decodable read answers ----------

  /**
   * Whatever was evicted or dequeued meanwhile, the decodable read of a scope answers the last keyframe that was
   * ever stored for it, and reports it as queued exactly when the queue still holds a keyframe of the run.
   */
  lemma {:induction false} DecodableIsLastKeyframe(trace: seq<Event>, clients: set<ClientId>, clientId: ClientId,
                                                   runId: RunId)
    requires SlashFree(clients) && StoresOnly(trace, clients) && clientId in clients
    ensures var last := LastKeyframe(In(trace, clientId, runId));
            var (_, r) := Read(Run(trace), clientId, runId, InspectLatestDecodable);
            if last.Some?
            then r.FrameAvailable? && r.frame == last.value
                 && r.source == (if LastKeyframe(RunFrames(Run(trace), clientId, runId)).Some?
                                 then FromQueue else FromRetainedKeyframe)
                 && r.retainedFrameId == Some(last.value.frame.frameId)
            else r.NoFrameAvailable? && !r.retainedAvailable
  {
    var inRun := RunFrames(Run(trace), clientId, runId);
    FirstInFirstOut(trace, clientId, runId);
    LastKeyframeOf(Out(trace, clientId, runId), inRun);
    RetainsOwnScope(trace, clients, clientId, runId);
    hide LastKeyframe, RunFrames, In, Out, Run, Retained, Queue;
  }

  lemma DecodableWhenRetained(s: State, clientId: ClientId, runId: RunId)
    requires Inv(s) && Retained(s, clientId, runId).Some?
    ensures var (s', r) := Read(s, clientId, runId, InspectLatestDecodable);
            s' == s && r.FrameAvailable? && r.frame.frame.isKeyframe && r.retainedAvailable
            && KeyOfFrame(r.frame) == ScopeKey(clientId, runId)
  {
    var inRun := RunFrames(s, clientId, runId);
    if LastKeyframe(inRun).Some? {
      LastKeyframeHolds(inRun);
      RunFramesOwn(s, clientId, runId);
      hide RunFrames, LastKeyframe, ScopeKey, Queue, Filter, Inv;
    } else {
      hide RunFrames, LastKeyframe, ScopeKey, Queue, Filter;
    }
  }

  /** Whatever the client ids: once a keyframe of a scope is stored, a decodable frame is always answered. */
  lemma {:induction false} DecodableFromThenOn(trace: seq<Event>, clientId: ClientId, runId: RunId)
    requires LastKeyframe(In(trace, clientId, runId)).Some?
    ensures var (s, r) := Read(Run(trace), clientId, runId, InspectLatestDecodable);
            s == Run(trace) && r.FrameAvailable? && r.frame.frame.isKeyframe && r.retainedAvailable
            && KeyOfFrame(r.frame) == ScopeKey(clientId, runId)
  {
    RunKeepsInv(trace);
    RetainsLastKeyframe(trace, ScopeKey(clientId, runId));
    StoredUnderKey(trace, clientId, runId);
    hide LastKeyframe, RunFrames, In, Run, Queue, Filter, Read, ScopeKey;
    DecodableWhenRetained(Run(trace), clientId, runId);
  }

  lemma RunFramesOwn(s: State, clientId: ClientId, runId: RunId)
    requires Inv(s)
    ensures forall f :: f in RunFrames(s, clientId, runId) ==> f.frame.clientId == clientId && f.frame.runId == runId
  {
    var queue := Queue(s, clientId);
    QueueIsOwn(s, clientId);
    forall f | f in RunFrames(s, clientId, runId)
      ensures f.frame.clientId == clientId && f.frame.runId == runId
    {
      var i :| 0 <= i < |RunFrames(s, clientId, runId)| && f == RunFrames(s, clientId, runId)[i];
      FilterHolds(InRun(runId), queue, i);
    }
  }

  /** A keyframe of the scope is a keyframe under the scope's key. */
  lemma {:induction false} StoredUnderKey(trace: seq<Event>, clientId: ClientId, runId: RunId)
    requires LastKeyframe(In(trace, clientId, runId)).Some?
    ensures LastKeyframe(Filter(UnderKey(ScopeKey(clientId, runId)), AllEntered(Reports(trace)))).Some?
  {
    KeyframesUnderKey(AllEntered(Reports(trace)), clientId, runId);
  }

  lemma {:induction false} KeyframesUnderKey(q: seq<QueuedFrame>, clientId: ClientId, runId: RunId)
    requires LastKeyframe(Filter(InScope(clientId, runId), q)).Some?
    ensures LastKeyframe(Filter(UnderKey(ScopeKey(clientId, runId)), q)).Some?
    decreases |q|
  {
    var key, n := ScopeKey(clientId, runId), |q| - 1;
    var before, f := Filter(InScope(clientId, runId), q[..n]), q[n];
    var one := if InScope(clientId, runId)(f) then [f] else [];
    LastKeyframeOf(before, one);
    LastKeyframeOf(Filter(UnderKey(key), q[..n]), if UnderKey(key)(f) then [f] else []);
    if LastKeyframe(one).Some? {
      LastKeyframeHolds(one);
    } else {
      KeyframesUnderKey(q[..n], clientId, runId);
    }
  }

  // ---------- what the other reads answer ----------

  lemma {:induction false} FilterEmpty(p: QueuedFrame -> bool, q: seq<QueuedFrame>)
    requires Filter(p, q) == []
    ensures forall i :: 0 <= i < |q| ==> !p(q[i])
    decreases |q|
  {
    if q != [] {
      FilterEmpty(p, q[..|q| - 1]);
    }
  }

  /** Dequeuing takes the head of the run and leaves its tail, and inspecting the oldest shows that head first. */
  lemma InspectThenDequeue(s: State, clientId: ClientId, runId: RunId)
    requires Inv(s)
    ensures var inRun := RunFrames(s, clientId, runId);
            var seen, taken := Choose(s, clientId, runId, InspectOldest), Choose(s, clientId, runId, DequeueOldest);
            && seen.0 == s && seen.1 == taken.1 == (if inRun == [] then None else Some(inRun[0]))
            && RunFrames(taken.0, clientId, runId) == if inRun == [] then [] else inRun[1..]
  {
    PopRunShifts(s, clientId, runId, clientId, runId);
    if PopRun(s, clientId, runId).1.None? {
      NonePopped(s, clientId, runId);
    }
    hide Inv, PopRun, RunFrames, LastKeyframe, Retained, ValidUtf8;
  }

  lemma NonePopped(s: State, clientId: ClientId, runId: RunId)
    requires PopRun(s, clientId, runId).1.None?
    ensures RunFrames(s, clientId, runId) == []
  {
    FilterNone(InRun(runId), Queue(s, clientId));
    hide Filter, WithQueue, Queue;
  }

  lemma RunEmptyIff(s: State, clientId: ClientId, runId: RunId)
    ensures RunFrames(s, clientId, runId) == []
       <==> forall i :: 0 <= i < |Queue(s, clientId)| ==> Queue(s, clientId)[i].frame.runId != runId
  {
    var queue := Queue(s, clientId);
    if RunFrames(s, clientId, runId) == [] {
      FilterEmpty(InRun(runId), queue);
    } else {
      FilterHolds(InRun(runId), queue, 0);
    }
    hide Filter, Queue;
  }

  lemma NothingChosen(s: State, clientId: ClientId, runId: RunId, mode: ReadMode)
    requires Inv(s) && Read(s, clientId, runId, mode).1.NoFrameAvailable?
    ensures RunFrames(s, clientId, runId) == [] || mode == InspectLatestDecodable
    ensures Read(s, clientId, runId, mode).0 == s
    ensures Read(s, clientId, runId, mode).1.reason
         == ReasonFor(mode, |Queue(s, clientId)|, |RunFrames(s, clientId, runId)|)
  {
    InspectThenDequeue(s, clientId, runId);
    hide RunFrames, Retained, Inv, Queue, WithQueue, LastKeyframe, FirstOfRun;
  }

  /** When a read finds nothing, its reason tells whether the client, the run or only a keyframe is missing. */
  lemma ReasonIsExact(s: State, clientId: ClientId, runId: RunId, mode: ReadMode)
    requires Inv(s) && Read(s, clientId, runId, mode).1.NoFrameAvailable?
    ensures var reason := Read(s, clientId, runId, mode).1.reason;
            && (reason == NoFramesQueuedForClient <==> clientId !in s.frames)
            && (reason == NoFramesQueuedForRequestedRun
                <==> clientId in s.frames && forall i :: 0 <= i < |s.frames[clientId]| ==>
                       s.frames[clientId][i].frame.runId != runId)
            && (reason == NoDecodableFrameAvailable
                <==> mode == InspectLatestDecodable && RunFrames(s, clientId, runId) != [])
    ensures Read(s, clientId, runId, mode).0 == s
  {
    NothingChosen(s, clientId, runId, mode);
    RunEmptyIff(s, clientId, runId);
    hide Read, RunFrames, ValidUtf8, KeyOfFrame;
    assert |Queue(s, clientId)| == 0 ==> RunFrames(s, clientId, runId) == [];
  }

  lemma LatestChosen(s: State, clientId: ClientId, runId: RunId)
    ensures var inRun := RunFrames(s, clientId, runId);
            var (s', seen, _) := Choose(s, clientId, runId, InspectLatest);
            s' == s && seen == if inRun == [] then None else Some(inRun[|inRun| - 1])
  {
    hide RunFrames, PopRun, LastKeyframe, Retained;
  }

  /**
   * What the reads that do not ask for a decodable frame answer, over every run: while anything of the scope is
   * queued, the oldest is the first frame stored for it that has not left, and the latest is the last frame ever
   * stored for it. With nothing queued there is no frame. Inspecting changes nothing.
   */
  lemma OldestAndLatest(trace: seq<Event>, clientId: ClientId, runId: RunId)
    ensures var s, stored, left := Run(trace), In(trace, clientId, runId), Out(trace, clientId, runId);
            var (s1, oldest) := Read(s, clientId, runId, InspectOldest);
            var (s2, latest) := Read(s, clientId, runId, InspectLatest);
            var (s3, taken) := Read(s, clientId, runId, DequeueOldest);
            && s1 == s && s2 == s && |left| <= |stored|
            && (if |left| == |stored|
                then oldest.NoFrameAvailable? && latest.NoFrameAvailable? && taken.NoFrameAvailable? && s3 == s
                else
                  && oldest.FrameAvailable? && oldest.frame == stored[|left|]
                  && latest.FrameAvailable? && latest.frame == stored[|stored| - 1]
                  && taken.FrameAvailable? && taken.frame == stored[|left|])
  {
    var s := Run(trace);
    FirstInFirstOut(trace, clientId, runId);
    RunKeepsInv(trace);
    InspectThenDequeue(s, clientId, runId);
    LatestChosen(s, clientId, runId);
    if RunFrames(s, clientId, runId) == [] {
      NothingTaken(s, clientId, runId);
    }
    hide Run, In, Out, RunFrames, Choose, Retained, Queue;
  }

  predicate StillQueued(trace: seq<Event>, clientId: ClientId, runId: RunId) {
    |Out(trace, clientId, runId)| < |In(trace, clientId, runId)|
  }

  /** The last frame stored for the scope, or the first one that has not left. */
  function Expected(trace: seq<Event>, clientId: ClientId, runId: RunId, mode: ReadMode): QueuedFrame
    requires StillQueued(trace, clientId, runId)
  {
    var stored, left := In(trace, clientId, runId), Out(trace, clientId, runId);
    if mode == InspectLatest then stored[|stored| - 1] else stored[|left|]
  }

  lemma AnsweredByMode(trace: seq<Event>, clientId: ClientId, runId: RunId, mode: ReadMode)
    requires mode != InspectLatestDecodable && StillQueued(trace, clientId, runId)
    ensures var r := Read(Run(trace), clientId, runId, mode).1;
            r.FrameAvailable? && r.frame == Expected(trace, clientId, runId, mode)
  {
    OldestAndLatest(trace, clientId, runId);
    hide Read, Run, In, Out;
  }

  lemma NothingTaken(s: State, clientId: ClientId, runId: RunId)
    requires Inv(s) && RunFrames(s, clientId, runId) == []
    ensures Choose(s, clientId, runId, DequeueOldest).0 == s
  {
    PopRunShifts(s, clientId, runId, clientId, runId);
    hide RunFrames, Queue, FirstOfRun, WithQueue, Inv, Retained, LastKeyframe;
  }

  /** What a read reports besides the frame. */
  lemma ReadAccounts(s: State, clientId: ClientId, runId: RunId, mode: ReadMode)
    requires Inv(s)
    ensures var r := Read(s, clientId, runId, mode).1;
            var kept := ScopeKey(clientId, runId) in s.retained;
            && r.retainedAvailable == kept
            && r.retainedFrameId == (if kept then Some(s.retained[ScopeKey(clientId, runId)].frame.frameId) else None)
            && (r.source != NoSource ==> r.FrameAvailable? && mode == InspectLatestDecodable)
            && match r
               case FrameAvailable(_, m, remaining, _, _, _) =>
                 && m == mode
                 && remaining + (if mode == DequeueOldest then 1 else 0) == |Queue(s, clientId)|
               case NoFrameAvailable(c, run, len, _, _, _, _) =>
                 c == clientId && run == runId && len == |Queue(s, clientId)|
  {
    TakenIsOneLess(s, clientId, runId);
    hide Queue, RunFrames, PopRun, LastKeyframe, Inv, ValidUtf8, ScopeKey;
  }

  lemma TakenIsOneLess(s: State, clientId: ClientId, runId: RunId)
    requires Inv(s)
    ensures var (s', popped) := PopRun(s, clientId, runId);
            |Queue(s, clientId)| == |Queue(s', clientId)| + if popped.Some? then 1 else 0
  {
    if FirstOfRun(Queue(s, clientId), runId) < |Queue(s, clientId)| {
      Removed(s, clientId, FirstOfRun(Queue(s, clientId), runId));
    }
    hide Queue, WithQueue, FirstOfRun, Inv;
  }

  // ---------- where a frame comes from ----------

  lemma {:induction false} InQueueInRun(p: QueuedFrame -> bool, q: seq<QueuedFrame>, f: QueuedFrame)
    requires f in q && p(f)
    ensures f in Filter(p, q)
    decreases |q|
  {
    var n := |q| - 1;
    if f in q[..n] {
      InQueueInRun(p, q[..n], f);
    } else {
      assert f == q[n];
    }
  }

  /** Whatever is queued or retained was stored, and nothing about it has changed since. */
  lemma {:induction false} QueuedWasStored(trace: seq<Event>, c: ClientId, f: QueuedFrame)
    requires f in Queue(Run(trace), c)
    ensures f in AllEntered(Reports(trace))
  {
    var r := f.frame.runId;
    InQueueInRun(InRun(r), Queue(Run(trace), c), f);
    FirstInFirstOut(trace, c, r);
    hide Filter, Run, Queue;
    assert f in In(trace, c, r);
    var i :| 0 <= i < |In(trace, c, r)| && In(trace, c, r)[i] == f;
    FilterHolds(InScope(c, r), AllEntered(Reports(trace)), i);
  }

  lemma {:induction false} RetainedWasStored(trace: seq<Event>, k: seq<byte>, f: QueuedFrame)
    requires AtKey(Run(trace), k) == Some(f)
    ensures f in AllEntered(Reports(trace))
  {
    var under := Filter(UnderKey(k), AllEntered(Reports(trace)));
    RetainsLastKeyframe(trace, k);
    LastKeyframeHolds(under);
    hide Filter, Run, LastKeyframe;
    var i :| 0 <= i < |under| && under[i] == f;
    FilterHolds(UnderKey(k), AllEntered(Reports(trace)), i);
  }

  /** A frame went in through a store event of its own. */
  lemma {:induction false} EnteredByEvent(trace: seq<Event>, f: QueuedFrame) returns (i: nat)
    requires f in AllEntered(Reports(trace))
    ensures i < |trace| && trace[i].StoreFrame? && trace[i].maxFrames > 0
    ensures f == QueuedFrame(trace[i].frame, trace[i].payloadLen, trace[i].queuedAt)
    decreases |trace|
  {
    var n := |trace| - 1;
    assert trace != [];
    LastReport(trace);
    if f in AllEntered(Reports(trace[..n])) {
      i := EnteredByEvent(trace[..n], f);
    } else {
      i := n;
    }
  }

  /** The frame a read answers is one the queue or the retained keyframes hold. */
  lemma ReadIsHeld(s: State, clientId: ClientId, runId: RunId, mode: ReadMode)
    requires Read(s, clientId, runId, mode).1.FrameAvailable?
    ensures var f := Read(s, clientId, runId, mode).1.frame;
            f in Queue(s, clientId) || AtKey(s, ScopeKey(clientId, runId)) == Some(f)
  {
    var inRun := RunFrames(s, clientId, runId);
    if LastKeyframe(inRun).Some? {
      LastKeyframeHolds(inRun);
    }
    forall f | f in inRun
      ensures f in Queue(s, clientId)
    {
      var i :| 0 <= i < |inRun| && inRun[i] == f;
      FilterHolds(InRun(runId), Queue(s, clientId), i);
    }
    hide Filter, LastKeyframe, WithQueue, ValidUtf8, Queue;
  }

  /** Every frame ever answered was stored as it is, by an event of the run. */
  lemma {:induction false} AnsweredWasStored(trace: seq<Event>, clientId: ClientId, runId: RunId, mode: ReadMode)
    returns (i: nat)
    requires Read(Run(trace), clientId, runId, mode).1.FrameAvailable?
    ensures i < |trace| && trace[i].StoreFrame? && trace[i].maxFrames > 0
    ensures Read(Run(trace), clientId, runId, mode).1.frame
         == QueuedFrame(trace[i].frame, trace[i].payloadLen, trace[i].queuedAt)
  {
    ReadIsHeld(Run(trace), clientId, runId, mode);
    hide Read, Queue, AtKey, Run, Reports, AllEntered;
    var f := Read(Run(trace), clientId, runId, mode).1.frame;
    if f in Queue(Run(trace), clientId) {
      QueuedWasStored(trace, clientId, f);
    } else {
      RetainedWasStored(trace, ScopeKey(clientId, runId), f);
    }
    i := EnteredByEvent(trace, f);
  }
}
