/** The bounded outbound queue: admission decisions, the length they plan, and a real queue that carries them out. */
module OutboundQueue {
  import opened Bytes
  import opened Protocol

  datatype Action = AcceptAnyway | DropIncoming | DropOldestThenAccept

  datatype ItemClass = Control | TimeSensitiveVideo | Telemetry

  datatype Policy = Policy(maxItems: nat, controlWhenFull: Action, videoWhenFull: Action, telemetryWhenFull: Action)

  const DEFAULT_POLICY: Policy := Policy(64, DropIncoming, DropOldestThenAccept, DropIncoming)

  datatype Admission =
    | Accepted(itemClass: ItemClass)
    | IncomingDropped(itemClass: ItemClass)
    | OldestDropped(itemClass: ItemClass)

  datatype Decision = Decision(lenBefore: nat, capacity: nat, admission: Admission) {
    predicate AcceptsCandidate() {
      admission.Accepted? || admission.OldestDropped?
    }

    /** With the saturating addition of a 64-bit length. */
    function PlannedLenAfter(): nat {
      match admission
      case Accepted(_) => if lenBefore < U64_MAX then lenBefore + 1 else U64_MAX
      case IncomingDropped(_) => lenBefore
      case OldestDropped(_) => capacity
    }
  }

  function ClassOf(m: ProtocolMessage): ItemClass {
    match m
    case VideoFrameMsg(_) | VideoFrameFragmentMsg(_) => TimeSensitiveVideo
    case ClientStatsMsg(_) => Telemetry
    case _ => Control
  }

  function WhenFull(p: Policy, c: ItemClass): Action {
    match c
    case Control => p.controlWhenFull
    case TimeSensitiveVideo => p.videoWhenFull
    case Telemetry => p.telemetryWhenFull
  }

  function Evaluate(p: Policy, len: nat, m: ProtocolMessage): Admission {
    var c := ClassOf(m);
    if len < p.maxItems then Accepted(c) else
    match WhenFull(p, c)
    case AcceptAnyway => Accepted(c)
    case DropIncoming => IncomingDropped(c)
    case DropOldestThenAccept => OldestDropped(c)
  }

  function EvaluatePush(p: Policy, len: nat, m: ProtocolMessage): Decision {
    Decision(len, p.maxItems, Evaluate(p, len, m))
  }

  // ---------- a queue that carries the decisions out ----------

  datatype Event = Push(message: ProtocolMessage) | Dequeue

  /** The queue after an event, what came in and what left: evicted or dequeued. */
  datatype Effect = Effect(queue: seq<ProtocolMessage>, accepted: seq<ProtocolMessage>, left: seq<ProtocolMessage>)

  function TakeOldest(q: seq<ProtocolMessage>): Effect {
    if q == [] then Effect(q, [], []) else Effect(q[1..], [], [q[0]])
  }

  function Step(p: Policy, q: seq<ProtocolMessage>, e: Event): Effect {
    match e
    case Dequeue => TakeOldest(q)
    case Push(m) =>
      match Evaluate(p, |q|, m)
      case Accepted(_) => Effect(q + [m], [m], [])
      case IncomingDropped(_) => Effect(q, [], [])
      case OldestDropped(_) =>
        var rest := TakeOldest(q); Effect(rest.queue + [m], [m], rest.left)
  }

  function Run(p: Policy, start: seq<ProtocolMessage>, trace: seq<Event>): Effect {
    if trace == [] then Effect(start, [], []) else
    var before := Run(p, start, trace[..|trace| - 1]);
    var last := Step(p, before.queue, trace[|trace| - 1]);
    Effect(last.queue, before.accepted + last.accepted, before.left + last.left)
  }

  /** First in, first out, and nothing lost: what was there and then accepted is what left and then is still there. */
  lemma {:induction false} Conserved(p: Policy, start: seq<ProtocolMessage>, trace: seq<Event>)
    ensures var r := Run(p, start, trace); start + r.accepted == r.left + r.queue
    ensures var r := Run(p, start, trace); |start| + |r.accepted| == |r.left| + |r.queue|
    decreases |trace|
  {
    if trace != [] {
      var n := |trace| - 1;
      var before := Run(p, start, trace[..n]);
      Conserved(p, start, trace[..n]);
      StepConserves(p, before.queue, trace[n]);
      var last := Step(p, before.queue, trace[n]);
      Regroup(start, before.accepted, last.accepted, before.left, last.left, before.queue, last.queue);
      hide Step;
    }
  }

  lemma Regroup<T>(start: seq<T>, accepted: seq<T>, more: seq<T>, left: seq<T>, gone: seq<T>, before: seq<T>,
                   after: seq<T>)
    requires start + accepted == left + before && before + more == gone + after
    ensures start + (accepted + more) == (left + gone) + after
  {
    assert start + (accepted + more) == (start + accepted) + more;
    assert (left + before) + more == left + (before + more);
    assert left + (gone + after) == (left + gone) + after;
  }

  lemma StepConserves(p: Policy, q: seq<ProtocolMessage>, e: Event)
    ensures q + Step(p, q, e).accepted == Step(p, q, e).left + Step(p, q, e).queue
  {
    hide Evaluate;
  }

  /**
   * The planned length is the length of a queue that carries the decision out, except when the oldest item is
   * dropped from a queue that is longer than its capacity or has none at all.
   */
  lemma PlannedIsActual(p: Policy, q: seq<ProtocolMessage>, m: ProtocolMessage)
    requires |q| < U64_MAX
    ensures var d := EvaluatePush(p, |q|, m);
            (d.PlannedLenAfter() == |Step(p, q, Push(m)).queue|
             <==> (d.admission.OldestDropped? ==> |q| == p.maxItems && p.maxItems > 0))
    ensures EvaluatePush(p, |q|, m).AcceptsCandidate() <==> Step(p, q, Push(m)).accepted == [m]
  {
  }

  /** What pushing `m` does to the queue when a full queue calls for `action`. */
  ghost predicate Pushes(q: seq<ProtocolMessage>, m: ProtocolMessage, maxItems: nat, action: Action, r: Effect) {
    if |q| < maxItems then r == Effect(q + [m], [m], []) else
    match action
    case AcceptAnyway => r == Effect(q + [m], [m], [])
    case DropIncoming => r == Effect(q, [], [])
    case DropOldestThenAccept => r == if q == [] then Effect([m], [m], []) else Effect(q[1..] + [m], [m], [q[0]])
  }

  /** Which setting of the policy decides, by message: video and its fragments, statistics, and everything else. */
  lemma PushedByMessage(p: Policy, q: seq<ProtocolMessage>, m: ProtocolMessage)
    ensures var r := Step(p, q, Push(m));
            match m
            case VideoFrameMsg(_) => Pushes(q, m, p.maxItems, p.videoWhenFull, r)
            case VideoFrameFragmentMsg(_) => Pushes(q, m, p.maxItems, p.videoWhenFull, r)
            case ClientStatsMsg(_) => Pushes(q, m, p.maxItems, p.telemetryWhenFull, r)
            case _ => Pushes(q, m, p.maxItems, p.controlWhenFull, r)
  {
    assert [] + [m] == [m];
  }

  /** By default the queue holds 64 items, video replaces the oldest, and nothing else gets into a full queue. */
  lemma PushedByDefault(q: seq<ProtocolMessage>, m: ProtocolMessage)
    ensures var r := Step(DEFAULT_POLICY, q, Push(m));
            if |q| < 64 then r == Effect(q + [m], [m], [])
            else if m.VideoFrameMsg? || m.VideoFrameFragmentMsg? then r == Effect(q[1..] + [m], [m], [q[0]])
            else r == Effect(q, [], [])
  {
    PushedByMessage(DEFAULT_POLICY, q, m);
  }

  /** The length a step can reach. */
  predicate NoOvergrowth(p: Policy) {
    forall c :: WhenFull(p, c) == DropIncoming || (WhenFull(p, c) == DropOldestThenAccept && p.maxItems > 0)
  }

  lemma {:induction false} StaysWithin(p: Policy, start: seq<ProtocolMessage>, trace: seq<Event>)
    requires NoOvergrowth(p) && |start| <= p.maxItems
    ensures |Run(p, start, trace).queue| <= p.maxItems
    decreases |trace|
  {
    if trace != [] {
      var before := Run(p, start, trace[..|trace| - 1]);
      StaysWithin(p, start, trace[..|trace| - 1]);
      var e := trace[|trace| - 1];
      if e.Push? {
        assert WhenFull(p, ClassOf(e.message)) != AcceptAnyway;
      }
    }
  }

  /** So along every run that starts within the capacity, planned and actual lengths agree for every next push. */
  lemma PlannedAlongRuns(p: Policy, start: seq<ProtocolMessage>, trace: seq<Event>, m: ProtocolMessage)
    requires NoOvergrowth(p) && |start| <= p.maxItems < U64_MAX
    ensures var q := Run(p, start, trace).queue;
            EvaluatePush(p, |q|, m).PlannedLenAfter() == |Run(p, start, trace + [Push(m)]).queue| <= p.maxItems
  {
    var q, all := Run(p, start, trace).queue, trace + [Push(m)];
    StaysWithin(p, start, trace);
    StaysWithin(p, start, all);
    assert all[..|trace|] == trace;
    assert WhenFull(p, ClassOf(m)) != AcceptAnyway;
    PlannedIsActual(p, q, m);
  }

  /** One message of every class. */
  function Sample(c: ItemClass): (m: ProtocolMessage)
    ensures ClassOf(m) == c
  {
    match c
    case Control => ServerNoticeMsg(ServerNotice(ServerNoticeType, 1, [], Warning, []))
    case TimeSensitiveVideo =>
      VideoFrameMsg(VideoFrame(VideoFrameType, 1, [], [], 0, 0, 0, true, [0, 0, 0], 0, 0, 0, H264, 0, []))
    case Telemetry => ClientStatsMsg(ClientStats(ClientStatsType, 1, [], [], 0, 0, 0, 0, None))
  }

  function Fill(m: ProtocolMessage, n: nat): (q: seq<ProtocolMessage>)
    ensures |q| == n
  {
    seq(n, _ => m)
  }

  /** A queue is bounded over every run exactly when no class may overgrow it. */
  lemma BoundedIff(p: Policy)
    ensures NoOvergrowth(p)
       <==> forall start, trace :: |start| <= p.maxItems ==> |Run(p, start, trace).queue| <= p.maxItems
  {
    if NoOvergrowth(p) {
      forall start, trace | |start| <= p.maxItems
        ensures |Run(p, start, trace).queue| <= p.maxItems
      {
        StaysWithin(p, start, trace);
      }
    } else {
      var c :| !(WhenFull(p, c) == DropIncoming || (WhenFull(p, c) == DropOldestThenAccept && p.maxItems > 0));
      Overgrows(p, c);
    }
  }

  lemma Overgrows(p: Policy, c: ItemClass)
    requires WhenFull(p, c) == AcceptAnyway || (WhenFull(p, c) == DropOldestThenAccept && p.maxItems == 0)
    ensures var full := Fill(Sample(c), p.maxItems);
            |full| == p.maxItems && |Run(p, full, [Push(Sample(c))]).queue| == p.maxItems + 1
  {
    var full, push := Fill(Sample(c), p.maxItems), [Push(Sample(c))];
    assert push[..0] == [] && Run(p, full, push[..0]).queue == full;
    assert Run(p, full, push).queue == Step(p, full, push[0]).queue;
  }

  // ---------- the server's own queue ----------

  /** An auth response comes with the length it was decided against; the program passes the queue's own. */
  datatype ServerEvent = Ack(message: ProtocolMessage) | Decided(message: ProtocolMessage, toldLen: nat) | TakeOne

  /** The server's queue evicts nothing: what is accepted is appended, and only taking removes. */
  function ServerStep(q: seq<ProtocolMessage>, e: ServerEvent): Effect {
    match e
    case TakeOne => TakeOldest(q)
    case Ack(m) =>
      if EvaluatePush(DEFAULT_POLICY, |q|, m).AcceptsCandidate()
      then Effect(q + [m], [m], []) else Effect(q, [], [])
    case Decided(m, toldLen) =>
      if EvaluatePush(DEFAULT_POLICY, toldLen, m).AcceptsCandidate()
      then Effect(q + [m], [m], []) else Effect(q, [], [])
  }

  function ServerRun(trace: seq<ServerEvent>): Effect {
    if trace == [] then Effect([], [], []) else
    var before := ServerRun(trace[..|trace| - 1]);
    var last := ServerStep(before.queue, trace[|trace| - 1]);
    Effect(last.queue, before.accepted + last.accepted, before.left + last.left)
  }

  /** Only control messages are offered, each decided against the length the queue has. */
  ghost predicate AsProgrammed(trace: seq<ServerEvent>) {
    forall i :: 0 <= i < |trace| ==>
      && (trace[i].TakeOne? || ClassOf(trace[i].message) == Control)
      && (trace[i].Decided? ==> trace[i].toldLen == |ServerRun(trace[..i]).queue|)
  }

  function AsPolicyEvents(trace: seq<ServerEvent>): (events: seq<Event>)
    ensures |events| == |trace|
  {
    seq(|trace|, i requires 0 <= i < |trace| => if trace[i].TakeOne? then Dequeue else Push(trace[i].message))
  }

  /** Run as programmed, the server's queue is the queue of the policy, from empty. */
  lemma {:induction false} ServerFollowsPolicy(trace: seq<ServerEvent>)
    requires AsProgrammed(trace)
    ensures ServerRun(trace) == Run(DEFAULT_POLICY, [], AsPolicyEvents(trace))
    decreases |trace|
  {
    if trace != [] {
      var n := |trace| - 1;
      var before, e := trace[..n], trace[n];
      assert AsProgrammed(before) by {
        assert forall i :: 0 <= i < n ==> before[i] == trace[i] && before[..i] == trace[..i];
      }
      ServerFollowsPolicy(before);
      assert AsPolicyEvents(trace)[..n] == AsPolicyEvents(before);
      assert trace[..n] == before;
      assert e.TakeOne? || ClassOf(e.message) == Control;
    }
  }

  /**
   * So it never holds more than 64 items, what it accepted is what was taken from it, in order, followed by what it
   * holds, and it refuses an item only when it holds 64.
   */
  lemma {:induction false} ServerQueueLaw(trace: seq<ServerEvent>)
    requires AsProgrammed(trace)
    ensures |ServerRun(trace).queue| <= 64
    ensures ServerRun(trace).accepted == ServerRun(trace).left + ServerRun(trace).queue
    ensures forall i :: 0 <= i < |trace| && !trace[i].TakeOne? ==>
              var q := ServerRun(trace[..i]).queue;
              ServerStep(q, trace[i]).accepted == if |q| < 64 then [trace[i].message] else []
  {
    ServerFollowsPolicy(trace);
    Conserved(DEFAULT_POLICY, [], AsPolicyEvents(trace));
    StaysWithin(DEFAULT_POLICY, [], AsPolicyEvents(trace));
    hide Run, AsPolicyEvents, ServerRun;
    assert [] + ServerRun(trace).accepted == ServerRun(trace).accepted;
  }

  /**
   * The queue the server sends from. Only control messages reach it, it uses the default policy, and it has no
   * eviction of its own; `Step` describes it all the same, since a control message never evicts by default.
   */
  class ServerOutboundQueue {
    var items: seq<ProtocolMessage>

    constructor ()
      ensures items == []
    {
      items := [];
    }

    /** A heartbeat acknowledgement is decided against the length the queue has. */
    method PushAck(m: ProtocolMessage) returns (queued: bool)
      requires ClassOf(m) == Control
      modifies this
      ensures items == Step(DEFAULT_POLICY, old(items), Push(m)).queue
      ensures queued <==> Step(DEFAULT_POLICY, old(items), Push(m)).accepted == [m]
      ensures items == ServerStep(old(items), Ack(m)).queue
    {
      var decision := EvaluatePush(DEFAULT_POLICY, |items|, m);
      queued := decision.AcceptsCandidate();
      if queued {
        items := items + [m];
      }
    }

    /**
     * An auth response was decided earlier, against the length the caller told: the queue does what its own
     * length calls for exactly when that length and its own are on the same side of the capacity.
     */
    method PushDecided(m: ProtocolMessage, toldLen: nat) returns (queued: bool)
      requires ClassOf(m) == Control
      modifies this
      ensures queued <==> toldLen < DEFAULT_POLICY.maxItems
      ensures items == old(items) + if queued then [m] else []
      ensures items == Step(DEFAULT_POLICY, old(items), Push(m)).queue
         <==> (toldLen < DEFAULT_POLICY.maxItems <==> |old(items)| < DEFAULT_POLICY.maxItems)
      ensures items == ServerStep(old(items), Decided(m, toldLen)).queue
    {
      var decision := EvaluatePush(DEFAULT_POLICY, toldLen, m);
      queued := decision.AcceptsCandidate();
      if queued {
        items := items + [m];
      }
    }

    method DequeueOne() returns (item: Option<ProtocolMessage>)
      modifies this
      ensures items == Step(DEFAULT_POLICY, old(items), Dequeue).queue
      ensures Step(DEFAULT_POLICY, old(items), Dequeue).left == if item.Some? then [item.value] else []
      ensures items == ServerStep(old(items), TakeOne).queue
    {
      if items == [] {
        return None;
      }
      item := Some(items[0]);
      items := items[1..];
    }
  }
}
