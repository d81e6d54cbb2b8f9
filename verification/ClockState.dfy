/**
The server's clock estimates, one per client: a candidate is compared with the latest estimate of the same run,
and committed into the average of that run; a new run starts over.
*/
module ClockState {
  import opened Bytes
  import opened Protocol
  import opened Timebase

  datatype Entry = Entry(
    runId: RunId,
    latest: Estimate,
    smoothed: Smoothed,
    committedSamples: u64,
    lastCommittedAt: Option<Timestamp>)

  datatype OutlierPolicy = OutlierPolicy(maxRttDelta: Option<u64>, maxOffsetDelta: Option<u64>)

  datatype OutlierReason =
    | RttDeltaExceeded(previousRtt: u64, candidateRtt: u64, delta: nat, maxDelta: u64)
    | OffsetDeltaExceeded(previousOffset: i64, candidateOffset: i64, delta: nat, maxDelta: u64)

  datatype Candidate = Candidate(clientId: ClientId, runId: RunId, estimate: Estimate, at: Option<Timestamp>)

  type Entries = map<ClientId, Entry>

  function Outlier(previous: Estimate, candidate: Estimate, policy: OutlierPolicy): Option<OutlierReason> {
    var rttDelta, offsetDelta := Abs(candidate.rtt - previous.rtt), Abs(candidate.offset - previous.offset);
    if policy.maxRttDelta.Some? && rttDelta > policy.maxRttDelta.value
    then Some(RttDeltaExceeded(previous.rtt, candidate.rtt, rttDelta, policy.maxRttDelta.value))
    else if policy.maxOffsetDelta.Some? && offsetDelta > policy.maxOffsetDelta.value
    then Some(OffsetDeltaExceeded(previous.offset, candidate.offset, offsetDelta, policy.maxOffsetDelta.value))
    else None
  }

  /** The entry a candidate continues: the one of its client, when it is of the same run. */
  function Continued(entries: Entries, c: Candidate): Option<Entry> {
    if c.clientId in entries && entries[c.clientId].runId == c.runId then Some(entries[c.clientId]) else None
  }

  function Evaluate(entries: Entries, c: Candidate, policy: OutlierPolicy): Option<OutlierReason> {
    match Continued(entries, c)
    case None => None
    case Some(e) => Outlier(e.latest, c.estimate, policy)
  }

  function Committed(entries: Entries, c: Candidate): Entry {
    match Continued(entries, c)
    case None => Entry(c.runId, c.estimate, Smooth(None, c.estimate), 1, c.at)
    case Some(e) =>
      Entry(c.runId, c.estimate, Smooth(Some(e.smoothed), c.estimate),
            if e.committedSamples < U64_MAX then e.committedSamples + 1 else U64_MAX, c.at)
  }

  function EvaluateAndCommit(entries: Entries, c: Candidate, policy: OutlierPolicy): Entries {
    if Evaluate(entries, c, policy).Some? then entries else entries[c.clientId := Committed(entries, c)]
  }

  class RttOffsetState {
    var entries: Entries

    constructor ()
      ensures entries == map[]
    {
      entries := map[];
    }

    method Commit(c: Candidate) returns (previous: Option<Entry>, committed: Entry, replacedRun: bool)
      modifies this
      ensures previous == (if c.clientId in old(entries) then Some(old(entries)[c.clientId]) else None)
      ensures replacedRun <==> previous.Some? && previous.value.runId != c.runId
      ensures committed == Committed(old(entries), c) && entries == old(entries)[c.clientId := committed]
    {
      previous := if c.clientId in entries then Some(entries[c.clientId]) else None;
      replacedRun := previous.Some? && previous.value.runId != c.runId;
      var samples, smoothed := 1, None;
      if previous.Some? && !replacedRun {
        samples := if previous.value.committedSamples < U64_MAX then previous.value.committedSamples + 1 else U64_MAX;
        smoothed := Some(previous.value.smoothed);
      }
      committed := Entry(c.runId, c.estimate, Smooth(smoothed, c.estimate), samples, c.at);
      entries := entries[c.clientId := committed];
    }

    method TryCommit(c: Candidate, policy: OutlierPolicy) returns (rejected: Option<OutlierReason>)
      modifies this
      ensures rejected == Evaluate(old(entries), c, policy)
      ensures entries == EvaluateAndCommit(old(entries), c, policy)
    {
      rejected := Evaluate(entries, c, policy);
      if rejected.None? {
        var _, _, _ := Commit(c);
      }
    }
  }

  // ---------- whole runs ----------

  datatype Event = Event(candidate: Candidate, policy: OutlierPolicy)

  function RunFrom(entries: Entries, trace: seq<Event>): Entries {
    if trace == [] then entries else
    var e := trace[|trace| - 1]; EvaluateAndCommit(RunFrom(entries, trace[..|trace| - 1]), e.candidate, e.policy)
  }

  function Run(trace: seq<Event>): Entries {
    RunFrom(map[], trace)
  }

  /** The candidates of one client that were not rejected, in order. */
  function Accepted(trace: seq<Event>, clientId: ClientId): seq<Candidate> {
    if trace == [] then [] else
    var before, e := trace[..|trace| - 1], trace[|trace| - 1];
    Accepted(before, clientId)
    + if e.candidate.clientId == clientId && Evaluate(Run(before), e.candidate, e.policy).None?
      then [e.candidate] else []
  }

  /** The estimates since the run last changed. */
  function CurrentRun(cs: seq<Candidate>): seq<Estimate> {
    if cs == [] then [] else
    var n := |cs| - 1;
    if n > 0 && cs[n - 1].runId == cs[n].runId then CurrentRun(cs[..n]) + [cs[n].estimate] else [cs[n].estimate]
  }

  ghost predicate Summarises(entries: Entries, clientId: ClientId, cs: seq<Candidate>) {
    if cs == [] then clientId !in entries else
    && clientId in entries
    && entries[clientId].runId == cs[|cs| - 1].runId
    && entries[clientId].latest == cs[|cs| - 1].estimate
    && entries[clientId].lastCommittedAt == cs[|cs| - 1].at
    && SmoothAll(CurrentRun(cs)) == Some(entries[clientId].smoothed)
    && entries[clientId].committedSamples == entries[clientId].smoothed.samplesApplied
  }

  /** What one more accepted candidate does to the current run. */
  lemma RunGrows(cs: seq<Candidate>, c: Candidate)
    ensures CurrentRun(cs + [c])
         == if cs != [] && cs[|cs| - 1].runId == c.runId then CurrentRun(cs) + [c.estimate] else [c.estimate]
  {
    assert (cs + [c])[..|cs|] == cs;
  }

  lemma SmoothGrows(samples: seq<Estimate>, latest: Estimate)
    ensures SmoothAll(samples + [latest]) == Some(Smooth(SmoothAll(samples), latest))
  {
    assert (samples + [latest])[..|samples|] == samples;
  }

  lemma CommitSummarises(entries: Entries, c: Candidate, cs: seq<Candidate>)
    requires Summarises(entries, c.clientId, cs)
    ensures Summarises(entries[c.clientId := Committed(entries, c)], c.clientId, cs + [c])
  {
    hide Quot, EmaU64, EmaI64, SmoothAll, CurrentRun;
    RunGrows(cs, c);
    SmoothGrows(CurrentRun(cs), c.estimate);
    SmoothGrows([], c.estimate);
    NoSamples();
    assert [] + [c.estimate] == [c.estimate];
  }

  lemma NoSamples()
    ensures SmoothAll([]) == None
  {
  }

  /** Every entry is the average of exactly the accepted estimates of its client's current run. */
  lemma {:induction false} EntryIsItsRun(trace: seq<Event>, clientId: ClientId)
    ensures Summarises(Run(trace), clientId, Accepted(trace, clientId))
    decreases |trace|
  {
    if trace != [] {
      var before, e := trace[..|trace| - 1], trace[|trace| - 1];
      EntryIsItsRun(before, clientId);
      if e.candidate.clientId == clientId && Evaluate(Run(before), e.candidate, e.policy).None? {
        CommitSummarises(Run(before), e.candidate, Accepted(before, clientId));
      } else {
        assert Accepted(trace, clientId) == Accepted(before, clientId);
      }
      hide Evaluate, Committed, SmoothAll, CurrentRun;
    }
  }

  // ---------- the clock bound ----------

  predicate Within(e: Estimate, maxRtt: nat, lo: int, hi: int) {
    e.rtt <= maxRtt && lo <= e.offset <= hi
  }

  /** Every candidate of the client is within these bounds. */
  ghost predicate OfferedWithin(trace: seq<Event>, clientId: ClientId, maxRtt: nat, lo: int, hi: int) {
    forall i :: 0 <= i < |trace| && trace[i].candidate.clientId == clientId ==>
                  Within(trace[i].candidate.estimate, maxRtt, lo, hi)
  }

  lemma {:induction false} CurrentRunWithin(cs: seq<Candidate>, maxRtt: nat, lo: int, hi: int)
    requires forall i :: 0 <= i < |cs| ==> Within(cs[i].estimate, maxRtt, lo, hi)
    ensures forall i :: 0 <= i < |CurrentRun(cs)| ==> Within(CurrentRun(cs)[i], maxRtt, lo, hi)
    ensures cs != [] ==> CurrentRun(cs) != []
    decreases |cs|
  {
    hide Within;
    if cs != [] {
      CurrentRunWithin(cs[..|cs| - 1], maxRtt, lo, hi);
    }
  }

  lemma {:induction false} AcceptedWithin(trace: seq<Event>, clientId: ClientId, maxRtt: nat, lo: int, hi: int)
    requires OfferedWithin(trace, clientId, maxRtt, lo, hi)
    ensures forall i :: 0 <= i < |Accepted(trace, clientId)| ==>
                          Within(Accepted(trace, clientId)[i].estimate, maxRtt, lo, hi)
    decreases |trace|
  {
    hide Evaluate, Within;
    if trace != [] {
      AcceptedWithin(trace[..|trace| - 1], clientId, maxRtt, lo, hi);
    }
  }

  /**
   * Whatever other clients do, whatever is rejected and however often a client restarts: as long as every candidate
   * of the client is within `err` of its true offset and has a round trip of at most `maxRtt`, so has the estimate
   * the server keeps for it.
   */
  lemma {:induction false} KeepsClockBound(trace: seq<Event>, clientId: ClientId, maxRtt: nat, theta: int, err: nat)
    requires OfferedWithin(trace, clientId, maxRtt, theta - err, theta + err)
    ensures clientId in Run(trace) <==> Accepted(trace, clientId) != []
    ensures clientId in Run(trace) ==>
              var s := Run(trace)[clientId].smoothed;
              s.rtt <= maxRtt && Abs(s.offset - theta) <= err
  {
    var cs := Accepted(trace, clientId);
    EntryIsItsRun(trace, clientId);
    AcceptedWithin(trace, clientId, maxRtt, theta - err, theta + err);
    CurrentRunWithin(cs, maxRtt, theta - err, theta + err);
    if cs != [] {
      StaysInHull(CurrentRun(cs), 0, maxRtt, theta - err, theta + err);
    }
    hide Run, Accepted, CurrentRun, SmoothAll;
  }

  /** `e` was calculated from an exchange with true offset `theta` and a round trip of at most `limit`. */
  ghost predicate Measured(e: Estimate, theta: int, limit: nat) {
    exists o, there: nat, back: nat :: Exchange(o, theta, there, back) && there + back <= limit && Calculate(o) == Ok(e)
  }

  lemma MeasuredIsWithin(e: Estimate, theta: int, limit: nat)
    requires Measured(e, theta, limit)
    ensures Within(e, limit, theta - HalfUp(limit), theta + HalfUp(limit))
  {
    var o, there: nat, back: nat :|
      Exchange(o, theta, there, back) && there + back <= limit && Calculate(o) == Ok(e);
    SingleExchange(o, theta, there, back);
  }

  /**
   * From the timestamps to the server's entry: when everything a client offers was measured against one true offset
   * over round trips of at most `limit`, its entry is never further off than half of `limit`, rounded up.
   */
  lemma {:induction false} FollowsTrueClock(trace: seq<Event>, clientId: ClientId, theta: int, limit: nat)
    requires forall i :: 0 <= i < |trace| && trace[i].candidate.clientId == clientId ==>
                           Measured(trace[i].candidate.estimate, theta, limit)
    ensures clientId in Run(trace) ==>
              var s := Run(trace)[clientId].smoothed;
              s.rtt <= limit && Abs(s.offset - theta) <= HalfUp(limit)
  {
    hide Measured, Within, Run;
    forall i | 0 <= i < |trace| && trace[i].candidate.clientId == clientId
      ensures Within(trace[i].candidate.estimate, limit, theta - HalfUp(limit), theta + HalfUp(limit))
    {
      MeasuredIsWithin(trace[i].candidate.estimate, theta, limit);
    }
    KeepsClockBound(trace, clientId, limit, theta, HalfUp(limit));
  }

  // ---------- the outlier policy ----------

  /** A candidate is rejected exactly when it continues a run and moves further than a threshold that is set. */
  lemma RejectedIff(entries: Entries, c: Candidate, policy: OutlierPolicy)
    ensures Evaluate(entries, c, policy).Some? <==>
              && Continued(entries, c).Some?
              && var latest := Continued(entries, c).value.latest;
                 (policy.maxRttDelta.Some? && Abs(c.estimate.rtt - latest.rtt) > policy.maxRttDelta.value)
                 || (policy.maxOffsetDelta.Some?
                     && Abs(c.estimate.offset - latest.offset) > policy.maxOffsetDelta.value)
  {
  }

  /** The reason names the round trip before the offset, with both values, their distance and the threshold. */
  lemma ReasonGiven(entries: Entries, c: Candidate, policy: OutlierPolicy)
    requires Evaluate(entries, c, policy).Some?
    ensures Continued(entries, c).Some?
    ensures var latest, reason := Continued(entries, c).value.latest, Evaluate(entries, c, policy).value;
            if policy.maxRttDelta.Some? && Abs(c.estimate.rtt - latest.rtt) > policy.maxRttDelta.value
            then reason == RttDeltaExceeded(latest.rtt, c.estimate.rtt, Abs(c.estimate.rtt - latest.rtt),
                                            policy.maxRttDelta.value)
            else policy.maxOffsetDelta.Some? &&
                 reason == OffsetDeltaExceeded(latest.offset, c.estimate.offset, Abs(c.estimate.offset - latest.offset),
                                               policy.maxOffsetDelta.value)
  {
  }

  /** After `cs` was accepted, a candidate is compared with the last of it, if that is of the same run. */
  lemma ComparedWithLast(entries: Entries, c: Candidate, policy: OutlierPolicy, cs: seq<Candidate>)
    requires Summarises(entries, c.clientId, cs)
    ensures Evaluate(entries, c, policy)
         == if cs != [] && cs[|cs| - 1].runId == c.runId
            then Outlier(cs[|cs| - 1].estimate, c.estimate, policy) else None
  {
    hide SmoothAll, CurrentRun, Outlier;
  }

  lemma OffsetWithin(previous: Estimate, candidate: Estimate, policy: OutlierPolicy, limit: u64)
    requires Outlier(previous, candidate, policy).None? && policy.maxOffsetDelta == Some(limit)
    ensures Abs(candidate.offset - previous.offset) <= limit
  {
  }

  lemma NextNeighbour(before: seq<Event>, e: Event, limit: u64)
    requires e.policy.maxOffsetDelta == Some(limit) && Evaluate(Run(before), e.candidate, e.policy).None?
    ensures var cs := Accepted(before, e.candidate.clientId);
            cs != [] && cs[|cs| - 1].runId == e.candidate.runId ==>
              Abs(e.candidate.estimate.offset - cs[|cs| - 1].estimate.offset) <= limit
  {
    hide Evaluate, Summarises, Outlier, Run, Accepted;
    var cs := Accepted(before, e.candidate.clientId);
    EntryIsItsRun(before, e.candidate.clientId);
    ComparedWithLast(Run(before), e.candidate, e.policy, cs);
    if cs != [] && cs[|cs| - 1].runId == e.candidate.runId {
      OffsetWithin(cs[|cs| - 1].estimate, e.candidate.estimate, e.policy, limit);
    }
  }

  /** Neighbouring accepted estimates of one run never differ by more than the threshold in force. */
  lemma {:induction false} NeighboursWithin(trace: seq<Event>, clientId: ClientId, limit: u64, i: nat)
    requires forall j :: 0 <= j < |trace| ==> trace[j].policy.maxOffsetDelta == Some(limit)
    requires i + 1 < |Accepted(trace, clientId)|
    ensures var cs := Accepted(trace, clientId);
            cs[i].runId == cs[i + 1].runId ==> Abs(cs[i + 1].estimate.offset - cs[i].estimate.offset) <= limit
    decreases |trace|
  {
    hide Evaluate, Run;
    var before, e := trace[..|trace| - 1], trace[|trace| - 1];
    assert e.policy.maxOffsetDelta == Some(limit);
    if i + 1 < |Accepted(before, clientId)| {
      NeighboursWithin(before, clientId, limit, i);
    } else {
      NextNeighbour(before, e, limit);
    }
  }

  /** What one client offers, accepted or not. */
  function Offered(trace: seq<Event>, clientId: ClientId): seq<Event> {
    if trace == [] then [] else
    var e := trace[|trace| - 1];
    Offered(trace[..|trace| - 1], clientId) + if e.candidate.clientId == clientId then [e] else []
  }

  function Candidates(es: seq<Event>): (cs: seq<Candidate>)
    ensures |cs| == |es| && forall i :: 0 <= i < |es| ==> cs[i] == es[i].candidate
  {
    seq(|es|, i requires 0 <= i < |es| => es[i].candidate)
  }

  /** Event `e` is within the thresholds of the event before it, where the two are of one run. */
  predicate StepAllowed(before: Event, e: Event) {
    before.candidate.runId == e.candidate.runId ==>
      Outlier(before.candidate.estimate, e.candidate.estimate, e.policy).None?
  }

  /** Each event is within the thresholds of the one just before it. */
  ghost predicate SmallSteps(es: seq<Event>) {
    forall i :: 0 <= i < |es| - 1 ==> StepAllowed(es[i], es[i + 1])
  }

  lemma {:induction false} NoMoreAcceptedThanOffered(trace: seq<Event>, clientId: ClientId)
    ensures |Accepted(trace, clientId)| <= |Offered(trace, clientId)|
    decreases |trace|
  {
    hide Evaluate;
    if trace != [] {
      NoMoreAcceptedThanOffered(trace[..|trace| - 1], clientId);
    }
  }

  lemma LastStep(es: seq<Event>, e: Event)
    ensures SmallSteps(es + [e]) <==> SmallSteps(es) && (es != [] ==> StepAllowed(es[|es| - 1], e))
    ensures Candidates(es + [e]) == Candidates(es) + [e.candidate]
  {
    hide StepAllowed;
    var all := es + [e];
    if SmallSteps(all) {
      forall i | 0 <= i < |es| - 1
        ensures StepAllowed(es[i], es[i + 1])
      {
        assert StepAllowed(all[i], all[i + 1]);
      }
      assert es != [] ==> StepAllowed(all[|es| - 1], all[|es|]);
    }
  }

  lemma OwnStep(entries: Entries, e: Event, accepted: seq<Candidate>, offered: seq<Event>)
    requires Summarises(entries, e.candidate.clientId, accepted) && |accepted| <= |offered|
    requires accepted == Candidates(offered) <==> SmallSteps(offered)
    ensures var now := accepted + if Evaluate(entries, e.candidate, e.policy).None? then [e.candidate] else [];
            (now == Candidates(offered + [e]) <==> SmallSteps(offered + [e]))
  {
    LastStep(offered, e);
    ComparedWithLast(entries, e.candidate, e.policy, accepted);
    SameBeforeLast(accepted, if Evaluate(entries, e.candidate, e.policy).None? then [e.candidate] else [],
                   Candidates(offered), e.candidate);
    hide Summarises, Evaluate, SmallSteps, Outlier;
  }

  lemma SameBeforeLast<T>(a: seq<T>, last: seq<T>, b: seq<T>, x: T)
    requires |a| <= |b| && |last| <= 1
    ensures a + last == b + [x] ==> a == b && last == [x]
  {
    if a + last == b + [x] {
      assert a == (a + last)[..|a|] && b == (b + [x])[..|b|];
      assert (a + last)[|a|] == last[0] && (b + [x])[|b|] == x;
    }
  }

  /**
   * A clock is followed all the way, with nothing of it ever rejected, exactly when it moves in steps within the
   * thresholds; how far it gets in the end does not matter.
   */
  lemma {:induction false} FollowedIff(trace: seq<Event>, clientId: ClientId)
    ensures Accepted(trace, clientId) == Candidates(Offered(trace, clientId)) <==> SmallSteps(Offered(trace, clientId))
    decreases |trace|
  {
    hide Evaluate, Summarises, Run, SmallSteps;
    if trace != [] {
      var before, e := trace[..|trace| - 1], trace[|trace| - 1];
      FollowedIff(before, clientId);
      if e.candidate.clientId == clientId {
        EntryIsItsRun(before, clientId);
        NoMoreAcceptedThanOffered(before, clientId);
        OwnStep(Run(before), e, Accepted(before, clientId), Offered(before, clientId));
      } else {
        assert Accepted(trace, clientId) == Accepted(before, clientId);
        assert Offered(trace, clientId) == Offered(before, clientId);
      }
    } else {
      NothingOffered(clientId);
    }
  }

  lemma NothingOffered(clientId: ClientId)
    ensures SmallSteps(Offered([], clientId)) && Accepted([], clientId) == Candidates(Offered([], clientId))
  {
  }

  // ---------- locked out ----------

  /** Event `e` continues the run of `entry` and lies beyond a threshold from its latest estimate. */
  predicate OutOfReach(entry: Entry, e: Event) {
    e.candidate.runId == entry.runId && Outlier(entry.latest, e.candidate.estimate, e.policy).Some?
  }

  ghost predicate Holds(entries: Entries, clientId: ClientId, entry: Entry) {
    clientId in entries && entries[clientId] == entry
  }

  /** One event leaves an entry as it is exactly when it is of another client or out of reach, its count not full. */
  lemma KeptIff(entries: Entries, clientId: ClientId, entry: Entry, e: Event)
    requires Holds(entries, clientId, entry)
    ensures e.candidate.clientId != clientId || OutOfReach(entry, e) ==>
              Holds(EvaluateAndCommit(entries, e.candidate, e.policy), clientId, entry)
    ensures entry.committedSamples < U64_MAX &&
            Holds(EvaluateAndCommit(entries, e.candidate, e.policy), clientId, entry) ==>
              e.candidate.clientId != clientId || OutOfReach(entry, e)
  {
    hide Outlier, Smooth;
  }

  lemma {:induction false} StaysKept(entries: Entries, clientId: ClientId, after: seq<Event>, k: nat)
    requires clientId in entries && k <= |after|
    requires forall j :: 0 <= j < |after| && after[j].candidate.clientId == clientId ==>
                           OutOfReach(entries[clientId], after[j])
    ensures Holds(RunFrom(entries, after[..k]), clientId, entries[clientId])
    decreases k
  {
    hide OutOfReach, EvaluateAndCommit;
    if k > 0 {
      StaysKept(entries, clientId, after, k - 1);
      assert after[..k][..k - 1] == after[..k - 1];
      KeptIff(RunFrom(entries, after[..k - 1]), clientId, entries[clientId], after[k - 1]);
    } else {
      assert after[..0] == [];
    }
  }

  ghost predicate NeverChanges(entries: Entries, clientId: ClientId, after: seq<Event>)
    requires clientId in entries
  {
    forall k :: 0 <= k <= |after| ==> Holds(RunFrom(entries, after[..k]), clientId, entries[clientId])
  }

  ghost predicate AllOutOfReach(entries: Entries, clientId: ClientId, after: seq<Event>)
    requires clientId in entries
  {
    forall j :: 0 <= j < |after| && after[j].candidate.clientId == clientId ==> OutOfReach(entries[clientId], after[j])
  }

  /**
   * A client is locked out, its entry never changing again whatever it offers, exactly when everything it offers
   * continues the run of the entry and lies beyond a threshold, of the offset or of the round trip, from the latest
   * estimate in it. One candidate within reach, or of a new run, ends it (and shows in the sample count, unless that
   * is full).
   */
  lemma {:induction false} LockedOut(entries: Entries, clientId: ClientId, after: seq<Event>)
    requires clientId in entries
    ensures AllOutOfReach(entries, clientId, after) ==> NeverChanges(entries, clientId, after)
    ensures entries[clientId].committedSamples < U64_MAX ==>
              (NeverChanges(entries, clientId, after) <==> AllOutOfReach(entries, clientId, after))
  {
    hide OutOfReach, EvaluateAndCommit, Holds;
    var entry := entries[clientId];
    if NeverChanges(entries, clientId, after) && entry.committedSamples < U64_MAX {
      forall j | 0 <= j < |after| && after[j].candidate.clientId == clientId
        ensures OutOfReach(entry, after[j])
      {
        assert Holds(RunFrom(entries, after[..j]), clientId, entry);
        assert Holds(RunFrom(entries, after[..j + 1]), clientId, entry);
        assert after[..j + 1][..j] == after[..j];
        KeptIff(RunFrom(entries, after[..j]), clientId, entry, after[j]);
      }
    }
    if AllOutOfReach(entries, clientId, after) {
      forall k | 0 <= k <= |after|
        ensures Holds(RunFrom(entries, after[..k]), clientId, entry)
      {
        StaysKept(entries, clientId, after, k);
      }
    }
  }

  /** A heartbeat of one client with the given offset, under a threshold of 10 for offsets. */
  function Beat(clientId: ClientId, offset: i64): Event {
    Event(Candidate(clientId, [], Estimate(0, 0, offset), None), OutlierPolicy(None, Some(10)))
  }

  lemma {:induction false} RunConcat(entries: Entries, a: seq<Event>, b: seq<Event>)
    ensures RunFrom(entries, a + b) == RunFrom(RunFrom(entries, a), b)
    decreases |b|
  {
    hide EvaluateAndCommit;
    if b == [] {
      assert a + b == a;
    } else {
      assert (a + b)[..|a + b| - 1] == a + b[..|b| - 1];
      RunConcat(entries, a, b[..|b| - 1]);
    }
  }

  lemma RunOne(entries: Entries, e: Event)
    ensures RunFrom(entries, [e]) == EvaluateAndCommit(entries, e.candidate, e.policy)
  {
    hide EvaluateAndCommit;
    assert [e][..|[e]| - 1] == [];
  }

  /** It happens from the start: a clock that jumps once by 11 is never followed, however long it stays there. */
  lemma JumpLocksOut(clientId: ClientId, n: nat)
    ensures var first := Beat(clientId, 0);
            var entries := Run([first] + seq(n, _ => Beat(clientId, 11)));
            clientId in entries && entries[clientId].latest.offset == 0 && entries[clientId].committedSamples == 1
  {
    var first, after := Beat(clientId, 0), seq(n, _ => Beat(clientId, 11));
    var entries := Run([first]);
    RunOne(map[], first);
    assert entries == map[clientId := Committed(map[], first.candidate)];
    StaysKept(entries, clientId, after, n);
    assert after[..n] == after;
    RunConcat(map[], [first], after);
  }

  /** A clock that drifts just as far in steps of 10 is followed all the way. */
  lemma DriftIsFollowed(clientId: ClientId, n: nat)
    requires 10 * n <= I64_MAX
    ensures var trace := seq(n, i requires 0 <= i < n => Beat(clientId, 10 * i));
            Accepted(trace, clientId) == Candidates(trace)
  {
    var trace := seq(n, i requires 0 <= i < n => Beat(clientId, 10 * i));
    AllOffered(trace, clientId);
    FollowedIff(trace, clientId);
  }

  lemma {:induction false} AllOffered(trace: seq<Event>, clientId: ClientId)
    requires forall i :: 0 <= i < |trace| ==> trace[i].candidate.clientId == clientId
    ensures Offered(trace, clientId) == trace
    decreases |trace|
  {
    if trace != [] {
      AllOffered(trace[..|trace| - 1], clientId);
    }
  }
}
