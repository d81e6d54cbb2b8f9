/**
Clock arithmetic: round trip and offset from four timestamps, and the truncating 1/4 average, with the numeric
bounds they keep over a single exchange and over whole runs.
*/
module Timebase {
  import opened Bytes

  datatype Observation = Observation(clientSent: u64, serverReceived: u64, serverSent: u64, clientReceived: u64)

  datatype Estimate = Estimate(rtt: u64, serverProcessing: u64, offset: i64)

  datatype Smoothed = Smoothed(rtt: u64, offset: i64, samplesApplied: u64)

  datatype CalculationError =
    ClientReceiveBeforeSend | ServerSendBeforeReceive | RoundTripShorterThanServerProcessing | ClockOffsetOutOfRange

  function Abs(n: int): nat {
    if n < 0 then -n else n
  }

  /** Division that rounds towards zero. */
  function Quot(n: int, d: int): int
    requires d > 0
  {
    if n >= 0 then n / d else -(-n / d)
  }

  /** It has the sign of the dividend, and is the largest that, times the divisor, stays within it. */
  lemma QuotIs(n: int, d: int)
    requires d > 0
    ensures n >= 0 ==> Quot(n, d) >= 0
    ensures n <= 0 ==> Quot(n, d) <= 0
    ensures d * Abs(Quot(n, d)) <= Abs(n) < d * Abs(Quot(n, d)) + d
  {
    QuotOfAbs(n, d);
    var q := Abs(n) / d;
    assert Abs(n) == d * q + Abs(n) % d;
    hide Quot;
  }

  lemma QuotOfAbs(n: int, d: int)
    requires d > 0
    ensures Abs(Quot(n, d)) == Abs(n) / d
    ensures n >= 0 ==> Quot(n, d) >= 0
    ensures n <= 0 ==> Quot(n, d) <= 0
  {
  }

  function Calculate(o: Observation): Result<Estimate, CalculationError> {
    if o.clientReceived < o.clientSent then Err(ClientReceiveBeforeSend) else
    if o.serverSent < o.serverReceived then Err(ServerSendBeforeReceive) else
    var processing := o.serverSent - o.serverReceived;
    var elapsed := o.clientReceived - o.clientSent;
    if elapsed < processing then Err(RoundTripShorterThanServerProcessing) else
    var offset := Quot((o.serverReceived - o.clientSent) + (o.serverSent - o.clientReceived), 2);
    if !(I64_MIN <= offset <= I64_MAX) then Err(ClockOffsetOutOfRange) else
    Ok(Estimate(elapsed - processing, processing, offset))
  }

  /** One step of the 1/4 average, before it is brought back into range. */
  function Toward(previous: int, latest: int): int {
    previous + Quot(latest - previous, 4)
  }

  function EmaU64(previous: u64, latest: u64): u64 {
    var next := Toward(previous, latest);
    if next <= 0 then 0 else if next <= U64_MAX then next else U64_MAX
  }

  function EmaI64(previous: i64, latest: i64): i64 {
    var next := Toward(previous, latest);
    if I64_MIN <= next <= I64_MAX then next else if next < 0 then I64_MIN else I64_MAX
  }

  function Smooth(previous: Option<Smoothed>, latest: Estimate): Smoothed {
    match previous
    case None => Smoothed(latest.rtt, latest.offset, 1)
    case Some(p) =>
      Smoothed(EmaU64(p.rtt, latest.rtt), EmaI64(p.offset, latest.offset),
               if p.samplesApplied < U64_MAX then p.samplesApplied + 1 else U64_MAX)
  }

  // ---------- one exchange ----------

  /** An exchange with true offset `theta`: out in `there`, back in `back`, with the server taking its time between. */
  predicate Exchange(o: Observation, theta: int, there: nat, back: nat) {
    && o.serverReceived == o.clientSent + there + theta
    && o.clientReceived == o.serverSent - theta + back
    && o.serverSent >= o.serverReceived
  }

  /** `n / 2`, rounded up. */
  function HalfUp(n: nat): nat {
    (n + 1) / 2
  }

  lemma HalfError(theta: int, d: int)
    ensures Abs(Quot(2 * theta + d, 2) - theta) <= HalfUp(Abs(d))
    ensures d == 0 ==> Quot(2 * theta + d, 2) == theta
  {
  }

  /**
   * With delays that are not negative only the range of the offset can fail. Otherwise the round trip is the sum of
   * the delays, and the offset is off by at most half of what the delays differ, hence of the round trip.
   */
  lemma SingleExchange(o: Observation, theta: int, there: nat, back: nat)
    requires Exchange(o, theta, there, back)
    ensures match Calculate(o)
            case Err(e) => e == ClockOffsetOutOfRange && !(I64_MIN <= Quot(2 * theta + there - back, 2) <= I64_MAX)
            case Ok(e) =>
              && e.rtt == there + back && e.serverProcessing == o.serverSent - o.serverReceived
              && Abs(e.offset - theta) <= HalfUp(Abs(there - back)) <= HalfUp(e.rtt)
              && (there == back ==> e.offset == theta)
  {
    HalfError(theta, there - back);
  }

  /** The result is an estimate exactly when the three ordering checks and the range check pass. */
  lemma AcceptedIff(o: Observation)
    ensures Calculate(o).Ok? <==>
              && o.clientSent <= o.clientReceived && o.serverReceived <= o.serverSent
              && o.serverSent - o.serverReceived <= o.clientReceived - o.clientSent
              && var twice := (o.serverReceived - o.clientSent) + (o.serverSent - o.clientReceived);
                 2 * I64_MIN - 2 < twice < 2 * I64_MAX + 2
  {
  }

  /** Which error a refused observation gets, in this order. */
  lemma RefusedAs(o: Observation)
    ensures o.clientReceived < o.clientSent ==> Calculate(o) == Err(ClientReceiveBeforeSend)
    ensures o.clientReceived >= o.clientSent && o.serverSent < o.serverReceived ==>
              Calculate(o) == Err(ServerSendBeforeReceive)
    ensures o.clientReceived >= o.clientSent && o.serverSent >= o.serverReceived
            && o.clientReceived - o.clientSent < o.serverSent - o.serverReceived ==>
              Calculate(o) == Err(RoundTripShorterThanServerProcessing)
    ensures Calculate(o).Err? && Calculate(o).error == ClockOffsetOutOfRange ==>
              && o.clientReceived >= o.clientSent && o.serverSent >= o.serverReceived
              && o.clientReceived - o.clientSent >= o.serverSent - o.serverReceived
  {
  }

  /** The offset of an accepted observation is half of the two differences together, an odd half rounded to zero. */
  lemma OffsetIsHalf(o: Observation)
    requires Calculate(o).Ok?
    ensures var e := Calculate(o).value;
            var twice := (o.serverReceived - o.clientSent) + (o.serverSent - o.clientReceived);
            && 2 * Abs(e.offset) <= Abs(twice) <= 2 * Abs(e.offset) + 1
            && (twice >= 0 ==> e.offset >= 0) && (twice <= 0 ==> e.offset <= 0)
            && e.rtt + e.serverProcessing == o.clientReceived - o.clientSent
            && e.serverProcessing == o.serverSent - o.serverReceived
  {
  }

  lemma QuotShift(n: int, k: int)
    ensures Abs(Quot(n + 2 * k, 2) - Quot(n, 2) - k) <= 1
    ensures n % 2 == 0 ==> Quot(n + 2 * k, 2) == Quot(n, 2) + k
  {
  }

  /** The same exchange seen by a server whose clock is `k` ahead. */
  function Shifted(o: Observation, k: int): Observation
    requires 0 <= o.serverReceived + k <= U64_MAX && 0 <= o.serverSent + k <= U64_MAX
  {
    o.(serverReceived := o.serverReceived + k, serverSent := o.serverSent + k)
  }

  lemma QuotShiftOdd(rtt: int, x: int, k: int)
    ensures Abs(Quot(rtt + 2 * x + 2 * k, 2) - Quot(rtt + 2 * x, 2) - k) <= 1
    ensures rtt % 2 == 0 ==> Quot(rtt + 2 * x + 2 * k, 2) == Quot(rtt + 2 * x, 2) + k
  {
    QuotShift(rtt + 2 * x, k);
  }

  /** Moving the server's clock by `k` moves the offset by `k`, exactly for an even round trip, else within 1. */
  lemma ServerClockShift(o: Observation, k: int)
    requires 0 <= o.serverReceived + k <= U64_MAX && 0 <= o.serverSent + k <= U64_MAX
    requires Calculate(o).Ok? && Calculate(Shifted(o, k)).Ok?
    ensures var e, e' := Calculate(o).value, Calculate(Shifted(o, k)).value;
            && e'.rtt == e.rtt && e'.serverProcessing == e.serverProcessing
            && Abs(e'.offset - e.offset - k) <= 1
            && (e.rtt % 2 == 0 ==> e'.offset == e.offset + k)
  {
    QuotShiftOdd(Calculate(o).value.rtt, o.serverSent - o.clientReceived, k);
    hide Quot;
    assert (o.serverReceived - o.clientSent) + (o.serverSent - o.clientReceived)
        == Calculate(o).value.rtt + 2 * (o.serverSent - o.clientReceived);
  }

  // ---------- one step of the average ----------

  /** A step moves from the previous value towards the latest and never past it. */
  lemma StepWithin(previous: int, latest: int)
    ensures previous <= latest ==> previous <= Toward(previous, latest) <= latest
    ensures previous >= latest ==> previous >= Toward(previous, latest) >= latest
  {
  }

  /** So the clamps of the two averages are never reached. */
  lemma ClampsUnreached(previous: Smoothed, latest: Estimate)
    ensures EmaU64(previous.rtt, latest.rtt) == Toward(previous.rtt, latest.rtt)
    ensures EmaI64(previous.offset, latest.offset) == Toward(previous.offset, latest.offset)
  {
    StepWithin(previous.rtt, latest.rtt);
    StepWithin(previous.offset, latest.offset);
  }

  /** One step of either average covers a quarter of the distance, rounded down: the weight is 1/4. */
  lemma StepIsQuarter(previous: Smoothed, latest: Estimate)
    ensures var s := Smooth(Some(previous), latest);
            && 0 <= Abs(latest.rtt - previous.rtt) - 4 * Abs(s.rtt - previous.rtt) < 4
            && 0 <= Abs(latest.offset - previous.offset) - 4 * Abs(s.offset - previous.offset) < 4
            && (latest.rtt >= previous.rtt ==> s.rtt >= previous.rtt)
            && (latest.rtt <= previous.rtt ==> s.rtt <= previous.rtt)
            && (latest.offset >= previous.offset ==> s.offset >= previous.offset)
            && (latest.offset <= previous.offset ==> s.offset <= previous.offset)
  {
    ClampsUnreached(previous, latest);
  }

  lemma StepMonotone(p: int, l: int, p': int, l': int)
    requires p <= p' && l <= l'
    ensures Toward(p, l) <= Toward(p', l')
  {
  }

  lemma StepNonExpansive(p: int, l: int, p': int, l': int, eps: nat)
    requires Abs(p - p') <= eps && Abs(l - l') <= eps
    ensures Abs(Toward(p, l) - Toward(p', l')) <= eps
  {
    StepMonotone(p, l, p' + eps, l' + eps);
    StepMonotone(p', l', p + eps, l + eps);
  }

  // ---------- whole runs ----------

  function SmoothAll(samples: seq<Estimate>): Option<Smoothed> {
    if samples == [] then None else Some(Smooth(SmoothAll(samples[..|samples| - 1]), samples[|samples| - 1]))
  }

  /** The smoothed values after one more sample. */
  lemma SmoothedNext(samples: seq<Estimate>)
    requires |samples| > 1
    ensures var n := |samples| - 1;
            && SmoothAll(samples[..n]).Some? && SmoothAll(samples).Some?
            && var p, s := SmoothAll(samples[..n]).value, SmoothAll(samples).value;
            && s.rtt == Toward(p.rtt, samples[n].rtt) && s.offset == Toward(p.offset, samples[n].offset)
            && s.samplesApplied == if p.samplesApplied < U64_MAX then p.samplesApplied + 1 else U64_MAX
  {
    var n := |samples| - 1;
    assert samples[..n] != [];
    ClampsUnreached(SmoothAll(samples[..n]).value, samples[n]);
    hide Toward, EmaU64, EmaI64;
  }

  lemma SmoothedFirst(samples: seq<Estimate>)
    requires |samples| == 1
    ensures SmoothAll(samples) == Some(Smoothed(samples[0].rtt, samples[0].offset, 1))
  {
    assert samples[..0] == [];
  }

  /** The smoothed values never leave the interval the samples lie in. */
  lemma {:induction false} StaysInHull(samples: seq<Estimate>, rttLo: int, rttHi: int, lo: int, hi: int)
    requires samples != []
    requires forall i :: 0 <= i < |samples| ==> rttLo <= samples[i].rtt <= rttHi && lo <= samples[i].offset <= hi
    ensures var s := SmoothAll(samples).value; rttLo <= s.rtt <= rttHi && lo <= s.offset <= hi
    ensures SmoothAll(samples).value.samplesApplied == if |samples| <= U64_MAX then |samples| else U64_MAX
    decreases |samples|
  {
    hide SmoothAll, Toward;
    var n := |samples| - 1;
    if n > 0 {
      StaysInHull(samples[..n], rttLo, rttHi, lo, hi);
      SmoothedNext(samples);
      var p := SmoothAll(samples[..n]).value;
      StepWithin(p.rtt, samples[n].rtt);
      StepWithin(p.offset, samples[n].offset);
    } else {
      SmoothedFirst(samples);
    }
  }

  datatype Trip = Trip(observation: Observation, there: nat, back: nat)

  /** What the calculator makes of a run of trips. */
  function Estimates(trips: seq<Trip>): seq<Estimate>
    requires forall i :: 0 <= i < |trips| ==> Calculate(trips[i].observation).Ok?
  {
    seq(|trips|, i requires 0 <= i < |trips| => Calculate(trips[i].observation).value)
  }

  /**
   * The clock bound: over any run of accepted exchanges with one true offset, delays that are not negative and
   * round trips of at most `limit`, the smoothed offset is never off by more than half of `limit`, rounded up.
   */
  lemma ClockBound(trips: seq<Trip>, theta: int, limit: nat)
    requires trips != []
    requires forall i :: 0 <= i < |trips| ==>
               Exchange(trips[i].observation, theta, trips[i].there, trips[i].back)
               && Calculate(trips[i].observation).Ok? && trips[i].there + trips[i].back <= limit
    ensures var s := SmoothAll(Estimates(trips)).value;
            s.rtt <= limit && Abs(s.offset - theta) <= HalfUp(limit)
  {
    var samples := Estimates(trips);
    forall i | 0 <= i < |samples|
      ensures 0 <= samples[i].rtt <= limit && theta - HalfUp(limit) <= samples[i].offset <= theta + HalfUp(limit)
    {
      SingleExchange(trips[i].observation, theta, trips[i].there, trips[i].back);
      assert Exchange(trips[i].observation, theta, trips[i].there, trips[i].back);
    }
    StaysInHull(samples, 0, limit, theta - HalfUp(limit), theta + HalfUp(limit));
  }

  /** Samples ordered point by point give smoothed values in the same order. */
  lemma {:induction false} OrderPreserved(a: seq<Estimate>, b: seq<Estimate>)
    requires |a| == |b| > 0
    requires forall i :: 0 <= i < |a| ==> a[i].rtt <= b[i].rtt && a[i].offset <= b[i].offset
    ensures SmoothAll(a).value.rtt <= SmoothAll(b).value.rtt && SmoothAll(a).value.offset <= SmoothAll(b).value.offset
    decreases |a|
  {
    hide SmoothAll, Toward;
    var n := |a| - 1;
    if n > 0 {
      OrderPreserved(a[..n], b[..n]);
      SmoothedNext(a);
      SmoothedNext(b);
      var p, q := SmoothAll(a[..n]).value, SmoothAll(b[..n]).value;
      StepMonotone(p.rtt, a[n].rtt, q.rtt, b[n].rtt);
      StepMonotone(p.offset, a[n].offset, q.offset, b[n].offset);
    } else {
      SmoothedFirst(a);
      SmoothedFirst(b);
    }
  }

  lemma {:induction false} RttNonExpansive(a: seq<Estimate>, b: seq<Estimate>, eps: nat)
    requires |a| == |b| > 0
    requires forall i :: 0 <= i < |a| ==> Abs(a[i].rtt - b[i].rtt) <= eps
    ensures Abs(SmoothAll(a).value.rtt - SmoothAll(b).value.rtt) <= eps
    decreases |a|
  {
    hide SmoothAll, Toward;
    var n := |a| - 1;
    if n > 0 {
      RttNonExpansive(a[..n], b[..n], eps);
      SmoothedNext(a);
      SmoothedNext(b);
      var p, q := SmoothAll(a[..n]).value, SmoothAll(b[..n]).value;
      StepNonExpansive(p.rtt, a[n].rtt, q.rtt, b[n].rtt, eps);
    } else {
      SmoothedFirst(a);
      SmoothedFirst(b);
    }
  }

  lemma {:induction false} OffsetNonExpansive(a: seq<Estimate>, b: seq<Estimate>, eps: nat)
    requires |a| == |b| > 0
    requires forall i :: 0 <= i < |a| ==> Abs(a[i].offset - b[i].offset) <= eps
    ensures Abs(SmoothAll(a).value.offset - SmoothAll(b).value.offset) <= eps
    decreases |a|
  {
    hide SmoothAll, Toward;
    var n := |a| - 1;
    if n > 0 {
      OffsetNonExpansive(a[..n], b[..n], eps);
      SmoothedNext(a);
      SmoothedNext(b);
      var p, q := SmoothAll(a[..n]).value, SmoothAll(b[..n]).value;
      StepNonExpansive(p.offset, a[n].offset, q.offset, b[n].offset, eps);
    } else {
      SmoothedFirst(a);
      SmoothedFirst(b);
    }
  }

  /** Samples within `eps` of each other, point by point, give smoothed values within `eps`, for ever. */
  lemma {:induction false} NonExpansive(a: seq<Estimate>, b: seq<Estimate>, eps: nat)
    requires |a| == |b| > 0
    requires forall i :: 0 <= i < |a| ==> Abs(a[i].rtt - b[i].rtt) <= eps && Abs(a[i].offset - b[i].offset) <= eps
    ensures Abs(SmoothAll(a).value.rtt - SmoothAll(b).value.rtt) <= eps
    ensures Abs(SmoothAll(a).value.offset - SmoothAll(b).value.offset) <= eps
  {
    RttNonExpansive(a, b, eps);
    OffsetNonExpansive(a, b, eps);
  }

  // ---------- convergence on a constant input ----------

  /** The average after `n` more samples that are all `latest`. */
  function Settled(start: Smoothed, latest: Estimate, n: nat): Smoothed {
    if n == 0 then start else Smooth(Some(Settled(start, latest, n - 1)), latest)
  }

  /** The distance to the input after `n` steps of a truncating quarter. */
  function Gap(g: int, n: nat): int {
    if n == 0 then g else var before := Gap(g, n - 1); before - Quot(before, 4)
  }

  lemma {:induction false} SettledGap(start: Smoothed, latest: Estimate, n: nat)
    ensures latest.rtt - Settled(start, latest, n).rtt == Gap(latest.rtt - start.rtt, n)
    ensures latest.offset - Settled(start, latest, n).offset == Gap(latest.offset - start.offset, n)
  {
    if n > 0 {
      SettledGap(start, latest, n - 1);
      ClampsUnreached(Settled(start, latest, n - 1), latest);
    }
  }

  function Pow(b: nat, n: nat): nat {
    if n == 0 then 1 else b * Pow(b, n - 1)
  }

  lemma GapStep(g: int)
    ensures Abs(g) <= 3 ==> g - Quot(g, 4) == g
    ensures Abs(g) >= 4 ==> 3 <= Abs(g - Quot(g, 4)) < Abs(g) && (g > 0 <==> g - Quot(g, 4) > 0)
    ensures 4 * (Abs(g - Quot(g, 4)) - 3) <= 3 * (Abs(g) - 3) || Abs(g) < 3
  {
  }

  /** A gap of at most 3 never changes. */
  lemma {:induction false} SmallGapStays(g: int, n: nat)
    requires Abs(g) <= 3
    ensures Gap(g, n) == g
  {
    if n > 0 {
      SmallGapStays(g, n - 1);
      GapStep(g);
    }
  }

  /** A larger gap keeps its sign, loses at least 1 in every step while it is at least 4, and settles at exactly 3. */
  lemma {:induction false} GapSettles(g: int, n: nat)
    requires Abs(g) >= 3
    ensures Abs(Gap(g, n)) >= 3 && (Gap(g, n) > 0 <==> g > 0)
    ensures Abs(Gap(g, n)) >= 4 ==> Abs(Gap(g, n + 1)) < Abs(Gap(g, n)) <= Abs(g) - n
    ensures Abs(Gap(g, n)) == 3 ==> Gap(g, n + 1) == Gap(g, n)
    ensures n >= Abs(g) - 3 ==> Abs(Gap(g, n)) == 3
  {
    GapStep(Gap(g, n));
    if n > 0 {
      GapSettles(g, n - 1);
    }
  }

  lemma Scale(x: int, y: int, z: int, p: nat, q: nat)
    requires 4 * x <= 3 * y && p * y <= q * z
    ensures (4 * p) * x <= (3 * q) * z
  {
    assert p * (4 * x) <= p * (3 * y);
    assert (4 * p) * x == p * (4 * x);
    assert p * (3 * y) == 3 * (p * y);
    assert (3 * q) * z == 3 * (q * z);
  }

  lemma PowNext(n: nat)
    requires n > 0
    ensures Pow(4, n) == 4 * Pow(4, n - 1) && Pow(3, n) == 3 * Pow(3, n - 1)
  {
  }

  lemma GapNext(g: int, n: nat)
    requires n > 0
    ensures Gap(g, n) == Gap(g, n - 1) - Quot(Gap(g, n - 1), 4)
  {
  }

  lemma PowNone(g: int)
    ensures Pow(4, 0) == 1 && Pow(3, 0) == 1 && Gap(g, 0) == g
  {
  }

  /** Above 3 the gap shrinks at least by the factor 3/4 in every step. */
  lemma {:induction false} GeometricRate(g: int, n: nat)
    requires Abs(g) >= 3
    ensures Pow(4, n) * (Abs(Gap(g, n)) - 3) <= Pow(3, n) * (Abs(g) - 3)
  {
    hide Pow, Gap, Quot;
    if n > 0 {
      GeometricRate(g, n - 1);
      GapSettles(g, n - 1);
      GapStep(Gap(g, n - 1));
      PowNext(n);
      GapNext(g, n);
      Scale(Abs(Gap(g, n)) - 3, Abs(Gap(g, n - 1)) - 3, Abs(g) - 3, Pow(4, n - 1), Pow(3, n - 1));
    } else {
      PowNone(g);
    }
  }

  lemma ScaleUp(x: int, y: int, z: int, p: nat, q: nat)
    requires 3 * y <= 4 * x && q * z <= p * y
    ensures (3 * q) * z <= (4 * p) * x
  {
    assert p * (3 * y) <= p * (4 * x);
    assert (4 * p) * x == p * (4 * x);
    assert p * (3 * y) == 3 * (p * y);
    assert (3 * q) * z == 3 * (q * z);
  }

  /** And it shrinks by no more than that: after `n` steps at least `(3/4)^n` of it is left. */
  lemma {:induction false} SlowestRate(g: int, n: nat)
    ensures Pow(3, n) * Abs(g) <= Pow(4, n) * Abs(Gap(g, n))
  {
    hide Pow, Gap, Quot;
    if n > 0 {
      SlowestRate(g, n - 1);
      QuarterAtMost(Gap(g, n - 1));
      PowNext(n);
      GapNext(g, n);
      ScaleUp(Abs(Gap(g, n)), Abs(Gap(g, n - 1)), Abs(g), Pow(4, n - 1), Pow(3, n - 1));
    } else {
      PowNone(g);
    }
  }

  lemma QuarterAtMost(g: int)
    ensures 3 * Abs(g) <= 4 * Abs(g - Quot(g, 4))
  {
  }

  /** The same for the averages themselves: both settle on a constant input, with a residue of at most 3. */
  lemma {:induction false} Converges(start: Smoothed, latest: Estimate, n: nat)
    ensures var s := Settled(start, latest, n);
            && (Abs(latest.rtt - start.rtt) <= 3 ==> s.rtt == start.rtt)
            && (Abs(latest.offset - start.offset) <= 3 ==> s.offset == start.offset)
            && Pow(3, n) * Abs(latest.rtt - start.rtt) <= Pow(4, n) * Abs(latest.rtt - s.rtt)
            && Pow(3, n) * Abs(latest.offset - start.offset) <= Pow(4, n) * Abs(latest.offset - s.offset)
            && (Abs(latest.rtt - start.rtt) >= 3 ==>
                  Pow(4, n) * (Abs(latest.rtt - s.rtt) - 3) <= Pow(3, n) * (Abs(latest.rtt - start.rtt) - 3)
                  && (latest.rtt > s.rtt <==> latest.rtt > start.rtt)
                  && (n >= Abs(latest.rtt - start.rtt) - 3 ==> Abs(latest.rtt - s.rtt) == 3))
            && (Abs(latest.offset - start.offset) >= 3 ==>
                  Pow(4, n) * (Abs(latest.offset - s.offset) - 3) <= Pow(3, n) * (Abs(latest.offset - start.offset) - 3)
                  && (latest.offset > s.offset <==> latest.offset > start.offset)
                  && (n >= Abs(latest.offset - start.offset) - 3 ==> Abs(latest.offset - s.offset) == 3))
  {
    SettledGap(start, latest, n);
    GapSummary(latest.rtt - start.rtt, n);
    GapSummary(latest.offset - start.offset, n);
    hide Settled, Gap, Pow;
  }

  lemma {:induction false} GapSummary(g: int, n: nat)
    ensures Pow(3, n) * Abs(g) <= Pow(4, n) * Abs(Gap(g, n))
    ensures Abs(g) <= 3 ==> Gap(g, n) == g
    ensures Abs(g) >= 3 ==>
              && Pow(4, n) * (Abs(Gap(g, n)) - 3) <= Pow(3, n) * (Abs(g) - 3)
              && (Gap(g, n) > 0 <==> g > 0)
              && (n >= Abs(g) - 3 ==> Abs(Gap(g, n)) == 3)
  {
    SlowestRate(g, n);
    if Abs(g) <= 3 {
      SmallGapStays(g, n);
    }
    if Abs(g) >= 3 {
      GapSettles(g, n);
      GeometricRate(g, n);
    }
    hide Gap, Pow;
  }
}
