/** From the exchange with a server to the certified clock: what an honest server's answer means for the
    poll, and that a run with few dishonest domains serves true time. */
module QueryTruth {
  import opened MachineInt
  import opened Outcomes
  import opened Assurance
  import opened TrueTime
  import Leap
  import opened PosixTime
  import opened FourTimestamps
  import opened Coverage
  import opened Poll
  import opened Service
  import opened CertifiedRun
  import opened Runs
  import opened RunSafety

  /** What a completed exchange hands to the poll: the interval, moved to the axis of exact instants. */
  ghost predicate IsMeasured(entries: seq<Leap.LeapEntry>, x: Exchange, s: Measurement) {
    && ComputeMeasurement(x).Success?
    && var m := ComputeMeasurement(x).value;
       && IsClear(entries, m.earliest, m.latest)
       && s.rawMid == m.rawMid && s.rawMidBound == m.rawMidBound
       && s.hard.earliest == Moved(entries, m.earliest) && s.hard.latest == Moved(entries, m.latest)
  }

  /** The part of a query after the server's answer was unfolded. */
  method MeasureResponse(entries: seq<Leap.LeapEntry>, x: Exchange) returns (r: Result<Measurement>)
    requires Leap.ValidHistory(entries)
    ensures r.Success? ==> IsMeasured(entries, x, r.value) && IsClear(entries, x.t2, x.t3)
    ensures r.Failure? && Representable(x) && ExactNetBound(x) >= 0 && ComputeMeasurement(x).Success? ==>
              || !IsClear(entries, x.t2, x.t3)
              || var m := ComputeMeasurement(x).value;
                 !(IsClear(entries, m.earliest, m.latest)
                   && FitsInt64(Moved(entries, m.earliest)) && FitsInt64(Moved(entries, m.latest)))
  {
    var ok := CheckUnixInterval(entries, x.t2, x.t3);
    if !ok {
      return Failure(AmbiguousSecond);
    }
    var m :- ComputeMeasurement(x);
    if Representable(x) && ExactNetBound(x) >= 0 {
      MeasurementIsExact(x, m);
    }
    var c :- ConvertSample(entries, Sample(m.earliest, m.latest, m.centre));
    ClearIntervalsMoveRigidly(entries, m.earliest, m.latest, m.earliest, m.latest);
    return Success(Measurement(m.rawMid, m.rawMidBound, Interval(c.lo, c.hi)));
  }

  // ----- one honest answer -----

  /** Instant `g` has POSIX reading `p`. */
  ghost predicate HasPosix(entries: seq<Leap.LeapEntry>, g: real, p: real) {
    g == p + (Leap.NANOS * Leap.DeltasUpTo(entries, SecondOf(p.Floor), |entries|)) as real
  }

  /** The true times of an exchange between the two reads, as POSIX readings under the leap seconds in
      force at its midpoint. */
  ghost predicate HappenedBetween(entries: seq<Leap.LeapEntry>, t: Truth, send: Event, recv: Event) {
    && Chronological(t) && t.mid == (t.send + t.receive) / 2.0
    && t.receive - t.send == recv.time - send.time
    && HasPosix(entries, (send.time + recv.time) / 2.0, t.mid)
  }

  /** The exchange was made for a query between the two reads. */
  ghost predicate QueriedBetween(x: Exchange, send: Event, recv: Event) {
    && IsQuery(x) && Representable(x) && FitsInt64(x.t4 - x.t1) && FitsInt64(x.t1 + Half(x.t4 - x.t1))
    && x.sendRaw == send.reading.raw && x.sendReadError == send.reading.bound
    && x.recvRaw == recv.reading.raw && x.recvReadError == recv.reading.bound
  }

  /** The server's stamps, and the elapsed local time, are as good as the answer says. */
  predicate IsWithinClaims(x: Exchange, t: Truth) {
    StampError(x, t) + ElapsedError(x, t) / 2.0 <= ErrorBudget(x) - 2.0
  }

  /** The instant half-way between two reads, labelled as the measurement says. */
  function Middle(send: Event, recv: Event, s: Measurement): Event {
    Event(Reading(s.rawMid, s.rawMidBound, send.reading.token, send.reading.generation), send.scale,
          (send.coord + recv.coord) / 2.0, (send.time + recv.time) / 2.0)
  }

  /** A real number in a clear interval is moved like its ends. */
  lemma ClearIntervalHolds(entries: seq<Leap.LeapEntry>, lo: int, hi: int, g: real, p: real)
    requires IsClear(entries, lo, hi) && lo as real <= p <= hi as real && HasPosix(entries, g, p)
    ensures Moved(entries, lo) as real <= g <= Moved(entries, hi) as real
  {
    var f := p.Floor;
    assert lo <= f <= hi;
    ClearIntervalsMoveRigidly(entries, lo, hi, lo, f);
    ClearIntervalsMoveRigidly(entries, lo, hi, hi, f);
    assert g - p == (Moved(entries, f) - f) as real;
  }

  lemma MiddleIsLabelled(x: Exchange, send: Event, recv: Event, s: Measurement)
    requires Labelled(send) && Labelled(recv) && QueriedBetween(x, send, recv)
    requires ComputeMeasurement(x).Success?
    requires s.rawMid == ComputeMeasurement(x).value.rawMid && s.rawMidBound == ComputeMeasurement(x).value.rawMidBound
    ensures Labelled(Middle(send, recv, s))
  {
    RawMidIsBounded(x, send.coord, recv.coord);
  }

  lemma MiddleFollows(send: Event, recv: Event, end: Event, s: Measurement)
    requires Follows(send, end) && Follows(recv, end) && SameRegime(send, end) && SameRegime(recv, end)
    ensures Follows(Middle(send, recv, s), end)
  {
    var m := Middle(send, recv, s);
    var low, upp := end.scale.low as real, end.scale.upp as real;
    Halved(low, end.coord - send.coord, end.coord - recv.coord);
    Halved(upp, end.coord - send.coord, end.coord - recv.coord);
    assert end.coord - m.coord == (end.coord - send.coord + (end.coord - recv.coord)) / 2.0;
  }

  lemma Halved(k: real, a: real, b: real)
    ensures k * ((a + b) / 2.0) == (k * a + k * b) / 2.0
  {
  }

  /** An honest answer is a sample taken at the middle of its exchange. */
  lemma QueryIsHonest(entries: seq<Leap.LeapEntry>, x: Exchange, t: Truth, send: Event, recv: Event,
                      s: Measurement, w: Window, end: Event)
    requires Labelled(send) && Labelled(recv) && Follows(send, end) && Follows(recv, end)
    requires SameRegime(send, end) && SameRegime(recv, end)
    requires end.reading == w.end && end.scale == w.startScale
    requires QueriedBetween(x, send, recv) && IsMeasured(entries, x, s)
    requires HappenedBetween(entries, t, send, recv) && IsWithinClaims(x, t)
    ensures TakenAt(s, Middle(send, recv, s), w, end)
  {
    var m := ComputeMeasurement(x).value;
    QueryEnclosesMidpoint(x, t, m);
    ClearIntervalHolds(entries, m.earliest, m.latest, (send.time + recv.time) / 2.0, t.mid);
    MiddleIsLabelled(x, send, recv, s);
    MiddleFollows(send, recv, end, s);
  }

  // ----- rounds and runs -----

  /** What no program can see of a query: its exchange, the true times, and its two reads. */
  datatype Query = Query(exchange: Exchange, truth: Truth, send: nat, recv: nat)

  /** The measurement came from an honest query made within the round. */
  ghost predicate CameFrom(entries: seq<Leap.LeapEntry>, q: Query, s: Measurement, h: History, start: nat) {
    && start <= q.send <= q.recv < |h|
    && QueriedBetween(q.exchange, h[q.send].event, h[q.recv].event)
    && IsMeasured(entries, q.exchange, s)
    && HappenedBetween(entries, q.truth, h[q.send].event, h[q.recv].event)
    && IsWithinClaims(q.exchange, q.truth)
  }

  ghost predicate IsHonestResult(entries: seq<Leap.LeapEntry>, s: SourceResult, h: History, start: nat) {
    s.measurement.Some? ==> exists q: Query :: CameFrom(entries, q, s.measurement.value, h, start)
  }

  /** Outside the domains named, every server answered honestly. */
  ghost predicate HonestOutside(entries: seq<Leap.LeapEntry>, results: seq<SourceResult>, h: History, start: nat,
                                faulty: set<string>) {
    forall r <- results :: r.domain !in faulty ==> IsHonestResult(entries, r, h, start)
  }

  /** At most F domains hold a server that answered dishonestly. */
  ghost predicate HonestServers(u: Setup, entries: seq<Leap.LeapEntry>, s: System, step: Step) {
    step.Select? && s.poll.Querying? ==>
      exists faulty: set<string> ::
        |faulty| <= u.config.faultBudget
        && HonestOutside(entries, step.results, s.history + [step.tick], s.poll.start, faulty)
  }

  lemma ResultIsSample(entries: seq<Leap.LeapEntry>, s: SourceResult, h: History, start: nat, w: Window)
    requires Sound(h) && start < |h| && w == WindowOf(h[start].event, h[|h| - 1].event) && Unbroken(w)
    requires IsHonestResult(entries, s, h, start)
    ensures HonestSample(s, w, h[|h| - 1].event)
  {
    if s.measurement.Some? {
      var q: Query :| CameFrom(entries, q, s.measurement.value, h, start);
      QueryIsSample(entries, q, s.measurement.value, h, start, w);
    }
  }

  lemma QueryIsSample(entries: seq<Leap.LeapEntry>, q: Query, s: Measurement, h: History, start: nat, w: Window)
    requires Sound(h) && start < |h| && w == WindowOf(h[start].event, h[|h| - 1].event) && Unbroken(w)
    requires CameFrom(entries, q, s, h, start)
    ensures TakenAt(s, Middle(h[q.send].event, h[q.recv].event, s), w, h[|h| - 1].event)
  {
    var es, n := Events(h), |h| - 1;
    assert SameRegime(es[start], es[n]);
    assert Steady(es, start, n);
    assert SameRegime(es[start], es[q.send]) && SameRegime(es[start], es[q.recv]);
    SettledFollows(es, q.send, n);
    SettledFollows(es, q.recv, n);
    QueryIsHonest(entries, q.exchange, q.truth, es[q.send], es[q.recv], s, w, es[n]);
  }

  /** With at most F dishonest domains a selected round meets the fault budget. */
  lemma HonestServersAreTrusted(u: Setup, entries: seq<Leap.LeapEntry>, s: System, step: Step, s': System)
    requires Next(u, s, step, s') && Sound(s'.history) && HonestServers(u, entries, s, step)
    ensures Trusted(u, step)
  {
    if step.Select? {
      var h := s'.history;
      var w := WindowOf(h[s.poll.start].event, step.tick.event);
      var faulty: set<string> :| |faulty| <= u.config.faultBudget
                                 && HonestOutside(entries, step.results, h, s.poll.start, faulty);
      HonestRoundIsTrusted(entries, step.votes, step.results, h, s.poll.start, w, u.config, faulty);
    }
  }

  lemma HonestRoundIsTrusted(entries: seq<Leap.LeapEntry>, votes: seq<Vote>, results: seq<SourceResult>, h: History,
                             start: nat, w: Window, c: Config, faulty: set<string>)
    requires Sound(h) && start < |h| && w == WindowOf(h[start].event, h[|h| - 1].event) && Unbroken(w)
    requires AreVotes(votes, results, w, c) && HonestOutside(entries, results, h, start, faulty)
    ensures |Excluding(Intervals(votes), h[|h| - 1].event.time)| <= |faulty|
  {
    var end := h[|h| - 1].event;
    SettledFollows(Events(h), |h| - 1, |h| - 1);
    forall d: string | d !in faulty
      ensures HonestDomain(results, d, w, end)
    {
      forall i | 0 <= i < |results| && results[i].domain == d
        ensures HonestSample(results[i], w, end)
      {
        ResultIsSample(entries, results[i], h, start, w);
      }
    }
    FewFaultyDomains(votes, results, w, c, end, faulty);
  }

  lemma SoundBefore(h: History, h': History)
    requires h <= h' && Sound(h')
    ensures Sound(h)
  {
    var a, b := Events(h), Events(h');
    assert a <= b;
    forall i, j | 0 <= i <= j < |a|
      ensures Steady(a, i, j) <==> Steady(b, i, j)
    {
      SteadyBefore(a, b, i, j);
    }
  }

  lemma SteadyBefore(a: seq<Event>, b: seq<Event>, i: nat, j: nat)
    requires a <= b && i <= j < |a|
    ensures Steady(a, i, j) <==> Steady(b, i, j)
  {
    assert forall k :: i <= k <= j ==> a[k] == b[k];
  }

  /** In every lawful run in which at most F domains of each round hold a dishonest server, what is served
      is true. */
  lemma HonestServersServeTrueTime(u: Setup, entries: seq<Leap.LeapEntry>, states: seq<System>, steps: seq<Step>, n: nat,
                                   id: Identity)
    requires IsRun(u, states, steps) && Sound(states[|steps|].history) && IsReadStep(states, steps, n)
    requires forall k :: 0 <= k < |steps| ==> HonestServers(u, entries, states[k], steps[k])
    ensures IsTrustedRun(u, states, steps)
    ensures var l, time := LookAt(states, steps, n), steps[n].tick.event.time;
            && (NowAt(l).interval.Some? ==> Encloses(NowAt(l).interval.value, time))
            && (WatermarkAt(l, id).Watermark? ==>
                  WatermarkAt(l, id).value == WATERMARK_UNSET || WatermarkAt(l, id).value as real <= time)
  {
    forall k | 0 <= k < |steps|
      ensures Trusted(u, steps[k])
    {
      StepAt(u, states, steps, k);
      HistoriesGrow(u, states, steps, k + 1, |steps|);
      SoundBefore(states[k + 1].history, states[|steps|].history);
      HonestServersAreTrusted(u, entries, states[k], steps[k], states[k + 1]);
    }
    SoundIsPhysical(states[|steps|].history);
    ServedTimeIsTrue(u, states, steps, n, id);
  }
}
