/** Truth over whole runs of the service, as long as the sources and the oscillator can be trusted. */
module RunSafety {
  import opened MachineInt
  import opened Outcomes
  import opened FixedPoint
  import opened Assurance
  import opened TrueTime
  import opened Coverage
  import opened Poll
  import opened Continuity
  import opened Publish
  import opened Service
  import opened CertifiedRun
  import opened Runs
  import Estimate

  ghost predicate AllTrusted(u: Setup, steps: seq<Step>) {
    forall n :: 0 <= n < |steps| ==> Trusted(u, steps[n])
  }

  /** A run in a physical world in which every selected round meets the fault budget. */
  ghost predicate IsTrustedRun(u: Setup, states: seq<System>, steps: seq<Step>) {
    IsRun(u, states, steps) && Physical(states[|steps|].history) && AllTrusted(u, steps)
  }

  lemma PhysicalBefore(h: History, h': History)
    requires h <= h' && Physical(h')
    ensures Physical(h)
  {
    forall i, j | 0 <= i <= j < |h|
      ensures Follows(h[i].event, h[j].event) && Labelled(h[i].event)
    {
      assert h[i] == h'[i] && h[j] == h'[j];
      assert Follows(h'[i].event, h'[j].event);
    }
  }

  lemma PhysicalAt(u: Setup, states: seq<System>, steps: seq<Step>, n: nat)
    requires IsTrustedRun(u, states, steps) && n <= |steps|
    ensures Physical(states[n].history)
  {
    HistoriesGrow(u, states, steps, n, |steps|);
    PhysicalBefore(states[n].history, states[|steps|].history);
  }

  /** The invariant holds in every reachable state. */
  lemma {:induction false} InvAlways(u: Setup, states: seq<System>, steps: seq<Step>, n: nat)
    requires IsTrustedRun(u, states, steps) && n <= |steps|
    ensures Inv(u, states[n])
  {
    if n > 0 {
      InvAlways(u, states, steps, n - 1);
      StepAt(u, states, steps, n - 1);
      PhysicalAt(u, states, steps, n);
      StepKeepsInv(u, states[n - 1], steps[n - 1], states[n]);
    }
  }

  /** In every trusted run, every served interval encloses true time at its reading, for readers of any
      snapshot; and a watermark that some round has set never exceeds true time. */
  lemma ServedTimeIsTrue(u: Setup, states: seq<System>, steps: seq<Step>, n: nat, id: Identity)
    requires IsTrustedRun(u, states, steps) && IsReadStep(states, steps, n)
    ensures var l, time := LookAt(states, steps, n), steps[n].tick.event.time;
            && (NowAt(l).interval.Some? ==> Encloses(NowAt(l).interval.value, time))
            && (WatermarkAt(l, id).Watermark? ==>
                  var w := WatermarkAt(l, id).value;
                  w == WATERMARK_UNSET || w as real <= time)
  {
    InvAlways(u, states, steps, n);
    PhysicalAt(u, states, steps, n + 1);
    StepAt(u, states, steps, n);
    LookIsTrue(u, states[n], steps[n], states[n + 1], id);
  }

  /** The same for one step from a state with the invariant. */
  lemma LookIsTrue(u: Setup, s: System, step: Step, s': System, id: Identity)
    requires Inv(u, s) && Next(u, s, step, s') && Physical(s'.history) && step.Read? && step.reader in s.readers
    ensures var l, time := Look(s.readers[step.reader], step.tick.event.reading, step.tick.event.scale), step.tick.event.time;
            && (NowAt(l).interval.Some? ==> Encloses(NowAt(l).interval.value, time))
            && (WatermarkAt(l, id).Watermark? ==>
                  WatermarkAt(l, id).value == WATERMARK_UNSET || WatermarkAt(l, id).value as real <= time)
  {
    var l := Look(s.readers[step.reader], step.tick.event.reading, step.tick.event.scale);
    var h, m := s'.history, |s.history|;
    BackedLater(l.snap.assurance, s.history, m, h, m, u.config);
    if NowAt(l).interval.Some? {
      ServedEncloses(l.snap.assurance, h, m, m, u.config);
    }
    if l.snap.assurance.watermark != WATERMARK_UNSET {
      var i: nat :| i < m && Reached(l.snap.assurance.watermark, h, i);
      assert Follows(h[i].event, h[m].event);
    }
  }

  /** In every trusted run a certain answer is true of the time at its reading. */
  lemma CertainAnswersAreTrue(u: Setup, states: seq<System>, steps: seq<Step>, n: nat, t: Int64)
    requires IsTrustedRun(u, states, steps) && IsReadStep(states, steps, n)
    ensures var now, time := NowAt(LookAt(states, steps, n)), steps[n].tick.event.time;
            && (AfterOf(now, t) == CertainYes ==> time > t as real) && (AfterOf(now, t) == CertainNo ==> time <= t as real)
            && (BeforeOf(now, t) == CertainYes ==> time < t as real) && (BeforeOf(now, t) == CertainNo ==> time >= t as real)
  {
    ServedTimeIsTrue(u, states, steps, n, u.id);
    var now := NowAt(LookAt(states, steps, n));
    if now.interval.Some? {
      DecisionsAreCertain(now, t, steps[n].tick.event.time);
    }
  }

  /** In every trusted run, true time is within the symmetric epsilon of the estimate, if the distances did
      not wrap. */
  lemma EstimateIsWithinEpsilon(u: Setup, states: seq<System>, steps: seq<Step>, n: nat)
    requires IsTrustedRun(u, states, steps) && IsReadStep(states, steps, n)
    requires var now := NowAt(LookAt(states, steps, n));
             && now.interval.Some? && now.estimate.Some? && now.epsilon.Some?
             && FitsInt64(now.estimate.value - now.interval.value.earliest)
             && FitsInt64(now.interval.value.latest - now.estimate.value)
    ensures var now, time := NowAt(LookAt(states, steps, n)), steps[n].tick.event.time;
            (now.estimate.value - now.epsilon.value) as real <= time <= (now.estimate.value + now.epsilon.value) as real
  {
    ServedTimeIsTrue(u, states, steps, n, u.id);
    var now := NowAt(LookAt(states, steps, n));
    EpsilonCovers(now.estimate.value, now.interval.value);
  }

  lemma StepKeepsReason(u: Setup, s: System, step: Step, s': System)
    requires Inv(u, s) && Next(u, s, step, s') && Physical(s'.history) && s.writer.reason != Conflict
    ensures s'.writer.reason != Conflict
  {
    if step.Sync? {
      SyncKeepsInv(u, s, step, s');
    } else {
      OnlyRoundsConflict(u, s, step, s');
    }
  }

  lemma OnlyRoundsConflict(u: Setup, s: System, step: Step, s': System)
    requires Next(u, s, step, s') && !step.Sync? && s.writer.reason != Conflict
    ensures s'.writer.reason != Conflict
  {
  }

  /** No round ever conflicts with the bound carried over from an earlier one. */
  lemma {:induction false} ConflictNeverOccurs(u: Setup, states: seq<System>, steps: seq<Step>, n: nat)
    requires IsTrustedRun(u, states, steps) && n <= |steps|
    ensures states[n].writer.reason != Conflict
  {
    if n > 0 {
      ConflictNeverOccurs(u, states, steps, n - 1);
      InvAlways(u, states, steps, n - 1);
      StepAt(u, states, steps, n - 1);
      PhysicalAt(u, states, steps, n);
      StepKeepsReason(u, states[n - 1], steps[n - 1], states[n]);
    }
  }

  // ----- commit wait -----

  /** The look lets a waiting caller commit `commitTs`. */
  predicate Commits(l: Look, commitTs: Int64, id: Identity) {
    var w := WatermarkAt(l, id);
    w.Watermark? && w.value > commitTs
  }

  /** In no trusted run does a caller commit the timestamp while true time has not passed it. */
  ghost predicate CommitIsSafe(commitTs: Int64) {
    forall u: Setup, states: seq<System>, steps: seq<Step>, n: nat, id: Identity ::
      IsTrustedRun(u, states, steps) && IsReadStep(states, steps, n) && Commits(LookAt(states, steps, n), commitTs, id) ==>
        steps[n].tick.event.time > commitTs as real
  }

  lemma CommitFromUnsetWatermarkOn(commitTs: Int64)
    requires commitTs >= WATERMARK_UNSET
    ensures CommitIsSafe(commitTs)
  {
    forall u: Setup, states: seq<System>, steps: seq<Step>, n: nat, id: Identity
      | IsTrustedRun(u, states, steps) && IsReadStep(states, steps, n) && Commits(LookAt(states, steps, n), commitTs, id)
      ensures steps[n].tick.event.time > commitTs as real
    {
      ServedTimeIsTrue(u, states, steps, n, id);
    }
  }

  // A run that commits too early: one honest round at true time `c`, below the unset watermark.

  function EarlyRound(c: Int64): Round {
    RoundAt(EarlySetup(), EarlyTick(c).event, EarlySelected(c))
  }

  function EarlySelected(c: Int64): Selection {
    Selection(Consensus(Interval(c, c), [Interval(c, c)], 1, 0, 1, Control(Interval(c, c), c, c)), 1)
  }

  function EarlyHistory(c: Int64, n: nat): History {
    seq(n, _ => EarlyTick(c))
  }

  function BeforeStore(c: Int64): System {
    var hull := Interval(c, c);
    System(Guard(1, true, 0, 0, 0), Adopt(InitialState(1, []), EarlyRound(c), hull),
           Estimate.Initialized(EarlyMapping(), 0, HullCentre(hull), 0), EarlyView(), Waiting, Storing(RoundDone), map[],
           EarlyHistory(c, 3))
  }

  function EarlyMapping(): Estimate.Mapping {
    Estimate.Mapping(0, 0, 0, 0, 0, 0, 1, Estimate.RateReanchor)
  }

  function EarlyView(): View {
    Snapshot(EarlyMapping(), InitialState(1, []), Scale(ONE_Q48, ONE_Q48), 1, [], [], [], 1)
  }

  function EarlyPolling(c: Int64, n: nat, poll: Polling): System {
    System(if n == 0 then INITIAL_GUARD else Guard(1, true, 0, 0, 0), InitialState(1, []), EarlyMapping(), EarlyView(),
           poll, Free, map[], EarlyHistory(c, n))
  }

  function AfterStore(c: Int64): System {
    var s := BeforeStore(c);
    s.(published := Stored(EarlySetup(), s, EarlyTick(c)), poll := Idle, section := Free, history := EarlyHistory(c, 4))
  }

  lemma EarlyHistoryGrows(c: Int64, n: nat)
    ensures EarlyHistory(c, n + 1) == EarlyHistory(c, n) + [EarlyTick(c)]
  {
  }

  lemma EarlyPollAndSelect(c: Int64, results: seq<SourceResult>, votes: seq<Vote>)
    requires results == EarlyResults(c) && votes == EarlyVotes(c)
    ensures Next(EarlySetup(), EarlyPolling(c, 0, Idle), StartPoll(EarlyTick(c)), EarlyPolling(c, 1, Querying(0)))
    ensures Next(EarlySetup(), EarlyPolling(c, 1, Querying(0)), Select(EarlyTick(c), results, votes, EarlySelected(c)),
                 EarlyPolling(c, 2, Selected(1, EarlySelected(c))))
  {
    EarlyHistoryGrows(c, 0);
    EarlyHistoryGrows(c, 1);
    EarlySelection(c);
  }

  lemma EarlySync(c: Int64)
    ensures Next(EarlySetup(), EarlyPolling(c, 2, Selected(1, EarlySelected(c))), Sync(EarlyTick(c)), BeforeStore(c))
  {
    EarlyHistoryGrows(c, 2);
    var round := EarlyRound(c);
    assert ProcessRound(InitialState(1, []), round) ==
           (Adopt(InitialState(1, []), round, round.hull), Result.Success(round.hull));
  }

  lemma EarlyStore(c: Int64)
    ensures Next(EarlySetup(), BeforeStore(c), Store(EarlyTick(c)), AfterStore(c))
  {
    EarlyHistoryGrows(c, 3);
  }

  lemma EarlyPhysical(c: Int64, n: nat)
    ensures Physical(EarlyHistory(c, n))
  {
  }

  function Acquired(c: Int64, n: nat): System {
    AfterStore(c).(readers := map[0 := AfterStore(c).published], history := EarlyHistory(c, n))
  }

  lemma EarlyAcquireAndRead(c: Int64)
    ensures Next(EarlySetup(), AfterStore(c), Acquire(0), Acquired(c, 4))
    ensures Next(EarlySetup(), Acquired(c, 4), Read(0, EarlyTick(c)), Acquired(c, 5))
  {
    EarlyHistoryGrows(c, 4);
  }

  lemma EarlyLookCommits(c: Int64)
    requires c < WATERMARK_UNSET
    ensures Commits(Look(AfterStore(c).published, EarlyTick(c).event.reading, EarlyTick(c).event.scale), c, EarlySetup().id)
  {
    EarlyPropagation(c, AfterStore(c).published.assurance.anchor.value);
  }

  function EarlyResults(c: Int64): seq<SourceResult> {
    [SourceResult("a", Some(Measurement(0, 0, Interval(c, c))))]
  }

  function EarlyVotes(c: Int64): seq<Vote> {
    [Vote("a", Interval(c, c))]
  }

  function EarlyStates(c: Int64): (s: seq<System>)
    ensures |s| == 7
  {
    [EarlyPolling(c, 0, Idle), EarlyPolling(c, 1, Querying(0)), EarlyPolling(c, 2, Selected(1, EarlySelected(c))),
     BeforeStore(c), AfterStore(c), Acquired(c, 4), Acquired(c, 5)]
  }

  function EarlySteps(c: Int64): (t: seq<Step>)
    ensures |t| == 6
  {
    var tick := EarlyTick(c);
    [StartPoll(tick), Select(tick, EarlyResults(c), EarlyVotes(c), EarlySelected(c)), Sync(tick), Store(tick), Acquire(0),
     Read(0, tick)]
  }

  ghost predicate EarlyStepIsTaken(c: Int64, n: nat)
    requires n < 6
  {
    StepIsTaken(EarlySetup(), EarlyStates(c), EarlySteps(c), n)
  }

  lemma EarlySelectIsTaken(c: Int64)
    ensures EarlyStepIsTaken(c, 0) && EarlyStepIsTaken(c, 1)
  {
    EarlyPollAndSelect(c, EarlyResults(c), EarlyVotes(c));
  }

  lemma EarlySyncIsTaken(c: Int64)
    ensures EarlyStepIsTaken(c, 2) && EarlyStepIsTaken(c, 3)
  {
    EarlySync(c);
    EarlyStore(c);
  }

  lemma EarlyReadIsTaken(c: Int64)
    ensures EarlyStepIsTaken(c, 4) && EarlyStepIsTaken(c, 5)
  {
    EarlyAcquireAndRead(c);
  }

  lemma EarlyRunIsLinked(c: Int64)
    ensures Linked(EarlySetup(), EarlyStates(c), EarlySteps(c))
  {
    EarlySelectIsTaken(c);
    EarlySyncIsTaken(c);
    EarlyReadIsTaken(c);
    forall n | 0 <= n < 6
      ensures StepIsTaken(EarlySetup(), EarlyStates(c), EarlySteps(c), n)
    {
      assert EarlyStepIsTaken(c, n);
    }
  }

  lemma EarlyStepsAreTrusted(c: Int64)
    ensures AllTrusted(EarlySetup(), EarlySteps(c))
  {
    EarlyVotesHoldTime(c);
    forall n | 0 <= n < 6 && n != 1
      ensures !EarlySteps(c)[n].Select?
    {
    }
  }

  lemma EarlyVotesHoldTime(c: Int64)
    ensures |Excluding(Intervals(EarlyVotes(c)), EarlyTick(c).event.time)| == 0
  {
    assert Intervals(EarlyVotes(c)) == [Interval(c, c)];
    assert Excluding([Interval(c, c)], c as real) == {};
  }

  /** Below the watermark's initial value the guarantee fails: the round leaves the watermark
      unset, and the unset watermark lies beyond true time. */
  lemma CommitBelowUnsetWatermark(c: Int64)
    requires c < WATERMARK_UNSET
    ensures !CommitIsSafe(c)
  {
    EarlyRunIsLinked(c);
    EarlyStepsAreTrusted(c);
    EarlyPhysical(c, 5);
    EarlyStart(c);
    EarlyLookCommits(c);
    UnsafeRun(EarlySetup(), EarlyStates(c), EarlySteps(c), EarlyTick(c), c);
  }

  lemma EarlyStart(c: Int64)
    ensures Init(EarlySetup(), EarlyPolling(c, 0, Idle))
  {
    assert EarlyHistory(c, 0) == [];
  }

  /** A linked run whose last step is a committing look shows that the timestamp is not safe. */
  lemma UnsafeRun(u: Setup, states: seq<System>, steps: seq<Step>, tick: Tick, c: Int64)
    requires ValidConfig(u.config) && Linked(u, states, steps) && Init(u, states[0]) && AllTrusted(u, steps)
    requires Physical(states[|steps|].history)
    requires |steps| > 0 && steps[|steps| - 1] == Read(0, tick) && 0 in states[|steps| - 1].readers
    requires Commits(Look(states[|steps| - 1].readers[0], tick.event.reading, tick.event.scale), c, u.id)
    requires tick.event.time <= c as real
    ensures !CommitIsSafe(c)
  {
    var n := |steps| - 1;
    assert IsTrustedRun(u, states, steps) && IsReadStep(states, steps, n);
    assert Commits(LookAt(states, steps, n), c, u.id);
  }

  function EarlySetup(): Setup {
    Setup(Config(0, 1, 1, 1, 1, 0), Identity([], [], []), 1)
  }

  function EarlyTick(commitTs: Int64): Tick {
    Tick(Reading(0, 0, 0, 0), Event(Reading(0, 0, 1, 0), Scale(ONE_Q48, ONE_Q48), 0.0, commitTs as real))
  }

  lemma EarlyPropagation(c: Int64, a: Anchor)
    requires a.rawAnchor == 0 && a.readBound == 0 && a.token == 1 && a.scale == Scale(ONE_Q48, ONE_Q48)
    requires a.lower == a.upper == c
    ensures Propagated(a, Reading(0, 0, 1, 0), 1) == Result.Success(Interval(c, c))
  {
    assert CheckedSum(c, [0, 0]) == Result.Success(c) by {
      assert [0, 0][1..] == [0] && [0][1..] == [];
    }
  }

  function EarlyWindow(c: Int64): Window {
    WindowOf(EarlyTick(c).event, EarlyTick(c).event)
  }

  lemma EarlyAccepted(c: Int64)
    ensures Accepted(EarlyResults(c)[0], EarlyWindow(c), EarlySetup().config) == Some(Interval(c, c))
  {
    EarlyPropagation(c, SampleAnchor(EarlyResults(c)[0].measurement.value, EarlyWindow(c)));
  }

  lemma EarlyEvidence(c: Int64, d: string)
    ensures Evidence(EarlyResults(c), d, EarlyWindow(c), EarlySetup().config) == if d == "a" then [Interval(c, c)] else []
  {
    EarlyAccepted(c);
    assert EarlyResults(c)[..0] == [];
  }

  lemma EarlyVote(c: Int64)
    ensures VoteOf(EarlyResults(c), "a", EarlyWindow(c), EarlySetup().config) == Some(EarlyVotes(c)[0])
  {
    EarlyEvidence(c, "a");
  }

  lemma EarlyCoverage(c: Int64)
    ensures Intervals(EarlyVotes(c)) == [Interval(c, c)]
    ensures forall t: real :: InSome([Interval(c, c)], t) <==> |Covering([Interval(c, c)], t)| >= 1
  {
    var hull := Interval(c, c);
    forall t: real
      ensures InSome([hull], t) <==> |Covering([hull], t)| >= 1
    {
      if Encloses(hull, t) {
        assert 0 in Covering([hull], t);
        assert Encloses([hull][0], t);
      } else {
        assert Covering([hull], t) == {};
      }
    }
  }

  /** A single honest domain, sampled at the very instant of the selection. */
  lemma EarlySelection(c: Int64)
    ensures IsSelection(EarlySelected(c), EarlyVotes(c), EarlyResults(c), EarlyWindow(c), EarlySetup().config)
  {
    forall d: string
      ensures Evidence(EarlyResults(c), d, EarlyWindow(c), EarlySetup().config) == if d == "a" then [Interval(c, c)] else []
    {
      EarlyEvidence(c, d);
    }
    EarlyVote(c);
    EarlyCoverage(c);
  }

  /** The commit guarantee holds exactly for timestamps at or above the unset watermark. */
  lemma CommitGuaranteeIsExact(commitTs: Int64)
    ensures CommitIsSafe(commitTs) <==> commitTs >= WATERMARK_UNSET
  {
    if commitTs >= WATERMARK_UNSET {
      CommitFromUnsetWatermarkOn(commitTs);
    } else {
      CommitBelowUnsetWatermark(commitTs);
    }
  }
}
