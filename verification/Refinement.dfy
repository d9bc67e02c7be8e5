/** The service's objects do what the transition system says: every call, from a state that matches, has
    the effect of a sequence of steps, and a wait that commits is justified by the run its looks are from. */
module Refinement {
  import opened MachineInt
  import opened Outcomes
  import opened Assurance
  import opened TrueTime
  import opened Coverage
  import opened Poll
  import opened Continuity
  import opened Publish
  import opened Service
  import opened CertifiedRun
  import opened Runs
  import opened RunSafety
  import opened ClockServices
  import Estimate

  /** The objects hold what the state of the system says. */
  ghost predicate Matches(svc: ClockService, u: Setup, s: System)
    reads svc.guard, svc.estimate, svc.clock, svc.clock.state.anchor
    reads svc.publisher, svc.publisher.active.assurance.anchor
  {
    && svc.Id() == u.id
    && svc.guard.View() == s.guard
    && svc.clock.View() == s.writer
    && svc.estimate.mapping == s.mapping
    && ViewOf(svc.publisher.active) == s.published
  }

  /** What no program sees of a read: where the raw clock truly was, and when. */
  datatype Moment = Moment(coord: real, time: real)

  function TickOf(g: Guard, a: Answer, m: Moment): Tick {
    Tick(a.backend, Event(GuardedRead(g, a.backend).1, a.scale, m.coord, m.time))
  }

  function AfterRead(s: System, tick: Tick): System {
    s.(guard := GuardedRead(s.guard, tick.backend).0, history := s.history + [tick])
  }

  /** The steps lead from the first state to the last. */
  ghost predicate Leads(u: Setup, from: System, states: seq<System>, steps: seq<Step>, to: System) {
    Linked(u, states, steps) && states[0] == from && states[|steps|] == to
  }

  lemma OneStep(u: Setup, s: System, step: Step, s': System)
    requires Next(u, s, step, s')
    ensures Leads(u, s, [s, s'], [step], s')
  {
  }

  /** Sequences of steps can be put together, so that calls one after another make a run. */
  lemma StepsCompose(u: Setup, r: System, a: seq<System>, p: seq<Step>, s: System, b: seq<System>, q: seq<Step>, t: System)
    requires Leads(u, r, a, p, s) && Leads(u, s, b, q, t)
    ensures Leads(u, r, a + b[1..], p + q, t)
  {
    var states, steps := a + b[1..], p + q;
    forall n | 0 <= n < |steps|
      ensures StepIsTaken(u, states, steps, n)
    {
      if n < |p| {
        assert StepIsTaken(u, a, p, n);
      } else {
        assert StepIsTaken(u, b, q, n - |p|);
        assert states[n] == b[n - |p|];
      }
    }
  }

  lemma TwoSteps(u: Setup, s: System, p: Step, t: System, q: Step, r: System)
    requires Next(u, s, p, t) && Next(u, t, q, r)
    ensures Leads(u, s, [s, t, r], [p, q], r)
  {
    OneStep(u, s, p, t);
    OneStep(u, t, q, r);
    StepsCompose(u, s, [s, t], [p], t, [t, r], [q], r);
    assert [s, t] + [t, r][1..] == [s, t, r];
  }

  lemma ThreeSteps(u: Setup, s: System, p: Step, t: System, q: Step, r: System, o: Step, e: System)
    requires Next(u, s, p, t) && Next(u, t, q, r) && Next(u, r, o, e)
    ensures Leads(u, s, [s, t, r, e], [p, q, o], e)
  {
    TwoSteps(u, s, p, t, q, r);
    OneStep(u, r, o, e);
    StepsCompose(u, s, [s, t, r], [p, q], r, [r, e], [o], e);
    assert [s, t, r] + [r, e][1..] == [s, t, r, e];
  }

  /** A new service is an initial state. */
  method Create(ghost u: Setup, leapId: Digest, configId: Digest, epochId: Digest, maxWidth: Int64, scale: Scale)
    returns (svc: ClockService, ghost s: System)
    requires u.id == Identity(epochId, leapId, configId) && u.maxWidth == maxWidth
    ensures fresh(svc) && Matches(svc, u, s) && Init(u, s)
  {
    svc := new ClockService(leapId, configId, epochId, maxWidth, scale);
    s := System(INITIAL_GUARD, svc.clock.View(), svc.estimate.mapping, ViewOf(svc.publisher.active), Idle, Free, map[], []);
  }

  // ----- the writer's calls -----

  /** The state once the snapshot is stored. */
  function AfterStore(u: Setup, s: System, tick: Tick): System
    requires s.section.Storing?
  {
    var next := Stored(u, s, tick);
    var rejected := ValidatePublication(s.published, next).Some?;
    AfterRead(s, tick).(published := if rejected then s.published else next,
                        poll := PollAfterStore(s.section.outcome, rejected, s.poll), section := Free)
  }

  lemma StoreIsStep(u: Setup, s: System, tick: Tick)
    requires s.section.Storing? && GuardedRead(s.guard, tick.backend).1 == tick.event.reading
    ensures Next(u, s, Store(tick), AfterStore(u, s, tick))
  {
  }

  /** Invalidation is a step of its own and a storing. */
  method Invalidate(svc: ClockService, ghost u: Setup, ghost s: System, a: Answer, ghost m: Moment)
    returns (rejection: Option<Rejection>, ghost states: seq<System>, ghost s': System)
    requires Matches(svc, u, s) && s.section.Free?
    modifies svc.guard, svc.clock, svc.publisher
    ensures Matches(svc, u, s')
    ensures Leads(u, s, states, [Step.Invalidate, Store(TickOf(s.guard, a, m))], s')
  {
    rejection := svc.Invalidate(a);
    ghost var tick := TickOf(s.guard, a, m);
    ghost var mid := s.(writer := ToDesync(s.writer, RawDiscontinuity), section := Storing(CallerDone));
    s' := AfterStore(u, mid, tick);
    StoreIsStep(u, mid, tick);
    TwoSteps(u, s, Step.Invalidate, mid, Store(tick), s');
    states := [s, mid, s'];
  }

  /** So is a reset of the estimate. */
  method InitializeEstimate(svc: ClockService, ghost u: Setup, ghost s: System, raw0: UInt64, target: Int64,
                            baseRate: Int64, a: Answer, ghost m: Moment)
    returns (rejection: Option<Rejection>, ghost states: seq<System>, ghost s': System)
    requires Matches(svc, u, s) && s.section.Free?
    modifies svc.guard, svc.estimate, svc.publisher
    ensures Matches(svc, u, s')
    ensures Leads(u, s, states, [ResetEstimate(raw0, target, baseRate), Store(TickOf(s.guard, a, m))], s')
  {
    rejection := svc.InitializeEstimate(raw0, target, baseRate, a);
    ghost var tick := TickOf(s.guard, a, m);
    ghost var mid := s.(mapping := Estimate.Initialized(s.mapping, raw0, target, baseRate), section := Storing(CallerDone));
    s' := AfterStore(u, mid, tick);
    StoreIsStep(u, mid, tick);
    TwoSteps(u, s, ResetEstimate(raw0, target, baseRate), mid, Store(tick), s');
    states := [s, mid, s'];
  }

  /** The state once the selected round has been taken or refused. */
  function AfterSync(u: Setup, s: System, tick: Tick): System
    requires s.poll.Selected? && s.poll.moment < |s.history|
    requires ValidateHull(s.poll.selection.consensus.hull, s.writer.maxWidth).None?
  {
    var round := RoundAt(u, s.history[s.poll.moment].event, s.poll.selection);
    var (writer, fault) := SyncRound(s.writer, round, tick.event.reading, tick.event.scale);
    var mapping := if fault.None? then
        Estimate.Initialized(s.mapping, round.reading.raw, HullCentre(round.hull), 0) else s.mapping;
    AfterRead(s, tick).(writer := writer, mapping := mapping, poll := Waiting,
                        section := Storing(if fault.None? then RoundDone else RoundRefused))
  }

  lemma SyncIsStep(u: Setup, s: System, tick: Tick)
    requires s.poll.Selected? && s.section.Free? && s.poll.moment < |s.history|
    requires ValidateHull(s.poll.selection.consensus.hull, s.writer.maxWidth).None?
    requires GuardedRead(s.guard, tick.backend).1 == tick.event.reading
    ensures Next(u, s, Sync(tick), AfterSync(u, s, tick))
  {
  }

  /** Publishing a selected round either refuses its hull or is a synchronization and a storing; the poll
      has failed exactly when the call reports a fault or a rejection. */
  method PublishSyncRound(svc: ClockService, ghost u: Setup, ghost s: System, reading: Reading, scale: Scale,
                          consensus: Consensus, validUntil: UInt64, first: Answer, second: Answer,
                          ghost m1: Moment, ghost m2: Moment)
    returns (report: RoundReport, ghost states: seq<System>, ghost steps: seq<Step>, ghost s': System)
    requires Matches(svc, u, s) && s.section.Free? && s.poll.Selected? && s.poll.moment < |s.history|
    requires s.poll.selection == Selection(consensus, validUntil)
    requires reading == s.history[s.poll.moment].event.reading && scale == s.history[s.poll.moment].event.scale
    modifies svc.guard, svc.estimate, svc.clock, svc.publisher
    ensures Matches(svc, u, s') && Leads(u, s, states, steps, s')
    ensures var t1 := TickOf(s.guard, first, m1);
            steps == if ValidateHull(consensus.hull, s.writer.maxWidth).Some? then [RefuseHull]
                     else [Sync(t1), Store(TickOf(GuardedRead(s.guard, first.backend).0, second, m2))]
    ensures s'.poll == if report.fault.None? && report.rejection.None? then Idle else Failed
  {
    report := svc.PublishSyncRound(reading, scale, consensus, validUntil, first, second);
    if ValidateHull(consensus.hull, s.writer.maxWidth).Some? {
      s' := s.(poll := Failed);
      OneStep(u, s, RefuseHull, s');
      states, steps := [s, s'], [RefuseHull];
    } else {
      ghost var t1, t2 := TickOf(s.guard, first, m1), TickOf(GuardedRead(s.guard, first.backend).0, second, m2);
      ghost var mid := AfterSync(u, s, t1);
      s' := AfterStore(u, mid, t2);
      SyncIsStep(u, s, t1);
      StoreIsStep(u, mid, t2);
      TwoSteps(u, s, Sync(t1), mid, Store(t2), s');
      states, steps := [s, mid, s'], [Sync(t1), Store(t2)];
    }
  }

  function AfterFailure(u: Setup, s: System, tick: Tick): System
    requires u.config.maxHoldoverAge >= 0
  {
    var (writer, held) := FailRound(s.writer, s.published.assurance, tick.event.reading, tick.event.scale,
                                    u.config.maxHoldoverAge);
    AfterRead(s, tick).(writer := writer, poll := Waiting, section := if held then Rechecking else Storing(FailureDone))
  }

  function AfterRecheck(s: System, tick: Tick): System {
    AfterRead(s, tick).(writer := RecheckHoldover(s.writer, tick.event.reading), section := Storing(FailureDone))
  }

  /** Recording a failed round does nothing without an active snapshot; otherwise the failure is noted,
      rechecked while held over, and stored. */
  method MarkRoundFailure(svc: ClockService, ghost u: Setup, ghost s: System, maxAge: UInt64,
                          first: Answer, second: Answer, third: Answer,
                          ghost m1: Moment, ghost m2: Moment, ghost m3: Moment)
    returns (rejection: Option<Rejection>, ghost states: seq<System>, ghost steps: seq<Step>, ghost s': System)
    requires Matches(svc, u, s) && s.section.Free? && s.poll.Failed? && u.config.maxHoldoverAge == maxAge
    modifies svc.guard, svc.clock, svc.publisher
    ensures Matches(svc, u, s') && Leads(u, s, states, steps, s') && s'.poll == Idle
    ensures if !Active(s.published.assurance.status) then steps == [SkipFailure]
            else |steps| >= 2 && steps[0] == NoteFailure(TickOf(s.guard, first, m1)) && steps[|steps| - 1].Store?
                 && (|steps| == 2 || (|steps| == 3 && steps[1].Recheck?))
  {
    rejection := svc.MarkRoundFailure(maxAge, first, second, third);
    if !Active(s.published.assurance.status) {
      s' := s.(poll := Idle);
      OneStep(u, s, SkipFailure, s');
      states, steps := [s, s'], [SkipFailure];
    } else {
      states, steps, s' := FailureSteps(u, s, first, second, third, m1, m2, m3);
    }
  }

  lemma FailureSteps(u: Setup, s: System, first: Answer, second: Answer, third: Answer,
                     m1: Moment, m2: Moment, m3: Moment)
    returns (states: seq<System>, steps: seq<Step>, s': System)
    requires s.section.Free? && s.poll.Failed? && u.config.maxHoldoverAge >= 0 && Active(s.published.assurance.status)
    ensures Leads(u, s, states, steps, s') && s'.poll == Idle
    ensures |steps| >= 2 && steps[0] == NoteFailure(TickOf(s.guard, first, m1)) && steps[|steps| - 1].Store?
    ensures |steps| == 2 || (|steps| == 3 && steps[1].Recheck?)
    ensures var (g1, r1) := GuardedRead(s.guard, first.backend);
            var (s1, held) := FailRound(s.writer, s.published.assurance, r1, first.scale, u.config.maxHoldoverAge);
            var (g2, r2) := if held then GuardedRead(g1, second.backend) else (g1, r1);
            var s2 := if held then RecheckHoldover(s1, r2) else s1;
            var (g3, r3) := GuardedRead(g2, third.backend);
            var next := NextSnapshot(s.published, s.mapping, s2, third.scale, r3.token, u.id);
            && s'.guard == g3 && s'.writer == s2 && s'.mapping == s.mapping
            && s'.published == if ValidatePublication(s.published, next).None? then next else s.published
  {
    var t1 := TickOf(s.guard, first, m1);
    var a := AfterFailure(u, s, t1);
    assert Next(u, s, NoteFailure(t1), a);
    if a.section.Rechecking? {
      var t2 := TickOf(a.guard, second, m2);
      var b := AfterRecheck(a, t2);
      var t3 := TickOf(b.guard, third, m3);
      s' := AfterStore(u, b, t3);
      StoreIsStep(u, b, t3);
      assert Next(u, a, Recheck(t2), b);
      ThreeSteps(u, s, NoteFailure(t1), a, Recheck(t2), b, Store(t3), s');
      states, steps := [s, a, b, s'], [NoteFailure(t1), Recheck(t2), Store(t3)];
    } else {
      var t3 := TickOf(a.guard, third, m3);
      s' := AfterStore(u, a, t3);
      StoreIsStep(u, a, t3);
      TwoSteps(u, s, NoteFailure(t1), a, Store(t3), s');
      states, steps := [s, a, s'], [NoteFailure(t1), Store(t3)];
    }
  }

  // ----- the poll and the readers -----

  /** A poll starts with a read. */
  method StartPoll(svc: ClockService, ghost u: Setup, ghost s: System, a: Answer, ghost m: Moment)
    returns (start: Reading, ghost s': System)
    requires Matches(svc, u, s) && s.poll.Idle?
    modifies svc.guard
    ensures Matches(svc, u, s') && Next(u, s, Step.StartPoll(TickOf(s.guard, a, m)), s')
    ensures s'.poll == Querying(|s.history|) && s'.history[|s.history|].event.reading == start
  {
    start := svc.guard.Read(a.backend);
    s' := AfterRead(s, TickOf(s.guard, a, m)).(poll := Querying(|s.history|));
  }

  /** So does each half of a query. */
  method QueryRead(svc: ClockService, ghost u: Setup, ghost s: System, a: Answer, ghost m: Moment)
    returns (reading: Reading, ghost s': System)
    requires Matches(svc, u, s) && s.poll.Querying?
    modifies svc.guard
    ensures Matches(svc, u, s') && Next(u, s, Step.QueryRead(TickOf(s.guard, a, m)), s')
    ensures s'.poll == s.poll && s'.history[|s.history|].event.reading == reading
  {
    reading := svc.guard.Read(a.backend);
    s' := AfterRead(s, TickOf(s.guard, a, m));
  }

  /** The end of a poll is a selection or a failure. */
  method FinishPoll(svc: ClockService, ghost u: Setup, ghost s: System, config: Config, start: Reading, startScale: Scale,
                    results: seq<SourceResult>, a: Answer, ghost m: Moment)
    returns (r: Result<Selection>, ghost votes: seq<Vote>, ghost s': System)
    requires Matches(svc, u, s) && s.poll.Querying? && s.poll.start < |s.history| && u.config == config
    requires start == s.history[s.poll.start].event.reading && startScale == s.history[s.poll.start].event.scale
    modifies svc.guard
    ensures Matches(svc, u, s')
    ensures var tick := TickOf(s.guard, a, m);
            Next(u, s, if r.Success? then Select(tick, results, votes, r.value) else FailPoll(tick), s')
  {
    ghost var tick := TickOf(s.guard, a, m);
    var end := svc.guard.Read(a.backend);
    r, votes := SelectRound(Window(start, startScale, end, a.scale), results, config);
    s' := AfterRead(s, tick).(poll := if r.Success? then Selected(|s.history|, r.value) else Failed);
  }

  function WithReader(s: System, reader: nat): System {
    s.(readers := s.readers[reader := s.published])
  }

  /** A caller's answer comes from one acquisition and one read. */
  method Now(svc: ClockService, ghost u: Setup, ghost s: System, ghost reader: nat, a: Answer, ghost m: Moment)
    returns (now: AssuredNow, ghost states: seq<System>, ghost steps: seq<Step>, ghost s': System)
    requires Matches(svc, u, s)
    modifies svc.guard
    ensures Matches(svc, u, s') && steps == [Acquire(reader), Read(reader, TickOf(s.guard, a, m))]
    ensures Leads(u, s, states, steps, s') && IsReadStep(states, steps, 1) && now == NowAt(LookAt(states, steps, 1))
  {
    now := svc.Now(a);
    states, steps, s' := ReadSteps(u, s, reader, a, m);
  }

  lemma ReadSteps(u: Setup, s: System, reader: nat, a: Answer, m: Moment)
    returns (states: seq<System>, steps: seq<Step>, s': System)
    ensures steps == [Acquire(reader), Read(reader, TickOf(s.guard, a, m))] && Leads(u, s, states, steps, s')
    ensures s' == AfterRead(WithReader(s, reader), TickOf(s.guard, a, m))
    ensures IsReadStep(states, steps, 1)
    ensures LookAt(states, steps, 1) == Look(s.published, GuardedRead(s.guard, a.backend).1, a.scale)
  {
    var tick, mid := TickOf(s.guard, a, m), WithReader(s, reader);
    s' := AfterRead(mid, tick);
    TwoSteps(u, s, Acquire(reader), mid, Read(reader, tick), s');
    states, steps := [s, mid, s'], [Acquire(reader), Read(reader, tick)];
  }

  /** A watermark comes from the same two steps; a refusal before the read takes only the first. */
  method PastWatermark(svc: ClockService, ghost u: Setup, ghost s: System, ghost reader: nat, id: Identity, a: Answer,
                       ghost m: Moment)
    returns (w: WatermarkResult, ghost states: seq<System>, ghost steps: seq<Step>, ghost s': System)
    requires Matches(svc, u, s)
    modifies svc.guard
    ensures Matches(svc, u, s') && Leads(u, s, states, steps, s')
    ensures if ReadsForWatermark(s.published, id)
            then steps == [Acquire(reader), Read(reader, TickOf(s.guard, a, m))] && IsReadStep(states, steps, 1)
                 && w == WatermarkAt(LookAt(states, steps, 1), id)
            else steps == [Acquire(reader)] && w.Refused?
  {
    var status;
    w, status := svc.PastWatermark(id, a);
    if ReadsForWatermark(s.published, id) {
      states, steps, s' := ReadSteps(u, s, reader, a, m);
    } else {
      s' := WithReader(s, reader);
      OneStep(u, s, Acquire(reader), s');
      states, steps := [s, s'], [Acquire(reader)];
    }
  }

  // ----- what the objects serve is true -----

  /** A read after a trusted run makes a trusted run, as long as it happens in the physical world. */
  lemma ReadingExtendsRun(u: Setup, states: seq<System>, steps: seq<Step>, reader: nat, a: Answer, m: Moment)
    returns (states': seq<System>, steps': seq<Step>)
    requires IsTrustedRun(u, states, steps)
    requires Physical(states[|steps|].history + [TickOf(states[|steps|].guard, a, m)])
    ensures var s := states[|steps|];
            && IsTrustedRun(u, states', steps')
            && steps' == steps + [Acquire(reader), Read(reader, TickOf(s.guard, a, m))]
            && states'[|steps'|] == AfterRead(WithReader(s, reader), TickOf(s.guard, a, m))
            && IsReadStep(states', steps', |steps| + 1)
            && LookAt(states', steps', |steps| + 1) == Look(s.published, GuardedRead(s.guard, a.backend).1, a.scale)
  {
    var s := states[|steps|];
    var b, q, s' := ReadSteps(u, s, reader, a, m);
    states', steps' := states + b[1..], steps + q;
    StepsCompose(u, states[0], states, steps, s, b, q, s');
    forall n | 0 <= n < |steps'|
      ensures Trusted(u, steps'[n])
    {
      assert n >= |steps| ==> !steps'[n].Select?;
      assert n < |steps| ==> steps'[n] == steps[n];
    }
    assert states'[|steps| + 1] == b[1];
  }

  /** After any trusted run that the objects have followed, an interval that the service returns holds the
      true time of its read, and its certain answers are true. */
  method NowInRun(svc: ClockService, ghost u: Setup, ghost states: seq<System>, ghost steps: seq<Step>,
                  ghost reader: nat, a: Answer, ghost m: Moment)
    returns (now: AssuredNow, ghost states': seq<System>, ghost steps': seq<Step>)
    requires IsTrustedRun(u, states, steps) && Matches(svc, u, states[|steps|])
    requires Physical(states[|steps|].history + [TickOf(states[|steps|].guard, a, m)])
    modifies svc.guard
    ensures IsTrustedRun(u, states', steps') && steps <= steps' && Matches(svc, u, states'[|steps'|])
    ensures now.interval.Some? ==> Encloses(now.interval.value, m.time)
    ensures forall t: Int64 :: (AfterOf(now, t) == CertainYes ==> m.time > t as real)
                               && (AfterOf(now, t) == CertainNo ==> m.time <= t as real)
                               && (BeforeOf(now, t) == CertainYes ==> m.time < t as real)
                               && (BeforeOf(now, t) == CertainNo ==> m.time >= t as real)
  {
    now := svc.Now(a);
    states', steps' := ReadingExtendsRun(u, states, steps, reader, a, m);
    ServedTimeIsTrue(u, states', steps', |steps| + 1, u.id);
    forall t: Int64
      ensures AfterOf(now, t) == CertainYes ==> m.time > t as real
      ensures AfterOf(now, t) == CertainNo ==> m.time <= t as real
      ensures BeforeOf(now, t) == CertainYes ==> m.time < t as real
      ensures BeforeOf(now, t) == CertainNo ==> m.time >= t as real
    {
      CertainAnswersAreTrue(u, states', steps', |steps| + 1, t);
    }
  }

  // ----- waiting for a commit in a run -----

  /** The look was taken at a read of the run, or was refused without one. */
  ghost predicate TakenInRun(states: seq<System>, steps: seq<Step>, n: nat, l: Look, id: Identity) {
    !ReadsForWatermark(l.snap, id) || (IsReadStep(states, steps, n) && LookAt(states, steps, n) == l)
  }

  ghost predicate AllTakenInRun(states: seq<System>, steps: seq<Step>, at: seq<nat>, looks: seq<Look>, id: Identity)
    requires |at| == |looks|
  {
    forall k {:trigger looks[k]} :: 0 <= k < |looks| ==> TakenInRun(states, steps, at[k], looks[k], id)
  }

  /** A wait over looks taken in a run: when it commits, true time has passed the timestamp at the deciding
      read, and at every later one. */
  method CommitWaitInRun(ghost u: Setup, ghost states: seq<System>, ghost steps: seq<Step>, ghost at: seq<nat>,
                         looks: seq<Look>, commitTs: Int64, id: Identity) returns (r: WaitResult)
    requires IsTrustedRun(u, states, steps) && |at| == |looks|
    requires AllTakenInRun(states, steps, at, looks, id)
    ensures r == Committed && commitTs >= WATERMARK_UNSET ==>
              exists k: nat :: k < |looks| && Decides(looks, k, commitTs, id) && PassedFrom(states, steps, at[k], commitTs)
  {
    r := CommitWait(looks, commitTs, id);
    if r == Committed && commitTs >= WATERMARK_UNSET {
      ghost var k: nat :| k < |looks| && Decides(looks, k, commitTs, id);
      DecidedMeansPassed(u, states, steps, at, looks, k, commitTs, id);
    }
  }

  lemma DecidedMeansPassed(u: Setup, states: seq<System>, steps: seq<Step>, at: seq<nat>, looks: seq<Look>, k: nat,
                           commitTs: Int64, id: Identity)
    requires IsTrustedRun(u, states, steps) && |at| == |looks| && AllTakenInRun(states, steps, at, looks, id)
    requires k < |looks| && Decides(looks, k, commitTs, id) && commitTs >= WATERMARK_UNSET
    ensures PassedFrom(states, steps, at[k], commitTs)
  {
    CommittedMeansPassed(u, states, steps, at[k], looks[k], commitTs, id);
  }

  /** From the read of step `n` on, true time is past the timestamp. */
  ghost predicate PassedFrom(states: seq<System>, steps: seq<Step>, n: nat, commitTs: Int64) {
    && n < |steps| && |states| == |steps| + 1 && steps[n].Read?
    && steps[n].tick.event.time > commitTs as real
    && forall j :: |states[n].history| <= j < |states[|steps|].history| ==>
                     states[|steps|].history[j].event.time > commitTs as real
  }

  lemma CommittedMeansPassed(u: Setup, states: seq<System>, steps: seq<Step>, n: nat, l: Look, commitTs: Int64, id: Identity)
    requires IsTrustedRun(u, states, steps) && TakenInRun(states, steps, n, l, id) && commitTs >= WATERMARK_UNSET
    requires WatermarkAt(l, id).Watermark? && WatermarkAt(l, id).value > commitTs
    ensures PassedFrom(states, steps, n, commitTs)
  {
    ServedTimeIsTrue(u, states, steps, n, id);
    StepAt(u, states, steps, n);
    HistoriesGrow(u, states, steps, n + 1, |steps|);
    PhysicalAt(u, states, steps, |steps|);
    var h, m := states[|steps|].history, |states[n].history|;
    assert h[m] == steps[n].tick;
    forall j | m <= j < |h|
      ensures h[j].event.time > commitTs as real
    {
      assert Follows(h[m].event, h[j].event);
    }
  }
}
