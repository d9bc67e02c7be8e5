/** The service's objects. Anchors are shared by reference between the assurance clock and every
    published snapshot, and no operation ever writes to one that exists. */
module ClockServices {
  import opened MachineInt
  import opened Outcomes
  import opened Assurance
  import opened Coverage
  import opened Continuity
  import opened Publish
  import opened Service
  import Estimate

  class AnchorCell {
    var value: Anchor

    constructor (value: Anchor)
      ensures this.value == value
    {
      this.value := value;
    }
  }

  type Held = ClockState<AnchorCell?>

  function Resolve(c: AnchorCell?): Option<Anchor>
    reads c
  {
    if c == null then None else Some(c.value)
  }

  function StateOf(s: Held): State
    reads s.anchor
  {
    ClockState(Resolve(s.anchor), s.lowerDebt, s.upperDebt, s.status, s.reason, s.lastRoundRaw, s.watermark,
               s.generation, s.epochId, s.maxWidth)
  }

  function ViewOf(s: Snapshot<AnchorCell?>): View
    reads s.assurance.anchor
  {
    Snapshot(s.mapping, StateOf(s.assurance), s.scale, s.token, s.leapId, s.configId, s.epochId, s.generation)
  }

  class AssuranceClock {
    var state: Held

    ghost function View(): State
      reads this, state.anchor
    {
      StateOf(state)
    }

    constructor (maxWidth: Int64, epochId: Digest)
      ensures View() == InitialState(maxWidth, epochId)
    {
      var width := maxWidth;
      if width <= 0 {
        width := MAX_WIDTH_DEFAULT;
      }
      state := ClockState(null, 0, 0, Unanchored, NoReason, 0, WATERMARK_UNSET, 1, epochId, width);
    }

    method ProcessFullRound(round: Round) returns (r: Result<Interval>)
      modifies this
      ensures (View(), r) == ProcessRound(old(View()), round)
      ensures state.anchor == null || state.anchor == old(state.anchor) || fresh(state.anchor)
    {
      var invalid := ValidateHull(round.hull, state.maxWidth);
      if invalid.Some? {
        return Failure(invalid.value);
      }
      var published := round.hull;
      if Active(state.status) {
        var held := Resolve(state.anchor);
        if IsAnchorMatching(held, round.leapId, round.configId, round.reading.token, round.scale) {
          var carried := PropagateAnchor(held, round.reading.raw, round.reading.bound, round.reading.token,
                                         state.lowerDebt, state.upperDebt, state.maxWidth);
          if carried.Success? {
            var earliest := published.earliest;
            if carried.value.earliest > earliest {
              earliest := carried.value.earliest;
            }
            var latest := published.latest;
            if carried.value.latest < latest {
              latest := carried.value.latest;
            }
            if earliest > latest {
              state := state.(status := Desync, reason := Conflict, anchor := null,
                              generation := NextGeneration(state.generation));
              return Failure(AssuranceConflict);
            }
            published := Interval(earliest, latest);
          }
        }
      }
      if published.earliest > state.watermark {
        state := state.(watermark := published.earliest);
      }
      var newAnchor := new AnchorCell(Anchor(
        round.reading.raw, published.earliest, published.latest, round.scale, round.reading.bound,
        round.faultBudget, round.eligible, round.threshold, round.components, round.leapId, round.configId,
        NextGeneration(state.generation), round.reading.raw, round.validUntil, round.reading.token));
      state := state.(anchor := newAnchor, lowerDebt := 0, upperDebt := 0, status := Synced, reason := NoReason,
                      lastRoundRaw := round.reading.raw, generation := NextGeneration(state.generation));
      r := Success(published);
    }

    method BeginHoldover(reason: Reason, maxAge: UInt64)
      modifies this
      ensures View() == ToHoldover(old(View()), reason, maxAge)
      ensures state.anchor == old(state.anchor) || fresh(state.anchor)
    {
      if !Active(state.status) {
        return;
      }
      if maxAge > 0 && state.lastRoundRaw <= UINT64_MAX - maxAge {
        var limit := state.lastRoundRaw + maxAge;
        if state.anchor != null && limit < state.anchor.value.validUntil {
          var copy := new AnchorCell(state.anchor.value.(validUntil := limit));
          state := state.(anchor := copy);
        }
      }
      state := state.(status := Holdover, reason := reason, generation := NextGeneration(state.generation));
    }

    method TransitionToDesync(reason: Reason)
      modifies this
      ensures View() == ToDesync(old(View()), reason) && state.anchor == null
    {
      state := state.(status := Desync, reason := reason, anchor := null, generation := NextGeneration(state.generation));
    }

    method EvaluateAt(r: Reading) returns (e: Evaluation)
      ensures e == EvaluateState(View(), r)
    {
      if state.status == Unanchored || state.status == Desync {
        return Evaluation(None, state.status, state.reason);
      }
      var res := PropagateAnchor(Resolve(state.anchor), r.raw, r.bound, r.token, state.lowerDebt, state.upperDebt,
                                 state.maxWidth);
      match res {
        case Success(i) => e := Evaluation(Some(i), state.status, state.reason);
        case Failure(f) => e := Evaluation(None, Desync, EvaluationReason(f));
      }
    }
  }

  class Publisher {
    var active: Snapshot<AnchorCell?>

    constructor (initial: Snapshot<AnchorCell?>)
      ensures active == initial
    {
      active := initial;
    }

    method Acquire() returns (s: Snapshot<AnchorCell?>)
      ensures s == active
    {
      s := active;
    }

    method Publish(next: Snapshot<AnchorCell?>) returns (r: Option<Rejection>)
      modifies this
      ensures r == ValidatePublication(old(ViewOf(active)), ViewOf(next))
      ensures active == if r.None? then next else old(active)
    {
      r := ValidatePublication(ViewOf(active), ViewOf(next));
      if r.None? {
        active := next;
      }
    }
  }

  /** What the backend answers to one read, and the envelope it reports with it. */
  datatype Answer = Answer(backend: Reading, scale: Scale)

  datatype RoundReport = RoundReport(fault: Option<Fault>, rejection: Option<Rejection>)

  class ClockService {
    const guard: ContinuityGuard
    const estimate: Estimate.EstimateClock
    const clock: AssuranceClock
    const publisher: Publisher
    const leapId: Digest
    const configId: Digest
    const epochId: Digest

    constructor (leapId: Digest, configId: Digest, epochId: Digest, maxWidth: Int64, scale: Scale)
      ensures fresh(guard) && fresh(estimate) && fresh(clock) && fresh(publisher)
      ensures Id() == Identity(epochId, leapId, configId)
      ensures guard.View() == INITIAL_GUARD && clock.View() == InitialState(maxWidth, epochId)
      ensures ViewOf(publisher.active) ==
                Snapshot(estimate.mapping, InitialState(maxWidth, epochId), scale, 1, leapId, configId, epochId, 1)
    {
      var g := new ContinuityGuard();
      var e := new Estimate.EstimateClock();
      var a := new AssuranceClock(maxWidth, epochId);
      var p := new Publisher(Snapshot(e.mapping, a.state, scale, 1, leapId, configId, epochId, 1));
      guard, estimate, clock, publisher := g, e, a, p;
      this.leapId, this.configId, this.epochId := leapId, configId, epochId;
    }

    function Id(): Identity {
      Identity(epochId, leapId, configId)
    }

    /** Captures the writer's state in a new snapshot and offers it to the publisher. */
    method PublishCurrent(a: Answer) returns (r: Option<Rejection>)
      modifies guard, publisher
      ensures guard.View() == GuardedRead(old(guard.View()), a.backend).0
      ensures var next := NextSnapshot(old(ViewOf(publisher.active)), estimate.mapping, clock.View(), a.scale,
                                       GuardedRead(old(guard.View()), a.backend).1.token, Id());
              && r == ValidatePublication(old(ViewOf(publisher.active)), next)
              && ViewOf(publisher.active) == if r.None? then next else old(ViewOf(publisher.active))
      ensures r.None? ==> publisher.active.assurance == clock.state
    {
      var reading := guard.Read(a.backend);
      var curr := publisher.Acquire();
      var next := Snapshot(estimate.mapping, clock.state, a.scale, reading.token, leapId, configId, epochId,
                           (curr.generation + 1) % TWO_64);
      r := publisher.Publish(next);
    }

    /** Publishes a selected round, unless the clock changed since the selection. */
    method PublishSyncRound(selection: Reading, scale: Scale, consensus: Consensus, validUntil: UInt64,
                            first: Answer, second: Answer) returns (report: RoundReport)
      modifies guard, estimate, clock, publisher
      ensures var round := RoundOf(selection, scale, consensus, validUntil, Id());
              var (g1, current) := GuardedRead(old(guard.View()), first.backend);
              var (state, fault) := SyncRound(old(clock.View()), round, current, first.scale);
              if ValidateHull(consensus.hull, old(clock.View()).maxWidth).Some? then
                && report == RoundReport(ValidateHull(consensus.hull, old(clock.View()).maxWidth), None)
                && guard.View() == old(guard.View()) && clock.View() == old(clock.View())
                && ViewOf(publisher.active) == old(ViewOf(publisher.active)) && estimate.mapping == old(estimate.mapping)
              else
                && report.fault == fault && clock.View() == state
                && guard.View() == GuardedRead(g1, second.backend).0
                && estimate.mapping == (if fault.None? then
                     Estimate.Initialized(old(estimate.mapping), selection.raw, HullCentre(consensus.hull), 0)
                   else old(estimate.mapping))
                && var next := NextSnapshot(old(ViewOf(publisher.active)), estimate.mapping, state, second.scale,
                                            GuardedRead(g1, second.backend).1.token, Id());
                   && report.rejection == ValidatePublication(old(ViewOf(publisher.active)), next)
                   && ViewOf(publisher.active) ==
                        if report.rejection.None? then next else old(ViewOf(publisher.active))
      ensures forall c: AnchorCell | old(allocated(c)) :: c.value == old(c.value)
    {
      var invalid := ValidateHull(consensus.hull, clock.state.maxWidth);
      if invalid.Some? {
        return RoundReport(invalid, None);
      }
      var current := guard.Read(first.backend);
      var fault := TakeRound(RoundOf(selection, scale, consensus, validUntil, Id()), current, first.scale);
      var rejected := PublishCurrent(second);
      report := RoundReport(fault, rejected);
    }

    /** The round is taken if the clock is still the one it was selected on; then the estimate restarts
        at its centre. */
    method TakeRound(round: Round, current: Reading, scale: Scale) returns (fault: Option<Fault>)
      requires round.hull.earliest <= round.hull.latest
      modifies estimate, clock
      ensures (clock.View(), fault) == SyncRound(old(clock.View()), round, current, scale)
      ensures estimate.mapping == if fault.None?
                then Estimate.Initialized(old(estimate.mapping), round.reading.raw, HullCentre(round.hull), 0)
                else old(estimate.mapping)
      ensures forall c: AnchorCell | old(allocated(c)) :: c.value == old(c.value)
    {
      if current.raw < round.reading.raw || current.token != round.reading.token
         || current.generation != round.reading.generation || scale != round.scale {
        clock.TransitionToDesync(RawDiscontinuity);
        return Some(TokenMismatch);
      }
      var res := clock.ProcessFullRound(round);
      if res.Failure? {
        return Some(res.error);
      }
      estimate.InitializeAnchors(round.reading.raw, HullCentre(round.hull), 0);
      return None;
    }

    /** Records a failed round: holdover while the anchor is usable, otherwise desynchronization. */
    method MarkRoundFailure(maxAge: UInt64, first: Answer, second: Answer, third: Answer) returns (rejection: Option<Rejection>)
      modifies guard, clock, publisher
      ensures var snap := old(ViewOf(publisher.active));
              var (g1, r1) := GuardedRead(old(guard.View()), first.backend);
              var (s1, heldOver) := FailRound(old(clock.View()), snap.assurance, r1, first.scale, maxAge);
              var (g2, r2) := if heldOver then GuardedRead(g1, second.backend) else (g1, r1);
              var s2 := if heldOver then RecheckHoldover(s1, r2) else s1;
              var (g3, r3) := GuardedRead(g2, third.backend);
              var next := NextSnapshot(snap, estimate.mapping, s2, third.scale, r3.token, Id());
              if !Active(snap.assurance.status) then
                && rejection.None? && guard.View() == old(guard.View()) && clock.View() == old(clock.View())
                && ViewOf(publisher.active) == snap
              else
                && guard.View() == g3 && clock.View() == s2
                && rejection == ValidatePublication(snap, next)
                && ViewOf(publisher.active) == if rejection.None? then next else snap
      ensures forall c: AnchorCell | old(allocated(c)) :: c.value == old(c.value)
    {
      var snap := publisher.Acquire();
      if !Active(snap.assurance.status) {
        return None;
      }
      HoldOrDrop(StateOf(snap.assurance), maxAge, first, second);
      rejection := PublishCurrent(third);
    }

    /** The effect of a failed round on the writer's state. */
    method HoldOrDrop(snap: State, maxAge: UInt64, first: Answer, second: Answer)
      modifies guard, clock
      ensures var (g1, r1) := GuardedRead(old(guard.View()), first.backend);
              var (s1, heldOver) := FailRound(old(clock.View()), snap, r1, first.scale, maxAge);
              var (g2, r2) := if heldOver then GuardedRead(g1, second.backend) else (g1, r1);
              && guard.View() == g2
              && clock.View() == if heldOver then RecheckHoldover(s1, r2) else s1
      ensures forall c: AnchorCell | old(allocated(c)) :: c.value == old(c.value)
    {
      var r1 := guard.Read(first.backend);
      var res := PropagateSnapshot(snap, r1, first.scale);
      if res.Failure? {
        clock.TransitionToDesync(MapPropagationError(res.error));
      } else {
        clock.BeginHoldover(InsufficientDomains, maxAge);
        var r2 := guard.Read(second.backend);
        var e := clock.EvaluateAt(r2);
        if e.status == Desync {
          clock.TransitionToDesync(e.reason);
        }
      }
    }

    method Invalidate(a: Answer) returns (rejection: Option<Rejection>)
      modifies guard, clock, publisher
      ensures guard.View() == GuardedRead(old(guard.View()), a.backend).0
      ensures clock.View() == ToDesync(old(clock.View()), RawDiscontinuity)
      ensures var next := NextSnapshot(old(ViewOf(publisher.active)), estimate.mapping, clock.View(), a.scale,
                                       GuardedRead(old(guard.View()), a.backend).1.token, Id());
              && rejection == ValidatePublication(old(ViewOf(publisher.active)), next)
              && ViewOf(publisher.active) == if rejection.None? then next else old(ViewOf(publisher.active))
      ensures forall c: AnchorCell | old(allocated(c)) :: c.value == old(c.value)
    {
      clock.TransitionToDesync(RawDiscontinuity);
      rejection := PublishCurrent(a);
    }

    method InitializeEstimate(raw0: UInt64, target: Int64, baseRate: Int64, a: Answer) returns (rejection: Option<Rejection>)
      modifies guard, estimate, publisher
      ensures guard.View() == GuardedRead(old(guard.View()), a.backend).0
      ensures estimate.mapping == Estimate.Initialized(old(estimate.mapping), raw0, target, baseRate)
      ensures var next := NextSnapshot(old(ViewOf(publisher.active)), estimate.mapping, clock.View(), a.scale,
                                       GuardedRead(old(guard.View()), a.backend).1.token, Id());
              && rejection == ValidatePublication(old(ViewOf(publisher.active)), next)
              && ViewOf(publisher.active) == if rejection.None? then next else old(ViewOf(publisher.active))
      ensures forall c: AnchorCell | old(allocated(c)) :: c.value == old(c.value)
    {
      estimate.InitializeAnchors(raw0, target, baseRate);
      rejection := PublishCurrent(a);
    }

    /** One read and one snapshot answer every question a caller can ask. */
    method Now(a: Answer) returns (now: AssuredNow)
      modifies guard
      ensures guard.View() == GuardedRead(old(guard.View()), a.backend).0
      ensures now == NowOf(ViewOf(publisher.active), GuardedRead(old(guard.View()), a.backend).1, a.scale)
    {
      var snap := publisher.Acquire();
      var reading := guard.Read(a.backend);
      now := NowOf(ViewOf(snap), reading, a.scale);
    }

    method After(t: Int64, a: Answer) returns (d: Decision, status: Status, reason: Reason)
      modifies guard
      ensures guard.View() == GuardedRead(old(guard.View()), a.backend).0
      ensures var now := NowOf(ViewOf(publisher.active), GuardedRead(old(guard.View()), a.backend).1, a.scale);
              d == AfterOf(now, t) && status == now.status && reason == now.reason
    {
      var now := Now(a);
      if now.interval.None? {
        return Unknown, now.status, now.reason;
      }
      if now.interval.value.earliest > t {
        return CertainYes, now.status, now.reason;
      }
      if now.interval.value.latest <= t {
        return CertainNo, now.status, now.reason;
      }
      return Unknown, now.status, now.reason;
    }

    method Before(t: Int64, a: Answer) returns (d: Decision, status: Status, reason: Reason)
      modifies guard
      ensures guard.View() == GuardedRead(old(guard.View()), a.backend).0
      ensures var now := NowOf(ViewOf(publisher.active), GuardedRead(old(guard.View()), a.backend).1, a.scale);
              d == BeforeOf(now, t) && status == now.status && reason == now.reason
    {
      var now := Now(a);
      if now.interval.None? {
        return Unknown, now.status, now.reason;
      }
      if now.interval.value.latest < t {
        return CertainYes, now.status, now.reason;
      }
      if now.interval.value.earliest >= t {
        return CertainNo, now.status, now.reason;
      }
      return Unknown, now.status, now.reason;
    }

    method PastWatermark(id: Identity, a: Answer) returns (w: WatermarkResult, status: Status)
      modifies guard
      ensures var snap := ViewOf(publisher.active);
              && w == PastWatermarkOf(snap, GuardedRead(old(guard.View()), a.backend).1, a.scale, id)
              && guard.View() == (if ReadsForWatermark(snap, id) then GuardedRead(old(guard.View()), a.backend).0
                                  else old(guard.View()))
              && status == if ReadsForWatermark(snap, id) && w.Refused? then Desync else snap.assurance.status
    {
      var snap := publisher.Acquire();
      status := snap.assurance.status;
      if snap.epochId != id.epochId {
        return Refused(ConfigurationMismatch), status;
      }
      if snap.leapId != id.leapId {
        return Refused(LeapHistoryMismatch), status;
      }
      if snap.configId != id.configId {
        return Refused(ConfigurationMismatch), status;
      }
      if snap.assurance.status == Unanchored {
        return Refused(NotAnchored), status;
      }
      if snap.assurance.status == Desync {
        return Refused(Desynchronized), status;
      }
      var reading := guard.Read(a.backend);
      var res := PropagateSnapshot(StateOf(snap.assurance), reading, a.scale);
      if res.Failure? {
        return Refused(Desynchronized), Desync;
      }
      return Watermark(snap.assurance.watermark), status;
    }
  }

  // ----- waiting for a commit -----

  datatype WaitResult = Committed | WaitRefused(error: WatermarkError) | GaveUp

  /** The first look that does not show a watermark at or below the timestamp decides. */
  predicate StillWaiting(l: Look, commitTs: Int64, id: Identity) {
    WatermarkAt(l, id).Watermark? && WatermarkAt(l, id).value <= commitTs
  }

  /** The k-th look is the first that does not keep the caller waiting, and lets it commit. */
  ghost predicate Decides(looks: seq<Look>, k: nat, commitTs: Int64, id: Identity)
    requires k < |looks|
  {
    && (forall m :: 0 <= m < k ==> StillWaiting(looks[m], commitTs, id))
    && WatermarkAt(looks[k], id).Watermark? && WatermarkAt(looks[k], id).value > commitTs
  }

  /** Polls until the watermark passes the timestamp. The caller's context ends after the given
      looks; sleeping between them is left to the environment. */
  method CommitWait(looks: seq<Look>, commitTs: Int64, id: Identity) returns (r: WaitResult)
    ensures r == Committed <==> exists n: nat :: n < |looks| && Decides(looks, n, commitTs, id)
    ensures r == GaveUp <==> forall m :: 0 <= m < |looks| ==> StillWaiting(looks[m], commitTs, id)
  {
    for n := 0 to |looks|
      invariant forall m :: 0 <= m < n ==> StillWaiting(looks[m], commitTs, id)
    {
      var w := WatermarkAt(looks[n], id);
      match w {
        case Refused(error) =>
          assert !StillWaiting(looks[n], commitTs, id);
          return WaitRefused(error);
        case Watermark(value) =>
          if value > commitTs {
            assert Decides(looks, n, commitTs, id);
            return Committed;
          }
      }
    }
    r := GaveUp;
  }
}
