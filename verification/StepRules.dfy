/** What the writer's steps do, written out: which round a synchronization takes and what it leaves, what is
    stored, and when it is refused. */
module StepRules {
  import opened MachineInt
  import opened Outcomes
  import opened Assurance
  import opened AnchorRules
  import opened TrueTime
  import opened Coverage
  import opened Poll
  import opened Continuity
  import opened Publish
  import opened Service
  import opened CertifiedRun
  import opened Runs
  import opened FailSafe
  import Estimate

  /** At first there is no anchor, the watermark is unset, and the width is limited as configured, or to 32
      seconds. */
  lemma InitialOutcome(u: Setup, s: System)
    requires Init(u, s)
    ensures var w := s.writer;
            && w.anchor.None? && w.status == Unanchored && w.reason == NoReason && w.lowerDebt == 0 == w.upperDebt
            && w.watermark == -0x4000_0000_0000_0000 && w.generation == 1 && w.epochId == u.id.epochId
            && w.maxWidth == (if u.maxWidth <= 0 then 32_000_000_000 else u.maxWidth)
            && s.published.assurance == w && s.published.generation == 1
  {
  }

  /** The clock is still the one that the round was selected on. */
  predicate IsSameClock(selected: Event, now: Event) {
    && now.reading.raw >= selected.reading.raw && now.reading.token == selected.reading.token
    && now.reading.generation == selected.reading.generation && now.scale == selected.scale
  }

  /** The round that a poll has selected, as the writer sees it. */
  function SelectedRound(u: Setup, s: System): Round
    requires s.poll.Selected? && s.poll.moment < |s.history|
  {
    var e, c := s.history[s.poll.moment].event, s.poll.selection.consensus;
    Round(e.reading, c.hull, e.scale, s.poll.selection.validUntil, c.faultBudget, c.eligible, c.threshold,
          |c.components|, u.id.leapId, u.id.configId)
  }

  /** Some instant is allowed by the hull and by the bound held before, if that is comparable and usable. */
  ghost predicate IsConsistent(s: State, round: Round) {
    HoldsComparable(s, round) && OldBound(s, round).Success? ==>
      exists t: int :: Within(round.hull, t) && Within(OldBound(s, round).value, t)
  }

  /** The estimate starts over at the centre of the hull, without a rate or a debt. */
  predicate StartsAtCentre(before: Estimate.Mapping, raw: UInt64, hull: Interval, after: Estimate.Mapping) {
    && after.rawAnchor == raw == after.slewStart && after.timeAnchor == hull.earliest + (hull.latest - hull.earliest) / 2
    && after.baseRate == 0 && after.phaseDebt == 0 && after.slewRate == 0
    && after.generation == (before.generation + 1) % TWO_64
  }

  /** A synchronization takes its round exactly if the clock is the one the round was selected on and the
      round is consistent with the bound held before. It then adopts the instants that both allow, and the
      estimate starts over; otherwise nothing is held any more and the estimate is left alone. */
  lemma SyncOutcome(u: Setup, s: System, tick: Tick, s': System)
    requires Next(u, s, Sync(tick), s')
    ensures var selected, round := s.history[s.poll.moment].event, SelectedRound(u, s);
            && (s'.section == Storing(RoundDone) <==> IsSameClock(selected, tick.event) && IsConsistent(s.writer, round))
            && (s'.section == Storing(RoundDone) ==>
                  && (exists i: Interval :: IsAdopted(s.writer, round, i, s'.writer) && IsIntersection(s.writer, round, i))
                  && StartsAtCentre(s.mapping, selected.reading.raw, round.hull, s'.mapping))
            && (s'.section != Storing(RoundDone) ==>
                  && s'.section == Storing(RoundRefused) && s'.mapping == s.mapping
                  && s'.writer == s.writer.(status := Desync, anchor := None, generation := (s.writer.generation + 1) % TWO_64,
                                            reason := if IsSameClock(selected, tick.event) then Conflict else RawDiscontinuity))
            && s'.published == s.published && s'.poll == Waiting
  {
    var round := SelectedRound(u, s);
    if IsSameClock(s.history[s.poll.moment].event, tick.event) {
      if HoldsComparable(s.writer, round) && OldBound(s.writer, round).Success? {
        IntersectionIsTaken(s.writer, round, OldBound(s.writer, round).value);
      } else {
        HullIsAdopted(s.writer, round);
      }
      var r := ProcessRound(s.writer, round).1;
      if r.Success? {
        assert IsAdopted(s.writer, round, r.value, s'.writer) && IsIntersection(s.writer, round, r.value);
      }
    }
  }

  /** The interval holds the instants of the hull that the bound held before allows. */
  ghost predicate IsIntersection(s: State, round: Round, i: Interval) {
    forall t: int :: Within(i, t) <==>
      && Within(round.hull, t)
      && (HoldsComparable(s, round) && OldBound(s, round).Success? ==> Within(OldBound(s, round).value, t))
  }

  /** A poll's selection expires the configured age, or ten seconds, after its reading. */
  lemma SelectionExpires(u: Setup, s: System, step: Step, s': System)
    requires Next(u, s, step, s') && step.Select?
    ensures s'.poll.Selected? && s'.poll.moment == |s.history|
    ensures s'.poll.selection.validUntil == step.tick.event.reading.raw
                                            + if u.config.maxAge <= 0 then 10_000_000_000 else u.config.maxAge
  {
  }

  /** The snapshot to be stored holds the writer's state and mapping, the envelope and token of the read, the
      service's identity, and the next generation. It replaces the published one exactly if its envelope is
      valid and the generation rises. */
  lemma StoreOutcome(u: Setup, s: System, tick: Tick, s': System)
    requires IsFounded(u, s) && Next(u, s, Store(tick), s')
    ensures var e, g := tick.event, (s.published.generation + 1) % TWO_64;
            && s'.published == (if 0 < e.scale.low <= e.scale.upp && s.published.generation < g
                                then Snapshot(s.mapping, s.writer, e.scale, e.reading.token, u.id.leapId, u.id.configId,
                                              u.id.epochId, g)
                                else s.published)
            && s'.writer == s.writer && s'.mapping == s.mapping && s'.section == Free
  {
  }

  /** Invalidation drops the anchor and keeps the watermark. */
  lemma InvalidateOutcome(u: Setup, s: System, s': System)
    requires Next(u, s, Step.Invalidate, s')
    ensures s'.writer == s.writer.(status := Desync, reason := RawDiscontinuity, anchor := None,
                                   generation := (s.writer.generation + 1) % TWO_64)
    ensures s'.published == s.published && s'.mapping == s.mapping && s'.section == Storing(CallerDone)
  {
  }
}
