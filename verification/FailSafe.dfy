/** What holds in every run of the service, whatever its sources claim and its oscillator does: evidence is
    neither extended nor resurrected, publication never gets stuck, and watermarks never fall. */
module FailSafe {
  import opened MachineInt
  import opened Outcomes
  import opened Assurance
  import opened AnchorRules
  import opened Poll
  import opened Continuity
  import opened Publish
  import opened Service
  import opened CertifiedRun
  import opened Runs

  // ----- the invariant -----

  /** The anchor has the labels of read `i` and expires within the configured age. */
  ghost predicate LabelledBy(a: Anchor, h: History, i: nat, c: Config) {
    && i < |h| && a.rawAnchor == h[i].event.reading.raw && a.token == h[i].event.reading.token
    && a.validUntil <= a.rawAnchor + EffectiveAge(c)
  }

  /** The state is well formed and its anchor, if any, was read within the history. */
  ghost predicate Founded(s: State, h: History, c: Config) {
    && WellFormed(s) && IsCapped(s, c)
    && (s.anchor.Some? ==> exists i: nat :: LabelledBy(s.anchor.value, h, i, c))
  }

  ghost predicate IsFounded(u: Setup, s: System) {
    && ValidConfig(u.config)
    && Founded(s.writer, s.history, u.config)
    && Founded(s.published.assurance, s.history, u.config)
    && (forall r <- s.readers :: Founded(s.readers[r].assurance, s.history, u.config))
    && s.published.assurance.watermark <= s.writer.watermark
    && (s.poll.Selected? ==>
          && s.poll.moment < |s.history|
          && s.poll.selection.validUntil <= s.history[s.poll.moment].event.reading.raw + EffectiveAge(u.config))
  }

  lemma FoundedLater(s: State, h: History, h': History, c: Config)
    requires Founded(s, h, c) && h <= h'
    ensures Founded(s, h', c)
  {
    if s.anchor.Some? {
      var i: nat :| LabelledBy(s.anchor.value, h, i, c);
      assert LabelledBy(s.anchor.value, h', i, c);
    }
  }

  /** A round, whether it is adopted, conflicts or has an invalid hull, leaves a founded state. */
  lemma RoundIsFounded(s: State, round: Round, h: History, m: nat, c: Config)
    requires Founded(s, h, c) && m < |h|
    requires round.reading == h[m].event.reading && round.validUntil <= round.reading.raw + EffectiveAge(c)
    ensures Founded(ProcessRound(s, round).0, h, c) && ProcessRound(s, round).0.watermark >= s.watermark
  {
    TransitionsKeepWellFormed(s, round, NoReason, 0);
    var s' := ProcessRound(s, round).0;
    if ProcessRound(s, round).1.Success? {
      assert LabelledBy(s'.anchor.value, h, m, c);
    }
  }

  lemma DesyncIsFounded(s: State, reason: Reason, h: History, c: Config)
    requires Founded(s, h, c)
    ensures Founded(ToDesync(s, reason), h, c) && ToDesync(s, reason).watermark == s.watermark
  {
  }

  lemma HoldoverIsFounded(s: State, reason: Reason, h: History, c: Config)
    requires Founded(s, h, c) && c.maxHoldoverAge >= 0
    ensures Founded(ToHoldover(s, reason, c.maxHoldoverAge), h, c)
    ensures ToHoldover(s, reason, c.maxHoldoverAge).watermark == s.watermark
  {
    var s' := ToHoldover(s, reason, c.maxHoldoverAge);
    if s.anchor.Some? {
      var i: nat :| LabelledBy(s.anchor.value, h, i, c);
      assert LabelledBy(s'.anchor.value, h, i, c);
    }
  }

  /** Reading the clock takes no foundation away. */
  lemma ReadingKeepsFounded(u: Setup, s: System, h': History)
    requires IsFounded(u, s) && s.history <= h'
    ensures Founded(s.writer, h', u.config) && Founded(s.published.assurance, h', u.config)
    ensures forall r <- s.readers :: Founded(s.readers[r].assurance, h', u.config)
  {
    FoundedLater(s.writer, s.history, h', u.config);
    FoundedLater(s.published.assurance, s.history, h', u.config);
    forall r | r in s.readers
      ensures Founded(s.readers[r].assurance, h', u.config)
    {
      FoundedLater(s.readers[r].assurance, s.history, h', u.config);
    }
  }

  /** What the step makes of the writer's state is founded too. */
  lemma WriterStaysFounded(u: Setup, s: System, step: Step, s': System)
    requires IsFounded(u, s) && Next(u, s, step, s')
    ensures Founded(s'.writer, s'.history, u.config) && s'.writer.watermark >= s.writer.watermark
  {
    StepExtendsHistory(u, s, step, s');
    FoundedLater(s.writer, s.history, s'.history, u.config);
    var h, c := s'.history, u.config;
    match step {
      case Sync(tick) =>
        RoundIsFounded(s.writer, RoundAt(u, s.history[s.poll.moment].event, s.poll.selection), h, s.poll.moment, c);
        DesyncIsFounded(s.writer, RawDiscontinuity, h, c);
      case NoteFailure(tick) =>
        var res := PropagateSnapshot(s.published.assurance, tick.event.reading, tick.event.scale);
        DesyncIsFounded(s.writer, if res.Failure? then MapPropagationError(res.error) else NoReason, h, c);
        HoldoverIsFounded(s.writer, InsufficientDomains, h, c);
      case Recheck(tick) =>
        DesyncIsFounded(s.writer, EvaluateState(s.writer, tick.event.reading).reason, h, c);
      case Invalidate =>
        DesyncIsFounded(s.writer, RawDiscontinuity, h, c);
      case _ =>
    }
  }

  /** Readers and the publication hold states that were founded before. */
  lemma StepKeepsFounded(u: Setup, s: System, step: Step, s': System)
    requires IsFounded(u, s) && Next(u, s, step, s')
    ensures IsFounded(u, s')
  {
    StepExtendsHistory(u, s, step, s');
    WriterStaysFounded(u, s, step, s');
    ReadingKeepsFounded(u, s, s'.history);
  }

  lemma {:induction false} FoundedAlways(u: Setup, states: seq<System>, steps: seq<Step>, n: nat)
    requires IsRun(u, states, steps) && n <= |steps|
    ensures IsFounded(u, states[n])
  {
    if n > 0 {
      FoundedAlways(u, states, steps, n - 1);
      StepAt(u, states, steps, n - 1);
      StepKeepsFounded(u, states[n - 1], steps[n - 1], states[n]);
    }
  }

  // ----- watermarks -----

  /** The history only grows, and no watermark ever falls. */
  lemma StepIsMonotone(u: Setup, s: System, step: Step, s': System)
    requires IsFounded(u, s) && Next(u, s, step, s')
    ensures s.history <= s'.history
    ensures s.published.assurance.watermark <= s'.published.assurance.watermark
    ensures s'.published != s.published ==> s'.published.generation == (s.published.generation + 1) % TWO_64
                                            && s.published.generation < s'.published.generation
  {
  }

  lemma WatermarkRisesOnce(u: Setup, states: seq<System>, steps: seq<Step>, n: nat)
    requires IsRun(u, states, steps) && n < |steps|
    ensures states[n].published.assurance.watermark <= states[n + 1].published.assurance.watermark
  {
    FoundedAlways(u, states, steps, n);
    StepAt(u, states, steps, n);
    StepIsMonotone(u, states[n], steps[n], states[n + 1]);
  }

  /** Watermarks only rise in what is published, in every run. */
  lemma {:induction false} WatermarkNeverFalls(u: Setup, states: seq<System>, steps: seq<Step>, i: nat, j: nat)
    requires IsRun(u, states, steps) && i <= j <= |steps|
    ensures states[i].published.assurance.watermark <= states[j].published.assurance.watermark
    decreases j
  {
    if i < j {
      WatermarkNeverFalls(u, states, steps, i, j - 1);
      WatermarkRisesOnce(u, states, steps, j - 1);
    }
  }

  // ----- what a failed round leaves behind -----

  /** The deadline under the holdover cap, counted from the last successful round. */
  function CappedDeadline(validUntil: int, lastRoundRaw: int, cap: int): int {
    if cap > 0 && lastRoundRaw + cap <= UINT64_MAX && lastRoundRaw + cap < validUntil then lastRoundRaw + cap
    else validUntil
  }

  /** The same bounds as before, and a deadline no later than the cap allows. */
  ghost predicate IsHeldOver(a: Option<Anchor>, b: Option<Anchor>, lastRoundRaw: UInt64, cap: int) {
    && (a.Some? <==> b.Some?)
    && (a.Some? ==> b.value == a.value.(validUntil := b.value.validUntil)
                    && b.value.validUntil == CappedDeadline(a.value.validUntil, lastRoundRaw, cap))
  }

  /** After a failed round the writer is not synchronized. If the published bound can still be served, the
      writer keeps its own with a capped deadline; otherwise it keeps none. */
  lemma FailureIsNoted(u: Setup, s: System, tick: Tick, s': System)
    requires IsFounded(u, s) && Next(u, s, NoteFailure(tick), s')
    ensures var usable := NowAt(Look(s.published, tick.event.reading, tick.event.scale)).interval.Some?;
            && s'.writer.status != Synced
            && s'.writer.watermark == s.writer.watermark && s'.writer.lastRoundRaw == s.writer.lastRoundRaw
            && (usable ==> IsHeldOver(s.writer.anchor, s'.writer.anchor, s.writer.lastRoundRaw, u.config.maxHoldoverAge)
                           && (s.writer.anchor.Some? ==> s'.writer.status == Holdover
                                                         && s'.writer.reason == InsufficientDomains))
            && (!usable ==> s'.writer.anchor.None? && s'.writer.status == Desync
                            && s'.writer.reason == NowAt(Look(s.published, tick.event.reading, tick.event.scale)).reason)
  {
  }

  /** The second look drops a bound that can no longer be served, and leaves any other alone. */
  lemma RecheckDrops(u: Setup, s: System, tick: Tick, s': System)
    requires IsFounded(u, s) && Next(u, s, Recheck(tick), s') && s.writer.anchor.Some?
    ensures var r, w := tick.event.reading, s.writer;
            if Obstacle(w.anchor, r.raw, r.bound, r.token, 0, 0, w.maxWidth).None? then s'.writer == w
            else s'.writer.anchor.None? && s'.writer.status == Desync && s'.writer.watermark == w.watermark
  {
    var r, w := tick.event.reading, s.writer;
    PropagationExactly(w.anchor, r.raw, r.bound, r.token, 0, 0, w.maxWidth);
  }

  /** The step is a synchronization whose round was taken. */
  ghost predicate TakesRound(states: seq<System>, steps: seq<Step>, k: nat) {
    k < |steps| && k + 1 < |states| && steps[k].Sync? && states[k + 1].section == Storing(RoundDone)
  }

  /** A round failed at step `p`, and none was taken since, up to state `n`. */
  ghost predicate FailedAt(states: seq<System>, steps: seq<Step>, p: nat, n: nat) {
    p < n && p < |steps| && steps[p].NoteFailure? && forall k {:trigger TakesRound(states, steps, k)} ::
                                                       p < k < n ==> !TakesRound(states, steps, k)
  }

  /** Until a round is taken, what one failed round left is kept or dropped. */
  lemma NothingIsGained(u: Setup, s: System, step: Step, s': System)
    requires IsFounded(u, s) && Next(u, s, step, s') && s.writer.status != Synced
    requires step.Sync? ==> s'.section != Storing(RoundDone)
    ensures s'.writer.status != Synced
    ensures s'.writer.anchor.Some? ==> s'.writer.anchor == s.writer.anchor && s'.writer.lastRoundRaw == s.writer.lastRoundRaw
  {
    match step {
      case Sync(tick) => RoundNotTaken(u, s, tick, s');
      case NoteFailure(tick) => FailureIsNoted(u, s, tick, s');
      case _ =>
    }
  }

  lemma RoundNotTaken(u: Setup, s: System, tick: Tick, s': System)
    requires IsFounded(u, s) && Next(u, s, Sync(tick), s') && s'.section != Storing(RoundDone)
    ensures s'.writer.status == Desync && s'.writer.anchor.None?
  {
    TransitionsKeepWellFormed(s.writer, RoundAt(u, s.history[s.poll.moment].event, s.poll.selection), NoReason, 0);
  }

  /** The bound that a failed round capped stays as it is, or is dropped, until a round is taken. */
  lemma {:induction false} FailureLasts(u: Setup, states: seq<System>, steps: seq<Step>, p: nat, n: nat)
    requires IsRun(u, states, steps) && FailedAt(states, steps, p, n) && n <= |steps|
    ensures states[n].writer.status != Synced
    ensures states[n].writer.anchor.Some? ==>
              && states[n].writer.anchor == states[p + 1].writer.anchor
              && states[n].writer.lastRoundRaw == states[p].writer.lastRoundRaw
              && IsHeldOver(states[p].writer.anchor, states[n].writer.anchor, states[p].writer.lastRoundRaw,
                            u.config.maxHoldoverAge)
  {
    FoundedAlways(u, states, steps, n - 1);
    StepAt(u, states, steps, n - 1);
    if n == p + 1 {
      FailureIsNoted(u, states[p], steps[p].tick, states[n]);
    } else {
      FailureLasts(u, states, steps, p, n - 1);
      assert !TakesRound(states, steps, n - 1);
      NothingIsGained(u, states[n - 1], steps[n - 1], states[n]);
    }
  }

  /** The snapshot was stored at step `k`. */
  ghost predicate StoredAt(states: seq<System>, steps: seq<Step>, k: nat, v: View) {
    && k < |steps| && k + 1 < |states| && steps[k].Store?
    && v == states[k + 1].published && v.assurance == states[k].writer
  }

  ghost predicate WasStored(states: seq<System>, steps: seq<Step>, n: nat, v: View) {
    v.assurance.anchor.Some? ==> exists k: nat :: k < n && StoredAt(states, steps, k, v)
  }

  lemma StoringStores(u: Setup, s: System, step: Step, s': System)
    requires Next(u, s, step, s')
    ensures s'.published == s.published || (step.Store? && s'.published.assurance == s.writer)
    ensures forall r <- s'.readers :: s'.readers[r] == s.published || (r in s.readers && s'.readers[r] == s.readers[r])
  {
  }

  /** Every snapshot with an anchor, published or held by a reader, was stored at some step. */
  lemma {:induction false} SnapshotsWereStored(u: Setup, states: seq<System>, steps: seq<Step>, n: nat)
    requires IsRun(u, states, steps) && n <= |steps|
    ensures WasStored(states, steps, n, states[n].published)
    ensures forall r <- states[n].readers :: WasStored(states, steps, n, states[n].readers[r])
  {
    if n > 0 {
      SnapshotsWereStored(u, states, steps, n - 1);
      StepAt(u, states, steps, n - 1);
      StoringStores(u, states[n - 1], steps[n - 1], states[n]);
      if states[n].published != states[n - 1].published {
        assert StoredAt(states, steps, n - 1, states[n].published);
      }
    }
  }

  // ----- evidence is neither extended nor resurrected -----

  function Backends(h: History): seq<Reading> {
    seq(|h|, i requires 0 <= i < |h| => h[i].backend)
  }

  /** The history was read through the guard, from its first read on. */
  ghost predicate Guarded(s: System) {
    && s.guard == GuardAfter(Backends(s.history), |s.history|)
    && forall i :: 0 <= i < |s.history| ==> s.history[i].event.reading == LabelledRead(Backends(s.history), i)
  }

  lemma {:induction false} PrefixReads(a: seq<Reading>, b: seq<Reading>, n: nat)
    requires a <= b && n <= |a|
    ensures GuardAfter(a, n) == GuardAfter(b, n)
    ensures n < |a| ==> LabelledRead(a, n) == LabelledRead(b, n)
  {
    if n > 0 {
      PrefixReads(a, b, n - 1);
    }
  }

  lemma StepReadsAtMostOnce(u: Setup, s: System, step: Step, s': System)
    requires Next(u, s, step, s')
    ensures ReadsNothing(s, s') || exists tick: Tick :: Reads(s, tick, s')
  {
  }

  lemma ReadKeepsGuarded(s: System, tick: Tick, s': System)
    requires Guarded(s) && Reads(s, tick, s')
    ensures Guarded(s')
  {
    var a, b, n := Backends(s.history), Backends(s'.history), |s.history|;
    assert a <= b;
    forall i | 0 <= i <= n
      ensures GuardAfter(a, i) == GuardAfter(b, i)
      ensures i < n ==> LabelledRead(a, i) == LabelledRead(b, i)
    {
      PrefixReads(a, b, i);
    }
    assert b[n] == tick.backend;
  }

  lemma StepKeepsGuarded(u: Setup, s: System, step: Step, s': System)
    requires Guarded(s) && Next(u, s, step, s')
    ensures Guarded(s')
  {
    StepReadsAtMostOnce(u, s, step, s');
    if !ReadsNothing(s, s') {
      var tick: Tick :| Reads(s, tick, s');
      ReadKeepsGuarded(s, tick, s');
    }
  }

  lemma {:induction false} GuardedAlways(u: Setup, states: seq<System>, steps: seq<Step>, n: nat)
    requires IsRun(u, states, steps) && n <= |steps|
    ensures Guarded(states[n])
  {
    if n > 0 {
      GuardedAlways(u, states, steps, n - 1);
      StepAt(u, states, steps, n - 1);
      StepKeepsGuarded(u, states[n - 1], steps[n - 1], states[n]);
    }
  }

  /** The evidence behind a served interval was taken at position `i`, and is still in force. */
  ghost predicate InForce(u: Setup, l: Look, h: History, i: nat, now: nat)
    requires i <= now < |h| && l.snap.assurance.anchor.Some?
  {
    var a, raw := l.snap.assurance.anchor.value, h[now].event.reading.raw;
    && a.rawAnchor == h[i].event.reading.raw && a.token == h[i].event.reading.token
    && raw <= a.rawAnchor + EffectiveAge(u.config)
    && (CapApplies(l.snap.assurance, u.config) ==> raw <= a.rawAnchor + u.config.maxHoldoverAge)
    && UnbrokenBetween(Backends(h), i, now)
  }

  /** The snapshot of the look was stored after a failed round, with no round taken in between. */
  ghost predicate FailedBeforeLook(states: seq<System>, steps: seq<Step>, p: nat, k: nat, l: Look) {
    FailedAt(states, steps, p, k) && StoredAt(states, steps, k, l.snap)
  }

  /** Whatever failed round came before the snapshot caps what it serves. */
  ghost predicate CappedByFailures(u: Setup, states: seq<System>, steps: seq<Step>, l: Look)
    requires l.snap.assurance.anchor.Some?
  {
    var a, cap := l.snap.assurance.anchor.value, u.config.maxHoldoverAge;
    cap > 0 && a.rawAnchor + cap <= UINT64_MAX ==>
      forall p: nat, k: nat :: FailedBeforeLook(states, steps, p, k, l) ==> l.reading.raw <= a.rawAnchor + cap
  }

  lemma FailureCapsLook(u: Setup, states: seq<System>, steps: seq<Step>, p: nat, k: nat, l: Look)
    requires IsRun(u, states, steps) && FailedBeforeLook(states, steps, p, k, l) && NowAt(l).interval.Some?
    requires l.snap.assurance.anchor.Some?
    ensures var a, cap := l.snap.assurance.anchor.value, u.config.maxHoldoverAge;
            cap > 0 && a.rawAnchor + cap <= UINT64_MAX ==> l.reading.raw <= a.rawAnchor + cap
  {
    FailureLasts(u, states, steps, p, k);
    FoundedAlways(u, states, steps, k);
    FoundedAlways(u, states, steps, p);
    ServedIsValid(l);
  }

  /** An interval is served only from a snapshot that was stored, within the deadline that its round set,
      within the holdover cap counted from that round once a round has failed, and only if the guard has
      observed no regression and no change of the backend since the round's reading. */
  lemma ServedEvidenceIsInForce(u: Setup, states: seq<System>, steps: seq<Step>, n: nat)
    requires IsRun(u, states, steps) && IsReadStep(states, steps, n)
    requires NowAt(LookAt(states, steps, n)).interval.Some?
    requires Breaks(Backends(states[n + 1].history), |states[n + 1].history|) < TWO_64
    ensures var l, h := LookAt(states, steps, n), states[n + 1].history;
            && |h| == |states[n].history| + 1 && l.snap.assurance.anchor.Some?
            && (exists k: nat :: k < n && StoredAt(states, steps, k, l.snap))
            && CappedByFailures(u, states, steps, l)
            && exists i: nat :: i < |states[n].history| && InForce(u, l, h, i, |states[n].history|)
  {
    var s, s', l := states[n], states[n + 1], LookAt(states, steps, n);
    FoundedAlways(u, states, steps, n);
    GuardedAlways(u, states, steps, n + 1);
    StepAt(u, states, steps, n);
    FoundedServiceIsInForce(u, l, s.history, s', |s.history|);
    SnapshotsWereStored(u, states, steps, n);
    assert WasStored(states, steps, n, l.snap);
    forall p: nat, k: nat | FailedBeforeLook(states, steps, p, k, l)
      ensures var a, cap := l.snap.assurance.anchor.value, u.config.maxHoldoverAge;
              cap > 0 && a.rawAnchor + cap <= UINT64_MAX ==> l.reading.raw <= a.rawAnchor + cap
    {
      FailureCapsLook(u, states, steps, p, k, l);
    }
  }

  lemma FoundedServiceIsInForce(u: Setup, l: Look, h: History, s: System, now: nat)
    requires Guarded(s) && h <= s.history && now == |h| < |s.history| && Breaks(Backends(s.history), |s.history|) < TWO_64
    requires Founded(l.snap.assurance, h, u.config)
    requires l.reading == s.history[now].event.reading && NowAt(l).interval.Some?
    ensures l.snap.assurance.anchor.Some?
    ensures exists i: nat :: i < now && InForce(u, l, s.history, i, now)
  {
    ServedIsValid(l);
    var i: nat :| LabelledBy(l.snap.assurance.anchor.value, h, i, u.config);
    LabelIsInForce(u, l, s, now, i);
  }

  lemma LabelIsInForce(u: Setup, l: Look, s: System, now: nat, i: nat)
    requires Guarded(s) && i < now < |s.history| && Breaks(Backends(s.history), |s.history|) < TWO_64
    requires WellFormed(l.snap.assurance) && IsCapped(l.snap.assurance, u.config) && l.snap.assurance.anchor.Some?
    requires LabelledBy(l.snap.assurance.anchor.value, s.history, i, u.config)
    requires l.reading == s.history[now].event.reading && NowAt(l).interval.Some?
    ensures InForce(u, l, s.history, i, now)
  {
    ServedIsValid(l);
    UnbrokenByToken(s, i, now);
  }

  /** What is served rests on an anchor that has not expired and has the reading's token. */
  lemma ServedIsValid(l: Look)
    requires NowAt(l).interval.Some?
    ensures l.snap.assurance.anchor.Some?
    ensures var a := l.snap.assurance.anchor.value; l.reading.raw <= a.validUntil && l.reading.token == a.token
  {
  }

  lemma UnbrokenByToken(s: System, i: nat, now: nat)
    requires Guarded(s) && i < now < |s.history| && Breaks(Backends(s.history), |s.history|) < TWO_64
    requires s.history[i].event.reading.token == s.history[now].event.reading.token
    ensures UnbrokenBetween(Backends(s.history), i, now)
  {
    SameTokenMeansUnbroken(Backends(s.history), i, now);
  }

  // ----- publication -----

  /** The writer's state can always be published: only an invalid envelope or a counter at its end
      makes the guard refuse, and every publication carries a greater generation. */
  lemma PublicationSucceeds(u: Setup, states: seq<System>, steps: seq<Step>, n: nat)
    requires IsRun(u, states, steps) && n < |steps| && steps[n].Store?
    ensures var s, e := states[n], steps[n].tick.event;
            && WellFormed(s.writer)
            && (ValidatePublication(s.published, Stored(u, s, steps[n].tick)).None? <==>
                  0 < e.scale.low <= e.scale.upp && s.published.generation < UINT64_MAX)
            && (0 < e.scale.low <= e.scale.upp && s.published.generation < UINT64_MAX ==>
                  states[n + 1].published == Stored(u, s, steps[n].tick)
                  && states[n + 1].published.generation == s.published.generation + 1)
  {
    FoundedAlways(u, states, steps, n);
    StepAt(u, states, steps, n);
    WellFormedIsPublishable(states[n].published, Stored(u, states[n], steps[n].tick));
  }
}
