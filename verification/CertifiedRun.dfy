/** The whole service as a transition system: one polling engine, callers that invalidate or reset,
    and readers that acquire a snapshot and read the clock at unrelated moments. Every read of the
    guarded clock is one step of a history in physical time. */
module CertifiedRun {
  import opened MachineInt
  import opened Outcomes
  import opened Assurance
  import opened TrueTime
  import opened Coverage
  import opened Poll
  import opened Continuity
  import opened Publish
  import opened Service
  import Estimate

  /** A guarded read: the backend's answer, and the event it is labelled as. */
  datatype Tick = Tick(backend: Reading, event: Event)

  type History = seq<Tick>

  /** Where the polling engine is. Moments are positions in the history. */
  datatype Polling = Idle | Querying(start: nat) | Selected(moment: nat, selection: Selection) | Waiting | Failed

  /** Who holds the writer's lock, and what becomes of the poll once the snapshot is stored. */
  datatype Section = Free | Rechecking | Storing(outcome: Outcome)

  datatype Outcome = RoundDone | RoundRefused | FailureDone | CallerDone

  datatype System = System(
    guard: Guard,
    writer: State,
    mapping: Estimate.Mapping,
    published: View,
    poll: Polling,
    section: Section,
    readers: map<nat, View>,
    history: History)

  datatype Step =
    | Acquire(reader: nat)
    | Read(reader: nat, tick: Tick)
    | StartPoll(tick: Tick)
    | QueryRead(tick: Tick)
    | Select(tick: Tick, results: seq<SourceResult>, votes: seq<Vote>, selection: Selection)
    | FailPoll(tick: Tick)
    | Abandon
    | RefuseHull
    | Sync(tick: Tick)
    | SkipFailure
    | NoteFailure(tick: Tick)
    | Recheck(tick: Tick)
    | Store(tick: Tick)
    | Invalidate
    | ResetEstimate(raw0: UInt64, target: Int64, baseRate: Int64)

  datatype Setup = Setup(config: Config, id: Identity, maxWidth: Int64)

  ghost predicate Init(u: Setup, s: System) {
    && s.guard == INITIAL_GUARD
    && s.writer == InitialState(u.maxWidth, u.id.epochId)
    && s.published.assurance == s.writer && s.published.generation == 1
    && s.poll == Idle && s.section == Free && s.readers == map[] && s.history == []
  }

  /** The step reads the guarded clock: the guard moves on and the event joins the history. */
  ghost predicate Reads(s: System, tick: Tick, s': System) {
    && GuardedRead(s.guard, tick.backend) == (s'.guard, tick.event.reading)
    && s'.history == s.history + [tick]
  }

  ghost predicate ReadsNothing(s: System, s': System) {
    s'.guard == s.guard && s'.history == s.history
  }

  function WindowOf(start: Event, end: Event): Window {
    Window(start.reading, start.scale, end.reading, end.scale)
  }

  function RoundAt(u: Setup, e: Event, selection: Selection): Round {
    RoundOf(e.reading, e.scale, selection.consensus, selection.validUntil, u.id)
  }

  function Stored(u: Setup, s: System, tick: Tick): View {
    NextSnapshot(s.published, s.mapping, s.writer, tick.event.scale, tick.event.reading.token, u.id)
  }

  function PollAfterStore(outcome: Outcome, rejected: bool, poll: Polling): Polling {
    match outcome
    case RoundDone => if rejected then Failed else Idle
    case RoundRefused => Failed
    case FailureDone => Idle
    case CallerDone => poll
  }

  ghost predicate Next(u: Setup, s: System, step: Step, s': System) {
    match step
    case Acquire(r) =>
      s' == s.(readers := s.readers[r := s.published])
    case Read(r, tick) =>
      r in s.readers && Reads(s, tick, s') && s' == s.(guard := s'.guard, history := s'.history)
    case StartPoll(tick) =>
      s.poll == Idle && Reads(s, tick, s')
      && s' == s.(guard := s'.guard, history := s'.history, poll := Querying(|s.history|))
    case QueryRead(tick) =>
      s.poll.Querying? && Reads(s, tick, s') && s' == s.(guard := s'.guard, history := s'.history)
    case Select(tick, results, votes, selection) =>
      s.poll.Querying? && s.poll.start < |s.history| && Reads(s, tick, s')
      && IsSelection(selection, votes, results, WindowOf(s.history[s.poll.start].event, tick.event), u.config)
      && s' == s.(guard := s'.guard, history := s'.history, poll := Selected(|s.history|, selection))
    case FailPoll(tick) =>
      s.poll.Querying? && Reads(s, tick, s') && s' == s.(guard := s'.guard, history := s'.history, poll := Failed)
    case Abandon =>
      (s.poll.Querying? || s.poll.Failed?) && s' == s.(poll := Idle)
    case RefuseHull =>
      s.poll.Selected? && s.section.Free? && ValidateHull(s.poll.selection.consensus.hull, s.writer.maxWidth).Some?
      && s' == s.(poll := Failed)
    case Sync(tick) =>
      s.poll.Selected? && s.section.Free? && s.poll.moment < |s.history| && Reads(s, tick, s')
      && ValidateHull(s.poll.selection.consensus.hull, s.writer.maxWidth).None?
      && var round := RoundAt(u, s.history[s.poll.moment].event, s.poll.selection);
         var (writer, fault) := SyncRound(s.writer, round, tick.event.reading, tick.event.scale);
         var mapping := if fault.None? then
             Estimate.Initialized(s.mapping, round.reading.raw, HullCentre(round.hull), 0) else s.mapping;
         s' == s.(guard := s'.guard, history := s'.history, writer := writer, mapping := mapping, poll := Waiting,
                  section := Storing(if fault.None? then RoundDone else RoundRefused))
    case SkipFailure =>
      s.poll.Failed? && s.section.Free? && !Active(s.published.assurance.status) && s' == s.(poll := Idle)
    case NoteFailure(tick) =>
      s.poll.Failed? && s.section.Free? && Active(s.published.assurance.status) && Reads(s, tick, s')
      && u.config.maxHoldoverAge >= 0
      && var (writer, held) := FailRound(s.writer, s.published.assurance, tick.event.reading, tick.event.scale,
                                         u.config.maxHoldoverAge);
         s' == s.(guard := s'.guard, history := s'.history, writer := writer, poll := Waiting,
                  section := if held then Rechecking else Storing(FailureDone))
    case Recheck(tick) =>
      s.section.Rechecking? && Reads(s, tick, s')
      && s' == s.(guard := s'.guard, history := s'.history, writer := RecheckHoldover(s.writer, tick.event.reading),
                  section := Storing(FailureDone))
    case Store(tick) =>
      s.section.Storing? && Reads(s, tick, s')
      && var next := Stored(u, s, tick);
         var rejected := ValidatePublication(s.published, next).Some?;
         s' == s.(guard := s'.guard, history := s'.history, published := if rejected then s.published else next,
                  poll := PollAfterStore(s.section.outcome, rejected, s.poll), section := Free)
    case Invalidate =>
      s.section.Free? && s' == s.(writer := ToDesync(s.writer, RawDiscontinuity), section := Storing(CallerDone))
    case ResetEstimate(raw0, target, baseRate) =>
      s.section.Free?
      && s' == s.(mapping := Estimate.Initialized(s.mapping, raw0, target, baseRate), section := Storing(CallerDone))
  }

  // ----- the physical world, and the trust placed in the sources -----

  function Events(h: History): seq<Event> {
    seq(|h|, i requires 0 <= i < |h| => h[i].event)
  }

  /** A lawful world in which the envelope, as far as the reads show, never returns under one token:
      that is what the code does not notice. */
  ghost predicate Sound(h: History) {
    Lawful(Events(h)) && Settled(Events(h))
  }

  lemma SoundIsPhysical(h: History)
    requires Sound(h)
    ensures Physical(h)
  {
    forall i, j | 0 <= i <= j < |h|
      ensures Follows(h[i].event, h[j].event) && Labelled(h[i].event)
    {
      SettledFollows(Events(h), i, j);
    }
  }

  /** Readings are labelled within their bounds, and happen in the order of the history. */
  ghost predicate Physical(h: History) {
    && (forall i :: 0 <= i < |h| ==> Labelled(h[i].event))
    && (forall i, j :: 0 <= i <= j < |h| ==> Follows(h[i].event, h[j].event))
  }

  /** At most F voting domains of a selected round exclude the true time of its reading. */
  ghost predicate Trusted(u: Setup, step: Step) {
    step.Select? ==> |Excluding(Intervals(step.votes), step.tick.event.time)| <= u.config.faultBudget
  }

  // ----- the invariant -----

  /** The anchor was taken at moment `i`, describes it, and expires within the configured age. */
  ghost predicate TakenAtMoment(a: Anchor, h: History, i: nat, c: Config) {
    && i < |h| && Describes(a, h[i].event)
    && a.validUntil <= a.rawAnchor + EffectiveAge(c)
  }

  ghost predicate Reached(w: Int64, h: History, i: nat) {
    i < |h| && w as real <= h[i].event.time
  }

  /** A failed round has put a positive, representable holdover limit in force. */
  predicate CapApplies(s: State, c: Config) {
    s.status == Holdover && c.maxHoldoverAge > 0 && s.lastRoundRaw + c.maxHoldoverAge <= UINT64_MAX
  }

  ghost predicate IsCapped(s: State, c: Config) {
    CapApplies(s, c) && s.anchor.Some? ==> s.anchor.value.validUntil <= s.lastRoundRaw + c.maxHoldoverAge
  }

  /** The state rests on events before position `n`. */
  ghost predicate Backed(s: State, h: History, n: nat, c: Config) {
    && WellFormed(s)
    && (s.anchor.Some? ==> exists i: nat :: i < n && TakenAtMoment(s.anchor.value, h, i, c))
    && (s.watermark == WATERMARK_UNSET || exists i: nat :: i < n && Reached(s.watermark, h, i))
    && IsCapped(s, c)
  }

  ghost predicate Inv(u: Setup, s: System) {
    && ValidConfig(u.config)
    && Backed(s.writer, s.history, |s.history|, u.config)
    && Backed(s.published.assurance, s.history, |s.history|, u.config)
    && (forall r <- s.readers :: Backed(s.readers[r].assurance, s.history, |s.history|, u.config))
    && s.published.assurance.watermark <= s.writer.watermark
    && (s.poll.Querying? ==> s.poll.start < |s.history|)
    && (s.poll.Selected? ==>
          && s.poll.moment < |s.history|
          && Encloses(s.poll.selection.consensus.hull, s.history[s.poll.moment].event.time)
          && s.poll.selection.validUntil <= s.history[s.poll.moment].event.reading.raw + EffectiveAge(u.config)
          && Backed(s.writer, s.history, s.poll.moment + 1, u.config))
  }

  lemma BackedLater(s: State, h: History, n: nat, h': History, n': nat, c: Config)
    requires Backed(s, h, n, c) && h <= h' && n <= n'
    ensures Backed(s, h', n', c)
  {
    if s.anchor.Some? {
      var i: nat :| i < n && TakenAtMoment(s.anchor.value, h, i, c);
      assert TakenAtMoment(s.anchor.value, h', i, c);
    }
    if s.watermark != WATERMARK_UNSET {
      var i: nat :| i < n && Reached(s.watermark, h, i);
      assert Reached(s.watermark, h', i);
    }
  }

  /** A backed interval encloses true time at any later reading under the same envelope. */
  lemma ServedEncloses(s: State, h: History, n: nat, m: nat, c: Config)
    requires Backed(s, h, n, c) && n <= m < |h| && Physical(h)
    requires PropagateSnapshot(s, h[m].event.reading, h[m].event.scale).Success?
    ensures Encloses(PropagateSnapshot(s, h[m].event.reading, h[m].event.scale).value, h[m].event.time)
  {
    var e := h[m].event;
    var i: nat :| i < n && TakenAtMoment(s.anchor.value, h, i, c);
    assert Follows(h[i].event, e);
    PropagationEncloses(s.anchor.value, h[i].event, e, s.maxWidth);
  }

  /** A true hull never conflicts with the carried bound, and what is adopted is true as well. */
  lemma RoundIsConsistent(s: State, round: Round, h: History, m: nat, c: Config)
    requires Backed(s, h, m + 1, c) && m < |h| && Physical(h)
    requires round.reading == h[m].event.reading && round.scale == h[m].event.scale
    requires Encloses(round.hull, h[m].event.time) && ValidateHull(round.hull, s.maxWidth).None?
    requires round.validUntil <= round.reading.raw + EffectiveAge(c)
    ensures ProcessRound(s, round).1.Success?
    ensures Backed(ProcessRound(s, round).0, h, m + 1, c)
    ensures ProcessRound(s, round).0.watermark >= s.watermark
  {
    var e := h[m].event;
    var carried := CarriedBound(s, round);
    if carried.Some? {
      var i: nat :| i < m + 1 && TakenAtMoment(s.anchor.value, h, i, c);
      assert Follows(h[i].event, e);
      PropagationEncloses(s.anchor.value, h[i].event, e, s.maxWidth);
      assert Encloses(carried.value, e.time);
    }
    var published := if carried.Some? then Overlap(round.hull, carried.value) else round.hull;
    assert Encloses(published, e.time);
    assert ProcessRound(s, round).0 == Adopt(s, round, published);
    var adopted := Adopt(s, round, published);
    assert TakenAtMoment(adopted.anchor.value, h, m, c);
    if published.earliest > s.watermark {
      assert Reached(adopted.watermark, h, m);
    } else if s.watermark != WATERMARK_UNSET {
      var i: nat :| i < m + 1 && Reached(s.watermark, h, i);
      assert Reached(adopted.watermark, h, i);
    }
  }

  lemma DesyncStaysBacked(s: State, reason: Reason, h: History, n: nat, c: Config)
    requires Backed(s, h, n, c)
    ensures Backed(ToDesync(s, reason), h, n, c)
  {
    if s.watermark != WATERMARK_UNSET {
      var i: nat :| i < n && Reached(s.watermark, h, i);
      assert Reached(ToDesync(s, reason).watermark, h, i);
    }
  }

  lemma HoldoverStaysBacked(s: State, reason: Reason, h: History, n: nat, c: Config)
    requires Backed(s, h, n, c) && c.maxHoldoverAge >= 0
    ensures Backed(ToHoldover(s, reason, c.maxHoldoverAge), h, n, c)
  {
    var s' := ToHoldover(s, reason, c.maxHoldoverAge);
    if s.anchor.Some? {
      var i: nat :| i < n && TakenAtMoment(s.anchor.value, h, i, c);
      assert TakenAtMoment(s'.anchor.value, h, i, c);
    }
    if s.watermark != WATERMARK_UNSET {
      var i: nat :| i < n && Reached(s.watermark, h, i);
      assert Reached(s'.watermark, h, i);
    }
  }

  // ----- every step keeps the invariant -----

  /** Reading the clock disturbs nothing that rests on the history. */
  lemma ReadingKeepsInv(u: Setup, s: System, h': History)
    requires Inv(u, s) && s.history <= h'
    ensures Backed(s.writer, h', |h'|, u.config)
    ensures Backed(s.published.assurance, h', |h'|, u.config)
    ensures forall r <- s.readers :: Backed(s.readers[r].assurance, h', |h'|, u.config)
    ensures s.poll.Selected? ==> Backed(s.writer, h', s.poll.moment + 1, u.config)
  {
    var n := |s.history|;
    BackedLater(s.writer, s.history, n, h', |h'|, u.config);
    BackedLater(s.published.assurance, s.history, n, h', |h'|, u.config);
    forall r | r in s.readers
      ensures Backed(s.readers[r].assurance, h', |h'|, u.config)
    {
      BackedLater(s.readers[r].assurance, s.history, n, h', |h'|, u.config);
    }
    if s.poll.Selected? {
      BackedLater(s.writer, s.history, s.poll.moment + 1, h', s.poll.moment + 1, u.config);
    }
  }

  lemma SelectKeepsInv(u: Setup, s: System, step: Step, s': System)
    requires Inv(u, s) && Next(u, s, step, s') && Physical(s'.history) && Trusted(u, step) && step.Select?
    ensures Inv(u, s')
  {
    ReadingKeepsInv(u, s, s'.history);
    var w := WindowOf(s.history[s.poll.start].event, step.tick.event);
    HullHoldsTrueTime(step.selection, step.votes, step.results, w, u.config, step.tick.event.time);
  }

  lemma SyncKeepsInv(u: Setup, s: System, step: Step, s': System)
    requires Inv(u, s) && Next(u, s, step, s') && Physical(s'.history) && step.Sync?
    ensures Inv(u, s')
    ensures var round := RoundAt(u, s.history[s.poll.moment].event, s.poll.selection);
            SyncRound(s.writer, round, step.tick.event.reading, step.tick.event.scale).1 in {None, Some(TokenMismatch)}
  {
    ReadingKeepsInv(u, s, s'.history);
    var m := s.poll.moment;
    var round := RoundAt(u, s.history[m].event, s.poll.selection);
    RoundIsConsistent(s.writer, round, s'.history, m, u.config);
    DesyncStaysBacked(s.writer, RawDiscontinuity, s'.history, |s'.history|, u.config);
    BackedLater(ProcessRound(s.writer, round).0, s'.history, m + 1, s'.history, |s'.history|, u.config);
  }

  lemma FailureKeepsInv(u: Setup, s: System, step: Step, s': System)
    requires Inv(u, s) && Next(u, s, step, s') && (step.NoteFailure? || step.Recheck?)
    ensures Inv(u, s')
  {
    ReadingKeepsInv(u, s, s'.history);
    var h, n, e := s'.history, |s'.history|, step.tick.event;
    if step.NoteFailure? {
      var res := PropagateSnapshot(s.published.assurance, e.reading, e.scale);
      if res.Failure? {
        DesyncStaysBacked(s.writer, MapPropagationError(res.error), h, n, u.config);
      } else {
        HoldoverStaysBacked(s.writer, InsufficientDomains, h, n, u.config);
      }
    } else {
      DesyncStaysBacked(s.writer, EvaluateState(s.writer, e.reading).reason, h, n, u.config);
      if s.poll.Selected? {
        DesyncStaysBacked(s.writer, EvaluateState(s.writer, e.reading).reason, h, s.poll.moment + 1, u.config);
      }
    }
  }

  lemma InvalidateKeepsInv(u: Setup, s: System, step: Step, s': System)
    requires Inv(u, s) && Next(u, s, step, s') && step.Invalidate?
    ensures Inv(u, s')
  {
    DesyncStaysBacked(s.writer, RawDiscontinuity, s.history, |s.history|, u.config);
    if s.poll.Selected? {
      DesyncStaysBacked(s.writer, RawDiscontinuity, s.history, s.poll.moment + 1, u.config);
    }
  }

  lemma ReadOnlyKeepsInv(u: Setup, s: System, step: Step, s': System)
    requires Inv(u, s) && Next(u, s, step, s')
    requires step.Read? || step.StartPoll? || step.QueryRead? || step.FailPoll? || step.Store?
    ensures Inv(u, s')
  {
    ReadingKeepsInv(u, s, s'.history);
  }

  lemma BookkeepingKeepsInv(u: Setup, s: System, step: Step, s': System)
    requires Inv(u, s) && Next(u, s, step, s')
    requires step.Acquire? || step.Abandon? || step.RefuseHull? || step.SkipFailure? || step.ResetEstimate?
    ensures Inv(u, s')
  {
  }

  lemma StepKeepsInv(u: Setup, s: System, step: Step, s': System)
    requires Inv(u, s) && Next(u, s, step, s') && Physical(s'.history) && Trusted(u, step)
    ensures Inv(u, s')
  {
    match step {
      case Select(_, _, _, _) => SelectKeepsInv(u, s, step, s');
      case Sync(_) => SyncKeepsInv(u, s, step, s');
      case NoteFailure(_) => FailureKeepsInv(u, s, step, s');
      case Recheck(_) => FailureKeepsInv(u, s, step, s');
      case Invalidate => InvalidateKeepsInv(u, s, step, s');
      case Read(_, _) => ReadOnlyKeepsInv(u, s, step, s');
      case StartPoll(_) => ReadOnlyKeepsInv(u, s, step, s');
      case QueryRead(_) => ReadOnlyKeepsInv(u, s, step, s');
      case FailPoll(_) => ReadOnlyKeepsInv(u, s, step, s');
      case Store(_) => ReadOnlyKeepsInv(u, s, step, s');
      case _ => BookkeepingKeepsInv(u, s, step, s');
    }
  }
}
