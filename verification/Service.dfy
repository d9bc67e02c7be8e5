/** What the clock service computes: the writer's decisions, and everything a reader derives from
    one snapshot and one reading. */
module Service {
  import opened MachineInt
  import opened Outcomes
  import opened Assurance
  import opened TrueTime
  import opened Coverage
  import opened Publish
  import Estimate

  // ----- readers -----

  /** The interval of a published state at a reading; the envelope must still be the anchor's. */
  function PropagateSnapshot(s: State, r: Reading, scale: Scale): (res: Result<Interval>)
    ensures res.Success? ==> s.anchor.Some? && s.anchor.value.scale == scale
    ensures res.Success? ==>
              res == PropagateAnchor(s.anchor, r.raw, r.bound, r.token, s.lowerDebt, s.upperDebt, s.maxWidth)
  {
    if s.anchor.Some? && scale != s.anchor.value.scale then Failure(TokenMismatch)
    else PropagateAnchor(s.anchor, r.raw, r.bound, r.token, s.lowerDebt, s.upperDebt, s.maxWidth)
  }

  function MapPropagationError(f: Fault): Reason {
    match f
    case TokenMismatch | RawEarlierThanAnchor => RawDiscontinuity
    case Overflow => ArithmeticOverflow
    case _ => BoundTooOld
  }

  /** Which publication, leap history and configuration an answer rests on. */
  datatype Origin = Origin(
    assuranceGeneration: UInt64,
    mappingGeneration: UInt64,
    epochId: Digest,
    leapId: Digest,
    configId: Digest)

  datatype AssuredNow = AssuredNow(
    interval: Option<Interval>,
    estimate: Option<Int64>,
    epsilon: Option<nat>,
    status: Status,
    reason: Reason,
    origin: Origin,
    faultBudget: int,
    eligible: int,
    age: Int64)

  /** Up to here floating-point numbers hold every integer. */
  const EXACT: nat := 0x20_0000_0000_0000

  function Magnitude(x: int): nat {
    if x < 0 then -x else x
  }

  /** The larger distance from the estimate to an end of the interval. The subtractions wrap; `None` where
      the floating-point maximum would round. */
  function SymmetricEpsilon(est: Int64, i: Interval): Option<nat> {
    var down, up := Magnitude(ToSigned(est - i.earliest)), Magnitude(ToSigned(i.latest - est));
    if down <= EXACT && up <= EXACT then Some(if down >= up then down else up) else None
  }

  /** It reaches over the whole interval exactly when neither subtraction wraps. */
  lemma EpsilonCovers(est: Int64, i: Interval)
    requires SymmetricEpsilon(est, i).Some?
    ensures var e := SymmetricEpsilon(est, i).value;
            est - e <= i.earliest && i.latest <= est + e && i.earliest <= est + e && est - e <= i.latest
            <==> FitsInt64(est - i.earliest) && FitsInt64(i.latest - est)
  {
    ToSignedFits(est - i.earliest);
    ToSignedFits(i.latest - est);
  }

  /** Without wrap-around it is the distance to the farther end, and there is one up to 2^53. */
  lemma EpsilonIsFarther(est: Int64, i: Interval)
    requires FitsInt64(est - i.earliest) && FitsInt64(i.latest - est) && i.earliest <= i.latest
    ensures var farther := if est - i.earliest >= i.latest - est then est - i.earliest else i.latest - est;
            SymmetricEpsilon(est, i) ==
              if i.earliest <= est <= i.latest then (if farther <= 0x20_0000_0000_0000 then Some(farther) else None)
              else
                var far := if est < i.earliest then i.latest - est else est - i.earliest;
                if far <= 0x20_0000_0000_0000 then Some(far) else None
  {
    ToSignedFits(est - i.earliest);
    ToSignedFits(i.latest - est);
  }

  function NowOf(snap: View, r: Reading, scale: Scale): AssuredNow {
    var estimate := match Estimate.Evaluate(snap.mapping, r.raw) case Success(e) => Some(e) case Failure(_) => None;
    var s := snap.assurance;
    var origin := Origin(s.generation, snap.mapping.generation, snap.epochId, snap.leapId, snap.configId);
    if Active(s.status) then
      match PropagateSnapshot(s, r, scale)
      case Success(i) =>
        var a := s.anchor.value;
        var epsilon := SymmetricEpsilon(if estimate.Some? then estimate.value else 0, i);
        AssuredNow(Some(i), estimate, epsilon, s.status, s.reason, origin, a.faultBudget, a.eligible,
                   ToSigned(r.raw - a.createdRaw))
      case Failure(f) => AssuredNow(None, estimate, None, Desync, MapPropagationError(f), origin, 0, 0, 0)
    else AssuredNow(None, estimate, None, s.status, s.reason, origin, 0, 0, 0)
  }

  /** One look at the clock: a snapshot, however old, a reading and the envelope seen with it. */
  datatype Look = Look(snap: View, reading: Reading, scale: Scale)

  function NowAt(l: Look): AssuredNow {
    NowOf(l.snap, l.reading, l.scale)
  }

  /** An interval comes only from a matching anchor, and its age is the raw time since the round that
      set the anchor. */
  lemma ServedAge(l: Look)
    requires NowAt(l).interval.Some? && WellFormed(l.snap.assurance)
    ensures Active(NowAt(l).status) && l.snap.assurance.anchor.Some?
    ensures NowAt(l).age == l.reading.raw - l.snap.assurance.lastRoundRaw >= 0
    ensures l.reading.raw <= l.snap.assurance.anchor.value.validUntil
  {
    ToSignedFits(l.reading.raw - l.snap.assurance.anchor.value.createdRaw);
  }

  datatype Decision = CertainYes | CertainNo | Unknown

  function AfterOf(now: AssuredNow, t: Int64): Decision {
    match now.interval
    case None => Unknown
    case Some(i) => if i.earliest > t then CertainYes else if i.latest <= t then CertainNo else Unknown
  }

  function BeforeOf(now: AssuredNow, t: Int64): Decision {
    match now.interval
    case None => Unknown
    case Some(i) => if i.latest < t then CertainYes else if i.earliest >= t then CertainNo else Unknown
  }

  /** A certain answer is true of the actual time, and one is given whenever the whole interval
      lies on one side. */
  lemma DecisionsAreCertain(now: AssuredNow, t: Int64, time: real)
    requires now.interval.Some? && Encloses(now.interval.value, time)
    ensures AfterOf(now, t) == CertainYes ==> time > t as real
    ensures AfterOf(now, t) == CertainNo ==> time <= t as real
    ensures BeforeOf(now, t) == CertainYes ==> time < t as real
    ensures BeforeOf(now, t) == CertainNo ==> time >= t as real
    ensures AfterOf(now, t) == Unknown <==> now.interval.value.earliest <= t < now.interval.value.latest
    ensures BeforeOf(now, t) == Unknown <==> now.interval.value.earliest < t <= now.interval.value.latest
  {
  }

  datatype WatermarkError = LeapHistoryMismatch | ConfigurationMismatch | NotAnchored | Desynchronized

  datatype WatermarkResult = Watermark(value: Int64) | Refused(error: WatermarkError)

  datatype Identity = Identity(epochId: Digest, leapId: Digest, configId: Digest)

  function PastWatermarkOf(snap: View, r: Reading, scale: Scale, id: Identity): WatermarkResult {
    if snap.epochId != id.epochId then Refused(ConfigurationMismatch)
    else if snap.leapId != id.leapId then Refused(LeapHistoryMismatch)
    else if snap.configId != id.configId then Refused(ConfigurationMismatch)
    else if snap.assurance.status == Unanchored then Refused(NotAnchored)
    else if snap.assurance.status == Desync then Refused(Desynchronized)
    else if PropagateSnapshot(snap.assurance, r, scale).Failure? then Refused(Desynchronized)
    else Watermark(snap.assurance.watermark)
  }

  /** The watermark is read off only after the clock; an earlier refusal does not read it. */
  predicate ReadsForWatermark(snap: View, id: Identity) {
    snap.epochId == id.epochId && snap.leapId == id.leapId && snap.configId == id.configId && Active(snap.assurance.status)
  }

  function WatermarkAt(l: Look, id: Identity): WatermarkResult {
    PastWatermarkOf(l.snap, l.reading, l.scale, id)
  }

  // ----- the writer -----

  /** What a selected round hands to the clock. */
  function RoundOf(selection: Reading, scale: Scale, c: Consensus, validUntil: UInt64, id: Identity): Round {
    Round(selection, c.hull, scale, validUntil, c.faultBudget, c.eligible, c.threshold, |c.components|,
          id.leapId, id.configId)
  }

  /** Whether the clock is still the one the round was selected on. */
  predicate Unchanged(round: Round, current: Reading, scale: Scale) {
    && round.reading.raw <= current.raw
    && current.token == round.reading.token && current.generation == round.reading.generation
    && scale == round.scale
  }

  /** The assurance part of publishing a selected round whose hull is valid. */
  function SyncRound(s: State, round: Round, current: Reading, scale: Scale): (State, Option<Fault>) {
    if !Unchanged(round, current, scale) then (ToDesync(s, RawDiscontinuity), Some(TokenMismatch))
    else
      var (s', r) := ProcessRound(s, round);
      (s', if r.Success? then None else Some(r.error))
  }

  /** The first half of recording a failed round, on the published state `snap`: an expired or
      broken anchor is dropped at once, a usable one is held over. */
  function FailRound(s: State, snap: State, r: Reading, scale: Scale, maxAge: UInt64): (State, bool) {
    match PropagateSnapshot(snap, r, scale)
    case Failure(f) => (ToDesync(s, MapPropagationError(f)), false)
    case Success(_) => (ToHoldover(s, InsufficientDomains, maxAge), true)
  }

  /** The second half: what is held over must still be usable at a second reading. */
  function RecheckHoldover(s: State, r: Reading): State {
    var e := EvaluateState(s, r);
    if e.status == Desync then ToDesync(s, e.reason) else s
  }

  function NextSnapshot(curr: View, mapping: Estimate.Mapping, s: State, scale: Scale, token: UInt64, id: Identity): View {
    Snapshot(mapping, s, scale, token, id.leapId, id.configId, id.epochId, (curr.generation + 1) % TWO_64)
  }

  lemma HalfSpan(hull: Interval)
    requires hull.earliest <= hull.latest
    ensures var half := ToUnsigned(ToUnsigned(hull.latest) - ToUnsigned(hull.earliest)) / 2;
            && half == (hull.latest - hull.earliest) / 2 && ToSigned(half) == half
            && ToSigned(hull.earliest + half) == hull.earliest + half
  {
    UnsignedSpan(hull);
    var half := (hull.latest - hull.earliest) / 2;
    assert 0 <= half <= INT64_MAX && hull.earliest <= hull.earliest + half <= hull.latest;
    ToSignedFits(half);
    ToSignedFits(hull.earliest + half);
  }

  /** The centre of an ordered hull, without signed overflow. */
  function HullCentre(hull: Interval): (c: Int64)
    requires hull.earliest <= hull.latest
    ensures c == hull.earliest + (hull.latest - hull.earliest) / 2
    ensures hull.earliest <= c <= hull.latest
  {
    HalfSpan(hull);
    ToSigned(hull.earliest + ToSigned(ToUnsigned(ToUnsigned(hull.latest) - ToUnsigned(hull.earliest)) / 2))
  }
}
