/** The certified interval: propagation of an absolute anchor along the raw clock, and the
    UNANCHORED / SYNCED / HOLDOVER / DESYNC state machine that owns the anchor. */
module Assurance {
  import opened MachineInt
  import opened Outcomes
  import opened FixedPoint

  const MAX_WIDTH_DEFAULT: Int64 := 32_000_000_000
  const WATERMARK_UNSET: Int64 := -0x4000_0000_0000_0000

  type Digest = seq<bv8>

  datatype Interval = Interval(earliest: Int64, latest: Int64)

  ghost predicate Encloses(i: Interval, time: real) {
    i.earliest as real <= time <= i.latest as real
  }

  /** The oscillator's rate envelope, true nanoseconds per raw nanosecond in Q16.48. */
  datatype Scale = Scale(low: Int64, upp: Int64)

  /** One read of the raw clock. */
  datatype Reading = Reading(raw: UInt64, bound: UInt64, token: UInt64, generation: UInt64)

  datatype Status = Unanchored | Synced | Holdover | Desync

  datatype Reason =
    | NoReason
    | InsufficientDomains
    | Conflict
    | RawDiscontinuity
    | BoundTooOld
    | ArithmeticOverflow

  datatype Anchor = Anchor(
    rawAnchor: UInt64,
    lower: Int64,
    upper: Int64,
    scale: Scale,
    readBound: UInt64,
    faultBudget: int,
    eligible: int,
    threshold: int,
    components: int,
    leapId: Digest,
    configId: Digest,
    generation: UInt64,
    createdRaw: UInt64,
    validUntil: UInt64,
    token: UInt64)

  /** The state of the assurance clock. `A` is how the anchor is held: a reference to a cell in
      the clock itself, a plain value in its specification. */
  datatype ClockState<A> = ClockState(
    anchor: A,
    lowerDebt: Int64,
    upperDebt: Int64,
    status: Status,
    reason: Reason,
    lastRoundRaw: UInt64,
    watermark: Int64,
    generation: UInt64,
    epochId: Digest,
    maxWidth: Int64)

  type State = ClockState<Option<Anchor>>

  /** What one completed round hands to the clock. */
  datatype Round = Round(
    reading: Reading,
    hull: Interval,
    scale: Scale,
    validUntil: UInt64,
    faultBudget: int,
    eligible: int,
    threshold: int,
    components: int,
    leapId: Digest,
    configId: Digest)

  // ----- checked addition -----

  predicate WillTermOverflow(v: Int64, d: Int64) {
    if d > 0 then v > INT64_MAX - d
    else if d < 0 then v < INT64_MIN - d
    else false
  }

  /** The sum of `base` and all terms; it fails when any partial sum leaves the range. */
  function CheckedSum(base: Int64, terms: seq<Int64>): Result<Int64>
    decreases |terms|
  {
    if terms == [] then Success(base)
    else if WillTermOverflow(base, terms[0]) then Failure(Overflow)
    else CheckedSum(base + terms[0], terms[1..])
  }

  function Sum(terms: seq<Int64>): int {
    if terms == [] then 0 else terms[0] + Sum(terms[1..])
  }

  /** Success means exactly that no partial sum overflows, and then the sum is exact. */
  lemma {:induction false} CheckedSumIsExact(base: Int64, terms: seq<Int64>)
    ensures CheckedSum(base, terms).Success? ==> CheckedSum(base, terms).value == base + Sum(terms)
    ensures CheckedSum(base, terms).Success? <==>
              forall i :: 0 <= i <= |terms| ==> FitsInt64(base + Sum(terms[..i]))
    decreases |terms|
  {
    if terms == [] {
    } else {
      var next: int := base + terms[0];
      assert Sum(terms[..1]) == terms[0] by { assert terms[..1][1..] == []; }
      if WillTermOverflow(base, terms[0]) {
        assert !FitsInt64(base + Sum(terms[..1]));
      } else {
        CheckedSumIsExact(next, terms[1..]);
        forall i | 1 <= i <= |terms|
          ensures Sum(terms[..i]) == terms[0] + Sum(terms[1..][..i - 1])
        {
          assert terms[..i][1..] == terms[1..][..i - 1];
        }
        if CheckedSum(base, terms).Success? {
          forall i | 0 <= i <= |terms|
            ensures FitsInt64(base + Sum(terms[..i]))
          {
            assert i > 0 ==> FitsInt64(next + Sum(terms[1..][..i - 1]));
          }
        } else {
          var j :| 0 <= j <= |terms[1..]| && !FitsInt64(next + Sum(terms[1..][..j]));
          assert Sum(terms[..j + 1]) == terms[0] + Sum(terms[1..][..j + 1 - 1]);
          assert !FitsInt64(base + Sum(terms[..j + 1]));
        }
      }
    }
  }

  /** The accumulating loop behind every interval endpoint. */
  method CheckedInstantAdd(base: Int64, terms: seq<Int64>) returns (r: Result<Int64>)
    ensures r == CheckedSum(base, terms)
  {
    var v := base;
    for i := 0 to |terms|
      invariant CheckedSum(base, terms) == CheckedSum(v, terms[i..])
    {
      var d := terms[i];
      if WillTermOverflow(v, d) {
        return Failure(Overflow);
      }
      v := v + d;
      assert terms[i..][1..] == terms[i + 1..];
    }
    r := Success(v);
  }

  // ----- propagation -----

  function DeltaLow(dr: nat, slack: nat): nat {
    if dr > slack then dr - slack else 0
  }

  /** The certified interval at raw instant `r`. Both ends move by the raw span since the anchor,
      widened by the two read bounds, at the slow and the fast end of the rate envelope. */
  function PropagateAnchor(held: Option<Anchor>, r: UInt64, bound: UInt64, token: UInt64,
                           lowerDebt: Int64, upperDebt: Int64, maxWidth: Int64): (res: Result<Interval>)
    ensures res.Success? ==>
              && held.Some?
              && held.value.rawAnchor <= r <= held.value.validUntil
              && held.value.token == token
              && 0 < held.value.scale.low <= held.value.scale.upp
              && res.value.earliest <= res.value.latest
              && (maxWidth > 0 ==> res.value.latest - res.value.earliest < maxWidth)
  {
    if held.None? then Failure(NoAnchor)
    else
      var a := held.value;
      if r < a.rawAnchor then Failure(RawEarlierThanAnchor)
      else if r > a.validUntil then Failure(AnchorExpired)
      else if token != a.token then Failure(TokenMismatch)
      else if a.scale.low <= 0 || a.scale.upp < a.scale.low then Failure(InvalidRange)
      else
        var dr: nat := r - a.rawAnchor;
        if a.readBound > UINT64_MAX - bound then Failure(Overflow)
        else
          var slack: nat := a.readBound + bound;
          if dr > INT64_MAX || slack > INT64_MAX - dr then Failure(Overflow)
          else
            var advanceLo :- MulFloor(a.scale.low, ToSigned(DeltaLow(dr, slack)));
            var advanceHi :- MulCeil(a.scale.upp, ToSigned(dr + slack));
            var lo :- CheckedSum(a.lower, [advanceLo, lowerDebt]);
            var hi :- CheckedSum(a.upper, [advanceHi, upperDebt]);
            if lo > hi then Failure(InvalidRange)
            else if lo < 0 && hi > INT64_MAX + lo then Failure(Overflow)
            else if maxWidth > 0 && hi - lo >= maxWidth then Failure(BoundTooWide)
            else Success(Interval(lo, hi))
  }

  /** `lo` and `hi` are the anchor's bounds moved by exact, outward-rounded products. */
  ghost predicate MovedBounds(a: Anchor, dr: nat, slack: nat, lo: int, hi: int) {
    && lo == a.lower + a.scale.low * DeltaLow(dr, slack) / ONE_Q48
    && hi == a.upper + CeilingOf(a.scale.upp * (dr + slack))
  }

  /** The endpoints in closed form. */
  lemma PropagatedEnds(a: Anchor, r: UInt64, bound: UInt64, token: UInt64,
                       lowerDebt: Int64, upperDebt: Int64, maxWidth: Int64)
    requires PropagateAnchor(Some(a), r, bound, token, lowerDebt, upperDebt, maxWidth).Success?
    ensures var i := PropagateAnchor(Some(a), r, bound, token, lowerDebt, upperDebt, maxWidth).value;
            MovedBounds(a, r - a.rawAnchor, a.readBound + bound, i.earliest - lowerDebt, i.latest - upperDebt)
  {
    var dr: nat, slack: nat := r - a.rawAnchor, a.readBound + bound;
    var lo, hi := DeltaLow(dr, slack), dr + slack;
    ToSignedFits(lo);
    ToSignedFits(hi);
    TwoTerms(a.lower, MulFloor(a.scale.low, ToSigned(lo)).value, lowerDebt);
    TwoTerms(a.upper, MulCeil(a.scale.upp, ToSigned(hi)).value, upperDebt);
  }

  lemma TwoTerms(base: Int64, x: Int64, y: Int64)
    requires CheckedSum(base, [x, y]).Success?
    ensures CheckedSum(base, [x, y]).value == base + x + y
  {
    CheckedSumIsExact(base, [x, y]);
    assert [x, y][1..] == [y];
    assert Sum([y]) == y + Sum([]) by { assert [y][1..] == []; }
  }

  // ----- the state machine, as functions of the state -----

  function NextGeneration(g: UInt64): UInt64 {
    (g + 1) % TWO_64
  }

  function InitialState(maxWidth: Int64, epochId: Digest): State {
    ClockState(None, 0, 0, Unanchored, NoReason, 0, WATERMARK_UNSET, 1, epochId,
               if maxWidth <= 0 then MAX_WIDTH_DEFAULT else maxWidth)
  }

  predicate Active(s: Status) {
    s == Synced || s == Holdover
  }

  /** A hull may be adopted only if it is ordered and narrower than the cap; the span is taken
      on unsigned words, so it is exact for every pair of instants. */
  function ValidateHull(hull: Interval, maxWidth: Int64): (r: Option<Fault>)
    ensures r.None? <==> hull.earliest <= hull.latest < hull.earliest + maxWidth
  {
    if hull.earliest > hull.latest || maxWidth <= 0 then Some(InvalidRange)
    else
      var span := ToUnsigned(ToUnsigned(hull.latest) - ToUnsigned(hull.earliest));
      UnsignedSpan(hull);
      if span >= maxWidth then Some(BoundTooWide) else None
  }

  lemma UnsignedSpan(hull: Interval)
    requires hull.earliest <= hull.latest
    ensures ToUnsigned(ToUnsigned(hull.latest) - ToUnsigned(hull.earliest)) == hull.latest - hull.earliest
  {
    assert ToUnsigned(hull.latest) == if hull.latest < 0 then hull.latest + TWO_64 else hull.latest;
    assert ToUnsigned(hull.earliest) == if hull.earliest < 0 then hull.earliest + TWO_64 else hull.earliest;
  }

  predicate IsAnchorMatching(held: Option<Anchor>, leapId: Digest, configId: Digest, token: UInt64, scale: Scale) {
    && held.Some?
    && held.value.leapId == leapId && held.value.configId == configId
    && held.value.token == token
    && held.value.scale == scale
  }

  function Overlap(a: Interval, b: Interval): Interval {
    Interval(if b.earliest > a.earliest then b.earliest else a.earliest,
             if b.latest < a.latest then b.latest else a.latest)
  }

  /** The still valid bound from the previous anchor, if the round may be intersected with it. */
  function CarriedBound(s: State, round: Round): Option<Interval> {
    if Active(s.status) && IsAnchorMatching(s.anchor, round.leapId, round.configId, round.reading.token, round.scale) then
      match PropagateAnchor(s.anchor, round.reading.raw, round.reading.bound, round.reading.token,
                            s.lowerDebt, s.upperDebt, s.maxWidth)
      case Success(i) => Some(i)
      case Failure(_) => None
    else None
  }

  function Adopt(s: State, round: Round, published: Interval): State {
    s.(anchor := Some(Anchor(
         round.reading.raw, published.earliest, published.latest, round.scale, round.reading.bound,
         round.faultBudget, round.eligible, round.threshold, round.components, round.leapId, round.configId,
         NextGeneration(s.generation), round.reading.raw, round.validUntil, round.reading.token)),
       lowerDebt := 0, upperDebt := 0, status := Synced, reason := NoReason,
       lastRoundRaw := round.reading.raw,
       watermark := if published.earliest > s.watermark then published.earliest else s.watermark,
       generation := NextGeneration(s.generation))
  }

  function ToDesync(s: State, reason: Reason): State {
    s.(status := Desync, reason := reason, anchor := None, generation := NextGeneration(s.generation))
  }

  function ProcessRound(s: State, round: Round): (State, Result<Interval>) {
    match ValidateHull(round.hull, s.maxWidth)
    case Some(fault) => (s, Failure(fault))
    case None =>
      match CarriedBound(s, round)
      case None => (Adopt(s, round, round.hull), Success(round.hull))
      case Some(carried) =>
        var common := Overlap(round.hull, carried);
        if common.earliest > common.latest then (ToDesync(s, Conflict), Failure(AssuranceConflict))
        else (Adopt(s, round, common), Success(common))
  }

  /** A holdover limit counts from the last successful round and can only shorten validity. */
  function ShortenValidity(held: Option<Anchor>, lastRoundRaw: UInt64, maxAge: UInt64): Option<Anchor> {
    if maxAge > 0 && lastRoundRaw <= UINT64_MAX - maxAge
       && held.Some? && lastRoundRaw + maxAge < held.value.validUntil then
      Some(held.value.(validUntil := lastRoundRaw + maxAge))
    else held
  }

  function ToHoldover(s: State, reason: Reason, maxAge: UInt64): State {
    if !Active(s.status) then s
    else s.(anchor := ShortenValidity(s.anchor, s.lastRoundRaw, maxAge),
            status := Holdover, reason := reason, generation := NextGeneration(s.generation))
  }

  datatype Evaluation = Evaluation(interval: Option<Interval>, status: Status, reason: Reason)

  function EvaluationReason(f: Fault): Reason {
    match f
    case AnchorExpired | BoundTooWide => BoundTooOld
    case TokenMismatch | RawEarlierThanAnchor => RawDiscontinuity
    case _ => ArithmeticOverflow
  }

  function EvaluateState(s: State, r: Reading): Evaluation {
    if !Active(s.status) then Evaluation(None, s.status, s.reason)
    else
      match PropagateAnchor(s.anchor, r.raw, r.bound, r.token, s.lowerDebt, s.upperDebt, s.maxWidth)
      case Success(i) => Evaluation(Some(i), s.status, s.reason)
      case Failure(f) => Evaluation(None, Desync, EvaluationReason(f))
  }

  // ----- what every transition keeps -----

  /** An anchor exists exactly while SYNCED or HOLDOVER; its bounds are ordered and it was taken
      at the last successful round; no debt is outstanding. */
  ghost predicate WellFormed(s: State) {
    && s.maxWidth > 0
    && s.lowerDebt == 0 && s.upperDebt == 0
    && (s.anchor.Some? <==> Active(s.status))
    && (s.anchor.Some? ==>
          && s.anchor.value.lower <= s.anchor.value.upper < s.anchor.value.lower + s.maxWidth
          && s.anchor.value.rawAnchor == s.anchor.value.createdRaw == s.lastRoundRaw
          && s.anchor.value.lower <= s.watermark)
  }

  /** Every transition keeps the state well formed and never lowers the watermark; an invalid
      hull changes nothing at all. */
  lemma TransitionsKeepWellFormed(s: State, round: Round, reason: Reason, maxAge: UInt64)
    requires WellFormed(s)
    ensures var (s', r) := ProcessRound(s, round);
            && WellFormed(s') && s'.watermark >= s.watermark
            && (ValidateHull(round.hull, s.maxWidth).Some? ==> s' == s && r.Failure?)
            && (r.Success? ==> round.hull.earliest <= r.value.earliest <= r.value.latest <= round.hull.latest)
            && (r.Success? <==> s'.status == Synced && s'.generation == NextGeneration(s.generation)
                                && s'.anchor.Some? && s'.anchor.value.generation == NextGeneration(s.generation)
                                && ValidateHull(round.hull, s.maxWidth).None?
                                && !(CarriedBound(s, round).Some? && Disjoint(round.hull, CarriedBound(s, round).value)))
    ensures WellFormed(ToDesync(s, reason)) && ToDesync(s, reason).watermark == s.watermark
    ensures WellFormed(ToHoldover(s, reason, maxAge)) && ToHoldover(s, reason, maxAge).watermark == s.watermark
  {
  }

  predicate Disjoint(a: Interval, b: Interval) {
    a.latest < b.earliest || b.latest < a.earliest
  }

  /** Failed rounds lower the deadline once: after any positive number of them with the same cap
      it is the earlier of the round's own deadline and the cap, and nothing else moves. */
  function Failures(s: State, reason: Reason, maxAge: UInt64, n: nat): State {
    if n == 0 then s else ToHoldover(Failures(s, reason, maxAge, n - 1), reason, maxAge)
  }

  lemma {:induction false} RepeatedFailuresNeverExtend(s: State, reason: Reason, maxAge: UInt64, n: nat)
    requires WellFormed(s) && Active(s.status)
    ensures var f := Failures(s, reason, maxAge, n);
            && Active(f.status) && f.anchor.Some? && f.lastRoundRaw == s.lastRoundRaw
            && f.anchor.value == s.anchor.value.(validUntil := f.anchor.value.validUntil)
            && f.anchor.value.validUntil ==
                 if n > 0 && maxAge > 0 && s.lastRoundRaw + maxAge <= UINT64_MAX
                    && s.lastRoundRaw + maxAge < s.anchor.value.validUntil
                 then s.lastRoundRaw + maxAge else s.anchor.value.validUntil
  {
    if n > 0 {
      RepeatedFailuresNeverExtend(s, reason, maxAge, n - 1);
    }
  }
}
