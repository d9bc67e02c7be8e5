/** The rules of anchors, written out on their fields and in exact arithmetic: when an anchor can be moved to
    a reading and where to, and what a round makes of the bound it finds. */
module AnchorRules {
  import opened MachineInt
  import opened Outcomes
  import opened FixedPoint
  import opened Assurance

  // ----- moving an anchor -----

  /** The advance at the slow end of the envelope: over the span less both read bounds, rounded down. */
  function SlowAdvance(a: Anchor, r: int, bound: int): int {
    var dr, slack := r - a.rawAnchor, a.readBound + bound;
    if dr > slack then a.scale.low * (dr - slack) / 0x1_0000_0000_0000 else 0
  }

  /** The advance at the fast end, before rounding: over the span and both read bounds. */
  function FastProduct(a: Anchor, r: int, bound: int): int {
    a.scale.upp * (r - a.rawAnchor + a.readBound + bound)
  }

  function RoundedUp(p: int): int {
    -((-p) / 0x1_0000_0000_0000)
  }

  function LowEnd(a: Anchor, r: int, bound: int): int {
    a.lower + SlowAdvance(a, r, bound)
  }

  function HighEnd(a: Anchor, r: int, bound: int): int {
    a.upper + RoundedUp(FastProduct(a, r, bound))
  }

  /** Every product and every partial sum is a 64-bit word. */
  predicate SumsFit(a: Anchor, r: int, bound: int, lowerDebt: int, upperDebt: int) {
    && FitsInt64(SlowAdvance(a, r, bound)) && FitsInt64(FastProduct(a, r, bound) / 0x1_0000_0000_0000)
    && FitsInt64(RoundedUp(FastProduct(a, r, bound)))
    && FitsInt64(LowEnd(a, r, bound)) && FitsInt64(LowEnd(a, r, bound) + lowerDebt)
    && FitsInt64(HighEnd(a, r, bound)) && FitsInt64(HighEnd(a, r, bound) + upperDebt)
  }

  /** What keeps the anchor from being moved to the reading, the first obstacle first. */
  function Obstacle(held: Option<Anchor>, r: UInt64, bound: UInt64, token: UInt64,
                    lowerDebt: Int64, upperDebt: Int64, maxWidth: Int64): Option<Fault>
  {
    if held.None? then Some(NoAnchor)
    else
      var a := held.value;
      if r < a.rawAnchor then Some(RawEarlierThanAnchor)
      else if r > a.validUntil then Some(AnchorExpired)
      else if token != a.token then Some(TokenMismatch)
      else if !(0 < a.scale.low <= a.scale.upp) then Some(InvalidRange)
      else if r - a.rawAnchor + a.readBound + bound > INT64_MAX then Some(Overflow)
      else if !SumsFit(a, r, bound, lowerDebt, upperDebt) then Some(Overflow)
      else
        var width := HighEnd(a, r, bound) + upperDebt - (LowEnd(a, r, bound) + lowerDebt);
        if width < 0 then Some(InvalidRange)
        else if width > INT64_MAX then Some(Overflow)
        else if maxWidth > 0 && width >= maxWidth then Some(BoundTooWide)
        else None
  }

  lemma TwoTermSum(base: Int64, x: Int64, y: Int64)
    ensures CheckedSum(base, [x, y]) ==
              if FitsInt64(base + x) && FitsInt64(base + x + y) then Success(base + x + y) else Failure(Overflow)
  {
    assert [x, y][1..] == [y] && [y][1..] == [];
    var first: int := base + x;
    if FitsInt64(first) {
      assert !WillTermOverflow(base, x);
      assert CheckedSum(base, [x, y]) == CheckedSum(first, [y]);
    }
  }

  /** The two advances as the code takes them. */
  lemma SlowIsTaken(a: Anchor, r: UInt64, bound: UInt64)
    requires a.rawAnchor <= r && r - a.rawAnchor + a.readBound + bound <= INT64_MAX
    ensures MulFloor(a.scale.low, ToSigned(DeltaLow(r - a.rawAnchor, a.readBound + bound)))
            == if FitsInt64(SlowAdvance(a, r, bound)) then Success(SlowAdvance(a, r, bound)) else Failure(Overflow)
  {
    ToSignedFits(DeltaLow(r - a.rawAnchor, a.readBound + bound));
  }

  lemma FastIsTaken(a: Anchor, r: UInt64, bound: UInt64)
    requires a.rawAnchor <= r && r - a.rawAnchor + a.readBound + bound <= INT64_MAX
    ensures var p := FastProduct(a, r, bound);
            MulCeil(a.scale.upp, ToSigned(r - a.rawAnchor + (a.readBound + bound))) ==
              if FitsInt64(p / 0x1_0000_0000_0000) && FitsInt64(RoundedUp(p)) then Success(RoundedUp(p)) else Failure(Overflow)
  {
    var d := r - a.rawAnchor + (a.readBound + bound);
    ToSignedFits(d);
    assert FastProduct(a, r, bound) == a.scale.upp * d;
  }

  /** Propagation succeeds exactly without an obstacle, and then gives the two ends; otherwise it reports the
      first obstacle. */
  lemma PropagationExactly(held: Option<Anchor>, r: UInt64, bound: UInt64, token: UInt64,
                           lowerDebt: Int64, upperDebt: Int64, maxWidth: Int64)
    ensures match Obstacle(held, r, bound, token, lowerDebt, upperDebt, maxWidth)
            case Some(f) => PropagateAnchor(held, r, bound, token, lowerDebt, upperDebt, maxWidth) == Failure(f)
            case None =>
              && held.Some?
              && var lo, hi := LowEnd(held.value, r, bound) + lowerDebt, HighEnd(held.value, r, bound) + upperDebt;
                 FitsInt64(lo) && FitsInt64(hi)
                 && PropagateAnchor(held, r, bound, token, lowerDebt, upperDebt, maxWidth) == Success(Interval(lo, hi))
  {
    if held.Some? && held.value.rawAnchor <= r && r - held.value.rawAnchor + held.value.readBound + bound <= INT64_MAX {
      var a := held.value;
      SlowIsTaken(a, r, bound);
      FastIsTaken(a, r, bound);
      if FitsInt64(SlowAdvance(a, r, bound)) {
        TwoTermSum(a.lower, SlowAdvance(a, r, bound), lowerDebt);
      }
      if FitsInt64(RoundedUp(FastProduct(a, r, bound))) {
        TwoTermSum(a.upper, RoundedUp(FastProduct(a, r, bound)), upperDebt);
      }
    }
  }

  // ----- rounds -----

  predicate Within(i: Interval, t: int) {
    i.earliest <= t <= i.latest
  }

  /** The hull is ordered and narrower than the limit. */
  predicate IsNarrow(hull: Interval, maxWidth: int) {
    hull.earliest <= hull.latest && hull.latest - hull.earliest < maxWidth
  }

  /** The state holds a bound taken under the round's history, configuration, token and envelope. */
  predicate HoldsComparable(s: State, round: Round) {
    && (s.status == Synced || s.status == Holdover)
    && s.anchor.Some?
    && s.anchor.value.leapId == round.leapId && s.anchor.value.configId == round.configId
    && s.anchor.value.token == round.reading.token && s.anchor.value.scale == round.scale
  }

  /** That bound at the round's reading, if it can be moved there. */
  function OldBound(s: State, round: Round): Result<Interval> {
    PropagateAnchor(s.anchor, round.reading.raw, round.reading.bound, round.reading.token,
                    s.lowerDebt, s.upperDebt, s.maxWidth)
  }

  /** The round leaves the anchor it describes, with these bounds, and a watermark no lower than before. */
  ghost predicate IsAdopted(s: State, round: Round, i: Interval, s': State) {
    var g := (s.generation + 1) % TWO_64;
    && s'.status == Synced && s'.reason == NoReason && s'.lowerDebt == 0 == s'.upperDebt
    && s'.lastRoundRaw == round.reading.raw && s'.generation == g
    && s'.epochId == s.epochId && s'.maxWidth == s.maxWidth
    && s.watermark <= s'.watermark && i.earliest <= s'.watermark && s'.watermark in {s.watermark, i.earliest}
    && s'.anchor == Some(Anchor(round.reading.raw, i.earliest, i.latest, round.scale, round.reading.bound,
                                round.faultBudget, round.eligible, round.threshold, round.components,
                                round.leapId, round.configId, g, round.reading.raw, round.validUntil,
                                round.reading.token))
  }

  /** Where the old bound is comparable and still usable, a round adopts exactly the instants that both
      allow; if there is none it conflicts, and the clock is desynchronized. */
  lemma IntersectionIsTaken(s: State, round: Round, held: Interval)
    requires HoldsComparable(s, round) && OldBound(s, round) == Success(held) && IsNarrow(round.hull, s.maxWidth)
    ensures var (s', r) := ProcessRound(s, round);
            && (r.Success? <==> exists t: int :: Within(round.hull, t) && Within(held, t))
            && (r.Success? ==> IsAdopted(s, round, r.value, s')
                               && forall t: int :: Within(r.value, t) <==> Within(round.hull, t) && Within(held, t))
            && (r.Failure? ==> r.error == AssuranceConflict
                               && s' == s.(status := Desync, reason := Conflict, anchor := None,
                                           generation := (s.generation + 1) % TWO_64))
  {
    var common := Overlap(round.hull, held);
    if common.earliest <= common.latest {
      assert Within(round.hull, common.earliest) && Within(held, common.earliest);
    }
  }

  /** In every other case a narrow hull is adopted as it is. */
  lemma HullIsAdopted(s: State, round: Round)
    requires !(HoldsComparable(s, round) && OldBound(s, round).Success?) && IsNarrow(round.hull, s.maxWidth)
    ensures var (s', r) := ProcessRound(s, round);
            r == Success(round.hull) && IsAdopted(s, round, round.hull, s')
  {
  }

  /** Any other hull is refused, and nothing changes. */
  lemma WideHullIsRefused(s: State, round: Round)
    requires !IsNarrow(round.hull, s.maxWidth)
    ensures ProcessRound(s, round) ==
              (s, Failure(if round.hull.earliest > round.hull.latest || s.maxWidth <= 0 then InvalidRange else BoundTooWide))
  {
    if round.hull.earliest <= round.hull.latest {
      UnsignedSpan(round.hull);
    }
  }
}
