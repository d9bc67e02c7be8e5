/** The estimate clock: an affine mapping from the raw clock to the continuous time axis, with a
    phase debt that is paid off by slewing. */
module Estimate {
  import opened MachineInt
  import opened Outcomes
  import opened FixedPoint

  datatype ChangeKind = RateReanchor | SlewReplan | PhaseStep | RawDiscontinuity | PublicOnly

  datatype Mapping = Mapping(
    rawAnchor: UInt64,
    timeAnchor: Int64,
    baseRate: Int64,
    phaseDebt: Int64,
    slewRate: Int64,
    slewStart: UInt64,
    generation: UInt64,
    change: ChangeKind)

  const MAX_SLEW: Int64 := ONE_Q48 / 12

  /** The phase correction applied up to raw instant `r`: between zero and the whole debt. */
  function SlewApplied(m: Mapping, r: UInt64): (slew: Int64)
    ensures if m.phaseDebt >= 0 then 0 <= slew <= m.phaseDebt else m.phaseDebt <= slew <= 0
    ensures r <= m.slewStart ==> slew == 0
  {
    if m.phaseDebt == 0 || r <= m.slewStart then 0
    else
      var product := MulFloor(m.slewRate, ToSigned(r - m.slewStart));
      var wanted := if product.Success? then product.value else m.phaseDebt;
      if m.phaseDebt > 0 then
        if wanted < 0 then 0 else if wanted > m.phaseDebt then m.phaseDebt else wanted
      else
        if wanted > 0 then 0 else if wanted < m.phaseDebt then m.phaseDebt else wanted
  }

  /** The advance of the base rate; readings before the anchor take a branch of their own. */
  function BaseAdvance(m: Mapping, r: UInt64): Result<Int64> {
    var dr := ToSigned(ToSigned(r) - ToSigned(m.rawAnchor));
    if dr >= 0 then MulFloor(ToSigned(ONE_Q48 + m.baseRate), dr)
    else
      var advance :- MulFloor(m.baseRate, dr);
      Success(ToSigned(advance + dr))
  }

  /** Two wrapping additions. */
  function MovedWord(x: Int64, a: int, b: int): Int64 {
    ToSigned(ToSigned(x + a) + b)
  }

  function Evaluate(m: Mapping, r: UInt64): Result<Int64> {
    var advance :- BaseAdvance(m, r);
    Success(MovedWord(m.timeAnchor, advance, SlewApplied(m, r)))
  }

  // ----- both branches are one formula -----

  /** floor((1 + rate) * dr), exactly. */
  function ExactAdvance(m: Mapping, dr: int): int {
    (ONE_Q48 + m.baseRate) * dr / ONE_Q48
  }

  lemma BranchesAgree(m: Mapping, dr: int)
    ensures ExactAdvance(m, dr) == m.baseRate * dr / ONE_Q48 + dr
  {
    var q, rem := m.baseRate * dr / ONE_Q48, m.baseRate * dr % ONE_Q48;
    assert (ONE_Q48 + m.baseRate) * dr == ONE_Q48 * (q + dr) + rem;
    DivisionIsUnique((ONE_Q48 + m.baseRate) * dr, ONE_Q48, q + dr, rem);
  }

  /** The raw span fits a signed word, and so do the rate and the results: no wrap-around. */
  predicate InRange(m: Mapping, r: UInt64) {
    && FitsInt64(r - m.rawAnchor) && FitsInt64(r - m.slewStart)
    && FitsInt64(ONE_Q48 + m.baseRate)
    && FitsInt64(m.baseRate * (r - m.rawAnchor) / ONE_Q48)
    && FitsInt64(ExactAdvance(m, r - m.rawAnchor))
    && FitsInt64(m.timeAnchor + ExactAdvance(m, r - m.rawAnchor))
    && FitsInt64(m.timeAnchor + ExactAdvance(m, r - m.rawAnchor) + SlewApplied(m, r))
  }

  lemma SpanOfWords(r: UInt64, start: UInt64)
    requires FitsInt64(r - start)
    ensures ToSigned(ToSigned(r) - ToSigned(start)) == r - start
  {
  }

  lemma ForwardAdvance(m: Mapping, dr: Int64)
    requires FitsInt64(ONE_Q48 + m.baseRate) && FitsInt64(ExactAdvance(m, dr))
    ensures MulFloor(ToSigned(ONE_Q48 + m.baseRate), dr) == Success(ExactAdvance(m, dr))
  {
    ToSignedFits(ONE_Q48 + m.baseRate);
  }

  lemma BackwardAdvance(m: Mapping, dr: Int64)
    requires FitsInt64(m.baseRate * dr / ONE_Q48) && FitsInt64(ExactAdvance(m, dr))
    ensures MulFloor(m.baseRate, dr).Success? && ToSigned(MulFloor(m.baseRate, dr).value + dr) == ExactAdvance(m, dr)
  {
    BranchesAgree(m, dr);
    ToSignedFits(ExactAdvance(m, dr));
  }

  lemma BaseAdvanceIsExact(m: Mapping, r: UInt64)
    requires InRange(m, r)
    ensures BaseAdvance(m, r) == Success(ExactAdvance(m, r - m.rawAnchor))
  {
    SpanOfWords(r, m.rawAnchor);
    ForwardAdvance(m, r - m.rawAnchor);
    BackwardAdvance(m, r - m.rawAnchor);
  }

  /** Within range, both branches give the anchor plus the exact advance plus the slew. */
  lemma EvaluateIsExact(m: Mapping, r: UInt64)
    requires InRange(m, r)
    ensures Evaluate(m, r) == Success(m.timeAnchor + ExactAdvance(m, r - m.rawAnchor) + SlewApplied(m, r))
  {
    BaseAdvanceIsExact(m, r);
    var advance := ExactAdvance(m, r - m.rawAnchor);
    ToSignedFits(m.timeAnchor + advance);
    ToSignedFits(m.timeAnchor + advance + SlewApplied(m, r));
  }

  // ----- order within one mapping -----

  lemma ScaledOrder(k: int, x: int, y: int)
    requires x <= y
    ensures k >= 0 ==> k * x <= k * y
    ensures k <= 0 ==> k * x >= k * y
  {
    if k >= 0 {
      assert k * (y - x) >= 0;
    } else {
      assert (-k) * (y - x) >= 0;
    }
  }

  function SlewTarget(m: Mapping, d: int): int {
    if d <= 0 then 0 else m.slewRate * d / ONE_Q48
  }

  /** What the slew amounts to while the rate is within the planner's clamp. */
  lemma SlewIsClampedTarget(m: Mapping, r: UInt64)
    requires FitsInt64(r - m.slewStart) && -MAX_SLEW <= m.slewRate <= MAX_SLEW
    ensures var t := SlewTarget(m, r - m.slewStart);
            SlewApplied(m, r) ==
              if m.phaseDebt >= 0 then (if t < 0 then 0 else if t > m.phaseDebt then m.phaseDebt else t)
              else (if t > 0 then 0 else if t < m.phaseDebt then m.phaseDebt else t)
  {
    if r > m.slewStart {
      ToSignedFits(r - m.slewStart);
      SlowProductFits(m.slewRate, r - m.slewStart);
    }
  }

  /** A target that does not fit counts as reached. */
  lemma SlewBeyondRange(m: Mapping, r: UInt64)
    requires m.slewStart < r && FitsInt64(r - m.slewStart)
    requires !FitsInt64(m.slewRate * (r - m.slewStart) / 0x1_0000_0000_0000)
    ensures SlewApplied(m, r) == m.phaseDebt
  {
    ToSignedFits(r - m.slewStart);
  }

  lemma SlowProductFits(s: int, d: int)
    requires -MAX_SLEW <= s <= MAX_SLEW && 0 <= d <= INT64_MAX
    ensures FitsInt64(s * d / ONE_Q48)
  {
    ScaledOrder(d, s, MAX_SLEW);
    ScaledOrder(d, -MAX_SLEW, s);
    ScaledOrder(d, MAX_SLEW, ONE_Q48);
    ScaledOrder(d, -ONE_Q48, -MAX_SLEW);
    QuotientIsBetween(s * d, d);
  }

  lemma QuotientIsBetween(p: int, d: int)
    requires -(ONE_Q48 * d) <= p <= ONE_Q48 * d
    ensures -d <= p / ONE_Q48 <= d
  {
  }

  /** A mapping whose slew pays its debt off, as the planner sets it up. */
  predicate Planned(debt: Int64, slew: Int64) {
    && -MAX_SLEW <= slew <= MAX_SLEW
    && (debt >= 0 ==> slew >= 0)
    && (debt <= 0 ==> slew <= 0)
  }

  // ----- planning a slew -----

  /** The rate that pays the debt within ten seconds, in Q16.48. */
  function ExactRate(debt: Int64): real {
    debt as real * ONE_Q48 as real / 10_000_000_000.0
  }

  /** `rate` is `exact` after floating-point rounding: twice by at most a 2^53rd part. */
  predicate IsRounded(exact: real, rate: real) {
    var slack := (if exact < 0.0 then -exact else exact) / 0x8_0000_0000_0000 as real;
    exact - slack <= rate <= exact + slack
  }

  predicate FitsWord(rate: real) {
    INT64_MIN as real <= rate <= INT64_MAX as real
  }

  function Truncated(rate: real): int {
    if rate < 0.0 then 0 - (-rate).Floor else rate.Floor
  }

  /** A rounded rate as a word: truncated if it fits, and otherwise any word. */
  ghost predicate IsDesired(debt: Int64, desired: Int64) {
    exists rate: real :: IsRounded(ExactRate(debt), rate) && (FitsWord(rate) ==> desired == Truncated(rate))
  }

  /** The slew for a debt, from the desired rate. */
  function PlanSlewRate(debt: Int64, desired: Int64): Int64 {
    if debt == 0 then 0
    else if desired > MAX_SLEW then MAX_SLEW
    else if desired < -MAX_SLEW then -MAX_SLEW
    else desired
  }

  /** Debts whose rate fits a word: below 3.2768e14 ns. */
  const PLANNED_DEBT: Int64 := 327_679_999_999_999

  /** What is planned for a debt in that range pays it, within the limit. */
  lemma PlanPays(debt: Int64, desired: Int64)
    requires -PLANNED_DEBT <= debt <= PLANNED_DEBT && IsDesired(debt, desired)
    ensures Planned(debt, PlanSlewRate(debt, desired))
  {
    var rate: real :| IsRounded(ExactRate(debt), rate) && (FitsWord(rate) ==> desired == Truncated(rate));
    RateFits(debt, rate);
  }

  /** The planned slew is the rate that pays the debt in ten seconds, to within the rounding and a unit, or
      a twelfth of real time if that is slower. */
  lemma PlanIsTheRate(debt: Int64, desired: Int64)
    requires -PLANNED_DEBT <= debt <= PLANNED_DEBT && IsDesired(debt, desired)
    ensures var slew, exact, limit := PlanSlewRate(debt, desired) as real, ExactRate(debt), 23_456_248_059_221.0;
            var slack := 1.0 + (if exact < 0.0 then -exact else exact) / 0x8_0000_0000_0000 as real;
            && -limit <= slew <= limit
            && (-limit <= exact <= limit ==> exact - slack <= slew <= exact + slack)
            && (exact > limit + slack ==> slew == limit) && (exact < -limit - slack ==> slew == -limit)
  {
    var rate: real :| IsRounded(ExactRate(debt), rate) && (FitsWord(rate) ==> desired == Truncated(rate));
    RateFits(debt, rate);
    assert MAX_SLEW == 23_456_248_059_221;
    assert rate - 1.0 <= desired as real <= rate + 1.0;
  }

  lemma PlanPaysInRange(debt: Int64, desired: Int64)
    ensures -PLANNED_DEBT <= debt <= PLANNED_DEBT && IsDesired(debt, desired) ==> Planned(debt, PlanSlewRate(debt, desired))
  {
    if -PLANNED_DEBT <= debt <= PLANNED_DEBT && IsDesired(debt, desired) {
      PlanPays(debt, desired);
    }
  }

  lemma RateFits(debt: Int64, rate: real)
    requires -PLANNED_DEBT <= debt <= PLANNED_DEBT && IsRounded(ExactRate(debt), rate)
    ensures FitsWord(rate) && (debt >= 0 ==> rate >= 0.0) && (debt <= 0 ==> rate <= 0.0)
  {
    var d, k := debt as real, ONE_Q48 as real / 10_000_000_000.0;
    assert -327_679_999_999_999.0 <= d <= 327_679_999_999_999.0;
    assert ExactRate(debt) == k * d;
    assert -9_223_372_036_854_750_000.0 <= k * d <= 9_223_372_036_854_750_000.0;
  }

  lemma FloorsDrop(x1: int, y1: int, x2: int, y2: int)
    requires x1 + y1 <= x2 + y2
    ensures x2 / ONE_Q48 + y2 / ONE_Q48 >= x1 / ONE_Q48 + y1 / ONE_Q48 - 1
  {
  }

  /** Later readings of one mapping fall by at most one nanosecond, and by nothing at all when
      the base rate is not negative. */
  lemma ReadingsRise(m: Mapping, r1: UInt64, r2: UInt64)
    requires InRange(m, r1) && InRange(m, r2) && r1 <= r2 && Planned(m.phaseDebt, m.slewRate)
    requires ONE_Q48 + m.baseRate >= 0 && ONE_Q48 + m.baseRate + m.slewRate >= 0
    ensures Evaluate(m, r1).Success? && Evaluate(m, r2).Success?
    ensures Evaluate(m, r2).value >= Evaluate(m, r1).value - 1
    ensures m.baseRate >= 0 ==> Evaluate(m, r2).value >= Evaluate(m, r1).value
  {
    EvaluateIsExact(m, r1);
    EvaluateIsExact(m, r2);
    SlewIsClampedTarget(m, r1);
    SlewIsClampedTarget(m, r2);
    TargetAndAdvance(m, r1 - m.rawAnchor, r2 - m.rawAnchor, r1 - m.slewStart, r2 - m.slewStart);
  }

  lemma TargetAndAdvance(m: Mapping, dr1: int, dr2: int, d1: int, d2: int)
    requires dr1 <= dr2 && d2 - d1 == dr2 - dr1
    requires Planned(m.phaseDebt, m.slewRate)
    requires ONE_Q48 + m.baseRate >= 0 && ONE_Q48 + m.baseRate + m.slewRate >= 0
    ensures ExactAdvance(m, dr1) <= ExactAdvance(m, dr2)
    ensures m.slewRate >= 0 ==> 0 <= SlewTarget(m, d1) <= SlewTarget(m, d2)
    ensures m.slewRate <= 0 ==>
              && SlewTarget(m, d2) <= SlewTarget(m, d1) <= 0
              && ExactAdvance(m, dr2) - ExactAdvance(m, dr1) >= SlewTarget(m, d1) - SlewTarget(m, d2) - 1
    ensures m.slewRate <= 0 && m.baseRate >= 0 ==>
              ExactAdvance(m, dr2) - ExactAdvance(m, dr1) >= SlewTarget(m, d1) - SlewTarget(m, d2)
  {
    var b, s := ONE_Q48 + m.baseRate, m.slewRate;
    var c1, c2 := if d1 < 0 then 0 else d1, if d2 < 0 then 0 else d2;
    assert SlewTarget(m, d1) == s * c1 / ONE_Q48 && SlewTarget(m, d2) == s * c2 / ONE_Q48;
    ScaledOrder(b, dr1, dr2);
    ScaledOrder(s, c1, c2);
    ScaledOrder(s, 0, c1);
    if s <= 0 {
      AdvanceOutrunsSlew(b, s, dr1, dr2, c1, c2);
      FloorsDrop(b * dr1, s * c1, b * dr2, s * c2);
      if m.baseRate >= 0 {
        BranchesAgree(m, dr1);
        BranchesAgree(m, dr2);
        ScaledOrder(m.baseRate, dr1, dr2);
        SlowTarget(s, c1, c2);
      }
    }
  }

  lemma AdvanceOutrunsSlew(b: int, s: int, dr1: int, dr2: int, c1: int, c2: int)
    requires s <= 0 <= b + s && dr1 <= dr2 && 0 <= c2 - c1 <= dr2 - dr1
    ensures b * dr1 + s * c1 <= b * dr2 + s * c2
  {
    var step := dr2 - dr1;
    ScaledOrder(s, c2 - c1, step);
    ScaledOrder(step, 0, b + s);
    assert step * (b + s) == b * step + s * step;
    assert b * dr2 - b * dr1 == b * step;
    assert s * c2 - s * c1 == s * (c2 - c1);
  }

  /** A slew no faster than real time never takes back more than the elapsed span. */
  lemma SlowTarget(s: int, c1: int, c2: int)
    requires -ONE_Q48 <= s <= 0 && c1 <= c2
    ensures s * c1 / ONE_Q48 - s * c2 / ONE_Q48 <= c2 - c1
  {
    ScaledOrder(c2 - c1, -ONE_Q48, s);
    assert s * c2 - s * c1 == s * (c2 - c1);
    assert s * c2 >= s * c1 - ONE_Q48 * (c2 - c1);
    DivisionIsUnique(s * c1 - ONE_Q48 * (c2 - c1), ONE_Q48, s * c1 / ONE_Q48 - (c2 - c1), s * c1 % ONE_Q48);
  }

  /** The raw instant from which on a positive debt is paid. */
  function PaidAt(m: Mapping): int {
    if m.slewRate <= 0 then m.slewStart else m.slewStart + (m.phaseDebt * ONE_Q48 + m.slewRate - 1) / m.slewRate
  }

  lemma QuotientReaches(p: int, s: int, d: int)
    requires s > 0
    ensures (p + s - 1) / s <= d <==> p <= s * d
  {
    var q, rem := (p + s - 1) / s, (p + s - 1) % s;
    assert p + s - 1 == s * q + rem;
    if q <= d {
      ScaledOrder(s, q, d);
    } else {
      ScaledOrder(s, d + 1, q);
      assert s * (d + 1) == s * d + s;
    }
  }

  lemma TargetReaches(p: int, debt: int)
    ensures p / ONE_Q48 >= debt <==> p >= debt * ONE_Q48
  {
  }

  /** The slew is the whole debt exactly from then on. */
  lemma DebtIsPaid(m: Mapping, r: UInt64)
    requires Planned(m.phaseDebt, m.slewRate) && m.slewRate > 0 && m.phaseDebt > 0
    requires FitsInt64(r - m.slewStart)
    ensures SlewApplied(m, r) == m.phaseDebt <==> r >= PaidAt(m)
  {
    var d := r - m.slewStart;
    SlewIsClampedTarget(m, r);
    QuotientReaches(m.phaseDebt * ONE_Q48, m.slewRate, d);
    TargetReaches(m.slewRate * d, m.phaseDebt);
    if d <= 0 {
      ScaledOrder(m.slewRate, d, 0);
    }
  }

  /** Between two readings in range, both before the slew starts or both after the debt is paid, the base
      rate loses two nanoseconds. */
  ghost predicate LosesTwo(m: Mapping, p: UInt64, q: UInt64) {
    && p <= q && InRange(m, p) && InRange(m, q)
    && (q <= m.slewStart || PaidAt(m) <= p)
    && (ONE_Q48 + m.baseRate) * (q - p) <= -2 * ONE_Q48
  }

  /** While the slew does not move, a base rate below minus one makes readings fall. */
  lemma NegativeRateFalls(m: Mapping, p: UInt64, q: UInt64)
    requires Planned(m.phaseDebt, m.slewRate) && ONE_Q48 + m.baseRate < 0 <= ONE_Q48 + m.baseRate + m.slewRate
    requires LosesTwo(m, p, q)
    ensures Evaluate(m, p).Success? && Evaluate(m, q).Success?
    ensures Evaluate(m, q).value <= Evaluate(m, p).value - 2
  {
    var b := ONE_Q48 + m.baseRate;
    EvaluateIsExact(m, p);
    EvaluateIsExact(m, q);
    DebtIsPaid(m, p);
    DebtIsPaid(m, q);
    assert b * (q - m.rawAnchor) - b * (p - m.rawAnchor) == b * (q - p);
    FloorDropsTwo(b * (p - m.rawAnchor), b * (q - m.rawAnchor));
  }

  lemma FloorDropsTwo(x: int, y: int)
    requires y <= x - 2 * ONE_Q48
    ensures y / ONE_Q48 <= x / ONE_Q48 - 2
  {
  }

  /** Such mappings exist for every positive debt that a slew pays within half the raw range. */
  lemma FallingMapping(debt: Int64, slew: Int64) returns (m: Mapping, p: UInt64, q: UInt64)
    requires debt > 0 && 0 < slew <= MAX_SLEW && (debt * ONE_Q48 + slew - 1) / slew <= 0x3000_0000_0000_0000
    requires debt <= 0x4000_0000_0000_0000
    ensures m.phaseDebt == debt && m.slewRate == slew
    ensures ONE_Q48 + m.baseRate < 0 <= ONE_Q48 + m.baseRate + m.slewRate && Planned(m.phaseDebt, m.slewRate)
    ensures p == PaidAt(m) && LosesTwo(m, p, q) && !FallsLittle(m, p, q)
  {
    m := Mapping(0, 0, -ONE_Q48 - 1, debt, slew, 0, 1, RateReanchor);
    assert debt * ONE_Q48 + slew - 1 >= 0;
    p := (debt * ONE_Q48 + slew - 1) / slew;
    q := p + 2 * ONE_Q48;
    SlowlyFalling(m, p);
    SlowlyFalling(m, q);
    NegativeRateFalls(m, p, q);
  }

  lemma SlowlyFalling(m: Mapping, r: UInt64)
    requires m.rawAnchor == 0 && m.slewStart == 0 && m.timeAnchor == 0 && m.baseRate == -ONE_Q48 - 1
    requires 0 <= m.phaseDebt <= 0x4000_0000_0000_0000 && r <= 0x3002_0000_0000_0000
    ensures InRange(m, r)
  {
    assert ExactAdvance(m, r) == (0 - r) / ONE_Q48;
    BranchesAgree(m, r);
  }

  /** In particular for a debt of one nanosecond with the slew the clock plans for it. */
  lemma FallingExample(desired: Int64) returns (m: Mapping, p: UInt64, q: UInt64)
    requires IsDesired(1, desired)
    ensures m.phaseDebt == 1 && m.slewRate == PlanSlewRate(1, desired) == 28147
    ensures ONE_Q48 + m.baseRate + m.slewRate >= 0
    ensures p == PaidAt(m) && LosesTwo(m, p, q) && !FallsLittle(m, p, q)
  {
    var rate: real :| IsRounded(ExactRate(1), rate) && (FitsWord(rate) ==> desired == Truncated(rate));
    assert 28147.0 <= rate < 28148.0;
    m, p, q := FallingMapping(1, 28147);
  }

  /** A mapping need not outlast its debt to fall: this one falls by four before its slew starts. */
  lemma FallingEarly() returns (m: Mapping, p: UInt64, q: UInt64)
    ensures Planned(m.phaseDebt, m.slewRate) && ONE_Q48 + m.baseRate + m.slewRate >= 0
    ensures q == m.slewStart && PaidAt(m) > UINT64_MAX && LosesTwo(m, p, q) && !FallsLittle(m, p, q)
  {
    q := 4 * ONE_Q48;
    m := Mapping(q, 0, -ONE_Q48 - 1, 0x4000_0000_0000_0000, 1, q, 1, RateReanchor);
    p := 0;
    assert m.baseRate * (p - m.rawAnchor) / ONE_Q48 == q + 4;
    assert m.baseRate * (q - m.rawAnchor) == 0;
    BranchesAgree(m, p - m.rawAnchor);
    BranchesAgree(m, q - m.rawAnchor);
    NegativeRateFalls(m, p, q);
  }

  /** Both readings succeed, and the later one is at most a nanosecond below the earlier. */
  predicate FallsLittle(m: Mapping, r1: UInt64, r2: UInt64) {
    && Evaluate(m, r1).Success? && Evaluate(m, r2).Success?
    && Evaluate(m, r2).value >= Evaluate(m, r1).value - 1
  }

  /** No two readings in range fall by more than a nanosecond. */
  ghost predicate NeverFallsFar(m: Mapping) {
    forall r1: UInt64, r2: UInt64 :: r1 <= r2 && InRange(m, r1) && InRange(m, r2) ==> FallsLittle(m, r1, r2)
  }

  /** Given that the sum of the rates is not negative, readings never fall far if and only if the base
      rate alone is not below minus one; a rate below that needs two readings in range to show. */
  lemma FallBoundIsExact(m: Mapping, p: UInt64, q: UInt64)
    requires Planned(m.phaseDebt, m.slewRate) && ONE_Q48 + m.baseRate + m.slewRate >= 0
    requires ONE_Q48 + m.baseRate < 0 ==> LosesTwo(m, p, q)
    ensures NeverFallsFar(m) <==> ONE_Q48 + m.baseRate >= 0
  {
    if ONE_Q48 + m.baseRate >= 0 {
      forall r1: UInt64, r2: UInt64 | r1 <= r2 && InRange(m, r1) && InRange(m, r2)
        ensures FallsLittle(m, r1, r2)
      {
        ReadingsRise(m, r1, r2);
      }
    } else {
      NegativeRateFalls(m, p, q);
      assert !FallsLittle(m, p, q);
    }
  }

  // ----- the clock -----

  function Initialized(m: Mapping, raw0: UInt64, target: Int64, baseRate: Int64): Mapping {
    Mapping(raw0, target, baseRate, 0, 0, raw0, (m.generation + 1) % TWO_64, RateReanchor)
  }

  function NewDebt(m: Mapping, cRaw: UInt64, added: Int64): Int64 {
    MovedWord(m.phaseDebt, 0 - SlewApplied(m, cRaw), added)
  }

  /** `slew` is what the planner answered for the new debt. */
  function Reanchored(m: Mapping, cRaw: UInt64, newRate: Int64, added: Int64, slew: Int64, kind: ChangeKind): Result<Mapping> {
    var value :- Evaluate(m, cRaw);
    Success(Mapping(cRaw, value, newRate, NewDebt(m, cRaw, added), slew, cRaw, (m.generation + 1) % TWO_64, kind))
  }

  function Stepped(m: Mapping, cRaw: UInt64, step: Int64): Result<Mapping> {
    var value :- Evaluate(m, cRaw);
    Success(Mapping(cRaw, ToSigned(value + step), m.baseRate, 0, 0, cRaw, (m.generation + 1) % TWO_64, PhaseStep))
  }

  /** At its own anchor a mapping reads its time anchor. */
  lemma AnchorReading(m: Mapping)
    requires m.slewStart == m.rawAnchor
    ensures Evaluate(m, m.rawAnchor) == Success(m.timeAnchor)
  {
    assert forall k: Int64 :: k * 0 == 0;
    ToSignedFits(m.timeAnchor);
  }

  lemma ReanchoredAs(m: Mapping, cRaw: UInt64, newRate: Int64, added: Int64, slew: Int64, kind: ChangeKind, value: Int64)
    requires Evaluate(m, cRaw) == Success(value)
    ensures var next := Mapping(cRaw, value, newRate, NewDebt(m, cRaw, added), slew, cRaw, (m.generation + 1) % TWO_64, kind);
            Reanchored(m, cRaw, newRate, added, slew, kind) == Success(next) && Evaluate(next, cRaw) == Success(value)
  {
    AnchorReading(Reanchored(m, cRaw, newRate, added, slew, kind).value);
  }

  /** Re-anchoring is continuous: the new mapping reads what the old one did. */
  lemma ReanchorIsContinuous(m: Mapping, cRaw: UInt64, newRate: Int64, added: Int64, slew: Int64, kind: ChangeKind)
    requires Reanchored(m, cRaw, newRate, added, slew, kind).Success?
    ensures Evaluate(Reanchored(m, cRaw, newRate, added, slew, kind).value, cRaw) == Evaluate(m, cRaw)
  {
    AnchorReading(Reanchored(m, cRaw, newRate, added, slew, kind).value);
  }

  // ----- what the clock reads afterwards -----

  /** A clock that starts at `time` and runs at a rate off by `rate` has a reading after `span` that can be
      computed without wrap-around. */
  predicate RunsTo(time: int, rate: int, span: int) {
    && FitsInt64(span) && FitsInt64(0x1_0000_0000_0000 + rate) && FitsInt64(rate * span / 0x1_0000_0000_0000)
    && FitsInt64((0x1_0000_0000_0000 + rate) * span / 0x1_0000_0000_0000)
    && FitsInt64(time + (0x1_0000_0000_0000 + rate) * span / 0x1_0000_0000_0000)
  }

  /** After an initialization readings start at the target and run at the given rate. */
  lemma InitializedReads(m: Mapping, raw0: UInt64, target: Int64, baseRate: Int64, r: UInt64)
    requires RunsTo(target, baseRate, r - raw0)
    ensures Evaluate(Initialized(m, raw0, target, baseRate), r)
            == Success(target + (0x1_0000_0000_0000 + baseRate) * (r - raw0) / 0x1_0000_0000_0000)
  {
    SlewedReading(Initialized(m, raw0, target, baseRate), r);
  }

  /** After a step they start a step away, and run at the rate they had. */
  lemma SteppedReads(m: Mapping, cRaw: UInt64, step: Int64, r: UInt64)
    requires Evaluate(m, cRaw).Success? && FitsInt64(Evaluate(m, cRaw).value + step)
    requires RunsTo(Evaluate(m, cRaw).value + step, m.baseRate, r - cRaw)
    ensures Stepped(m, cRaw, step).Success?
    ensures Evaluate(Stepped(m, cRaw, step).value, r) ==
              Success(Evaluate(m, cRaw).value + step + (0x1_0000_0000_0000 + m.baseRate) * (r - cRaw) / 0x1_0000_0000_0000)
  {
    var value := Evaluate(m, cRaw).value;
    var next := Mapping(cRaw, value + step, m.baseRate, 0, 0, cRaw, (m.generation + 1) % TWO_64, PhaseStep);
    SteppedAs(m, cRaw, step, value);
    SlewedReading(next, r);
  }

  lemma SteppedAs(m: Mapping, cRaw: UInt64, step: Int64, value: Int64)
    requires Evaluate(m, cRaw) == Success(value) && FitsInt64(value + step)
    ensures Stepped(m, cRaw, step) ==
              Success(Mapping(cRaw, value + step, m.baseRate, 0, 0, cRaw, (m.generation + 1) % TWO_64, PhaseStep))
  {
    ToSignedFits(value + step);
  }

  /** What a slew rate has paid of a debt after a span: nothing before it starts, never more than the debt. */
  function PaidAfter(debt: int, slew: int, span: int): int {
    var paid := if span <= 0 then 0 else slew * span / 0x1_0000_0000_0000;
    if debt >= 0 then (if paid < 0 then 0 else if paid > debt then debt else paid)
    else (if paid > 0 then 0 else if paid < debt then debt else paid)
  }

  /** After a re-anchoring they start where they were, run at the new rate, and are slewed by the planned
      rate until the debt, what was left of it and what was added, is paid. */
  lemma ReanchoredReads(m: Mapping, cRaw: UInt64, newRate: Int64, added: Int64, slew: Int64, kind: ChangeKind, r: UInt64,
                        debt: int)
    requires Evaluate(m, cRaw).Success? && -0x1555_5555_5555 <= slew <= 0x1555_5555_5555
    requires debt == m.phaseDebt - SlewApplied(m, cRaw) + added && FitsInt64(debt) && FitsInt64(m.phaseDebt - SlewApplied(m, cRaw))
    requires RunsTo(Evaluate(m, cRaw).value, newRate, r - cRaw)
    requires FitsInt64(Evaluate(m, cRaw).value + (0x1_0000_0000_0000 + newRate) * (r - cRaw) / 0x1_0000_0000_0000
                       + PaidAfter(debt, slew, r - cRaw))
    ensures Reanchored(m, cRaw, newRate, added, slew, kind).Success?
    ensures Evaluate(Reanchored(m, cRaw, newRate, added, slew, kind).value, r) ==
              Success(Evaluate(m, cRaw).value + (0x1_0000_0000_0000 + newRate) * (r - cRaw) / 0x1_0000_0000_0000
                      + PaidAfter(debt, slew, r - cRaw))
  {
    var value := Evaluate(m, cRaw).value;
    var next := Mapping(cRaw, value, newRate, debt, slew, cRaw, (m.generation + 1) % TWO_64, kind);
    DebtWithoutWrap(m, cRaw, added, debt);
    ReanchoredAs(m, cRaw, newRate, added, slew, kind, value);
    SlewedReading(next, r);
  }

  lemma DebtWithoutWrap(m: Mapping, cRaw: UInt64, added: Int64, debt: int)
    requires debt == m.phaseDebt - SlewApplied(m, cRaw) + added && FitsInt64(debt) && FitsInt64(m.phaseDebt - SlewApplied(m, cRaw))
    ensures NewDebt(m, cRaw, added) == debt
  {
    ToSignedFits(m.phaseDebt - SlewApplied(m, cRaw));
    ToSignedFits(debt);
  }

  lemma SlewedReading(m: Mapping, r: UInt64)
    requires m.slewStart == m.rawAnchor && -0x1555_5555_5555 <= m.slewRate <= 0x1555_5555_5555
    requires RunsTo(m.timeAnchor, m.baseRate, r - m.rawAnchor)
    requires FitsInt64(m.timeAnchor + (0x1_0000_0000_0000 + m.baseRate) * (r - m.rawAnchor) / 0x1_0000_0000_0000
                       + PaidAfter(m.phaseDebt, m.slewRate, r - m.rawAnchor))
    ensures Evaluate(m, r) == Success(m.timeAnchor + (0x1_0000_0000_0000 + m.baseRate) * (r - m.rawAnchor) / 0x1_0000_0000_0000
                                      + PaidAfter(m.phaseDebt, m.slewRate, r - m.rawAnchor))
  {
    SlewIsClampedTarget(m, r);
    EvaluateIsExact(m, r);
  }

  lemma SteppedTo(m: Mapping, cRaw: UInt64, step: Int64, before: Int64, value: Int64)
    requires Evaluate(m, cRaw) == Success(before) && value == ToSigned(before + step)
    ensures var next := Mapping(cRaw, value, m.baseRate, 0, 0, cRaw, (m.generation + 1) % TWO_64, PhaseStep);
            Stepped(m, cRaw, step) == Success(next) && Evaluate(next, cRaw) == Success(value)
  {
    AnchorReading(Mapping(cRaw, value, m.baseRate, 0, 0, cRaw, (m.generation + 1) % TWO_64, PhaseStep));
  }

  class EstimateClock {
    var mapping: Mapping

    constructor ()
      ensures mapping == Mapping(0, 0, 0, 0, 0, 0, 1, RateReanchor)
    {
      mapping := Mapping(0, 0, 0, 0, 0, 0, 1, RateReanchor);
    }

    method InitializeAnchors(raw0: UInt64, target: Int64, baseRate: Int64)
      modifies this
      ensures mapping == Initialized(old(mapping), raw0, target, baseRate)
      ensures Evaluate(mapping, raw0) == Success(target)
    {
      mapping := Mapping(raw0, target, baseRate, 0, 0, raw0, (mapping.generation + 1) % TWO_64, RateReanchor);
      AnchorReading(mapping);
    }

    /** `desired` stands for the floating-point rate of a debt, converted to a word. */
    method ReanchorContinuity(cRaw: UInt64, newRate: Int64, added: Int64, kind: ChangeKind, desired: Int64 -> Int64)
      returns (r: Result<Int64>)
      modifies this
      ensures r == Evaluate(old(mapping), cRaw)
      ensures r.Failure? ==> mapping == old(mapping)
      ensures r.Success? ==>
                && Reanchored(old(mapping), cRaw, newRate, added, mapping.slewRate, kind) == Success(mapping)
                && mapping.slewRate == PlanSlewRate(mapping.phaseDebt, desired(mapping.phaseDebt))
                && (-PLANNED_DEBT <= mapping.phaseDebt <= PLANNED_DEBT
                    && IsDesired(mapping.phaseDebt, desired(mapping.phaseDebt)) ==>
                      Planned(mapping.phaseDebt, mapping.slewRate))
                && Evaluate(mapping, cRaw) == r
    {
      var oldValue := Evaluate(mapping, cRaw);
      if oldValue.Failure? {
        return oldValue;
      }
      var newDebt := OutstandingDebt(cRaw, added);
      var newSlew := PlanSlewRate(newDebt, desired(newDebt));
      var next := Mapping(cRaw, oldValue.value, newRate, newDebt, newSlew, cRaw,
                          (mapping.generation + 1) % TWO_64, kind);
      ReanchoredAs(mapping, cRaw, newRate, added, newSlew, kind, oldValue.value);
      PlanPaysInRange(newDebt, desired(newDebt));
      mapping := next;
      r := oldValue;
    }

    method OutstandingDebt(cRaw: UInt64, added: Int64) returns (debt: Int64)
      ensures debt == NewDebt(mapping, cRaw, added)
    {
      var appliedSlew := SlewApplied(mapping, cRaw);
      var remaining := ToSigned(mapping.phaseDebt - appliedSlew);
      debt := ToSigned(remaining + added);
    }

    method Step(cRaw: UInt64, step: Int64) returns (r: Result<Int64>)
      modifies this
      ensures r.Success? <==> Evaluate(old(mapping), cRaw).Success?
      ensures r.Failure? ==> mapping == old(mapping)
      ensures r.Success? ==>
                && Stepped(old(mapping), cRaw, step) == Success(mapping)
                && r.value == ToSigned(Evaluate(old(mapping), cRaw).value + step)
                && Evaluate(mapping, cRaw) == r && mapping.phaseDebt == 0
    {
      var oldValue := Evaluate(mapping, cRaw);
      if oldValue.Failure? {
        return oldValue;
      }
      var value := ToSigned(oldValue.value + step);
      SteppedTo(mapping, cRaw, step, oldValue.value, value);
      mapping := Mapping(cRaw, value, mapping.baseRate, 0, 0, cRaw, (mapping.generation + 1) % TWO_64, PhaseStep);
      r := Success(value);
    }
  }

  // ----- conservation over runs of re-anchoring -----

  datatype Move = Move(at: UInt64, newRate: Int64, added: Int64, slew: Int64, kind: ChangeKind)

  /** The mapping after all moves, if every one succeeds. */
  function AfterMoves(m: Mapping, moves: seq<Move>): Result<Mapping> {
    if moves == [] then Success(m)
    else
      var before :- AfterMoves(m, moves[..|moves| - 1]);
      var v := moves[|moves| - 1];
      Reanchored(before, v.at, v.newRate, v.added, v.slew, v.kind)
  }

  /** The base-rate advances of all the mappings a run passes through. */
  function TotalAdvance(m: Mapping, moves: seq<Move>): int
    requires AfterMoves(m, moves).Success?
  {
    if moves == [] then 0
    else
      var before := AfterMoves(m, moves[..|moves| - 1]).value;
      TotalAdvance(m, moves[..|moves| - 1]) + BaseAdvance(before, moves[|moves| - 1].at).value
  }

  function TotalAdded(moves: seq<Move>): int {
    if moves == [] then 0 else TotalAdded(moves[..|moves| - 1]) + moves[|moves| - 1].added
  }

  /** The reading has moved by the advance and the debt paid: as 64-bit words, and exactly when that fits. */
  predicate PaysDebt(start: int, reading: Int64, advance: int, paid: int) {
    && Congruent(reading, start + advance + paid)
    && (FitsInt64(start + advance + paid) ==> reading == start + advance + paid)
  }

  /** Time plus outstanding debt is conserved: the reading at the end is the reading at the start
      plus the base advances plus whatever debt has been paid. The equation is one of 64-bit
      words; it is exact whenever the right-hand side fits. */
  lemma {:induction false} DebtIsConserved(m: Mapping, moves: seq<Move>)
    requires m.slewStart == m.rawAnchor && AfterMoves(m, moves).Success?
    ensures var end := AfterMoves(m, moves).value;
            && Evaluate(m, m.rawAnchor) == Success(m.timeAnchor)
            && Evaluate(end, end.rawAnchor) == Success(end.timeAnchor)
            && PaysDebt(m.timeAnchor, end.timeAnchor, TotalAdvance(m, moves),
                        m.phaseDebt + TotalAdded(moves) - end.phaseDebt)
  {
    AnchorReading(m);
    TimeAndDebt(m, moves);
    var end := AfterMoves(m, moves).value;
    AnchorReading(end);
    DebtArithmetic(m.timeAnchor, m.phaseDebt, end.timeAnchor, end.phaseDebt, TotalAdvance(m, moves), TotalAdded(moves));
  }

  lemma DebtArithmetic(start: int, startDebt: int, end: Int64, endDebt: int, advance: int, added: int)
    requires Congruent(end + endDebt, start + startDebt + (advance + added))
    ensures PaysDebt(start, end, advance, startDebt + added - endDebt)
  {
    var expected := start + advance + (startDebt + added - endDebt);
    var k := CongruenceDistance(end + endDebt, start + startDebt + (advance + added));
    CongruentBy(end, expected, k);
    if FitsInt64(expected) {
      CongruentWordsAreEqual(end, expected);
    }
  }

  lemma {:induction false} TimeAndDebt(m: Mapping, moves: seq<Move>)
    requires m.slewStart == m.rawAnchor && AfterMoves(m, moves).Success?
    ensures var end := AfterMoves(m, moves).value;
            && end.slewStart == end.rawAnchor
            && Congruent(end.timeAnchor + end.phaseDebt,
                         m.timeAnchor + m.phaseDebt + (TotalAdvance(m, moves) + TotalAdded(moves)))
  {
    if moves == [] {
    } else {
      var shorter, v := moves[..|moves| - 1], moves[|moves| - 1];
      TimeAndDebt(m, shorter);
      var before, end := AfterMoves(m, shorter).value, AfterMoves(m, moves).value;
      var total0 := TotalAdvance(m, shorter) + TotalAdded(shorter);
      var k0 := CongruenceDistance(before.timeAnchor + before.phaseDebt, m.timeAnchor + m.phaseDebt + total0);
      var k1 := OneMoveConserves(before, v);
      CongruentBy(end.timeAnchor + end.phaseDebt,
                  m.timeAnchor + m.phaseDebt + (TotalAdvance(m, moves) + TotalAdded(moves)), k0 + k1);
    }
  }

  lemma OneMoveConserves(m: Mapping, v: Move) returns (k: int)
    requires Reanchored(m, v.at, v.newRate, v.added, v.slew, v.kind).Success?
    ensures var next := Reanchored(m, v.at, v.newRate, v.added, v.slew, v.kind).value;
            BaseAdvance(m, v.at).Success?
            && next.timeAnchor + next.phaseDebt
               == m.timeAnchor + m.phaseDebt + BaseAdvance(m, v.at).value + v.added + TWO_64 * k
  {
    var advance, slew := BaseAdvance(m, v.at).value, SlewApplied(m, v.at);
    k := WordsConserve(m.timeAnchor, m.phaseDebt, advance, slew, v.added);
  }

  /** What the slew adds to the time it takes from the debt. */
  lemma WordsConserve(time: Int64, debt: Int64, advance: int, slew: int, added: int) returns (k: int)
    ensures MovedWord(time, advance, slew) + MovedWord(debt, 0 - slew, added)
            == time + debt + advance + added + TWO_64 * k
  {
    var i := WrapTwice(time + advance, slew);
    var j := WrapTwice(debt - slew, added);
    k := i + j;
  }

  lemma WrapTwice(a: int, b: int) returns (k: int)
    ensures ToSigned(ToSigned(a) + b) == a + b + TWO_64 * k
  {
    var i := WrapDistance(a);
    var j := WrapDistance(ToSigned(a) + b);
    k := i + j;
  }
}
