/** The four-timestamp measurement, written out in the fields of the exchange: when it succeeds, how wide its
    interval is, and that no narrower one would do. */
module MeasurementRules {
  import opened MachineInt
  import opened Outcomes
  import opened FixedPoint
  import opened FourTimestamps

  /** Half of it, towards zero. */
  function Halved(n: int): int {
    if n < 0 then -((-n) / 2) else n / 2
  }

  lemma HalvesAgree(n: int)
    ensures Half(n) == Halved(n)
  {
  }

  /** Why there is no measurement, the first reason first. */
  function Defect(x: Exchange): Option<Fault> {
    if x.recvRaw < x.sendRaw then Some(NonChronological)
    else if x.t3 < x.t2 then Some(ServerTimeReversal)
    else if x.maxTurnaround > 0 && x.t3 - x.t2 > x.maxTurnaround then Some(TurnaroundExceeded)
    else if x.maxRootDistance > 0 && x.rootDispersion + Halved(x.rootDelay) > x.maxRootDistance then
      Some(RootDistanceExceeded)
    else if x.sendReadError + x.recvReadError > INT64_MAX
            || x.sendReadError + (x.recvRaw - x.sendRaw) % 2 > INT64_MAX
            || x.recvReadError + (x.recvRaw - x.sendRaw) % 2 > INT64_MAX then Some(Overflow)
    else None
  }

  /** An exchange whose turnaround and root distance fit is measured exactly without a defect, and otherwise
      fails for the first. */
  lemma MeasuredExactly(x: Exchange)
    requires FitsInt64(x.t3 - x.t2) && FitsInt64(x.rootDispersion + Halved(x.rootDelay))
    ensures match Defect(x)
            case Some(f) => ComputeMeasurement(x) == Failure(f)
            case None => ComputeMeasurement(x).Success?
  {
    HalvesAgree(x.rootDelay);
    ToSignedFits(x.t3 - x.t2);
    ToSignedFits(x.rootDispersion + Halved(x.rootDelay));
    if x.recvReadError <= INT64_MAX {
      ReadErrorsFit(x.sendReadError, x.recvReadError);
    }
  }

  lemma ReadErrorsFit(a: UInt64, b: UInt64)
    requires b <= INT64_MAX
    ensures a > ToUnsigned(INT64_MAX - b) <==> a + b > INT64_MAX
  {
    assert 0 <= INT64_MAX - b <= INT64_MAX;
  }

  /** The delay that counts: no less than a positive precision floor. */
  function CountedDelay(x: Exchange): int {
    var delay := (x.t4 - x.t1) - (x.t3 - x.t2);
    if 0 < x.precisionFloor && delay < x.precisionFloor then x.precisionFloor else delay
  }

  /** Half the width of the interval. */
  function Reach(x: Exchange): int {
    x.rootDispersion + Halved(x.rootDelay) + Halved(CountedDelay(x))
    + (x.sendReadError + x.recvReadError + x.quantization + x.mappingError + x.asymmetryUncertainty + x.conversionError)
  }

  function Middle(x: Exchange): int {
    x.estimateAtMid + Halved((x.t2 - x.t1) + (x.t3 - x.t4)) + x.asymmetryCorrection
  }

  /** The interval reaches equally far to both sides of the corrected estimate, and the raw midpoint lies
      half-way between the labels, within the larger read error and the half lost to rounding. */
  lemma IntervalExactly(x: Exchange, m: Measured)
    requires Representable(x) && ComputeMeasurement(x) == Success(m) && Reach(x) >= 0
    ensures m.earliest == Middle(x) - Reach(x) && m.latest == Middle(x) + Reach(x)
    ensures m.centre == Middle(x) && m.netBound == Reach(x) && m.latest - m.earliest == 2 * Reach(x)
    ensures m.deltaRaw == (x.t4 - x.t1) - (x.t3 - x.t2) && m.deltaClamped == CountedDelay(x)
    ensures FitsInt64(Middle(x) - x.estimateAtMid) ==> m.theta == Middle(x) - x.estimateAtMid
    ensures m.rawMid == (x.sendRaw + x.recvRaw) / 2
    ensures m.rawMidBound == (if x.sendReadError >= x.recvReadError then x.sendReadError else x.recvReadError)
                             + (x.sendRaw + x.recvRaw) % 2
  {
    ReachIsNetBound(x);
    MeasurementIsExact(x, m);
    DeltaIsExact(x);
    ThetaWraps(x);
    ToSignedFits(Half(ExactOffsetSum(x)) + x.asymmetryCorrection);
    RawMiddle(x.sendRaw, x.recvRaw);
  }

  lemma ReachIsNetBound(x: Exchange)
    ensures Reach(x) == ExactNetBound(x) && Middle(x) == ExactCentre(x)
  {
    HalvesAgree(x.rootDelay);
    HalvesAgree(CountedDelay(x));
    HalvesAgree((x.t2 - x.t1) + (x.t3 - x.t4));
  }

  lemma RawMiddle(send: nat, recv: nat)
    requires send <= recv
    ensures send + (recv - send) / 2 == (send + recv) / 2 && (recv - send) % 2 == (send + recv) % 2
  {
    assert send + recv == recv - send + 2 * send;
  }

  // ----- no narrower interval would do -----

  /** What happened if the server's clock was off by `stamp`, the local estimate by `local`. */
  function TruthWith(x: Exchange, stamp: real, local: real): Truth {
    Truth(x.t1 as real - local, x.t2 as real - stamp, x.t3 as real - stamp, x.t4 as real - local,
          x.estimateAtMid as real - local)
  }

  /** For an exchange whose delay is no shorter than the floor there are true times within everything the
      answer claims whose midpoint comes within two nanoseconds of either end. */
  lemma IntervalIsTight(x: Exchange, m: Measured) returns (early: Truth, late: Truth)
    requires Representable(x) && ComputeMeasurement(x) == Success(m) && x.asymmetryCorrection == 0
    requires (x.t4 - x.t1) - (x.t3 - x.t2) >= 0 && (x.t4 - x.t1) - (x.t3 - x.t2) >= x.precisionFloor
    requires ErrorBudget(x) >= 1.5
    ensures Chronological(early) && WithinBudget(x, early, 1.5) && early.mid - 2.0 <= m.earliest as real <= early.mid
    ensures Chronological(late) && WithinBudget(x, late, 1.5) && late.mid <= m.latest as real <= late.mid + 2.0
  {
    var slack := ErrorBudget(x) - 1.5;
    early := TruthWith(x, slack, slack - (x.t3 - x.t4) as real);
    late := TruthWith(x, 0.0 - slack, 0.0 - slack - (x.t2 - x.t1) as real);
    WithinClaims(x, slack, (x.t3 - x.t4) as real);
    WithinClaims(x, 0.0 - slack, (x.t2 - x.t1) as real);
    IntervalEnclosesMidpoint(x, early, m);
    IntervalEnclosesMidpoint(x, late, m);
    IntervalExactly(x, m);
    EndsInReals(x);
  }

  lemma WithinClaims(x: Exchange, stamp: real, shift: real)
    requires stamp == ErrorBudget(x) - 1.5 || 0.0 - stamp == ErrorBudget(x) - 1.5
    requires x.asymmetryCorrection == 0 && ErrorBudget(x) >= 1.5 && x.t2 <= x.t3
    requires (x.t3 - x.t4) as real <= shift <= (x.t2 - x.t1) as real
    ensures Chronological(TruthWith(x, stamp, stamp - shift)) && WithinBudget(x, TruthWith(x, stamp, stamp - shift), 1.5)
  {
  }

  /** The ends, up to rounding. */
  lemma EndsInReals(x: Exchange)
    requires (x.t4 - x.t1) - (x.t3 - x.t2) >= 0 && (x.t4 - x.t1) - (x.t3 - x.t2) >= x.precisionFloor
    requires x.asymmetryCorrection == 0
    ensures (Middle(x) + Reach(x)) as real <= x.estimateAtMid as real + (x.t2 - x.t1) as real + ErrorBudget(x) + 0.5
    ensures (Middle(x) - Reach(x)) as real >= x.estimateAtMid as real + (x.t3 - x.t4) as real - ErrorBudget(x) - 0.5
  {
    var o, d := (x.t2 - x.t1) + (x.t3 - x.t4), (x.t4 - x.t1) - (x.t3 - x.t2);
    assert o + d == 2 * (x.t2 - x.t1) && o - d == 2 * (x.t3 - x.t4);
    SumOfHalves(o, d, x.t2 - x.t1, x.t3 - x.t4);
    assert Halved(x.rootDelay) as real <= x.rootDelay as real / 2.0 + 0.5;
  }

  lemma SumOfHalves(o: int, d: int, up: int, down: int)
    requires d >= 0 && o + d == 2 * up && o - d == 2 * down
    ensures Halved(o) + Halved(d) <= up && Halved(o) - Halved(d) >= down
  {
  }
}
