/** The four-timestamp exchange of section 8 of RFC 5905 and the interval derived from it. */
module FourTimestamps {
  import opened MachineInt
  import opened Outcomes
  import opened FixedPoint

  /** What the exchange and the server report; times, corrections and limits are signed
      words, raw readings and error bounds unsigned ones. */
  datatype Exchange = Exchange(
    t1: Int64, t2: Int64, t3: Int64, t4: Int64,
    sendRaw: UInt64, recvRaw: UInt64,
    estimateAtMid: Int64,
    rootDispersion: Int64, rootDelay: Int64,
    sendReadError: UInt64, recvReadError: UInt64,
    quantization: UInt64, mappingError: UInt64,
    asymmetryCorrection: Int64, asymmetryUncertainty: UInt64,
    conversionError: UInt64,
    precisionFloor: Int64, maxTurnaround: Int64, maxRootDistance: Int64)

  datatype Measured = Measured(
    theta: Int64, deltaRaw: Int64, deltaClamped: Int64,
    rawMid: UInt64, rawMidBound: UInt64,
    centre: Int64, netBound: Int64, earliest: Int64, latest: Int64)

  function Half(x: int): int {
    TruncDiv(x, 2)
  }

  // ----- the exact quantities -----

  function ExactTurnaround(x: Exchange): int {
    x.t3 - x.t2
  }

  function ExactRootDistance(x: Exchange): int {
    x.rootDispersion + Half(x.rootDelay)
  }

  /** Twice the offset. */
  function ExactOffsetSum(x: Exchange): int {
    (x.t2 - x.t1) + (x.t3 - x.t4)
  }

  function ExactDelta(x: Exchange): int {
    (x.t4 - x.t1) - (x.t3 - x.t2)
  }

  function Clamp(x: Exchange, delta: int): int {
    if x.precisionFloor > 0 && delta < x.precisionFloor then x.precisionFloor else delta
  }

  function ExactCentre(x: Exchange): int {
    x.estimateAtMid + (Half(ExactOffsetSum(x)) + x.asymmetryCorrection)
  }

  function ErrorTerms(x: Exchange): int {
    x.sendReadError + x.recvReadError + x.quantization + x.mappingError + x.asymmetryUncertainty + x.conversionError
  }

  function ExactNetBound(x: Exchange): int {
    ExactRootDistance(x) + Half(Clamp(x, ExactDelta(x))) + ErrorTerms(x)
  }

  /** Every quantity that is compared, halved or returned is representable; sums on the way may wrap. */
  ghost predicate Representable(x: Exchange) {
    && FitsInt64(ExactTurnaround(x)) && FitsInt64(ExactRootDistance(x))
    && FitsInt64(ExactOffsetSum(x)) && FitsInt64(ExactDelta(x))
    && FitsInt64(ExactCentre(x)) && FitsInt64(ExactNetBound(x))
    && FitsInt64(ExactCentre(x) - ExactNetBound(x)) && FitsInt64(ExactCentre(x) + ExactNetBound(x))
  }

  predicate IsNear(a: int, b: int) {
    -0x1000_0000_0000_0000 <= a - b <= 0x1000_0000_0000_0000
  }

  predicate IsSmall(e: int) {
    0 <= e <= 0x200_0000_0000_0000
  }

  /** Timestamps within 36 years of one another and terms below four years are representable. */
  lemma PlausibleIsRepresentable(x: Exchange)
    requires -0x2000_0000_0000_0000 <= x.t1 <= 0x2000_0000_0000_0000
    requires IsNear(x.t2, x.t1) && IsNear(x.t3, x.t1) && IsNear(x.t4, x.t1) && IsNear(x.estimateAtMid, x.t1)
    requires IsSmall(x.rootDispersion) && IsSmall(x.rootDelay) && IsSmall(x.sendReadError) && IsSmall(x.recvReadError)
    requires IsSmall(x.quantization) && IsSmall(x.mappingError) && IsSmall(x.asymmetryUncertainty)
    requires IsSmall(x.conversionError) && IsSmall(x.precisionFloor) && x.asymmetryCorrection == 0
    ensures Representable(x)
  {
    HalfIsBetween(x.rootDelay);
    HalfIsBetween(ExactOffsetSum(x));
    HalfIsBetween(Clamp(x, ExactDelta(x)));
    TermsAreSmall(x);
    CentreIsNear(x);
  }

  lemma TermsAreSmall(x: Exchange)
    requires IsSmall(x.sendReadError) && IsSmall(x.recvReadError) && IsSmall(x.quantization) && IsSmall(x.mappingError)
    requires IsSmall(x.asymmetryUncertainty) && IsSmall(x.conversionError)
    ensures 0 <= ErrorTerms(x) <= 6 * 0x200_0000_0000_0000
  {
  }

  lemma CentreIsNear(x: Exchange)
    requires IsNear(x.t2, x.t1) && IsNear(x.t3, x.t1) && IsNear(x.t4, x.t1) && IsNear(x.estimateAtMid, x.t1)
    requires x.asymmetryCorrection == 0
    ensures x.t1 - 0x2800_0000_0000_0000 <= ExactCentre(x) <= x.t1 + 0x2800_0000_0000_0000
    ensures -0x3000_0000_0000_0000 <= ExactDelta(x) <= 0x3000_0000_0000_0000
  {
    HalfIsBetween(ExactOffsetSum(x));
  }

  lemma HalfIsBetween(n: int)
    ensures n - 1 <= 2 * Half(n) <= n + 1
    ensures if n >= 0 then 0 <= 2 * Half(n) <= n else n <= 2 * Half(n) <= 0
  {
  }

  // ----- the code -----

  function MaxError(a: UInt64, b: UInt64): UInt64 {
    if a >= b then a else b
  }

  function Rounding(x: Exchange): UInt64 {
    (x.recvRaw - x.sendRaw) % 2
  }

  /** Every operation wraps, in the order of the source. */
  function ComputeMeasurement(x: Exchange): Result<Measured> {
    if x.recvRaw < x.sendRaw then Failure(NonChronological)
    else if x.t3 < x.t2 then Failure(ServerTimeReversal)
    else if x.maxTurnaround > 0 && ToSigned(x.t3 - x.t2) > x.maxTurnaround then Failure(TurnaroundExceeded)
    else if x.maxRootDistance > 0 && ToSigned(x.rootDispersion + Half(x.rootDelay)) > x.maxRootDistance then
      Failure(RootDistanceExceeded)
    else if MaxError(x.sendReadError, x.recvReadError) > INT64_MAX - Rounding(x)
            || x.sendReadError > ToUnsigned(INT64_MAX - x.recvReadError) then Failure(Overflow)
    else
      Success(Measured(Theta(x), DeltaRaw(x), Clamp(x, DeltaRaw(x)),
                       x.sendRaw + (x.recvRaw - x.sendRaw) / 2,
                       MaxError(x.sendReadError, x.recvReadError) + Rounding(x),
                       Centre(x), NetBound(x), ToSigned(Centre(x) - NetBound(x)), ToSigned(Centre(x) + NetBound(x))))
  }

  function Theta(x: Exchange): Int64 {
    ToSigned(Half(ToSigned(ToSigned(x.t2 - x.t1) + ToSigned(x.t3 - x.t4))) + x.asymmetryCorrection)
  }

  function DeltaRaw(x: Exchange): Int64 {
    ToSigned(ToSigned(x.t4 - x.t1) - ToSigned(x.t3 - x.t2))
  }

  function Centre(x: Exchange): Int64 {
    ToSigned(x.estimateAtMid + Theta(x))
  }

  function NetBound(x: Exchange): Int64 {
    var sum := SecondTerms(x, FirstTerms(x, Clamp(x, DeltaRaw(x))));
    if sum < 0 then 0 else sum
  }

  /** The nine terms, added from the left with wrap-around. */
  function FirstTerms(x: Exchange, deltaClamped: int): Int64 {
    Added(Added(Added(Added(x.rootDispersion, Half(x.rootDelay)), Half(deltaClamped)), x.sendReadError), x.recvReadError)
  }

  function SecondTerms(x: Exchange, sum: int): Int64 {
    Added(Added(Added(Added(sum, x.quantization), x.mappingError), x.asymmetryUncertainty), x.conversionError)
  }

  /** A signed sum with a term converted to a signed word. */
  function Added(a: int, b: int): Int64 {
    ToSigned(a + ToSigned(b))
  }

  // ----- wrapping on the way does not matter -----

  lemma AddedWraps(sum: int, exact: int, term: int)
    requires sum == ToSigned(exact)
    ensures Added(sum, term) == ToSigned(exact + term)
  {
    var k := WrapDistance(exact);
    var j := WrapDistance(term);
    SameWord(sum + ToSigned(term), exact + term, k + j);
  }

  lemma FourAreAdded(sum: int, exact: int, a: int, b: int, c: int, d: int)
    requires sum == ToSigned(exact)
    ensures Added(Added(Added(Added(sum, a), b), c), d) == ToSigned(exact + a + b + c + d)
  {
    AddedWraps(sum, exact, a);
    AddedWraps(Added(sum, a), exact + a, b);
    AddedWraps(Added(Added(sum, a), b), exact + a + b, c);
    AddedWraps(Added(Added(Added(sum, a), b), c), exact + a + b + c, d);
  }

  lemma DifferenceOfWraps(a: int, b: int)
    ensures ToSigned(ToSigned(a) + ToSigned(b)) == ToSigned(a + b)
    ensures ToSigned(ToSigned(a) - ToSigned(b)) == ToSigned(a - b)
  {
    var j := WrapDistance(a);
    var k := WrapDistance(b);
    SameWord(ToSigned(a) + ToSigned(b), a + b, j + k);
    SameWord(ToSigned(a) - ToSigned(b), a - b, j - k);
  }

  lemma ThetaWraps(x: Exchange)
    requires FitsInt64(ExactOffsetSum(x))
    ensures Theta(x) == ToSigned(Half(ExactOffsetSum(x)) + x.asymmetryCorrection)
  {
    DifferenceOfWraps(x.t2 - x.t1, x.t3 - x.t4);
    ToSignedFits(ExactOffsetSum(x));
  }

  lemma CentreIsExact(x: Exchange)
    requires FitsInt64(ExactOffsetSum(x)) && FitsInt64(ExactCentre(x))
    ensures Centre(x) == ExactCentre(x)
  {
    ThetaWraps(x);
    WrapSum(Half(ExactOffsetSum(x)) + x.asymmetryCorrection, x.estimateAtMid);
    ToSignedFits(ExactCentre(x));
  }

  lemma DeltaIsExact(x: Exchange)
    requires FitsInt64(ExactDelta(x))
    ensures DeltaRaw(x) == ExactDelta(x)
  {
    DifferenceOfWraps(x.t4 - x.t1, x.t3 - x.t2);
    ToSignedFits(ExactDelta(x));
  }

  lemma NetBoundIsExact(x: Exchange)
    requires FitsInt64(ExactDelta(x)) && FitsInt64(ExactNetBound(x))
    ensures NetBound(x) == if ExactNetBound(x) < 0 then 0 else ExactNetBound(x)
  {
    DeltaIsExact(x);
    var d := Clamp(x, ExactDelta(x));
    ToSignedFits(x.rootDispersion);
    FourAreAdded(x.rootDispersion, x.rootDispersion, Half(x.rootDelay), Half(d), x.sendReadError, x.recvReadError);
    SecondTermsAreAdded(x, d);
    ToSignedFits(ExactNetBound(x));
  }

  lemma SecondTermsAreAdded(x: Exchange, d: int)
    requires FirstTerms(x, d) == ToSigned(ExactRootDistance(x) + Half(d) + x.sendReadError + x.recvReadError)
    ensures SecondTerms(x, FirstTerms(x, d)) == ToSigned(ExactRootDistance(x) + Half(d) + ErrorTerms(x))
  {
    FourAreAdded(FirstTerms(x, d), ExactRootDistance(x) + Half(d) + x.sendReadError + x.recvReadError,
                 x.quantization, x.mappingError, x.asymmetryUncertainty, x.conversionError);
  }

  lemma EndsFit(c: int, n: int)
    requires FitsInt64(c - n) && FitsInt64(c + n)
    ensures ToSigned(c - n) == c - n && ToSigned(c + n) == c + n
  {
    ToSignedFits(c - n);
    ToSignedFits(c + n);
  }

  /** On representable exchanges the interval is the exact one. */
  lemma MeasurementIsExact(x: Exchange, m: Measured)
    requires Representable(x) && ComputeMeasurement(x) == Success(m) && ExactNetBound(x) >= 0
    ensures m.centre == ExactCentre(x) && m.netBound == ExactNetBound(x)
    ensures m.earliest == ExactCentre(x) - ExactNetBound(x) && m.latest == ExactCentre(x) + ExactNetBound(x)
  {
    MeasuredFields(x, m);
    CentreIsExact(x);
    NetBoundIsExact(x);
    EndsFit(ExactCentre(x), ExactNetBound(x));
  }

  lemma MeasuredFields(x: Exchange, m: Measured)
    requires ComputeMeasurement(x) == Success(m)
    ensures m.centre == Centre(x) && m.netBound == NetBound(x)
    ensures m.earliest == ToSigned(m.centre - m.netBound) && m.latest == ToSigned(m.centre + m.netBound)
  {
  }

  // ----- enclosure -----

  /** What really happened: the true times of the four events and of the local midpoint. */
  datatype Truth = Truth(send: real, arrive: real, depart: real, receive: real, mid: real)

  function Abs(r: real): real {
    if r < 0.0 then -r else r
  }

  /** The events happen in order. */
  predicate Chronological(t: Truth) {
    t.send <= t.arrive <= t.depart <= t.receive
  }

  /** The larger error of the two server stamps. */
  function StampError(x: Exchange, t: Truth): real {
    var s2, s3 := Abs(x.t2 as real - t.arrive), Abs(x.t3 as real - t.depart);
    if s2 >= s3 then s2 else s3
  }

  /** How far the three local estimates are from having one common error, whatever its size. */
  function LocalDisagreement(x: Exchange, t: Truth): real {
    var e1, e4, em := x.t1 as real - t.send, x.t4 as real - t.receive, x.estimateAtMid as real - t.mid;
    Abs(e4 - e1) / 2.0 + Abs(em - (e1 + e4) / 2.0)
  }

  /** Everything the interval carries besides half the delay. */
  function ErrorBudget(x: Exchange): real {
    x.rootDispersion as real + x.rootDelay as real / 2.0 + ErrorTerms(x) as real
  }

  /** The errors of the stamps and of the local estimates, and an asymmetry correction, are within the
      budget, less what rounding spends. */
  predicate WithinBudget(x: Exchange, t: Truth, spent: real) {
    StampError(x, t) + LocalDisagreement(x, t) + Abs(x.asymmetryCorrection as real) <= ErrorBudget(x) - spent
  }

  lemma HalfIsClose(n: int)
    ensures Abs(Half(n) as real - n as real / 2.0) <= 0.5
  {
    assert n == 2 * Half(n) + TruncMod(n, 2);
  }

  /** The path asymmetry is at most half the delay. */
  lemma AsymmetryIsBounded(t: Truth)
    requires Chronological(t)
    ensures Abs((t.arrive - t.send) + (t.depart - t.receive)) <= (t.receive - t.send) - (t.depart - t.arrive)
  {
  }

  /** The real-number core: how far the centre can be from the true time at the midpoint. */
  lemma CentreError(x: Exchange, t: Truth)
    requires Chronological(t)
    ensures Abs(x.estimateAtMid as real + ExactOffsetSum(x) as real / 2.0 - t.mid)
            <= ExactDelta(x) as real / 2.0 + LocalDisagreement(x, t) + StampError(x, t)
  {
    AsymmetryIsBounded(t);
  }

  lemma ClampedHalf(x: Exchange)
    ensures Half(Clamp(x, ExactDelta(x))) as real >= ExactDelta(x) as real / 2.0 - 0.5
  {
    HalfIsClose(Clamp(x, ExactDelta(x)));
  }

  /** The exact bound covers the distance from the exact centre to the midpoint: rounding spends half a
      nanosecond on the offset, on the root delay and on the delay each. */
  lemma NetBoundCovers(x: Exchange, t: Truth)
    requires Chronological(t) && WithinBudget(x, t, 1.5)
    ensures Abs(ExactCentre(x) as real - t.mid) <= ExactNetBound(x) as real
  {
    CentreError(x, t);
    HalfIsClose(ExactOffsetSum(x));
    HalfIsClose(x.rootDelay);
    ClampedHalf(x);
    assert ExactNetBound(x) as real >= ExactDelta(x) as real / 2.0 + ErrorBudget(x) - 1.0;
  }

  lemma EndsEnclose(centre: int, net: int, mid: real)
    requires Abs(centre as real - mid) <= net as real
    ensures net >= 0 && (centre - net) as real <= mid <= (centre + net) as real
  {
  }

  /** True time at the local midpoint lies in the interval, whatever the truncating divisions and the
      precision floor do. */
  lemma IntervalEnclosesMidpoint(x: Exchange, t: Truth, m: Measured)
    requires Representable(x) && ComputeMeasurement(x) == Success(m)
    requires Chronological(t) && WithinBudget(x, t, 1.5)
    ensures m.earliest as real <= t.mid <= m.latest as real
  {
    NetBoundCovers(x, t);
    EndsEnclose(ExactCentre(x), ExactNetBound(x), t.mid);
    MeasurementIsExact(x, m);
  }

  // ----- the raw midpoint -----

  /** The raw coordinate half-way between the true coordinates of the two readings is within the bound
      of the returned one, which lies between the labels. */
  lemma RawMidIsBounded(x: Exchange, send: real, recv: real)
    requires ComputeMeasurement(x).Success?
    requires Abs(send - x.sendRaw as real) <= x.sendReadError as real
    requires Abs(recv - x.recvRaw as real) <= x.recvReadError as real
    ensures var m := ComputeMeasurement(x).value;
            && x.sendRaw <= m.rawMid <= x.recvRaw
            && Abs((send + recv) / 2.0 - m.rawMid as real) <= m.rawMidBound as real
  {
    var span := x.recvRaw - x.sendRaw;
    assert span == 2 * (span / 2) + span % 2;
    assert x.sendRaw as real + (span / 2) as real
           == (x.sendRaw as real + x.recvRaw as real) / 2.0 - (span % 2) as real / 2.0;
  }

  // ----- as the poll uses it -----

  /** The exchange built for one query: the midpoint is halfway between the two local estimates. */
  predicate IsQuery(x: Exchange) {
    && x.estimateAtMid == ToSigned(x.t1 + Half(ToSigned(x.t4 - x.t1)))
    && x.quantization == 1000 && x.mappingError == 1000 && x.precisionFloor == 1000
    && x.asymmetryCorrection == 0 && x.asymmetryUncertainty == 0 && x.conversionError == 0
    && x.maxTurnaround == 2_000_000_000 && x.maxRootDistance == 16_000_000_000
  }

  /** For a query only the elapsed time between the two estimates matters; halving it spends another half
      nanosecond of the budget. */
  lemma QueryEnclosesMidpoint(x: Exchange, t: Truth, m: Measured)
    requires IsQuery(x) && Representable(x) && ComputeMeasurement(x) == Success(m)
    requires FitsInt64(x.t4 - x.t1) && FitsInt64(x.t1 + Half(x.t4 - x.t1))
    requires Chronological(t) && t.mid == (t.send + t.receive) / 2.0
    requires StampError(x, t) + ElapsedError(x, t) / 2.0 <= ErrorBudget(x) - 2.0
    ensures m.earliest as real <= t.mid <= m.latest as real
  {
    QueryDisagreement(x, t);
    IntervalEnclosesMidpoint(x, t, m);
  }

  /** By how much the local clock mismeasures the time between sending and receiving. */
  function ElapsedError(x: Exchange, t: Truth): real {
    Abs((x.t4 - x.t1) as real - (t.receive - t.send))
  }

  lemma QueryDisagreement(x: Exchange, t: Truth)
    requires IsQuery(x) && FitsInt64(x.t4 - x.t1) && FitsInt64(x.t1 + Half(x.t4 - x.t1))
    requires t.mid == (t.send + t.receive) / 2.0
    ensures LocalDisagreement(x, t) <= ElapsedError(x, t) / 2.0 + 0.5
  {
    ToSignedFits(x.t4 - x.t1);
    ToSignedFits(x.t1 + Half(x.t4 - x.t1));
    HalfIsClose(x.t4 - x.t1);
  }
}
