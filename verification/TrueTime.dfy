/** What a certified interval means: readings as events in physical time, and the proof that
    propagation along the raw clock encloses true time and cannot be made narrower. */
module TrueTime {
  import opened MachineInt
  import opened Outcomes
  import opened FixedPoint
  import opened Assurance

  /** A read of the raw clock, together with what no program can see: the exact raw coordinate
      and the true time at which it happened. */
  datatype Event = Event(reading: Reading, scale: Scale, coord: real, time: real)

  /** The label is within the read bound of the true raw coordinate. */
  ghost predicate Labelled(e: Event) {
    e.reading.raw as real - e.reading.bound as real <= e.coord <= e.reading.raw as real + e.reading.bound as real
  }

  /** From `d` to `e` true time advances at a rate inside the envelope seen at `d`. */
  ghost predicate Paced(d: Event, e: Event) {
    && d.coord <= e.coord
    && d.scale.low as real * (e.coord - d.coord) <= ONE_Q48 as real * (e.time - d.time)
    && ONE_Q48 as real * (e.time - d.time) <= d.scale.upp as real * (e.coord - d.coord)
  }

  predicate SameRegime(d: Event, e: Event) {
    d.reading.token == e.reading.token && d.scale == e.scale
  }

  /** `e` happens no earlier than `d`, and paced if token and envelope are the same at both. */
  ghost predicate Follows(d: Event, e: Event) {
    d.time <= e.time && (SameRegime(d, e) ==> Paced(d, e))
  }

  /** Token and envelope stay the same from the i-th read to the j-th. */
  ghost predicate Steady(h: seq<Event>, i: nat, j: nat)
    requires i <= j < |h|
  {
    forall k :: i <= k <= j ==> SameRegime(h[i], h[k])
  }

  /** All that is asked of the oscillator: labels keep their bounds, reads happen in order, and the
      envelope holds over every stretch in which no read saw another token or envelope. */
  ghost predicate Lawful(h: seq<Event>) {
    && (forall i :: 0 <= i < |h| ==> Labelled(h[i]))
    && (forall i, j :: 0 <= i <= j < |h| ==> h[i].time <= h[j].time)
    && (forall i, j :: 0 <= i <= j < |h| && Steady(h, i, j) ==> Paced(h[i], h[j]))
  }

  /** No envelope comes back, after another one was seen, under the same token. */
  ghost predicate Settled(h: seq<Event>) {
    forall i, j :: 0 <= i <= j < |h| && SameRegime(h[i], h[j]) ==> Steady(h, i, j)
  }

  lemma SettledFollows(h: seq<Event>, i: nat, j: nat)
    requires Lawful(h) && Settled(h) && i <= j < |h|
    ensures Labelled(h[i]) && Follows(h[i], h[j])
  {
  }

  /** The anchor was taken at event `e` and its bounds enclose the true time of `e`. */
  ghost predicate Describes(a: Anchor, e: Event) {
    && Labelled(e)
    && a.rawAnchor == e.reading.raw && a.readBound == e.reading.bound
    && a.token == e.reading.token && a.scale == e.scale
    && a.lower as real <= e.time <= a.upper as real
  }

  function Propagated(a: Anchor, r: Reading, maxWidth: Int64): Result<Interval> {
    PropagateAnchor(Some(a), r.raw, r.bound, r.token, 0, 0, maxWidth)
  }

  /** A propagated interval encloses true time at the later reading. */
  lemma PropagationEncloses(a: Anchor, d: Event, e: Event, maxWidth: Int64)
    requires Describes(a, d) && Labelled(e) && Follows(d, e) && e.scale == a.scale
    requires Propagated(a, e.reading, maxWidth).Success?
    ensures Encloses(Propagated(a, e.reading, maxWidth).value, e.time)
  {
    PropagatedEnds(a, e.reading.raw, e.reading.bound, e.reading.token, 0, 0, maxWidth);
    var i := Propagated(a, e.reading, maxWidth).value;
    MovedBoundsEnclose(a, d, e, i.earliest, i.latest);
  }

  lemma MovedBoundsEnclose(a: Anchor, d: Event, e: Event, lo: int, hi: int)
    requires Describes(a, d) && Labelled(e) && Follows(d, e) && e.scale == a.scale
    requires a.token == e.reading.token && a.rawAnchor <= e.reading.raw && 0 < a.scale.low <= a.scale.upp
    requires MovedBounds(a, e.reading.raw - a.rawAnchor, a.readBound + e.reading.bound, lo, hi)
    ensures lo as real <= e.time <= hi as real
  {
    var dr: nat, slack: nat := e.reading.raw - a.rawAnchor, a.readBound + e.reading.bound;
    var span := e.coord - d.coord;
    RaisedFloor(a.scale.low, DeltaLow(dr, slack), span, e.time - d.time);
    RaisedCeiling(a.scale.upp, dr + slack, span, e.time - d.time);
  }

  lemma RaisedFloor(low: int, n: nat, span: real, advance: real)
    requires low > 0 && n as real <= span && low as real * span <= ONE_Q48 as real * advance
    ensures (low * n / ONE_Q48) as real <= advance
  {
    ScaledUp(low as real, n as real, span);
    assert (low * n) as real == low as real * n as real;
    var q := low * n / ONE_Q48;
    assert ONE_Q48 * q <= low * n;
    assert (ONE_Q48 * q) as real == ONE_Q48 as real * q as real;
  }

  lemma RaisedCeiling(upp: int, n: nat, span: real, advance: real)
    requires upp > 0 && span <= n as real && ONE_Q48 as real * advance <= upp as real * span
    ensures advance <= CeilingOf(upp * n) as real
  {
    ScaledUp(upp as real, span, n as real);
    assert (upp * n) as real == upp as real * n as real;
    var q := CeilingOf(upp * n);
    assert upp * n <= ONE_Q48 * q;
    assert (ONE_Q48 * q) as real == ONE_Q48 as real * q as real;
  }

  lemma ScaledUp(k: real, x: real, y: real)
    requires k > 0.0 && x <= y
    ensures k * x <= k * y
  {
  }

  /** No narrower integer interval would do: physical histories, consistent with the anchor and
      the reading, bring true time within one nanosecond of either end. */
  lemma PropagationIsTight(a: Anchor, r: Reading, maxWidth: Int64) returns (d0: Event, e0: Event, d1: Event, e1: Event)
    requires Propagated(a, r, maxWidth).Success? && a.lower <= a.upper
    ensures Describes(a, d0) && Labelled(e0) && Follows(d0, e0) && e0.reading == r && e0.scale == a.scale
    ensures Describes(a, d1) && Labelled(e1) && Follows(d1, e1) && e1.reading == r && e1.scale == a.scale
    ensures e0.time < Propagated(a, r, maxWidth).value.earliest as real + 1.0
    ensures e1.time > Propagated(a, r, maxWidth).value.latest as real - 1.0
  {
    PropagatedEnds(a, r.raw, r.bound, r.token, 0, 0, maxWidth);
    var i := Propagated(a, r, maxWidth).value;
    d0, e0 := SlowestHistory(a, r, i.earliest, i.latest);
    d1, e1 := FastestHistory(a, r, i.earliest, i.latest);
  }

  ghost predicate Usable(a: Anchor, r: Reading, lo: int, hi: int) {
    && a.rawAnchor <= r.raw && a.token == r.token && 0 < a.scale.low <= a.scale.upp && a.lower <= a.upper
    && MovedBounds(a, r.raw - a.rawAnchor, a.readBound + r.bound, lo, hi)
  }

  lemma SlowestHistory(a: Anchor, r: Reading, lo: int, hi: int) returns (d: Event, e: Event)
    requires Usable(a, r, lo, hi)
    ensures Describes(a, d) && Labelled(e) && Follows(d, e) && e.reading == r && e.scale == a.scale
    ensures e.time < lo as real + 1.0
  {
    var dr: nat, slack: nat := r.raw - a.rawAnchor, a.readBound + r.bound;
    var n: nat, c0: int := ClosestCoordinates(a.rawAnchor, a.readBound, r.raw, r.bound);
    var advance := AdvanceAtRate(a.scale.low, a.scale, n);
    d, e := ConsistentHistory(a, r, c0, n, a.lower as real, advance);
  }

  lemma ConsistentHistory(a: Anchor, r: Reading, c0: int, n: nat, time: real, advance: real) returns (d: Event, e: Event)
    requires a.token == r.token && a.lower as real <= time <= a.upper as real && advance >= 0.0
    requires a.rawAnchor - a.readBound <= c0 <= a.rawAnchor + a.readBound
    requires r.raw - r.bound <= c0 + n <= r.raw + r.bound
    requires a.scale.low as real * n as real <= ONE_Q48 as real * advance <= a.scale.upp as real * n as real
    ensures Describes(a, d) && Labelled(e) && Follows(d, e) && e.reading == r && e.scale == a.scale
    ensures e.time == time + advance
  {
    d := Event(Reading(a.rawAnchor, a.readBound, a.token, r.generation), a.scale, c0 as real, time);
    e := Event(r, a.scale, (c0 + n) as real, time + advance);
    assert e.coord - d.coord == n as real;
  }

  /** Two coordinates within their bounds of the labels, as close to each other as they can be. */
  lemma ClosestCoordinates(raw0: nat, bound0: nat, raw1: nat, bound1: nat) returns (n: nat, c: int)
    requires raw0 <= raw1
    ensures n == DeltaLow(raw1 - raw0, bound0 + bound1)
    ensures raw0 - bound0 <= c <= raw0 + bound0 && raw1 - bound1 <= c + n <= raw1 + bound1
  {
    n := DeltaLow(raw1 - raw0, bound0 + bound1);
    c := if raw1 > raw0 + bound0 then raw0 + bound0 else raw1;
  }

  lemma FastestHistory(a: Anchor, r: Reading, lo: int, hi: int) returns (d: Event, e: Event)
    requires Usable(a, r, lo, hi)
    ensures Describes(a, d) && Labelled(e) && Follows(d, e) && e.reading == r && e.scale == a.scale
    ensures e.time > hi as real - 1.0
  {
    var dr: nat, slack: nat := r.raw - a.rawAnchor, a.readBound + r.bound;
    var n: nat := dr + slack;
    var advance := AdvanceAtRate(a.scale.upp, a.scale, n);
    d, e := ConsistentHistory(a, r, a.rawAnchor - a.readBound, n, a.upper as real, advance);
  }

  lemma AdvanceAtRate(rate: int, scale: Scale, n: nat) returns (advance: real)
    requires 0 < scale.low <= rate <= scale.upp
    ensures advance >= 0.0
    ensures scale.low as real * n as real <= ONE_Q48 as real * advance <= scale.upp as real * n as real
    ensures (CeilingOf(rate * n) - 1) as real < advance < (rate * n / ONE_Q48 + 1) as real
  {
    advance := (rate * n) as real / ONE_Q48 as real;
    assert scale.low * n <= rate * n <= scale.upp * n;
    assert (scale.low * n) as real == scale.low as real * n as real;
    assert (scale.upp * n) as real == scale.upp as real * n as real;
    assert (rate * n) as real >= 0.0;
    var q, c := rate * n / ONE_Q48, CeilingOf(rate * n);
    assert ONE_Q48 * (c - 1) < rate * n < ONE_Q48 * (q + 1);
    assert (ONE_Q48 * (q + 1)) as real == ONE_Q48 as real * (q + 1) as real;
    assert (ONE_Q48 * (c - 1)) as real == ONE_Q48 as real * (c - 1) as real;
  }

  // ----- when the envelope may be trusted -----

  /** A lawful history from the anchor to the reading, in which the reads saw these envelopes and no
      discontinuity. */
  ghost predicate Witnesses(h: seq<Event>, a: Anchor, r: Reading, scales: seq<Scale>) {
    && |h| == |scales| > 0 && Lawful(h)
    && Describes(a, h[0]) && h[|h| - 1].reading == r
    && (forall k :: 0 <= k < |h| ==> h[k].scale == scales[k] && h[k].reading.token == r.token)
    && (forall k :: 0 < k < |h| ==> h[k - 1].reading.raw <= h[k].reading.raw
                                    && h[k].reading.generation == h[k - 1].reading.generation)
  }

  /** Enclosure in every physical world that fits what was read. */
  ghost predicate AlwaysEncloses(a: Anchor, r: Reading, maxWidth: Int64, scales: seq<Scale>)
    requires Propagated(a, r, maxWidth).Success?
  {
    forall h: seq<Event> :: Witnesses(h, a, r, scales) ==>
                              Encloses(Propagated(a, r, maxWidth).value, h[|h| - 1].time)
  }

  /** The code compares the envelopes at the anchor and at the reading only. Its answer is right in every
      lawful world exactly when no read in between saw another one. */
  lemma EnvelopeConditionIsExact(a: Anchor, r: Reading, maxWidth: Int64, scales: seq<Scale>)
    requires Propagated(a, r, maxWidth).Success? && a.lower <= a.upper
    requires |scales| >= 2 && scales[0] == a.scale == scales[|scales| - 1]
    ensures AlwaysEncloses(a, r, maxWidth, scales) <==> forall k :: 0 <= k < |scales| ==> scales[k] == a.scale
  {
    if forall k :: 0 <= k < |scales| ==> scales[k] == a.scale {
      forall h: seq<Event> | Witnesses(h, a, r, scales)
        ensures Encloses(Propagated(a, r, maxWidth).value, h[|h| - 1].time)
      {
        SteadyEncloses(h, a, r, maxWidth, scales);
      }
    } else {
      var m := LastExcursion(a.scale, scales);
      ExcursionEscapes(a, r, maxWidth, scales, m);
    }
  }

  lemma SteadyEncloses(h: seq<Event>, a: Anchor, r: Reading, maxWidth: Int64, scales: seq<Scale>)
    requires Propagated(a, r, maxWidth).Success? && Witnesses(h, a, r, scales)
    requires forall k :: 0 <= k < |scales| ==> scales[k] == a.scale
    ensures Encloses(Propagated(a, r, maxWidth).value, h[|h| - 1].time)
  {
    var last := |h| - 1;
    assert h[0].scale == scales[0] && h[last].scale == scales[last];
    assert Steady(h, 0, last);
    PropagationEncloses(a, h[0], h[last], maxWidth);
  }

  lemma {:induction false} LastExcursion(scale: Scale, scales: seq<Scale>) returns (m: nat)
    requires exists k :: 0 <= k < |scales| && scales[k] != scale
    ensures m < |scales| && scales[m] != scale && forall k :: m < k < |scales| ==> scales[k] == scale
    decreases |scales|
  {
    var n := |scales| - 1;
    if scales[n] != scale {
      m := n;
    } else {
      var k :| 0 <= k < |scales| && scales[k] != scale;
      assert scales[..n][k] != scale;
      m := LastExcursion(scale, scales[..n]);
      assert forall k :: m < k < n ==> scales[..n][k] == scales[k];
    }
  }

  lemma ExcursionEscapes(a: Anchor, r: Reading, maxWidth: Int64, scales: seq<Scale>, m: nat)
    requires Propagated(a, r, maxWidth).Success? && a.lower <= a.upper
    requires m < |scales| - 1 && scales[0] == a.scale
    requires scales[m] != a.scale && forall k :: m < k < |scales| ==> scales[k] == a.scale
    ensures !AlwaysEncloses(a, r, maxWidth, scales)
  {
    var end := EscapeTime(a, r, maxWidth);
    var h := Excursion(a, r, scales, m, end);
    ExcursionIsLawful(a, r, scales, m, end);
    assert h[0] == StandStill(a, r, scales[0]) && h[|h| - 1] == Event(r, scales[|h| - 1], r.raw as real, end as real);
    assert Witnesses(h, a, r, scales);
  }

  /** Beyond both the anchor's bounds and the propagated interval. */
  function EscapeTime(a: Anchor, r: Reading, maxWidth: Int64): int
    requires Propagated(a, r, maxWidth).Success?
  {
    var latest := Propagated(a, r, maxWidth).value.latest;
    if latest >= a.upper then latest + 1 else a.upper
  }

  /** Nothing happens up to the m-th read; then, while another envelope is seen, any time may pass. */
  function Excursion(a: Anchor, r: Reading, scales: seq<Scale>, m: nat, end: int): seq<Event> {
    seq(|scales|, k requires 0 <= k < |scales| =>
      if k <= m then StandStill(a, r, scales[k]) else Event(r, scales[k], r.raw as real, end as real))
  }

  function StandStill(a: Anchor, r: Reading, scale: Scale): Event {
    Event(Reading(a.rawAnchor, a.readBound, r.token, r.generation), scale, a.rawAnchor as real, a.upper as real)
  }

  lemma ExcursionIsLawful(a: Anchor, r: Reading, scales: seq<Scale>, m: nat, end: int)
    requires m < |scales| && scales[m] != a.scale && forall k :: m < k < |scales| ==> scales[k] == a.scale
    requires a.upper <= end
    ensures Lawful(Excursion(a, r, scales, m, end))
  {
    var h := Excursion(a, r, scales, m, end);
    forall i, j | 0 <= i <= j < |h|
      ensures Steady(h, i, j) ==> Paced(h[i], h[j])
    {
      ExcursionIsSeen(a, r, scales, m, end, i, j);
    }
  }

  lemma ExcursionIsSeen(a: Anchor, r: Reading, scales: seq<Scale>, m: nat, end: int, i: nat, j: nat)
    requires m < |scales| && scales[m] != a.scale && forall k :: m < k < |scales| ==> scales[k] == a.scale
    requires i <= j < |scales|
    ensures var h := Excursion(a, r, scales, m, end);
            if i <= m < j then !Steady(h, i, j) else h[i].time == h[j].time && h[i].coord == h[j].coord
  {
    var h := Excursion(a, r, scales, m, end);
    assert i <= m < j ==> h[m].scale != h[j].scale;
  }
}
