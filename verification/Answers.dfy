/** What readers and samples are answered, written out: exactly when an interval is served and which one,
    what the estimate reads, and that the watermarks handed out never fall. */
module Answers {
  import opened MachineInt
  import opened Outcomes
  import opened FixedPoint
  import opened Assurance
  import opened AnchorRules
  import opened Poll
  import opened Publish
  import opened Service
  import opened CertifiedRun
  import opened Runs
  import opened FailSafe
  import Estimate

  // ----- served intervals -----

  /** What keeps the look from being served an interval, if its snapshot is active. */
  function LookObstacle(l: Look): Option<Fault> {
    var s, r := l.snap.assurance, l.reading;
    if s.anchor.Some? && s.anchor.value.scale != l.scale then Some(TokenMismatch)
    else Obstacle(s.anchor, r.raw, r.bound, r.token, s.lowerDebt, s.upperDebt, s.maxWidth)
  }

  /** The reason a reader is given for an obstacle. */
  function ReasonFor(f: Fault): Reason {
    if f == TokenMismatch || f == RawEarlierThanAnchor then RawDiscontinuity
    else if f == Overflow then ArithmeticOverflow
    else BoundTooOld
  }

  lemma SnapshotMoves(l: Look)
    ensures var s, r := l.snap.assurance, l.reading;
            match LookObstacle(l)
            case Some(f) => PropagateSnapshot(s, r, l.scale) == Failure(f)
            case None =>
              && s.anchor.Some?
              && var lo, hi := LowEnd(s.anchor.value, r.raw, r.bound) + s.lowerDebt, HighEnd(s.anchor.value, r.raw, r.bound) + s.upperDebt;
                 FitsInt64(lo) && FitsInt64(hi) && PropagateSnapshot(s, r, l.scale) == Success(Interval(lo, hi))
  {
    var s, r := l.snap.assurance, l.reading;
    PropagationExactly(s.anchor, r.raw, r.bound, r.token, s.lowerDebt, s.upperDebt, s.maxWidth);
  }

  /** A reader is served an interval exactly if its snapshot is synchronized or held over, the envelope is
      the anchor's, and nothing keeps the anchor from being moved to the reading; then it is the moved one. */
  lemma NowExactly(l: Look)
    ensures var now, s, r := NowAt(l), l.snap.assurance, l.reading;
            && (now.interval.Some? <==> (s.status == Synced || s.status == Holdover) && LookObstacle(l).None?)
            && (now.interval.Some? ==>
                  && s.anchor.Some? && now.status == s.status && now.reason == s.reason
                  && now.interval.value.earliest == LowEnd(s.anchor.value, r.raw, r.bound) + s.lowerDebt
                  && now.interval.value.latest == HighEnd(s.anchor.value, r.raw, r.bound) + s.upperDebt
                  && now.faultBudget == s.anchor.value.faultBudget && now.eligible == s.anchor.value.eligible)
            && (now.interval.None? ==>
                  if s.status == Synced || s.status == Holdover
                  then now.status == Desync && now.reason == ReasonFor(LookObstacle(l).value)
                  else now.status == s.status && now.reason == s.reason)
            && now.origin.assuranceGeneration == s.generation && now.origin.mappingGeneration == l.snap.mapping.generation
            && now.origin.epochId == l.snap.epochId && now.origin.leapId == l.snap.leapId
            && now.origin.configId == l.snap.configId
  {
    SnapshotMoves(l);
  }

  /** The clock's own evaluation gives the same for its state. */
  lemma EvaluationExactly(s: State, r: Reading)
    ensures var e, o := EvaluateState(s, r), Obstacle(s.anchor, r.raw, r.bound, r.token, s.lowerDebt, s.upperDebt, s.maxWidth);
            if s.status == Synced || s.status == Holdover then
              match o
              case None =>
                && s.anchor.Some? && e.status == s.status && e.reason == s.reason && e.interval.Some?
                && e.interval.value.earliest == LowEnd(s.anchor.value, r.raw, r.bound) + s.lowerDebt
                && e.interval.value.latest == HighEnd(s.anchor.value, r.raw, r.bound) + s.upperDebt
              case Some(f) =>
                e == Evaluation(None, Desync,
                                if f in {AnchorExpired, BoundTooWide} then BoundTooOld
                                else if f in {TokenMismatch, RawEarlierThanAnchor} then RawDiscontinuity
                                else ArithmeticOverflow)
            else e == Evaluation(None, s.status, s.reason)
  {
    PropagationExactly(s.anchor, r.raw, r.bound, r.token, s.lowerDebt, s.upperDebt, s.maxWidth);
  }

  /** The estimate is the published mapping's at the reading's raw instant. */
  lemma ServedEstimate(l: Look)
    requires Estimate.InRange(l.snap.mapping, l.reading.raw)
    ensures var m, raw := l.snap.mapping, l.reading.raw;
            NowAt(l).estimate == Some(m.timeAnchor + (0x1_0000_0000_0000 + m.baseRate) * (raw - m.rawAnchor) / 0x1_0000_0000_0000
                                      + Estimate.SlewApplied(m, raw))
  {
    Estimate.EvaluateIsExact(l.snap.mapping, l.reading.raw);
  }

  // ----- samples -----

  /** A sample is eligible exactly if it names a domain, was taken within the round and the configured age,
      and nothing keeps its interval from being moved to the round's reading; then the moved interval counts. */
  lemma SampleCountsExactly(s: SourceResult, w: Window, c: Config)
    ensures if s.measurement.None? || s.domain == "" then Accepted(s, w, c).None?
            else
              var m := s.measurement.value;
              var a := Anchor(m.rawMid, m.hard.earliest, m.hard.latest, w.startScale, m.rawMidBound, 0, 0, 0, 0, [], [], 0, 0,
                              w.end.raw, w.end.token);
              var lo, hi := LowEnd(a, w.end.raw, w.end.bound), HighEnd(a, w.end.raw, w.end.bound);
              if w.start.raw <= m.rawMid <= w.end.raw
                 && w.end.raw - m.rawMid <= (if c.maxAge <= 0 then 10_000_000_000 else c.maxAge)
                 && Obstacle(Some(a), w.end.raw, w.end.bound, w.end.token, 0, 0, c.maxWidth).None?
              then FitsInt64(lo) && FitsInt64(hi) && Accepted(s, w, c) == Some(Interval(lo, hi))
              else Accepted(s, w, c).None?
  {
    if s.measurement.Some? {
      PropagationExactly(Some(SampleAnchor(s.measurement.value, w)), w.end.raw, w.end.bound, w.end.token, 0, 0, c.maxWidth);
    }
  }

  // ----- watermarks -----

  /** A watermark is answered exactly to callers with the snapshot's identity who could be served an interval,
      and it is the snapshot's. */
  lemma WatermarkExactly(l: Look, id: Identity)
    ensures var v, s := WatermarkAt(l, id), l.snap.assurance;
            && (v.Watermark? <==> l.snap.epochId == id.epochId && l.snap.leapId == id.leapId && l.snap.configId == id.configId
                                  && NowAt(l).interval.Some?)
            && (v.Watermark? ==> v.value == s.watermark)
            && (v.Refused? ==>
                  v.error == if l.snap.epochId != id.epochId then ConfigurationMismatch
                             else if l.snap.leapId != id.leapId then LeapHistoryMismatch
                             else if l.snap.configId != id.configId then ConfigurationMismatch
                             else if s.status == Unanchored then NotAnchored
                             else Desynchronized)
  {
  }

  /** In any run, the watermarks handed out from snapshots published in this order never fall, whenever and
      by whom they are asked for. */
  lemma AnswersNeverFall(u: Setup, states: seq<System>, steps: seq<Step>, i: nat, j: nat,
                         r: Reading, scale: Scale, r': Reading, scale': Scale, id: Identity)
    requires IsRun(u, states, steps) && i <= j <= |steps|
    requires PastWatermarkOf(states[i].published, r, scale, id).Watermark?
    requires PastWatermarkOf(states[j].published, r', scale', id).Watermark?
    ensures PastWatermarkOf(states[i].published, r, scale, id).value <= PastWatermarkOf(states[j].published, r', scale', id).value
  {
    WatermarkNeverFalls(u, states, steps, i, j);
  }
}
