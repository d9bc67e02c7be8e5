/** POSIX timestamps and the leap-second axis: which intervals of server timestamps convert, and
    that the conversion is rigid. */
module PosixTime {
  import opened MachineInt
  import opened Outcomes
  import opened FixedPoint
  import opened Leap

  function SecondOf(unix: int): int {
    unix / NANOS
  }

  /** Some transition makes POSIX second `s` ambiguous or deleted. */
  ghost predicate IsAmbiguous(entries: seq<LeapEntry>, s: int) {
    exists i :: 0 <= i < |entries| && entries[i].second == s + 1
  }

  /** The exact instant of an unambiguous POSIX timestamp. */
  function Moved(entries: seq<LeapEntry>, unix: int): int {
    unix + NANOS * DeltasUpTo(entries, SecondOf(unix), |entries|)
  }

  lemma {:induction false} DeltasAreSmall(entries: seq<LeapEntry>, u: int, n: nat)
    requires n <= |entries| && ValidHistory(entries)
    ensures 0 - n <= DeltasUpTo(entries, u, n) <= n
  {
    if n > 0 {
      DeltasAreSmall(entries, u, n - 1);
      assert IsUnit(entries[n - 1]);
    }
  }

  /** Conversion of a POSIX timestamp: it fails exactly on an ambiguous second or when the exact
      instant does not fit. */
  method UnixNanosToGstInstant(entries: seq<LeapEntry>, unix: Int64) returns (r: Result<Int64>)
    requires ValidHistory(entries)
    ensures IsAmbiguous(entries, SecondOf(unix)) ==> r == Failure(AmbiguousSecond)
    ensures !IsAmbiguous(entries, SecondOf(unix)) ==>
              r == if FitsInt64(Moved(entries, unix)) then Success(Moved(entries, unix)) else Failure(Overflow)
  {
    var sec := FloorDiv(unix, NANOS);
    var delta := 0;
    for i := 0 to |entries|
      invariant delta == DeltasUpTo(entries, sec, i)
      invariant forall j :: 0 <= j < i ==> entries[j].second != sec + 1
    {
      if entries[i].second != INT64_MIN && sec == entries[i].second - 1 {
        assert entries[i].second == sec + 1;
        return Failure(AmbiguousSecond);
      }
      if sec >= entries[i].second {
        DeltasAreSmall(entries, sec, i);
        delta := delta + entries[i].delta;
      }
    }
    DeltasAreSmall(entries, sec, |entries|);
    if delta > INT64_MAX / NANOS || delta < -(-INT64_MIN / NANOS) {
      return Failure(Overflow);
    }
    var offset := delta * NANOS;
    if WillOffsetOverflow(unix, offset) {
      return Failure(Overflow);
    }
    return Success(unix + offset);
  }

  predicate WillOffsetOverflow(v: Int64, offset: Int64)
    ensures WillOffsetOverflow(v, offset) <==> !FitsInt64(v + offset)
  {
    if offset > 0 then v > INT64_MAX - offset
    else if offset < 0 then v < INT64_MIN - offset
    else false
  }

  /** The POSIX projection of an instant. */
  method GstInstantToUnixProjection(h: History, inst: Int64) returns (p: Projection)
    requires ValidHistory(h.entries)
    ensures p == ProjectionOf(WalkedLabel(h, inst))
    ensures Regular(h.entries) && FindsLabel(h.entries, inst / NANOS) ==> p == ProjectionOf(LabelOf(h, inst))
  {
    var utc := GstInstantToUtc(h, inst);
    if utc.second == DAY {
      p := Projection(ToSigned(ToSigned((DAY * utc.day + DAY - 1) * NANOS) + utc.nanos), true);
      WrapSum((DAY * utc.day + DAY - 1) * NANOS, utc.nanos);
    } else {
      p := Projection(ToSigned(ToSigned(PosixSecond(utc) * NANOS) + utc.nanos), false);
      WrapSum(PosixSecond(utc) * NANOS, utc.nanos);
    }
  }

  /** An inserted second repeats the one before it, and says so. */
  function ProjectionOf(l: Label): Projection {
    if l.second == DAY then Projection(ToSigned((DAY * l.day + DAY - 1) * NANOS + l.nanos), true)
    else Projection(ToSigned(PosixSecond(l) * NANOS + l.nanos), false)
  }

  /** At an inserted second the projection is that of the second before, and marked. */
  lemma InsertedRepeats(h: History, s: int, nanos: nat)
    requires Regular(h.entries) && nanos < NANOS && LabelAt(h, s, nanos).second == DAY
    ensures var before := ProjectionOf(LabelAt(h, s - 1, nanos));
            !before.isLeapSecond && ProjectionOf(LabelAt(h, s, nanos)) == before.(isLeapSecond := true)
  {
    NextSecondFollows(h, s - 1, nanos);
    LabelLeadsBack(h, s - 1, nanos);
    var l := LabelAt(h, s - 1, nanos);
    assert l.second == DAY - 1 && LabelAt(h, s, nanos) == l.(second := DAY);
  }

  /** A POSIX timestamp that converts comes back from the projection, unmarked. */
  lemma ProjectionInverts(h: History, unix: Int64)
    requires Regular(h.entries) && !IsAmbiguous(h.entries, SecondOf(unix)) && FitsInt64(Moved(h.entries, unix))
    ensures ProjectionOf(LabelOf(h, Moved(h.entries, unix))) == Projection(unix, false)
  {
    var u := SecondOf(unix);
    var l := Label(u / DAY, u % DAY, unix % NANOS, h.id);
    var s := u + DeltasUpTo(h.entries, u, |h.entries|);
    assert PosixSecond(l) == u;
    assert Exists(h, l) && SiSecond(h, l) == Some(s);
    ExistingLabelIsFound(h, l, s);
    assert Moved(h.entries, unix) == s * NANOS + unix % NANOS;
    SplitInstant(s, unix % NANOS);
    ToSignedFits(unix);
  }

  /** The interval of POSIX timestamps touches neither the second before a transition nor the one
      after it. */
  ghost predicate IsClear(entries: seq<LeapEntry>, lo: int, hi: int) {
    lo <= hi && forall i :: 0 <= i < |entries| ==>
                  SecondOf(hi) < entries[i].second - 1 || entries[i].second < SecondOf(lo)
  }

  /** The second is the one before the transition, or starts at it. */
  predicate Touches(e: LeapEntry, s: int) {
    e.second == s || e.second == s + 1
  }

  /** That is, no transition touches any of its seconds. */
  lemma ClearExactly(entries: seq<LeapEntry>, lo: int, hi: int)
    ensures IsClear(entries, lo, hi) <==>
              lo <= hi && forall i, s: int :: 0 <= i < |entries| && lo / NANOS <= s <= hi / NANOS ==> !Touches(entries[i], s)
  {
    if lo <= hi && !IsClear(entries, lo, hi) {
      SecondOfAscends(lo, hi);
      var i :| 0 <= i < |entries| && !(SecondOf(hi) < entries[i].second - 1 || entries[i].second < SecondOf(lo));
      assert Touches(entries[i], if entries[i].second <= SecondOf(hi) then entries[i].second else entries[i].second - 1);
    }
  }

  /** Which intervals of server timestamps are accepted. */
  method CheckUnixInterval(entries: seq<LeapEntry>, lo: Int64, hi: Int64) returns (ok: bool)
    ensures ok == IsClear(entries, lo, hi)
  {
    if lo > hi {
      return false;
    }
    var first, last := FloorDiv(lo, NANOS), FloorDiv(hi, NANOS);
    for i := 0 to |entries|
      invariant forall j :: 0 <= j < i ==> last < entries[j].second - 1 || entries[j].second < first
    {
      if entries[i].second != INT64_MIN && first <= entries[i].second && last >= entries[i].second - 1 {
        return false;
      }
    }
    return true;
  }

  lemma SecondOfAscends(a: int, b: int)
    requires a <= b
    ensures SecondOf(a) <= SecondOf(b)
  {
  }

  /** Inside a clear interval the deltas do not change. */
  lemma {:induction false} DeltasAreConstant(entries: seq<LeapEntry>, lo: int, hi: int, x: int, n: nat)
    requires IsClear(entries, lo, hi) && lo <= x <= hi && n <= |entries|
    ensures DeltasUpTo(entries, SecondOf(x), n) == DeltasUpTo(entries, SecondOf(lo), n)
  {
    SecondOfAscends(lo, x);
    SecondOfAscends(x, hi);
    if n > 0 {
      DeltasAreConstant(entries, lo, hi, x, n - 1);
    }
  }

  /** An accepted interval is moved rigidly: all its timestamps by the same amount, none of them
      ambiguous, so that only an overflow can stop a conversion. */
  lemma ClearIntervalsMoveRigidly(entries: seq<LeapEntry>, lo: int, hi: int, x: int, y: int)
    requires IsClear(entries, lo, hi) && lo <= x <= hi && lo <= y <= hi
    ensures !IsAmbiguous(entries, SecondOf(x))
    ensures Moved(entries, y) - Moved(entries, x) == y - x
  {
    DeltasAreConstant(entries, lo, hi, x, |entries|);
    DeltasAreConstant(entries, lo, hi, y, |entries|);
    SecondOfAscends(lo, x);
    SecondOfAscends(x, hi);
  }

  /** An interval and its centre. */
  datatype Sample = Sample(lo: Int64, hi: Int64, centre: Int64)

  /** The conversion of a measured interval: check it, then convert its ends and its centre. */
  method ConvertSample(entries: seq<LeapEntry>, s: Sample) returns (r: Result<Sample>)
    requires ValidHistory(entries)
    ensures s.lo <= s.centre <= s.hi ==>
              (r.Success? <==>
               IsClear(entries, s.lo, s.hi) && FitsInt64(Moved(entries, s.lo)) && FitsInt64(Moved(entries, s.hi)))
    ensures r.Success? ==>
              IsClear(entries, s.lo, s.hi) && r.value.lo == Moved(entries, s.lo) && r.value.hi - r.value.lo == s.hi - s.lo
    ensures r.Success? && s.lo <= s.centre <= s.hi ==> r.value.centre - r.value.lo == s.centre - s.lo
    ensures r == Failure(AmbiguousSecond) && s.lo <= s.centre <= s.hi ==> !IsClear(entries, s.lo, s.hi)
  {
    var ok := CheckUnixInterval(entries, s.lo, s.hi);
    if !ok {
      return Failure(AmbiguousSecond);
    }
    ClearIntervalsMoveRigidly(entries, s.lo, s.hi, s.lo, s.hi);
    ClearIntervalsMoveRigidly(entries, s.lo, s.hi, s.hi, s.lo);
    if s.lo <= s.centre <= s.hi {
      ClearIntervalsMoveRigidly(entries, s.lo, s.hi, s.centre, s.lo);
    }
    var lo :- UnixNanosToGstInstant(entries, s.lo);
    var hi :- UnixNanosToGstInstant(entries, s.hi);
    var centre :- UnixNanosToGstInstant(entries, s.centre);
    return Success(Sample(lo, hi, centre));
  }

  /** The projection of every instant of a converted interval is the timestamp it came from. */
  lemma ConvertedIntervalsProjectBack(h: History, lo: Int64, hi: Int64, x: Int64)
    requires Regular(h.entries) && IsClear(h.entries, lo, hi) && lo <= x <= hi
    requires FitsInt64(Moved(h.entries, lo)) && FitsInt64(Moved(h.entries, hi))
    ensures FitsInt64(Moved(h.entries, x))
    ensures ProjectionOf(LabelOf(h, Moved(h.entries, x))) == Projection(x, false)
  {
    ClearIntervalsMoveRigidly(h.entries, lo, hi, x, lo);
    ClearIntervalsMoveRigidly(h.entries, lo, hi, x, hi);
    ProjectionInverts(h, x);
  }
}
