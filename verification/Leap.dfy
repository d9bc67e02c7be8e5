/** The leap-second axis: continuous instants, civil labels, and the POSIX projection. A calendar
    date is the number of its day since 1970-01-01. */
module Leap {
  import opened MachineInt
  import opened Outcomes
  import opened FixedPoint

  const NANOS: int := 1_000_000_000
  const DAY: int := 86_400

  /** A transition: the POSIX second just after the event, and +1 or -1. */
  datatype LeapEntry = LeapEntry(second: Int64, delta: int)

  datatype History = History(entries: seq<LeapEntry>, id: nat)

  datatype Label = Label(day: int, second: nat, nanos: nat, history: nat)

  datatype Projection = Projection(nanos: Int64, isLeapSecond: bool)

  /** What construction of a history checks; the encoding holds a 32-bit count. */
  ghost predicate ValidHistory(entries: seq<LeapEntry>) {
    && |entries| < 0x1_0000_0000
    && (forall i {:trigger IsUnit(entries[i])} :: 0 <= i < |entries| ==> IsUnit(entries[i]))
    && (forall i, j {:trigger Precedes(entries[i], entries[j])} ::
         0 <= i < j < |entries| ==> Precedes(entries[i], entries[j]))
  }

  predicate IsUnit(e: LeapEntry) {
    e.delta == 1 || e.delta == -1
  }

  predicate Precedes(d: LeapEntry, e: LeapEntry) {
    d.second < e.second
  }

  /** Transitions fall on UTC midnights. */
  ghost predicate Midnights(entries: seq<LeapEntry>) {
    forall i {:trigger IsMidnight(entries[i].second)} :: 0 <= i < |entries| ==> IsMidnight(entries[i].second)
  }

  predicate IsMidnight(second: int) {
    second % DAY == 0
  }

  ghost predicate Regular(entries: seq<LeapEntry>) {
    ValidHistory(entries) && Midnights(entries)
  }

  lemma MidnightsInRange(s: Int64)
    requires IsMidnight(s)
    ensures INT64_MIN + 55_806 < s < INT64_MAX - 55_806
  {
    var k := s / DAY;
    assert s == DAY * k;
    assert -106_751_991_167_300 <= k <= 106_751_991_167_300;
  }

  // ----- the axis -----

  /** The sum of the first `n` deltas. */
  function Sum(entries: seq<LeapEntry>, n: nat): int
    requires n <= |entries|
  {
    if n == 0 then 0 else Sum(entries, n - 1) + entries[n - 1].delta
  }

  lemma {:induction false} SumIsSmall(entries: seq<LeapEntry>, n: nat)
    requires n <= |entries| && ValidHistory(entries)
    ensures 0 - n <= Sum(entries, n) <= n
  {
    if n > 0 {
      SumIsSmall(entries, n - 1);
      assert IsUnit(entries[n - 1]);
    }
  }

  /** The SI second that starts at the label just after transition `i`. */
  function SiAfter(entries: seq<LeapEntry>, i: nat): int
    requires i < |entries|
  {
    entries[i].second + Sum(entries, i + 1)
  }

  /** `k` transitions lie at or before SI second `s`. */
  ghost predicate Passed(entries: seq<LeapEntry>, s: int, k: nat) {
    && k <= |entries|
    && (k > 0 ==> SiAfter(entries, k - 1) <= s)
    && (k < |entries| ==> s < SiAfter(entries, k))
  }

  lemma TransitionsAreDaysApart(entries: seq<LeapEntry>, i: nat, j: nat)
    requires ValidHistory(entries) && Midnights(entries) && i < j < |entries|
    ensures entries[j].second >= entries[i].second + DAY
  {
    assert IsMidnight(entries[i].second) && IsMidnight(entries[j].second) && Precedes(entries[i], entries[j]);
    MultiplesAreApart(entries[i].second, entries[j].second);
  }

  lemma MultiplesAreApart(a: int, b: int)
    requires a % DAY == 0 && b % DAY == 0 && a < b
    ensures b >= a + DAY
  {
    assert a == DAY * (a / DAY) && b == DAY * (b / DAY);
  }

  lemma {:induction false} SiAfterAscends(entries: seq<LeapEntry>, i: nat, j: nat)
    requires ValidHistory(entries) && Midnights(entries) && i <= j < |entries|
    ensures SiAfter(entries, i) + (j - i) <= SiAfter(entries, j)
    decreases j - i
  {
    if i < j {
      SiAfterAscends(entries, i, j - 1);
      TransitionsAreDaysApart(entries, j - 1, j);
      assert IsUnit(entries[j]);
    }
  }

  /** The number of transitions passed is unique. */
  lemma PassedIsUnique(entries: seq<LeapEntry>, s: int, k: nat, m: nat)
    requires ValidHistory(entries) && Midnights(entries) && Passed(entries, s, k) && Passed(entries, s, m)
    ensures k == m
  {
    if k < m {
      SiAfterAscends(entries, k, m - 1);
    } else if m < k {
      SiAfterAscends(entries, m, k - 1);
    }
  }

  /** How many of the first `n` transitions lie at or before `s`. */
  function Count(entries: seq<LeapEntry>, s: int, n: nat): (k: nat)
    requires n <= |entries|
    ensures k <= n
    ensures k > 0 ==> SiAfter(entries, k - 1) <= s
    ensures k < n ==> s < SiAfter(entries, k)
  {
    if n == 0 then 0
    else
      var k := Count(entries, s, n - 1);
      if k == n - 1 && s >= SiAfter(entries, n - 1) then n else k
  }

  /** The second with `k` transitions behind it is the inserted one before transition `k`. */
  predicate IsInserted(entries: seq<LeapEntry>, s: int, k: nat) {
    k < |entries| && entries[k].delta == 1 && s == SiAfter(entries, k) - 1
  }

  /** The civil second of SI second `s`: the label's day, and its second of day. */
  function LabelAt(h: History, s: int, nanos: nat): Label {
    var k := Count(h.entries, s, |h.entries|);
    if IsInserted(h.entries, s, k) then Label((h.entries[k].second - 1) / DAY, DAY, nanos, h.id)
    else
      var u := s - Sum(h.entries, k);
      Label(u / DAY, u % DAY, nanos, h.id)
  }

  function LabelOf(h: History, inst: Int64): Label {
    LabelAt(h, inst / NANOS, inst % NANOS)
  }

  /** The POSIX second of an ordinary label. */
  function PosixSecond(l: Label): int {
    DAY * l.day + l.second
  }

  /** The sum of the deltas of the first `n` transitions at or before POSIX second `u`. */
  function DeltasUpTo(entries: seq<LeapEntry>, u: int, n: nat): int
    requires n <= |entries|
  {
    if n == 0 then 0
    else DeltasUpTo(entries, u, n - 1) + if u >= entries[n - 1].second then entries[n - 1].delta else 0
  }

  /** The transition inserts a second at the end of the day. */
  predicate Inserts(e: LeapEntry, day: int) {
    e.delta == 1 && e.second == DAY * (day + 1)
  }

  /** The transition deletes POSIX second `u`. */
  predicate Deletes(e: LeapEntry, u: int) {
    e.delta == -1 && e.second == u + 1
  }

  ghost predicate IsDeleted(entries: seq<LeapEntry>, u: int) {
    exists i :: 0 <= i < |entries| && Deletes(entries[i], u)
  }

  /** The first of the transitions from `i` on that inserts a second at the end of the day. */
  function InsertionFrom(entries: seq<LeapEntry>, day: int, i: nat): (k: nat)
    requires i <= |entries|
    ensures i <= k <= |entries|
    ensures forall j :: i <= j < k ==> !Inserts(entries[j], day)
    ensures k < |entries| ==> Inserts(entries[k], day)
    decreases |entries| - i
  {
    if i == |entries| || Inserts(entries[i], day) then i else InsertionFrom(entries, day, i + 1)
  }

  /** The label names a second of the axis: an inserted one, or an ordinary one that was not deleted. */
  ghost predicate Exists(h: History, l: Label) {
    && l.history == h.id && l.nanos < NANOS && l.second <= DAY
    && if l.second == DAY then InsertionFrom(h.entries, l.day, 0) < |h.entries|
       else !IsDeleted(h.entries, PosixSecond(l))
  }

  /** The SI second of a label that is in range. */
  function SiSecond(h: History, l: Label): Option<int>
    requires l.second <= DAY
  {
    if l.second == DAY then
      var i := InsertionFrom(h.entries, l.day, 0);
      if i < |h.entries| then Some(h.entries[i].second + Sum(h.entries, i)) else None
    else Some(PosixSecond(l) + DeltasUpTo(h.entries, PosixSecond(l), |h.entries|))
  }

  /** The exact instant of a label. */
  function InstantOf(h: History, l: Label): Result<int> {
    if l.history != h.id then Failure(WrongLeapHistory)
    else if l.second > DAY then Failure(InvalidSecondOfDay)
    else if l.nanos >= NANOS then Failure(NanosOutOfRange)
    else
      match SiSecond(h, l)
      case None => Failure(NoLeapRecorded)
      case Some(s) => Success(s * NANOS + l.nanos)
  }

  function Wrapped(r: Result<int>): Result<Int64> {
    match r
    case Success(x) => Success(ToSigned(x))
    case Failure(e) => Failure(e)
  }

  // ----- conversions -----

  /** What the walk over the transitions finds for an SI second, with every sum wrapping: the POSIX
      second before it, if it is an inserted one, or its own. */
  function WalkFrom(entries: seq<LeapEntry>, s: Int64, i: nat, cum: Int64): (bool, Int64)
    requires i <= |entries|
    decreases |entries| - i
  {
    if i == |entries| then (false, ToSigned(s - cum))
    else
      var e := entries[i];
      if e.delta == 1 && s == ToSigned(e.second + cum) then (true, ToSigned(e.second - 1))
      else WalkFrom(entries, s, i + 1, if s >= ToSigned(e.second + cum + e.delta) then ToSigned(cum + e.delta) else cum)
  }

  function WalkedLabel(h: History, inst: Int64): Label {
    var (inserted, second) := WalkFrom(h.entries, inst / NANOS, 0, 0);
    Label(second / DAY, if inserted then DAY else second % DAY, inst % NANOS, h.id)
  }

  /** From an instant to its label. */
  method GstInstantToUtc(h: History, inst: Int64) returns (l: Label)
    requires ValidHistory(h.entries)
    ensures l == WalkedLabel(h, inst)
    ensures Midnights(h.entries) ==> (l == LabelOf(h, inst) <==> FindsLabel(h.entries, inst / NANOS))
  {
    var si := FloorDiv(inst, NANOS);
    var nanos := ToSigned(inst - ToSigned(si * NANOS));
    RemainderSurvivesWrap(inst);
    var inserted, second := WalkTransitions(h.entries, si);
    if inserted {
      l := Label(FloorDiv(second, DAY), DAY, nanos, h.id);
    } else {
      l := Label(FloorDiv(second, DAY), second - DAY * FloorDiv(second, DAY), nanos, h.id);
    }
    if Regular(h.entries) {
      WalkedLabelIsLabel(h, inst);
    }
  }

  method WalkTransitions(entries: seq<LeapEntry>, si: Int64) returns (inserted: bool, second: Int64)
    ensures (inserted, second) == WalkFrom(entries, si, 0, 0)
  {
    var cum: Int64 := 0;
    for i := 0 to |entries|
      invariant WalkFrom(entries, si, 0, 0) == WalkFrom(entries, si, i, cum)
    {
      var e := entries[i];
      if e.delta == 1 {
        var leapSecond := ToSigned(e.second + cum);
        if si == leapSecond {
          return true, ToSigned(e.second - 1);
        }
      }
      var after := ToSigned(ToSigned(e.second + cum) + e.delta);
      WrapSum(e.second + cum, e.delta);
      if si >= after {
        cum := ToSigned(cum + e.delta);
      }
    }
    return false, ToSigned(si - cum);
  }

  // ----- when the walk finds the label -----

  /** The first transition from `i` on that the deltas `cum` push beyond the 64-bit range: there the walk's
      sum wraps, and this transition and all after it look as if they were passed. */
  function FirstBeyond(entries: seq<LeapEntry>, cum: int, i: nat): (w: nat)
    requires i <= |entries|
    ensures i <= w <= |entries|
    ensures forall j :: i <= j < w ==> entries[j].second + cum + entries[j].delta <= INT64_MAX
    ensures w < |entries| ==> entries[w].second + cum + entries[w].delta > INT64_MAX
    decreases |entries| - i
  {
    if i == |entries| || entries[i].second + cum + entries[i].delta > INT64_MAX then i
    else FirstBeyond(entries, cum, i + 1)
  }

  /** The second is inserted, or the transitions pushed beyond the range cancel out. */
  ghost predicate FindsLabel(entries: seq<LeapEntry>, s: int) {
    var k := Count(entries, s, |entries|);
    || IsInserted(entries, s, k)
    || Sum(entries, FirstBeyond(entries, Sum(entries, k), k)) == Sum(entries, |entries|)
  }

  /** The seconds of 64-bit instants. */
  predicate IsSecond(s: int) {
    INT64_MIN / NANOS <= s <= INT64_MAX / NANOS
  }

  lemma {:induction false} StartsAboveEnd(entries: seq<LeapEntry>, i: nat)
    requires Regular(entries) && i < |entries|
    ensures entries[i].second > INT64_MIN + 55_806 + i
  {
    assert IsMidnight(entries[i].second);
    MidnightsInRange(entries[i].second);
    if i > 0 {
      StartsAboveEnd(entries, i - 1);
      TransitionsAreDaysApart(entries, i - 1, i);
    }
  }

  /** One turn of the walk, its sums wrapped once. */
  lemma OneTurn(entries: seq<LeapEntry>, s: Int64, i: nat, cum: Int64)
    requires Regular(entries) && i < |entries| && FitsInt64(cum + entries[i].delta)
    ensures var e := entries[i];
            WalkFrom(entries, s, i, cum) ==
              if e.delta == 1 && s == ToSigned(e.second + cum) then (true, e.second - 1)
              else WalkFrom(entries, s, i + 1, if s >= ToSigned(e.second + cum + e.delta) then cum + e.delta else cum)
  {
    var e := entries[i];
    StartsAboveEnd(entries, i);
    ToSignedFits(cum + e.delta);
    ToSignedFits(e.second - 1);
  }

  lemma StaysPassed(entries: seq<LeapEntry>, s: Int64, k: nat, j: nat)
    requires Regular(entries) && IsSecond(s) && k == Count(entries, s, |entries|) && j < k
    ensures var e, cum := entries[j], Sum(entries, j);
            && !(e.delta == 1 && s == ToSigned(e.second + cum)) && s >= ToSigned(e.second + cum + e.delta)
            && FitsInt64(cum) && FitsInt64(cum + e.delta)
  {
    var e, cum := entries[j], Sum(entries, j);
    SiAfterAscends(entries, j, k - 1);
    StartsAboveEnd(entries, j);
    SumIsSmall(entries, j);
    assert IsUnit(e);
    ToSignedFits(e.second + cum);
    ToSignedFits(e.second + cum + e.delta);
  }

  /** The walk adds up the transitions that are passed. */
  lemma {:induction false} WalkPasses(entries: seq<LeapEntry>, s: Int64, k: nat, i: nat)
    requires Regular(entries) && IsSecond(s) && k == Count(entries, s, |entries|) && i <= k
    ensures FitsInt64(Sum(entries, i)) && WalkFrom(entries, s, 0, 0) == WalkFrom(entries, s, i, Sum(entries, i))
  {
    if i > 0 {
      WalkPasses(entries, s, k, i - 1);
      StaysPassed(entries, s, k, i - 1);
      OneTurn(entries, s, i - 1, Sum(entries, i - 1));
    }
  }

  /** It leaves alone the transitions ahead, up to the first that is pushed beyond the range. */
  lemma {:induction false} WalkStays(entries: seq<LeapEntry>, s: Int64, k: nat, i: nat)
    requires Regular(entries) && IsSecond(s) && k == Count(entries, s, |entries|) && !IsInserted(entries, s, k)
    requires k <= i <= FirstBeyond(entries, Sum(entries, k), k)
    ensures FitsInt64(Sum(entries, k)) && WalkFrom(entries, s, 0, 0) == WalkFrom(entries, s, i, Sum(entries, k))
  {
    if i == k {
      WalkPasses(entries, s, k, k);
    } else {
      WalkStays(entries, s, k, i - 1);
      OneStay(entries, s, k, i - 1);
    }
  }

  lemma OneStay(entries: seq<LeapEntry>, s: Int64, k: nat, j: nat)
    requires Regular(entries) && IsSecond(s) && k == Count(entries, s, |entries|) && !IsInserted(entries, s, k)
    requires k <= j < FirstBeyond(entries, Sum(entries, k), k) && FitsInt64(Sum(entries, k))
    ensures WalkFrom(entries, s, j, Sum(entries, k)) == WalkFrom(entries, s, j + 1, Sum(entries, k))
  {
    SumIsSmall(entries, k);
    assert IsUnit(entries[j]);
    OneTurn(entries, s, j, Sum(entries, k));
    StaysAhead(entries, s, k, j);
  }

  lemma StaysAhead(entries: seq<LeapEntry>, s: Int64, k: nat, j: nat)
    requires Regular(entries) && IsSecond(s) && k == Count(entries, s, |entries|) && !IsInserted(entries, s, k)
    requires k <= j < |entries| && entries[j].second + Sum(entries, k) + entries[j].delta <= INT64_MAX
    ensures var e, cum := entries[j], Sum(entries, k);
            !(e.delta == 1 && s == ToSigned(e.second + cum)) && s < ToSigned(e.second + cum + e.delta)
  {
    var e, cum := entries[j], Sum(entries, k);
    SumIsSmall(entries, k);
    StartsAboveEnd(entries, j);
    assert IsUnit(e);
    if k < j {
      LaterTransitionIsAhead(entries, k, j, s);
    }
    ToSignedFits(e.second + cum);
    ToSignedFits(e.second + cum + e.delta);
  }

  /** Transitions lie further apart than their deltas can bring them together. */
  lemma {:induction false} TransitionsSpread(entries: seq<LeapEntry>, w: nat, i: nat)
    requires Regular(entries) && w <= i < |entries|
    ensures entries[i].second >= entries[w].second + 3 * (i - w)
    ensures -(i - w) <= Sum(entries, i) - Sum(entries, w) <= i - w
    decreases i
  {
    if w < i {
      TransitionsSpread(entries, w, i - 1);
      TransitionsAreDaysApart(entries, i - 1, i);
      assert IsUnit(entries[i - 1]);
    }
  }

  lemma BeyondWraps(x: int)
    requires INT64_MAX < x < INT64_MAX + 0x4_0000_0000
    ensures ToSigned(x) == x - TWO_64
  {
    SameWord(x, x - TWO_64, 1);
    ToSignedFits(x - TWO_64);
  }

  /** The walk's deltas before transition `i`, once it runs beyond the range at transition `w`. */
  function Astray(entries: seq<LeapEntry>, k: nat, w: nat, i: nat): int
    requires k <= |entries| && w <= |entries| && i <= |entries|
  {
    Sum(entries, k) + Sum(entries, i) - Sum(entries, w)
  }

  lemma AstrayIsSmall(entries: seq<LeapEntry>, k: nat, w: nat, i: nat)
    requires Regular(entries) && k <= |entries| && w <= |entries| && i <= |entries|
    ensures -0x3_0000_0000 <= Astray(entries, k, w, i) <= 0x3_0000_0000
  {
    SumIsSmall(entries, k);
    SumIsSmall(entries, w);
    SumIsSmall(entries, i);
  }

  lemma StaysBeyondRange(entries: seq<LeapEntry>, k: nat, w: nat, i: nat)
    requires Regular(entries) && k <= w <= i < |entries|
    requires entries[w].second + Sum(entries, k) + entries[w].delta > INT64_MAX
    ensures entries[i].second + Astray(entries, k, w, i) >= INT64_MAX
    ensures entries[i].second + Astray(entries, k, w, i) + entries[i].delta > INT64_MAX
  {
    TransitionsSpread(entries, w, i);
    assert IsUnit(entries[i]) && IsUnit(entries[w]);
  }

  lemma StaysBeyond(entries: seq<LeapEntry>, s: Int64, k: nat, w: nat, i: nat)
    requires Regular(entries) && IsSecond(s) && k <= w <= i < |entries|
    requires entries[w].second + Sum(entries, k) + entries[w].delta > INT64_MAX
    ensures var e, cum := entries[i], Astray(entries, k, w, i);
            !(e.delta == 1 && s == ToSigned(e.second + cum)) && s >= ToSigned(e.second + cum + e.delta)
  {
    StaysBeyondRange(entries, k, w, i);
    AstrayIsSmall(entries, k, w, i);
    assert IsUnit(entries[i]);
    NotASecond(entries[i].second + Astray(entries, k, w, i), s);
    BeyondWraps(entries[i].second + Astray(entries, k, w, i) + entries[i].delta);
  }

  lemma NotASecond(x: int, s: int)
    requires INT64_MAX <= x < INT64_MAX + 0x4_0000_0000 && IsSecond(s)
    ensures s != ToSigned(x)
  {
    if x > INT64_MAX {
      BeyondWraps(x);
    } else {
      ToSignedFits(x);
    }
  }

  /** From there on it takes every transition for passed. */
  lemma {:induction false} WalkRunsBeyond(entries: seq<LeapEntry>, s: Int64, k: nat, w: nat, i: nat)
    requires Regular(entries) && IsSecond(s) && k == Count(entries, s, |entries|) && !IsInserted(entries, s, k)
    requires w == FirstBeyond(entries, Sum(entries, k), k) && w <= i <= |entries|
    ensures FitsInt64(Astray(entries, k, w, i))
    ensures WalkFrom(entries, s, 0, 0) == WalkFrom(entries, s, i, Astray(entries, k, w, i))
  {
    AstrayIsSmall(entries, k, w, i);
    if i == w {
      WalkStays(entries, s, k, w);
    } else {
      var j := i - 1;
      WalkRunsBeyond(entries, s, k, w, j);
      StaysBeyond(entries, s, k, w, j);
      assert Astray(entries, k, w, i) == Astray(entries, k, w, j) + entries[j].delta;
      OneTurn(entries, s, j, Astray(entries, k, w, j));
    }
  }

  /** At the inserted second before it, transition `k` is recognized. */
  lemma WalkFindsInserted(entries: seq<LeapEntry>, s: Int64, k: nat)
    requires Regular(entries) && IsSecond(s) && k == Count(entries, s, |entries|) && IsInserted(entries, s, k)
    ensures WalkFrom(entries, s, 0, 0) == (true, entries[k].second - 1)
  {
    WalkPasses(entries, s, k, k);
    SumIsSmall(entries, k);
    OneTurn(entries, s, k, Sum(entries, k));
    ToSignedFits(s);
  }

  /** What the walk finds, in every case. */
  lemma WalkFinds(entries: seq<LeapEntry>, s: Int64)
    requires Regular(entries) && IsSecond(s)
    ensures var k := Count(entries, s, |entries|);
            var w := FirstBeyond(entries, Sum(entries, k), k);
            WalkFrom(entries, s, 0, 0) ==
              if IsInserted(entries, s, k) then (true, entries[k].second - 1)
              else (false, s - Astray(entries, k, w, |entries|))
  {
    var k := Count(entries, s, |entries|);
    if IsInserted(entries, s, k) {
      WalkFindsInserted(entries, s, k);
    } else {
      WalkEnds(entries, s, k, FirstBeyond(entries, Sum(entries, k), k));
    }
  }

  lemma WalkEnds(entries: seq<LeapEntry>, s: Int64, k: nat, w: nat)
    requires Regular(entries) && IsSecond(s) && k == Count(entries, s, |entries|) && !IsInserted(entries, s, k)
    requires w == FirstBeyond(entries, Sum(entries, k), k)
    ensures WalkFrom(entries, s, 0, 0) == (false, s - Astray(entries, k, w, |entries|))
  {
    WalkRunsBeyond(entries, s, k, w, |entries|);
    AstrayIsSmall(entries, k, w, |entries|);
    ToSignedFits(s - Astray(entries, k, w, |entries|));
  }

  lemma SecondOfLabel(u: int, v: int)
    ensures u / DAY == v / DAY && u % DAY == v % DAY <==> u == v
  {
    assert u == DAY * (u / DAY) + u % DAY && v == DAY * (v / DAY) + v % DAY;
  }

  /** For midnight histories the walk finds the label exactly when no transition is pushed beyond the range,
      or those that are cancel out. */
  lemma WalkedLabelIsLabel(h: History, inst: Int64)
    requires Regular(h.entries)
    ensures WalkedLabel(h, inst) == LabelOf(h, inst) <==> FindsLabel(h.entries, inst / NANOS)
  {
    var s, n := inst / NANOS, |h.entries|;
    var k := Count(h.entries, s, n);
    WalkFinds(h.entries, s);
    if !IsInserted(h.entries, s, k) {
      var w := FirstBeyond(h.entries, Sum(h.entries, k), k);
      SecondOfLabel(s - Astray(h.entries, k, w, n), s - Sum(h.entries, k));
    }
  }

  /** Transitions are further from the end of the 64-bit range than there are of them. */
  ghost predicate RoomForDeltas(entries: seq<LeapEntry>) {
    forall i {:trigger HasRoom(entries[i].second, |entries|)} ::
      0 <= i < |entries| ==> HasRoom(entries[i].second, |entries|)
  }

  predicate HasRoom(second: int, n: nat) {
    second < INT64_MAX - n
  }

  /** With that room no transition is pushed beyond the range. */
  lemma RoomSuffices(entries: seq<LeapEntry>, s: Int64)
    requires Regular(entries) && RoomForDeltas(entries)
    ensures FindsLabel(entries, s)
  {
    var k := Count(entries, s, |entries|);
    SumIsSmall(entries, k);
    forall i | 0 <= i < |entries|
      ensures entries[i].second + Sum(entries, k) + entries[i].delta <= INT64_MAX
    {
      assert HasRoom(entries[i].second, |entries|) && IsUnit(entries[i]);
    }
  }

  /** Up to 55,806 transitions at midnights always leave that room. */
  lemma MidnightsLeaveRoom(entries: seq<LeapEntry>)
    requires Midnights(entries) && |entries| <= 55_806
    ensures RoomForDeltas(entries)
  {
    forall i | 0 <= i < |entries|
      ensures HasRoom(entries[i].second, |entries|)
    {
      assert IsMidnight(entries[i].second);
      MidnightsInRange(entries[i].second);
    }
  }

  // A history that goes wrong: 55,807 days that each gain a second, and a last one at the end of the range.

  const LAST_MIDNIGHT: Int64 := INT64_MAX - 55_807

  function Gaining(n: nat): seq<LeapEntry>
    requires n <= 55_808
  {
    seq(n, i requires 0 <= i < n => LeapEntry(if i < 55_807 then DAY * (i + 1) else LAST_MIDNIGHT, 1))
  }

  lemma {:induction false} GainsAddUp(n: nat)
    requires n <= 55_808
    ensures Sum(Gaining(55_808), n) == n
  {
    if n > 0 {
      GainsAddUp(n - 1);
    }
  }

  lemma GainingIsRegular()
    ensures Regular(Gaining(55_808))
  {
    var entries := Gaining(55_808);
    forall i | 0 <= i < |entries|
      ensures IsMidnight(entries[i].second) && IsUnit(entries[i])
    {
      if i < 55_807 {
        DivisionIsUnique(entries[i].second, DAY, i + 1, 0);
      }
    }
  }

  /** After those days the walk finds another label for every instant. */
  lemma WrongLabel(h: History, inst: Int64)
    requires h.entries == Gaining(55_808) && inst / NANOS >= DAY * 55_807 + 55_807
    ensures Regular(h.entries) && WalkedLabel(h, inst) != LabelOf(h, inst)
  {
    var s, entries := inst / NANOS, h.entries;
    GainingIsRegular();
    GainsAddUp(55_807);
    GainsAddUp(55_808);
    assert SiAfter(entries, 55_806) <= s < SiAfter(entries, 55_807) - 1;
    PassedIsUnique(entries, s, 55_807, Count(entries, s, |entries|));
    assert FirstBeyond(entries, Sum(entries, 55_807), 55_807) == 55_807;
    WalkedLabelIsLabel(h, inst);
  }

  lemma RemainderSurvivesWrap(inst: Int64)
    ensures ToSigned(inst - ToSigned(inst / NANOS * NANOS)) == inst % NANOS
  {
    var p := inst / NANOS * NANOS;
    var k := WrapDistance(p);
    var j := WrapDistance(inst - ToSigned(p));
    assert inst == p + inst % NANOS;
    CongruentBy(ToSigned(inst - ToSigned(p)), inst % NANOS, j - k);
    CongruentWordsAreEqual(ToSigned(inst - ToSigned(p)), inst % NANOS);
  }

  /** Once a transition is ahead, so are all later ones, even without the deltas between. */
  lemma LaterTransitionIsAhead(entries: seq<LeapEntry>, k: nat, i: nat, s: int)
    requires ValidHistory(entries) && Midnights(entries) && k < i < |entries| && s < SiAfter(entries, k)
    ensures s + 1 < entries[i].second + Sum(entries, k) + entries[i].delta
    ensures s < entries[i].second + Sum(entries, k)
  {
    TransitionsAreDaysApart(entries, k, i);
    assert IsUnit(entries[k]) && IsUnit(entries[i]);
  }

  /** From a label to its instant. Every sum and product wraps, and so the result is the exact
      instant, wrapped once. */
  method UtcToGstInstant(h: History, l: Label) returns (r: Result<Int64>)
    requires -0x100_0000_0000 <= l.day <= 0x100_0000_0000
    ensures r == Wrapped(InstantOf(h, l))
  {
    if l.history != h.id {
      return Failure(WrongLeapHistory);
    }
    if l.second > DAY {
      return Failure(InvalidSecondOfDay);
    }
    if l.nanos >= NANOS {
      return Failure(NanosOutOfRange);
    }
    var cum: Int64 := 0;
    if l.second == DAY {
      var target := DAY * l.day + DAY - 1 + 1;
      for i := 0 to |h.entries|
        invariant cum == ToSigned(Sum(h.entries, i))
        invariant InsertionFrom(h.entries, l.day, 0) == InsertionFrom(h.entries, l.day, i)
      {
        var e := h.entries[i];
        if e.second == target && e.delta == 1 {
          var s := ToSigned(e.second + cum);
          WrapOnce(e.second, Sum(h.entries, i), NANOS, l.nanos);
          return Success(ToSigned(ToSigned(s * NANOS) + l.nanos));
        }
        WrapSum(Sum(h.entries, i), e.delta);
        cum := ToSigned(cum + e.delta);
      }
      return Failure(NoLeapRecorded);
    }
    var u := PosixSecond(l);
    for i := 0 to |h.entries|
      invariant cum == ToSigned(DeltasUpTo(h.entries, u, i))
    {
      if u >= h.entries[i].second {
        WrapSum(DeltasUpTo(h.entries, u, i), h.entries[i].delta);
        cum := ToSigned(cum + h.entries[i].delta);
      }
    }
    var s := ToSigned(u + cum);
    WrapOnce(u, DeltasUpTo(h.entries, u, |h.entries|), NANOS, l.nanos);
    return Success(ToSigned(ToSigned(s * NANOS) + l.nanos));
  }

  /** (wrap(wrap(wrap(a + wrap(b)) * c)) + d) wraps to the exact value. */
  lemma WrapOnce(a: int, b: int, c: int, d: int)
    ensures ToSigned(ToSigned(ToSigned(a + ToSigned(b)) * c) + d) == ToSigned((a + b) * c + d)
  {
    WrapSum(b, a);
    var k := WrapDistance(a + b);
    var s := ToSigned(a + b);
    assert s * c == (a + b) * c + TWO_64 * (k * c) by {
      assert (a + b + TWO_64 * k) * c == (a + b) * c + TWO_64 * k * c;
    }
    SameWord(s * c, (a + b) * c, k * c);
    WrapSum((a + b) * c, d);
  }

  // ----- the two directions -----

  /** The transitions at or before POSIX second `u`, when they are the first `k`. */
  lemma {:induction false} DeltasOfPrefix(entries: seq<LeapEntry>, u: int, k: nat, n: nat)
    requires ValidHistory(entries) && k <= |entries| && n <= |entries|
    requires k > 0 ==> entries[k - 1].second <= u
    requires k < |entries| ==> u < entries[k].second
    ensures DeltasUpTo(entries, u, n) == Sum(entries, if n < k then n else k)
  {
    if n > 0 {
      DeltasOfPrefix(entries, u, k, n - 1);
      if n < k {
        assert Precedes(entries[n - 1], entries[k - 1]);
      } else if n > k + 1 {
        assert Precedes(entries[k], entries[n - 1]);
      }
    }
  }

  /** Every second of the axis has an existing label, and that label leads back to it. */
  lemma LabelLeadsBack(h: History, s: int, nanos: nat)
    requires Regular(h.entries) && nanos < NANOS
    ensures Exists(h, LabelAt(h, s, nanos)) && SiSecond(h, LabelAt(h, s, nanos)) == Some(s)
  {
    var k := Count(h.entries, s, |h.entries|);
    if IsInserted(h.entries, s, k) {
      InsertedLeadsBack(h, s, k);
    } else {
      OrdinaryLeadsBack(h, s, k);
    }
  }

  lemma InsertedLeadsBack(h: History, s: int, k: nat)
    requires Regular(h.entries) && IsInserted(h.entries, s, k)
    ensures var day := (h.entries[k].second - 1) / DAY;
            InsertionFrom(h.entries, day, 0) == k && s == h.entries[k].second + Sum(h.entries, k)
  {
    var day := (h.entries[k].second - 1) / DAY;
    assert IsMidnight(h.entries[k].second);
    assert Inserts(h.entries[k], day);
    var m := InsertionFrom(h.entries, day, 0);
    assert m < k ==> Precedes(h.entries[m], h.entries[k]);
  }

  lemma OrdinaryLeadsBack(h: History, s: int, k: nat)
    requires Regular(h.entries) && k == Count(h.entries, s, |h.entries|) && !IsInserted(h.entries, s, k)
    ensures var u := s - Sum(h.entries, k);
            !IsDeleted(h.entries, u) && DeltasUpTo(h.entries, u, |h.entries|) == Sum(h.entries, k)
  {
    var u := s - Sum(h.entries, k);
    if k < |h.entries| {
      assert IsUnit(h.entries[k]);
    }
    DeltasOfPrefix(h.entries, u, k, |h.entries|);
    forall i | 0 <= i < |h.entries|
      ensures !Deletes(h.entries[i], u)
    {
      if i < k - 1 {
        assert Precedes(h.entries[i], h.entries[k - 1]);
      } else if i > k {
        TransitionsAreDaysApart(h.entries, k, i);
      }
    }
  }

  /** How many of the first `n` transitions are at or before POSIX second `u`. */
  function PosixCount(entries: seq<LeapEntry>, u: int, n: nat): (k: nat)
    requires n <= |entries|
    ensures k <= n
    ensures k > 0 ==> entries[k - 1].second <= u
    ensures k < n ==> u < entries[k].second
  {
    if n == 0 then 0
    else
      var k := PosixCount(entries, u, n - 1);
      if k == n - 1 && u >= entries[n - 1].second then n else k
  }

  /** An existing label is the label of its SI second. */
  lemma ExistingLabelIsFound(h: History, l: Label, s: int)
    requires Regular(h.entries) && Exists(h, l) && SiSecond(h, l) == Some(s)
    ensures LabelAt(h, s, l.nanos) == l
  {
    if l.second == DAY {
      var i := InsertionFrom(h.entries, l.day, 0);
      if i > 0 {
        TransitionsAreDaysApart(h.entries, i - 1, i);
      }
      PassedIsUnique(h.entries, s, i, Count(h.entries, s, |h.entries|));
    } else {
      var u := PosixSecond(l);
      var k := PosixCount(h.entries, u, |h.entries|);
      DeltasOfPrefix(h.entries, u, k, |h.entries|);
      if k < |h.entries| {
        assert IsUnit(h.entries[k]) && !Deletes(h.entries[k], u);
      }
      PassedIsUnique(h.entries, s, k, Count(h.entries, s, |h.entries|));
      SplitDay(l.day, l.second);
    }
  }

  lemma SplitDay(day: int, second: nat)
    requires second < DAY
    ensures (DAY * day + second) / DAY == day && (DAY * day + second) % DAY == second
  {
    DivisionIsUnique(DAY * day + second, DAY, day, second);
  }

  lemma SplitInstant(s: int, nanos: nat)
    requires nanos < NANOS
    ensures (s * NANOS + nanos) / NANOS == s && (s * NANOS + nanos) % NANOS == nanos
  {
    DivisionIsUnique(s * NANOS + nanos, NANOS, s, nanos);
  }

  /** Every instant comes back from its label. */
  lemma InstantRoundTrip(h: History, inst: Int64)
    requires Regular(h.entries)
    ensures InstantOf(h, LabelOf(h, inst)) == Success(inst)
    ensures Wrapped(InstantOf(h, LabelOf(h, inst))) == Success(inst)
    ensures Exists(h, LabelOf(h, inst))
  {
    LabelLeadsBack(h, inst / NANOS, inst % NANOS);
    ToSignedFits(inst);
  }

  /** A label comes back from its instant exactly when it exists and its instant is representable. */
  lemma LabelRoundTrip(h: History, l: Label)
    requires Regular(h.entries)
    ensures (Wrapped(InstantOf(h, l)).Success? && LabelOf(h, Wrapped(InstantOf(h, l)).value) == l)
            <==> (Exists(h, l) && InstantOf(h, l).Success? && FitsInt64(InstantOf(h, l).value))
  {
    if Exists(h, l) && InstantOf(h, l).Success? && FitsInt64(InstantOf(h, l).value) {
      var s := SiSecond(h, l).value;
      ExistingLabelIsFound(h, l, s);
      SplitInstant(s, l.nanos);
      ToSignedFits(s * NANOS + l.nanos);
    }
    if Wrapped(InstantOf(h, l)).Success? && LabelOf(h, Wrapped(InstantOf(h, l)).value) == l {
      InstantRoundTrip(h, Wrapped(InstantOf(h, l)).value);
    }
  }

  // ----- the order of labels -----

  /** The label one second later, read off the calendar and the list of leap seconds. */
  ghost function NextSecond(h: History, l: Label): Label {
    if l.second == DAY then l.(day := l.day + 1, second := 0)
    else if l.second == DAY - 1 && InsertionFrom(h.entries, l.day, 0) < |h.entries| then l.(second := DAY)
    else
      var u := PosixSecond(l) + if IsDeleted(h.entries, PosixSecond(l) + 1) then 2 else 1;
      l.(day := u / DAY, second := u % DAY)
  }

  /** Consecutive SI seconds have consecutive labels. */
  lemma NextSecondFollows(h: History, s: int, nanos: nat)
    requires Regular(h.entries) && nanos < NANOS
    ensures LabelAt(h, s + 1, nanos) == NextSecond(h, LabelAt(h, s, nanos))
  {
    var l := LabelAt(h, s, nanos);
    LabelLeadsBack(h, s, nanos);
    if l.second == DAY {
      AfterInserted(h, l, s);
    } else if l.second == DAY - 1 && InsertionFrom(h.entries, l.day, 0) < |h.entries| {
      BeforeInserted(h, l, s);
    } else {
      BetweenOrdinary(h, l, s);
    }
    ExistingLabelIsFound(h, NextSecond(h, l), s + 1);
  }

  /** Midnight itself is never deleted. */
  lemma MidnightExists(entries: seq<LeapEntry>, u: int)
    requires Regular(entries) && u % DAY != DAY - 1
    ensures !IsDeleted(entries, u)
  {
    forall i | 0 <= i < |entries|
      ensures !Deletes(entries[i], u)
    {
      assert IsMidnight(entries[i].second);
    }
  }

  lemma AfterInserted(h: History, l: Label, s: int)
    requires Regular(h.entries) && Exists(h, l) && l.second == DAY && SiSecond(h, l) == Some(s)
    ensures Exists(h, NextSecond(h, l)) && SiSecond(h, NextSecond(h, l)) == Some(s + 1)
  {
    var i := InsertionFrom(h.entries, l.day, 0);
    var u := PosixSecond(NextSecond(h, l));
    assert u == h.entries[i].second;
    SplitDay(l.day + 1, 0);
    MidnightExists(h.entries, u);
    if i + 1 < |h.entries| {
      assert Precedes(h.entries[i], h.entries[i + 1]);
    }
    DeltasOfPrefix(h.entries, u, i + 1, |h.entries|);
  }

  lemma BeforeInserted(h: History, l: Label, s: int)
    requires Regular(h.entries) && Exists(h, l) && l.second == DAY - 1 && SiSecond(h, l) == Some(s)
    requires InsertionFrom(h.entries, l.day, 0) < |h.entries|
    ensures Exists(h, NextSecond(h, l)) && SiSecond(h, NextSecond(h, l)) == Some(s + 1)
  {
    var i := InsertionFrom(h.entries, l.day, 0);
    if i > 0 {
      assert Precedes(h.entries[i - 1], h.entries[i]);
    }
    DeltasOfPrefix(h.entries, PosixSecond(l), i, |h.entries|);
  }

  lemma BetweenOrdinary(h: History, l: Label, s: int)
    requires Regular(h.entries) && Exists(h, l) && l.second < DAY && SiSecond(h, l) == Some(s)
    requires l.second == DAY - 1 ==> InsertionFrom(h.entries, l.day, 0) == |h.entries|
    ensures Exists(h, NextSecond(h, l)) && SiSecond(h, NextSecond(h, l)) == Some(s + 1)
  {
    var u := PosixSecond(l);
    NoTransitionNext(h, l);
    if IsDeleted(h.entries, u + 1) {
      OverDeleted(h, u);
      MidnightExists(h.entries, u + 2);
    } else {
      WithoutTransition(h, u);
    }
  }

  lemma WithoutTransition(h: History, u: int)
    requires Regular(h.entries) && forall j :: 0 <= j < |h.entries| ==> h.entries[j].second != u + 1
    ensures DeltasUpTo(h.entries, u + 1, |h.entries|) == DeltasUpTo(h.entries, u, |h.entries|)
  {
    var k := PosixCount(h.entries, u, |h.entries|);
    DeltasOfPrefix(h.entries, u, k, |h.entries|);
    DeltasOfPrefix(h.entries, u + 1, k, |h.entries|);
  }

  /** Over a deleted second the deltas lose one. */
  lemma OverDeleted(h: History, u: int)
    requires Regular(h.entries) && forall j :: 0 <= j < |h.entries| ==> h.entries[j].second != u + 1
    requires IsDeleted(h.entries, u + 1)
    ensures DeltasUpTo(h.entries, u + 2, |h.entries|) == DeltasUpTo(h.entries, u, |h.entries|) - 1
    ensures (u + 2) % DAY == 0
  {
    var k := PosixCount(h.entries, u, |h.entries|);
    DeltasOfPrefix(h.entries, u, k, |h.entries|);
    var i :| 0 <= i < |h.entries| && Deletes(h.entries[i], u + 1);
    assert IsMidnight(h.entries[i].second);
    DeletedIsNext(h.entries, u, k, i);
    DeltasOfPrefix(h.entries, u + 2, k + 1, |h.entries|);
  }

  /** No transition is at the second after an existing label that is not before an inserted one. */
  lemma NoTransitionNext(h: History, l: Label)
    requires Regular(h.entries) && Exists(h, l) && l.second < DAY
    requires l.second == DAY - 1 ==> InsertionFrom(h.entries, l.day, 0) == |h.entries|
    ensures forall i :: 0 <= i < |h.entries| ==> h.entries[i].second != PosixSecond(l) + 1
  {
    forall i | 0 <= i < |h.entries|
      ensures h.entries[i].second != PosixSecond(l) + 1
    {
      var e := h.entries[i];
      assert IsMidnight(e.second) && IsUnit(e);
      assert e.second == PosixSecond(l) + 1 ==> l.second == DAY - 1;
      assert !Inserts(e, l.day) || l.second != DAY - 1;
      assert !Deletes(e, PosixSecond(l));
    }
  }

  lemma DeletedIsNext(entries: seq<LeapEntry>, u: int, k: nat, i: nat)
    requires Regular(entries) && i < |entries| && entries[i].second == u + 2
    requires k <= |entries| && (k > 0 ==> entries[k - 1].second <= u) && (k < |entries| ==> u < entries[k].second)
    requires forall j :: 0 <= j < |entries| ==> entries[j].second != u + 1
    ensures i == k && (k + 1 < |entries| ==> u + 2 < entries[k + 1].second)
  {
    assert i < k - 1 ==> Precedes(entries[i], entries[k - 1]);
    assert k < i ==> Precedes(entries[k], entries[i]);
    if k + 1 < |entries| {
      assert Precedes(entries[k], entries[k + 1]);
    }
  }

  /** Lexicographic order on day, second and nanosecond. */
  predicate Before(a: Label, b: Label) {
    a.day < b.day || (a.day == b.day && (a.second < b.second || (a.second == b.second && a.nanos < b.nanos)))
  }

  lemma NextSecondIsLater(h: History, s: int, nanos: nat, n: nat)
    requires Regular(h.entries) && nanos < NANOS && n < NANOS
    ensures Before(LabelAt(h, s, nanos), LabelAt(h, s + 1, n))
  {
    LabelLeadsBack(h, s, nanos);
    NextSecondFollows(h, s, nanos);
    var l := LabelAt(h, s, nanos);
    if l.second < DAY {
      SplitDay(l.day, l.second);
    }
  }

  lemma {:induction false} SecondsAscend(h: History, s: int, t: int, m: nat, n: nat)
    requires Regular(h.entries) && m < NANOS && n < NANOS && s < t
    ensures Before(LabelAt(h, s, m), LabelAt(h, t, n))
    decreases t - s
  {
    NextSecondIsLater(h, t - 1, m, n);
    if s < t - 1 {
      SecondsAscend(h, s, t - 1, m, m);
    }
  }

  /** Later instants have later labels, across every leap second. */
  lemma LabelsAscend(h: History, a: Int64, b: Int64)
    requires Regular(h.entries)
    ensures a < b <==> Before(LabelOf(h, a), LabelOf(h, b))
  {
    if a < b {
      InstantsAscend(h, a, b);
    } else if b < a {
      InstantsAscend(h, b, a);
    }
  }

  lemma InstantsAscend(h: History, a: Int64, b: Int64)
    requires Regular(h.entries) && a < b
    ensures Before(LabelOf(h, a), LabelOf(h, b))
  {
    if a / NANOS < b / NANOS {
      SecondsAscend(h, a / NANOS, b / NANOS, a % NANOS, b % NANOS);
    }
  }
}
