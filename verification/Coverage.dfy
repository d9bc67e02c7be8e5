/** The N-F coverage sweep over the voting domains' intervals, and what a bounded number of
    faulty domains can and cannot do to it. */
module Coverage {
  import opened Outcomes
  import opened MachineInt
  import opened Assurance
  import opened Primary

  /** The inputs that contain the instant `t`, by position. */
  ghost function Covering(ivs: seq<Interval>, t: real): set<int> {
    set i | 0 <= i < |ivs| && Encloses(ivs[i], t)
  }

  ghost predicate InSome(comps: seq<Interval>, t: real) {
    exists j :: 0 <= j < |comps| && Encloses(comps[j], t)
  }

  ghost predicate Ordered(ivs: seq<Interval>) {
    forall i :: 0 <= i < |ivs| ==> ivs[i].earliest <= ivs[i].latest
  }

  /** Ascending, with room between neighbours. */
  ghost predicate StrictlyAscending(comps: seq<Interval>) {
    forall i, j :: 0 <= i < j < |comps| ==> comps[i].latest < comps[j].earliest
  }

  /** The components are the maximal intervals of instants that `k` inputs share. */
  ghost predicate ExactCoverage(ivs: seq<Interval>, k: int, comps: seq<Interval>) {
    && Ordered(comps)
    && StrictlyAscending(comps)
    && forall t: real :: InSome(comps, t) <==> |Covering(ivs, t)| >= k
  }

  // ----- one interval per fault domain -----

  datatype Vote = Vote(domain: string, interval: Interval)

  ghost predicate CommonTo(intervals: seq<Interval>, t: real) {
    forall i :: 0 <= i < |intervals| ==> Encloses(intervals[i], t)
  }

  function LatestStart(intervals: seq<Interval>): Int64
    requires intervals != []
  {
    var last := intervals[|intervals| - 1].earliest;
    if |intervals| == 1 then last
    else
      var before := LatestStart(intervals[..|intervals| - 1]);
      if last > before then last else before
  }

  function EarliestEnd(intervals: seq<Interval>): Int64
    requires intervals != []
  {
    var last := intervals[|intervals| - 1].latest;
    if |intervals| == 1 then last
    else
      var before := EarliestEnd(intervals[..|intervals| - 1]);
      if last < before then last else before
  }

  function Consolidated(domain: string, intervals: seq<Interval>): Option<Vote> {
    if intervals == [] || LatestStart(intervals) > EarliestEnd(intervals) then None
    else Some(Vote(domain, Interval(LatestStart(intervals), EarliestEnd(intervals))))
  }

  /** A domain's vote is the set of instants common to all its endpoints; a domain without any
      abstains. */
  lemma {:induction false} ConsolidationIsIntersection(domain: string, intervals: seq<Interval>, t: real)
    requires intervals != []
    ensures CommonTo(intervals, t) <==> LatestStart(intervals) as real <= t <= EarliestEnd(intervals) as real
    ensures CommonTo(intervals, t) <==>
              Consolidated(domain, intervals).Some? && Encloses(Consolidated(domain, intervals).value.interval, t)
  {
    var n := |intervals| - 1;
    assert CommonTo(intervals, t) <==> CommonTo(intervals[..n], t) && Encloses(intervals[n], t) by {
      if CommonTo(intervals[..n], t) && Encloses(intervals[n], t) {
        forall i | 0 <= i < |intervals|
          ensures Encloses(intervals[i], t)
        {
          assert i < n ==> intervals[..n][i] == intervals[i];
        }
      }
    }
    if n > 0 {
      ConsolidationIsIntersection(domain, intervals[..n], t);
    }
  }

  method ConsolidateDomainIntervals(domain: string, intervals: seq<Interval>) returns (vote: Option<Vote>)
    ensures vote == Consolidated(domain, intervals)
    ensures vote.Some? ==> vote.value.domain == domain
    ensures forall t: real ::
              vote.Some? && Encloses(vote.value.interval, t) <==> intervals != [] && CommonTo(intervals, t)
  {
    forall t: real | intervals != []
      ensures CommonTo(intervals, t) <==>
                Consolidated(domain, intervals).Some? && Encloses(Consolidated(domain, intervals).value.interval, t)
    {
      ConsolidationIsIntersection(domain, intervals, t);
    }
    if |intervals| == 0 {
      return None;
    }
    var maxLo, minHi := intervals[0].earliest, intervals[0].latest;
    for i := 1 to |intervals|
      invariant maxLo == LatestStart(intervals[..i]) && minHi == EarliestEnd(intervals[..i])
    {
      if intervals[i].earliest > maxLo {
        maxLo := intervals[i].earliest;
      }
      if intervals[i].latest < minHi {
        minHi := intervals[i].latest;
      }
      assert intervals[..i + 1][..i] == intervals[..i];
    }
    assert intervals[..|intervals|] == intervals;
    if maxLo > minHi {
      return None;
    }
    vote := Some(Vote(domain, Interval(maxLo, minHi)));
  }

  // ----- the sweep -----

  datatype Tally = Tally(lows: nat, highs: nat)

  ghost function StartsAt(ivs: seq<Interval>, n: nat, x: int): set<int> {
    set i | 0 <= i < |ivs| && i < n && ivs[i].earliest == x
  }

  ghost function EndsAt(ivs: seq<Interval>, n: nat, x: int): set<int> {
    set i | 0 <= i < |ivs| && i < n && ivs[i].latest == x
  }

  ghost function StartedBefore(ivs: seq<Interval>, x: int): set<int> {
    set i | 0 <= i < |ivs| && ivs[i].earliest < x
  }

  ghost function StartedBy(ivs: seq<Interval>, x: int): set<int> {
    set i | 0 <= i < |ivs| && ivs[i].earliest <= x
  }

  ghost function EndedBy(ivs: seq<Interval>, x: int): set<int> {
    set i | 0 <= i < |ivs| && ivs[i].latest <= x
  }

  ghost function EndedBefore(ivs: seq<Interval>, x: int): set<int> {
    set i | 0 <= i < |ivs| && ivs[i].latest < x
  }

  /** `events` counts, per instant, how many of the first `n` inputs start there and how many of
      the first `m` end there. */
  ghost predicate Tallied(ivs: seq<Interval>, n: nat, m: nat, events: map<Int64, Tally>) {
    && (forall x <- events :: events[x] == Tally(|StartsAt(ivs, n, x)|, |EndsAt(ivs, m, x)|))
    && (forall x: Int64 | x !in events :: StartsAt(ivs, n, x) == {} && EndsAt(ivs, m, x) == {})
  }

  function Bump(events: map<Int64, Tally>, x: Int64, lows: nat, highs: nat): map<Int64, Tally> {
    var e := if x in events then events[x] else Tally(0, 0);
    events[x := Tally(e.lows + lows, e.highs + highs)]
  }

  lemma StartsNext(ivs: seq<Interval>, n: nat, x: int)
    requires n < |ivs|
    ensures StartsAt(ivs, n + 1, x) == StartsAt(ivs, n, x) + if ivs[n].earliest == x then {n} else {}
    ensures n !in StartsAt(ivs, n, x)
  {
  }

  lemma EndsNext(ivs: seq<Interval>, m: nat, x: int)
    requires m < |ivs|
    ensures EndsAt(ivs, m + 1, x) == EndsAt(ivs, m, x) + if ivs[m].latest == x then {m} else {}
    ensures m !in EndsAt(ivs, m, x)
  {
  }

  /** The tally of one instant, or its absence. */
  ghost predicate TalliedAt(ivs: seq<Interval>, n: nat, m: nat, events: map<Int64, Tally>, x: Int64) {
    if x in events then events[x] == Tally(|StartsAt(ivs, n, x)|, |EndsAt(ivs, m, x)|)
    else StartsAt(ivs, n, x) == {} && EndsAt(ivs, m, x) == {}
  }

  lemma TallyStartAt(ivs: seq<Interval>, n: nat, m: nat, events: map<Int64, Tally>, x: Int64)
    requires n < |ivs| && TalliedAt(ivs, n, m, events, x)
    ensures TalliedAt(ivs, n + 1, m, Bump(events, ivs[n].earliest, 1, 0), x)
  {
    StartsNext(ivs, n, x);
  }

  lemma TallyEndAt(ivs: seq<Interval>, n: nat, m: nat, events: map<Int64, Tally>, x: Int64)
    requires m < |ivs| && TalliedAt(ivs, n, m, events, x)
    ensures TalliedAt(ivs, n, m + 1, Bump(events, ivs[m].latest, 0, 1), x)
  {
    EndsNext(ivs, m, x);
  }

  lemma TallyStart(ivs: seq<Interval>, n: nat, m: nat, events: map<Int64, Tally>)
    requires n < |ivs| && Tallied(ivs, n, m, events)
    ensures Tallied(ivs, n + 1, m, Bump(events, ivs[n].earliest, 1, 0))
  {
    var next := Bump(events, ivs[n].earliest, 1, 0);
    forall x | x in next
      ensures next[x] == Tally(|StartsAt(ivs, n + 1, x)|, |EndsAt(ivs, m, x)|)
    {
      TallyStartAt(ivs, n, m, events, x);
    }
    forall x: Int64 | x !in next
      ensures StartsAt(ivs, n + 1, x) == {} && EndsAt(ivs, m, x) == {}
    {
      TallyStartAt(ivs, n, m, events, x);
    }
  }

  lemma TallyEnd(ivs: seq<Interval>, n: nat, m: nat, events: map<Int64, Tally>)
    requires m < |ivs| && Tallied(ivs, n, m, events)
    ensures Tallied(ivs, n, m + 1, Bump(events, ivs[m].latest, 0, 1))
  {
    var next := Bump(events, ivs[m].latest, 0, 1);
    forall x | x in next
      ensures next[x] == Tally(|StartsAt(ivs, n, x)|, |EndsAt(ivs, m + 1, x)|)
    {
      TallyEndAt(ivs, n, m, events, x);
    }
    forall x: Int64 | x !in next
      ensures StartsAt(ivs, n, x) == {} && EndsAt(ivs, m + 1, x) == {}
    {
      TallyEndAt(ivs, n, m, events, x);
    }
  }

  /** Ascending order of a set of instants: the library sort applied to a map's keys. */
  method SortInstants(keys: set<Int64>) returns (xs: seq<Int64>)
    ensures forall i, j :: 0 <= i < j < |xs| ==> xs[i] < xs[j]
    ensures forall x :: x in xs <==> x in keys
  {
    xs := [];
    var rest := keys;
    while rest != {}
      invariant rest <= keys
      invariant forall x :: x in xs <==> x in keys && x !in rest
      invariant forall i, x :: 0 <= i < |xs| && x in rest ==> xs[i] < x
      invariant forall i, j :: 0 <= i < j < |xs| ==> xs[i] < xs[j]
      decreases rest
    {
      ghost var x0 :| x0 in rest;
      LeastExists(rest, x0);
      var m :| m in rest && IsLeast(rest, m);
      xs := xs + [m];
      rest := rest - {m};
    }
  }

  predicate IsLeast(s: set<Int64>, m: Int64) {
    forall y <- s :: m <= y
  }

  lemma LeastExists(s: set<Int64>, x: Int64)
    requires x in s
    ensures exists m :: m in s && IsLeast(s, m)
    decreases |s|
  {
    if y :| y in s && y < x {
      var rest := s - {x};
      LeastExists(rest, y);
      var m :| m in rest && IsLeast(rest, m);
      assert m <= y;
      forall z | z in s
        ensures m <= z
      {
        assert z == x || z in rest;
      }
    } else {
      assert IsLeast(s, x);
    }
  }

  /** The depth at an event instant, and on the open span after it. */
  lemma DepthAtEvent(ivs: seq<Interval>, x: Int64)
    requires Ordered(ivs)
    ensures |Covering(ivs, x as real)|
         == |StartedBefore(ivs, x)| - |EndedBefore(ivs, x)| + |StartsAt(ivs, |ivs|, x)|
    ensures |StartedBy(ivs, x)| == |StartedBefore(ivs, x)| + |StartsAt(ivs, |ivs|, x)|
    ensures |EndedBy(ivs, x)| == |EndedBefore(ivs, x)| + |EndsAt(ivs, |ivs|, x)|
  {
    var started, ended, starts, ends := StartedBefore(ivs, x), EndedBefore(ivs, x), StartsAt(ivs, |ivs|, x), EndsAt(ivs, |ivs|, x);
    assert StartedBy(ivs, x) == started + starts;
    assert EndedBy(ivs, x) == ended + ends;
    assert Covering(ivs, x as real) == (started + starts) - ended;
    assert ended <= started;
    assert |(started + starts) - ended| == |started + starts| - |ended|;
  }

  lemma DepthOnSpan(ivs: seq<Interval>, x: Int64, t: real)
    requires Ordered(ivs) && x as real < t
    requires forall i :: 0 <= i < |ivs| ==> ivs[i].earliest <= x || t < ivs[i].earliest as real
    requires forall i :: 0 <= i < |ivs| ==> ivs[i].latest <= x || t < ivs[i].latest as real
    ensures |Covering(ivs, t)| == |StartedBy(ivs, x)| - |EndedBy(ivs, x)|
  {
    assert Covering(ivs, t) == StartedBy(ivs, x) - EndedBy(ivs, x);
    assert EndedBy(ivs, x) <= StartedBy(ivs, x);
  }

  lemma NothingOutside(ivs: seq<Interval>, t: real)
    requires forall i :: 0 <= i < |ivs| ==> !Encloses(ivs[i], t)
    ensures |Covering(ivs, t)| == 0
  {
    assert Covering(ivs, t) == {};
  }

  /** What the sweep has established about the instants before `limit`: they are covered exactly
      by the closed components and by the open one, if there is one. */
  ghost predicate Swept(ivs: seq<Interval>, k: int, comps: seq<Interval>, open: Option<Interval>, t: real) {
    |Covering(ivs, t)| >= k <==> InSome(comps, t) || (open.Some? && open.value.earliest as real <= t)
  }

  lemma InSomeAppend(comps: seq<Interval>, c: Interval, t: real)
    ensures InSome(comps + [c], t) <==> InSome(comps, t) || Encloses(c, t)
  {
    if InSome(comps, t) {
      var j :| 0 <= j < |comps| && Encloses(comps[j], t);
      assert Encloses((comps + [c])[j], t);
    }
    if Encloses(c, t) {
      assert Encloses((comps + [c])[|comps|], t);
    }
  }

  /** The event sweep. With enough domains and ordered inputs it returns the maximal intervals of
      instants lying in at least N-F inputs. */
  method ComputeCoverageComponents(ivs: seq<Interval>, F: int) returns (r: Result<seq<Interval>>)
    ensures r.Success? <==> |ivs| >= 2 * F + 1 && Ordered(ivs)
    ensures r.Failure? ==> r.error == if |ivs| < 2 * F + 1 then InsufficientVotes else InvalidRange
    ensures r.Success? ==> ExactCoverage(ivs, |ivs| - F, r.value)
  {
    var N := |ivs|;
    if N < 2 * F + 1 {
      return Failure(InsufficientVotes);
    }
    var k := N - F;
    var events: map<Int64, Tally> := map[];
    for n := 0 to |ivs|
      invariant Tallied(ivs, n, n, events)
      invariant forall i :: 0 <= i < n ==> ivs[i].earliest <= ivs[i].latest
    {
      if ivs[n].earliest > ivs[n].latest {
        return Failure(InvalidRange);
      }
      TallyStart(ivs, n, n, events);
      events := Bump(events, ivs[n].earliest, 1, 0);
      TallyEnd(ivs, n + 1, n, events);
      events := Bump(events, ivs[n].latest, 0, 1);
    }
    var xs := SortInstants(events.Keys);
    var components := Sweep(ivs, k, events, xs);
    components := MergeTouchingComponents(components);
    r := Success(components);
  }

  /** The instants at which inputs start or end, in ascending order, with their tallies. */
  ghost predicate EventList(ivs: seq<Interval>, events: map<Int64, Tally>, xs: seq<Int64>) {
    && Tallied(ivs, |ivs|, |ivs|, events)
    && (forall i, j :: 0 <= i < j < |xs| ==> xs[i] < xs[j])
    && (forall x :: x in xs <==> x in events)
  }

  lemma EndpointsAreEvents(ivs: seq<Interval>, events: map<Int64, Tally>, xs: seq<Int64>, i: int)
    requires EventList(ivs, events, xs) && 0 <= i < |ivs|
    ensures ivs[i].earliest in xs && ivs[i].latest in xs
  {
    assert i in StartsAt(ivs, |ivs|, ivs[i].earliest);
    assert i in EndsAt(ivs, |ivs|, ivs[i].latest);
  }

  lemma NeighbouringEvents(ivs: seq<Interval>, events: map<Int64, Tally>, xs: seq<Int64>, index: nat)
    requires EventList(ivs, events, xs) && index < |xs|
    ensures forall i :: 0 <= i < |ivs| ==> ivs[i].earliest <= xs[index] || (index + 1 < |xs| && xs[index + 1] <= ivs[i].earliest)
    ensures forall i :: 0 <= i < |ivs| ==> ivs[i].latest <= xs[index] || (index + 1 < |xs| && xs[index + 1] <= ivs[i].latest)
  {
    forall i | 0 <= i < |ivs|
      ensures ivs[i].earliest <= xs[index] || (index + 1 < |xs| && xs[index + 1] <= ivs[i].earliest)
      ensures ivs[i].latest <= xs[index] || (index + 1 < |xs| && xs[index + 1] <= ivs[i].latest)
    {
      EndpointsAreEvents(ivs, events, xs, i);
    }
  }

  /** Coverage is constant from just after one event to just before the next. */
  lemma DepthAfterEvent(ivs: seq<Interval>, events: map<Int64, Tally>, xs: seq<Int64>, index: nat, t: real)
    requires Ordered(ivs) && EventList(ivs, events, xs) && index < |xs| && xs[index] as real < t
    requires index + 1 < |xs| ==> t < xs[index + 1] as real
    ensures |Covering(ivs, t)| == |StartedBy(ivs, xs[index])| - |EndedBy(ivs, xs[index])|
    ensures index + 1 == |xs| ==> |Covering(ivs, t)| == 0
  {
    NeighbouringEvents(ivs, events, xs, index);
    DepthOnSpan(ivs, xs[index], t);
    if index + 1 == |xs| {
      NothingOutside(ivs, t);
    }
  }

  lemma NextEventStart(ivs: seq<Interval>, events: map<Int64, Tally>, xs: seq<Int64>, index: nat)
    requires EventList(ivs, events, xs) && index + 1 < |xs|
    ensures StartedBefore(ivs, xs[index + 1]) == StartedBy(ivs, xs[index])
    ensures EndedBefore(ivs, xs[index + 1]) == EndedBy(ivs, xs[index])
  {
    NeighbouringEvents(ivs, events, xs, index);
  }

  lemma NothingBeforeFirstEvent(ivs: seq<Interval>, events: map<Int64, Tally>, xs: seq<Int64>, t: real)
    requires EventList(ivs, events, xs) && (|xs| > 0 ==> t < xs[0] as real)
    ensures |Covering(ivs, t)| == 0
    ensures |xs| > 0 ==> StartedBefore(ivs, xs[0]) == {} && EndedBefore(ivs, xs[0]) == {}
  {
    forall i | 0 <= i < |ivs|
      ensures |xs| > 0 && xs[0] <= ivs[i].earliest && xs[0] <= ivs[i].latest
    {
      EndpointsAreEvents(ivs, events, xs, i);
    }
    NothingOutside(ivs, t);
  }

  /** One event moves the frontier of what is swept to the next event, or past every event. */
  lemma SweptPastEvent(ivs: seq<Interval>, k: int, events: map<Int64, Tally>, xs: seq<Int64>, index: nat,
                       comps: seq<Interval>, open: Option<Interval>, comps': seq<Interval>, open': Option<Interval>, t: real)
    requires k >= 1 && Ordered(ivs) && EventList(ivs, events, xs) && index < |xs|
    requires forall j :: 0 <= j < |comps| ==> comps[j].latest < xs[index]
    requires t < xs[index] as real ==> Swept(ivs, k, comps, open, t)
    requires index + 1 < |xs| ==> t < xs[index + 1] as real
    requires var x := xs[index];
             var point := |Covering(ivs, x as real)| >= k;
             var after := |StartedBy(ivs, x)| - |EndedBy(ivs, x)| >= k;
             var start := if open.Some? then open.value.earliest else x;
             && start <= x && (after ==> point) && (open.Some? ==> point)
             && (index + 1 < |xs| && after ==> comps' == comps && open'.Some? && open'.value.earliest == start)
             && (!(index + 1 < |xs| && after) && point ==> comps' == comps + [Interval(start, x)] && open'.None?)
             && (!point ==> comps' == comps && open'.None? && open.None?)
    ensures Swept(ivs, k, comps', open', t)
  {
    var x := xs[index];
    if t > x as real {
      DepthAfterEvent(ivs, events, xs, index, t);
    }
    var start := if open.Some? then open.value.earliest else x;
    InSomeAppend(comps, Interval(start, x), t);
  }

  method Sweep(ivs: seq<Interval>, k: int, events: map<Int64, Tally>, xs: seq<Int64>) returns (components: seq<Interval>)
    requires k >= 1 && Ordered(ivs) && EventList(ivs, events, xs)
    ensures ExactCoverage(ivs, k, components)
  {
    var depthBetween := 0;
    components := [];
    var openComp: Option<Interval> := None;
    forall t: real | |xs| > 0 ==> t < xs[0] as real
      ensures Swept(ivs, k, [], None, t)
    {
      NothingBeforeFirstEvent(ivs, events, xs, t);
    }
    if |xs| > 0 {
      NothingBeforeFirstEvent(ivs, events, xs, xs[0] as real - 1.0);
    }
    for index := 0 to |xs|
      invariant index < |xs| ==> depthBetween == |StartedBefore(ivs, xs[index])| - |EndedBefore(ivs, xs[index])|
      invariant openComp.Some? <==> index < |xs| && depthBetween >= k
      invariant openComp.Some? ==> openComp.value.earliest <= openComp.value.latest == xs[index]
      invariant Ordered(components) && StrictlyAscending(components)
      invariant forall j :: 0 <= j < |components| ==> index > 0 && components[j].latest <= xs[index - 1]
      invariant openComp.Some? ==> forall j :: 0 <= j < |components| ==> components[j].latest < openComp.value.earliest
      invariant forall t: real | index < |xs| ==> t < xs[index] as real :: Swept(ivs, k, components, openComp, t)
    {
      ghost var comps0, open0 := components, openComp;
      var x := xs[index];
      var e := events[x];
      var depthAtPoint := depthBetween + e.lows;
      var pointIncluded := depthAtPoint >= k;
      var depthAfter := depthAtPoint - e.highs;
      var spanIncluded := index + 1 < |xs| && depthAfter >= k;
      DepthAtEvent(ivs, x);

      if pointIncluded {
        if openComp.None? {
          openComp := Some(Interval(x, x));
        } else {
          openComp := Some(Interval(openComp.value.earliest, x));
        }
      }
      if spanIncluded {
        if openComp.None? {
          openComp := Some(Interval(x, x));
        }
        openComp := Some(Interval(openComp.value.earliest, xs[index + 1]));
      } else if openComp.Some? {
        components := components + [openComp.value];
        openComp := None;
      }
      depthBetween := depthAfter;

      forall t: real | index + 1 < |xs| ==> t < xs[index + 1] as real
        ensures Swept(ivs, k, components, openComp, t)
      {
        SweptPastEvent(ivs, k, events, xs, index, comps0, open0, components, openComp, t);
      }
      if index + 1 < |xs| {
        NextEventStart(ivs, events, xs, index);
      }
    }
    match openComp {
      case Some(c) => components := components + [c];
      case None =>
    }
    forall t: real
      ensures InSome(components, t) <==> |Covering(ivs, t)| >= k
    {
      assert Swept(ivs, k, components, None, t);
    }
  }

  ghost predicate SortedByStart(comps: seq<Interval>) {
    forall i, j :: 0 <= i < j < |comps| ==> comps[i].earliest <= comps[j].earliest
  }

  /** The first `i` components, joined: everything but `current` is finished. */
  ghost predicate JoinedSoFar(comps: seq<Interval>, i: nat, merged: seq<Interval>, current: Interval)
    requires 1 <= i <= |comps|
  {
    && Ordered(merged) && StrictlyAscending(merged)
    && current.earliest <= current.latest && current.earliest <= comps[i - 1].earliest
    && (forall j :: 0 <= j < |merged| ==> merged[j].latest < current.earliest)
    && forall t: real :: InSome(comps[..i], t) <==> InSome(merged, t) || Encloses(current, t)
  }

  lemma JoinNext(comps: seq<Interval>, i: nat, merged: seq<Interval>, current: Interval)
    requires 1 <= i < |comps| && Ordered(comps) && SortedByStart(comps) && JoinedSoFar(comps, i, merged, current)
    ensures comps[i].earliest <= current.latest ==>
              JoinedSoFar(comps, i + 1, merged,
                Interval(current.earliest, if comps[i].latest > current.latest then comps[i].latest else current.latest))
    ensures comps[i].earliest > current.latest ==> JoinedSoFar(comps, i + 1, merged + [current], comps[i])
  {
    forall t: real
      ensures InSome(comps[..i + 1], t) <==> InSome(merged, t) || Encloses(current, t) || Encloses(comps[i], t)
      ensures InSome(merged + [current], t) <==> InSome(merged, t) || Encloses(current, t)
    {
      InSomeAppend(comps[..i], comps[i], t);
      assert comps[..i] + [comps[i]] == comps[..i + 1];
      InSomeAppend(merged, current, t);
    }
  }

  /** Joins neighbours that touch or overlap, keeping the instants covered; strictly ascending
      components come back unchanged. */
  method MergeTouchingComponents(comps: seq<Interval>) returns (merged: seq<Interval>)
    ensures StrictlyAscending(comps) ==> merged == comps
    ensures Ordered(comps) && SortedByStart(comps) ==>
              StrictlyAscending(merged) && forall t: real :: InSome(merged, t) <==> InSome(comps, t)
  {
    if |comps| <= 1 {
      return comps;
    }
    merged := [];
    var current := comps[0];
    assert forall t: real :: InSome(comps[..1], t) <==> Encloses(current, t) by {
      forall t: real
        ensures InSome(comps[..1], t) <==> Encloses(current, t)
      {
        InSomeAppend([], current, t);
        assert comps[..1] == [] + [current];
      }
    }
    for i := 1 to |comps|
      invariant StrictlyAscending(comps) ==> merged == comps[..i - 1] && current == comps[i - 1]
      invariant Ordered(comps) && SortedByStart(comps) ==> JoinedSoFar(comps, i, merged, current)
    {
      if Ordered(comps) && SortedByStart(comps) {
        JoinNext(comps, i, merged, current);
      }
      if comps[i].earliest <= current.latest {
        if comps[i].latest > current.latest {
          current := Interval(current.earliest, comps[i].latest);
        }
      } else {
        merged := merged + [current];
        current := comps[i];
      }
    }
    forall t: real
      ensures InSome(merged + [current], t) <==> InSome(merged, t) || Encloses(current, t)
    {
      InSomeAppend(merged, current, t);
    }
    assert comps[..|comps|] == comps;
    merged := merged + [current];
  }

  // ----- counting -----

  ghost function Positions(n: nat): (s: set<int>)
    ensures |s| == n && forall i :: i in s <==> 0 <= i < n
  {
    if n == 0 then {} else Positions(n - 1) + {n - 1}
  }

  lemma SubsetSize(a: set<int>, b: set<int>)
    requires a <= b
    ensures |a| <= |b|
  {
    assert b == a + (b - a);
  }

  lemma CoveringAtMost(ivs: seq<Interval>, t: real, without: set<int>)
    requires without <= Positions(|ivs|) && without !! Covering(ivs, t)
    ensures |Covering(ivs, t)| <= |ivs| - |without|
  {
    SubsetSize(Covering(ivs, t) + without, Positions(|ivs|));
  }

  /** Inputs that have ended before the `j`-th component starts: at least one per gap. */
  lemma {:induction false} OneEndsPerGap(ivs: seq<Interval>, k: int, comps: seq<Interval>, j: nat)
    requires ExactCoverage(ivs, k, comps) && j < |comps|
    ensures |EndedBefore(ivs, comps[j].earliest)| >= j
  {
    if j > 0 {
      OneEndsPerGap(ivs, k, comps, j - 1);
      var left, right := comps[j - 1], comps[j];
      var gap := (left.latest as real + right.earliest as real) / 2.0;
      GapIsUncovered(comps, j, gap);
      var last := left.latest as real;
      assert Encloses(left, last);
      assert InSome(comps, last);
      assert !(Covering(ivs, last) <= Covering(ivs, gap)) by {
        if Covering(ivs, last) <= Covering(ivs, gap) {
          SubsetSize(Covering(ivs, last), Covering(ivs, gap));
        }
      }
      var i :| i in Covering(ivs, last) && i !in Covering(ivs, gap);
      assert left.latest <= ivs[i].latest < right.earliest;
      var before := EndedBefore(ivs, left.earliest);
      assert i !in before;
      SubsetSize(before + {i}, EndedBefore(ivs, right.earliest));
    }
  }

  lemma GapIsUncovered(comps: seq<Interval>, j: nat, gap: real)
    requires Ordered(comps) && StrictlyAscending(comps) && 0 < j < |comps|
    requires comps[j - 1].latest as real < gap < comps[j].earliest as real
    ensures !InSome(comps, gap)
  {
    forall m | 0 <= m < |comps|
      ensures !Encloses(comps[m], gap)
    {
      assert m < j - 1 ==> comps[m].latest < comps[j - 1].earliest;
      assert m > j ==> comps[j].latest < comps[m].earliest;
    }
  }

  /** At most F+1 components. */
  lemma ComponentsAreFew(ivs: seq<Interval>, F: nat, comps: seq<Interval>)
    requires ExactCoverage(ivs, |ivs| - F, comps)
    ensures |comps| <= F + 1
  {
    if |comps| > 0 {
      var j := |comps| - 1;
      OneEndsPerGap(ivs, |ivs| - F, comps, j);
      var t := comps[j].earliest as real;
      assert Encloses(comps[j], t);
      assert InSome(comps, t);
      CoveringAtMost(ivs, t, EndedBefore(ivs, comps[j].earliest));
    }
  }

  ghost function Hull(comps: seq<Interval>): Interval
    requires comps != []
  {
    Interval(comps[0].earliest, comps[|comps| - 1].latest)
  }

  lemma ComponentsInHull(comps: seq<Interval>, t: real)
    requires Ordered(comps) && StrictlyAscending(comps) && InSome(comps, t)
    ensures Encloses(Hull(comps), t)
  {
    var j :| 0 <= j < |comps| && Encloses(comps[j], t);
  }

  /** The inputs that contain the whole hull. */
  ghost function Spanning(ivs: seq<Interval>, hull: Interval): set<int> {
    set i | 0 <= i < |ivs| && ivs[i].earliest <= hull.earliest && hull.latest <= ivs[i].latest
  }

  /** At least N-2F inputs each contain the whole hull, so some input is as wide as the hull. */
  lemma HullIsSpanned(ivs: seq<Interval>, F: nat, comps: seq<Interval>)
    requires |ivs| >= 2 * F + 1 && comps != [] && ExactCoverage(ivs, |ivs| - F, comps)
    ensures |Spanning(ivs, Hull(comps))| >= |ivs| - 2 * F
    ensures exists i :: 0 <= i < |ivs| && Hull(comps).latest - Hull(comps).earliest <= ivs[i].latest - ivs[i].earliest
  {
    var hull := Hull(comps);
    var a, b := Covering(ivs, hull.earliest as real), Covering(ivs, hull.latest as real);
    assert Encloses(comps[0], hull.earliest as real) && Encloses(comps[|comps| - 1], hull.latest as real);
    assert InSome(comps, hull.earliest as real) && InSome(comps, hull.latest as real);
    assert a * b <= Spanning(ivs, hull);
    SubsetSize(a * b, Spanning(ivs, hull));
    SubsetSize(a + b, Positions(|ivs|));
    assert |a + b| + |a * b| == |a| + |b|;
    var i :| i in Spanning(ivs, hull);
  }

  /** With at most F faulty inputs, every covered instant lies in an honest one. */
  lemma CoveredByHonest(ivs: seq<Interval>, F: nat, comps: seq<Interval>, faulty: set<int>, t: real)
    requires |ivs| >= 2 * F + 1 && ExactCoverage(ivs, |ivs| - F, comps)
    requires |faulty| <= F && InSome(comps, t)
    ensures exists i :: 0 <= i < |ivs| && i !in faulty && Encloses(ivs[i], t)
  {
    var c := Covering(ivs, t);
    if c <= faulty {
      SubsetSize(c, faulty);
      assert false;
    }
    var i :| i in c && i !in faulty;
  }

  /** With at most F inputs that miss true time, true time is covered and lies in the hull. */
  lemma HullHoldsSharedInstant(ivs: seq<Interval>, F: nat, comps: seq<Interval>, faulty: set<int>, t: real)
    requires ExactCoverage(ivs, |ivs| - F, comps) && |ivs| >= 2 * F + 1
    requires |faulty| <= F && forall i :: 0 <= i < |ivs| && i !in faulty ==> Encloses(ivs[i], t)
    ensures InSome(comps, t) && Encloses(Hull(comps), t)
  {
    assert Positions(|ivs|) <= Covering(ivs, t) + faulty;
    SubsetSize(Positions(|ivs|), Covering(ivs, t) + faulty);
    ComponentsInHull(comps, t);
  }

  // ----- the consensus of one round -----

  datatype Consensus = Consensus(hull: Interval, components: seq<Interval>, eligible: nat, faultBudget: int,
                                 threshold: int, control: Control)

  /** The primary component, the control target in it, and the way to it from the estimate. */
  datatype Control = Control(primary: Interval, target: Int64, bridge: Int64)

  ghost predicate IsControl(c: Consensus, ivs: seq<Interval>, prior: Int64, estimate: Int64) {
    && IsPrimary(c.components, prior, ivs, c.control.primary)
    && c.control.target == Clamped(estimate, c.control.primary)
    && c.control.bridge == ToSigned(c.control.target - estimate)
  }

  /** `c` is the consensus of the votes: the hull of everything that N-F of them share. */
  ghost predicate IsConsensus(ivs: seq<Interval>, F: int, c: Consensus) {
    && |ivs| >= 2 * F + 1
    && c.components != [] && ExactCoverage(ivs, |ivs| - F, c.components)
    && c.hull == Hull(c.components)
    && c.eligible == |ivs| && c.faultBudget == F && c.threshold == |ivs| - F
  }

  lemma EmptyMeansUncovered(comps: seq<Interval>)
    requires Ordered(comps)
    ensures comps == [] <==> forall t: real :: !InSome(comps, t)
  {
    if comps != [] {
      assert Encloses(comps[0], comps[0].earliest as real);
      assert InSome(comps, comps[0].earliest as real);
    }
  }

  predicate EnoughVotes(n: nat, F: int, minVotingDomains: int, minHonestCoverage: int) {
    n >= minVotingDomains && n >= 2 * F + 1 && n - F >= minHonestCoverage
  }

  method ComputeAssuranceConsensus(ivs: seq<Interval>, F: int, minVotingDomains: int, minHonestCoverage: int,
                                   prior: Int64, estimate: Int64) returns (r: Result<Consensus>)
    ensures r.Success? <==>
              && EnoughVotes(|ivs|, F, minVotingDomains, minHonestCoverage)
              && Ordered(ivs) && exists t: real :: |Covering(ivs, t)| >= |ivs| - F
    ensures r.Success? ==> IsConsensus(ivs, F, r.value) && IsControl(r.value, ivs, prior, estimate)
    ensures r.Failure? ==>
              r.error == if !EnoughVotes(|ivs|, F, minVotingDomains, minHonestCoverage) then InsufficientVotes
                         else if !Ordered(ivs) then InvalidRange else EmptyCoverage
  {
    var N := |ivs|;
    var minRequired := minVotingDomains;
    if 2 * F + 1 > minRequired {
      minRequired := 2 * F + 1;
    }
    if N < minRequired {
      return Failure(InsufficientVotes);
    }
    var k := N - F;
    if k < minHonestCoverage {
      return Failure(InsufficientVotes);
    }
    var swept := ComputeCoverageComponents(ivs, F);
    if swept.Failure? {
      return Failure(swept.error);
    }
    var components := swept.value;
    EmptyMeansUncovered(components);
    if |components| == 0 {
      return Failure(EmptyCoverage);
    }
    var hull := Interval(components[0].earliest, components[|components| - 1].latest);
    var primary := SelectPrimaryComponent(components, prior, ivs);
    var target := estimate;
    if target < primary.earliest {
      target := primary.earliest;
    } else if target > primary.latest {
      target := primary.latest;
    }
    r := Success(Consensus(hull, components, N, F, k, Control(primary, target, ToSigned(target - estimate))));
  }
}
