/** The component that steers the clock: a deterministic choice among the components of a round. */
module Primary {
  import opened MachineInt
  import opened FixedPoint
  import opened Assurance

  datatype Metric = Metric(comp: Interval, contains: bool, distance: Int64, depth: nat, width: Int64)

  /** How many of the first `n` inputs hold the instant. */
  function Depth(ivs: seq<Interval>, t: int, n: nat): nat
    requires n <= |ivs|
  {
    if n == 0 then 0 else Depth(ivs, t, n - 1) + if ivs[n - 1].earliest <= t <= ivs[n - 1].latest then 1 else 0
  }

  function Middle(c: Interval): Int64 {
    ToSigned(c.earliest + TruncDiv(ToSigned(c.latest - c.earliest), 2))
  }

  function Distance(c: Interval, prior: Int64): Int64 {
    if c.earliest <= prior <= c.latest then 0
    else if prior < c.earliest then ToSigned(c.earliest - prior)
    else ToSigned(prior - c.latest)
  }

  function MetricOf(c: Interval, prior: Int64, ivs: seq<Interval>): Metric {
    Metric(c, c.earliest <= prior <= c.latest, Distance(c, prior), Depth(ivs, Middle(c), |ivs|),
           ToSigned(c.latest - c.earliest))
  }

  /** Holding the prior target, then nearness to it, depth, narrowness and the lower endpoint decide. */
  predicate Preferred(a: Metric, b: Metric) {
    if a.contains != b.contains then a.contains
    else if a.distance != b.distance then a.distance < b.distance
    else if a.depth != b.depth then a.depth > b.depth
    else if a.width != b.width then a.width < b.width
    else a.comp.earliest < b.comp.earliest
  }

  lemma PreferredIsTransitive(a: Metric, b: Metric, c: Metric)
    ensures Preferred(a, b) && Preferred(b, c) ==> Preferred(a, c)
    ensures Preferred(a, b) && !Preferred(c, b) ==> Preferred(a, c)
  {
  }

  /** `k` comes first in a stable sort: nothing is preferred to it, and it is to everything before it. */
  ghost predicate ComesFirst(m: seq<Metric>, k: nat) {
    && k < |m|
    && (forall j :: 0 <= j < |m| ==> !Preferred(m[j], m[k]))
    && (forall j :: 0 <= j < k ==> Preferred(m[k], m[j]))
  }

  /** The component is the preferred one. */
  ghost predicate IsPrimary(comps: seq<Interval>, prior: Int64, ivs: seq<Interval>, c: Interval) {
    c in comps && forall d :: d in comps ==> !Preferred(MetricOf(d, prior, ivs), MetricOf(c, prior, ivs))
  }

  /** There is one preferred component when they start at different instants. */
  lemma PrimaryIsUnique(comps: seq<Interval>, prior: Int64, ivs: seq<Interval>, c: Interval, d: Interval)
    requires IsPrimary(comps, prior, ivs, c) && IsPrimary(comps, prior, ivs, d)
    requires forall x, y :: x in comps && y in comps && x.earliest == y.earliest ==> x == y
    ensures c == d
  {
  }

  /** If a component holds the prior target, so does the primary one. */
  lemma PrimaryKeepsPrior(comps: seq<Interval>, prior: Int64, ivs: seq<Interval>, c: Interval, d: Interval)
    requires IsPrimary(comps, prior, ivs, c) && d in comps && d.earliest <= prior <= d.latest
    ensures c.earliest <= prior <= c.latest
  {
    assert !Preferred(MetricOf(d, prior, ivs), MetricOf(c, prior, ivs));
  }

  /** How far the instant is from the interval. */
  function Gap(c: Interval, t: int): int {
    if t < c.earliest then c.earliest - t else if t > c.latest then t - c.latest else 0
  }

  /** The middle instant, in exact arithmetic. */
  function Midpoint(c: Interval): int {
    c.earliest + (c.latest - c.earliest) / 2
  }

  /** All distances and widths fit. */
  ghost predicate AreComparable(comps: seq<Interval>, prior: Int64) {
    forall d :: d in comps ==> d.earliest <= d.latest && FitsInt64(d.latest - d.earliest) && FitsInt64(Gap(d, prior))
  }

  /** The primary component is nearest to the prior target; among those the most inputs hold its middle; among
      those it is the narrowest; and among those it starts first. */
  lemma PrimaryIsNearest(comps: seq<Interval>, prior: Int64, ivs: seq<Interval>, c: Interval, d: Interval)
    requires IsPrimary(comps, prior, ivs, c) && d in comps && AreComparable(comps, prior)
    ensures Gap(c, prior) <= Gap(d, prior)
    ensures Gap(c, prior) == Gap(d, prior) ==> Depth(ivs, Midpoint(c), |ivs|) >= Depth(ivs, Midpoint(d), |ivs|)
    ensures Gap(c, prior) == Gap(d, prior) && Depth(ivs, Midpoint(c), |ivs|) == Depth(ivs, Midpoint(d), |ivs|) ==>
              c.latest - c.earliest <= d.latest - d.earliest
    ensures Gap(c, prior) == Gap(d, prior) && Depth(ivs, Midpoint(c), |ivs|) == Depth(ivs, Midpoint(d), |ivs|)
              && c.latest - c.earliest == d.latest - d.earliest ==>
              c.earliest <= d.earliest
  {
    ExactMetric(c, prior, ivs);
    ExactMetric(d, prior, ivs);
    assert !Preferred(MetricOf(d, prior, ivs), MetricOf(c, prior, ivs));
  }

  lemma ExactMetric(c: Interval, prior: Int64, ivs: seq<Interval>)
    requires c.earliest <= c.latest && FitsInt64(c.latest - c.earliest) && FitsInt64(Gap(c, prior))
    ensures MetricOf(c, prior, ivs) ==
              Metric(c, Gap(c, prior) == 0, Gap(c, prior), Depth(ivs, Midpoint(c), |ivs|), c.latest - c.earliest)
  {
    ToSignedFits(c.latest - c.earliest);
    ToSignedFits(Gap(c, prior));
    ToSignedFits(Midpoint(c));
  }

  method CountDepth(ivs: seq<Interval>, t: Int64) returns (depth: nat)
    ensures depth == Depth(ivs, t, |ivs|)
  {
    depth := 0;
    for i := 0 to |ivs|
      invariant depth == Depth(ivs, t, i)
    {
      if ivs[i].earliest <= t && t <= ivs[i].latest {
        depth := depth + 1;
      }
    }
  }

  /** The head of the stable sort of the metrics. */
  method FirstOf(m: seq<Metric>) returns (k: nat)
    requires m != []
    ensures ComesFirst(m, k)
  {
    k := 0;
    for i := 1 to |m|
      invariant k < i && ComesFirst(m[..i], k)
    {
      if Preferred(m[i], m[k]) {
        forall j | 0 <= j < i
          ensures Preferred(m[i], m[j]) && !Preferred(m[j], m[i])
        {
          assert m[..i][j] == m[j] && m[..i][k] == m[k];
          PreferredIsTransitive(m[i], m[k], m[j]);
          PreferredIsTransitive(m[j], m[i], m[j]);
        }
        k := i;
      } else {
        forall j | 0 <= j < i
          ensures !Preferred(m[j], m[k])
        {
          assert m[..i][j] == m[j];
        }
        forall j | 0 <= j < k
          ensures Preferred(m[k], m[j])
        {
          assert m[..i][j] == m[j];
        }
      }
    }
    assert m[..|m|] == m;
  }

  method Measure(comp: Interval, prior: Int64, ivs: seq<Interval>) returns (m: Metric)
    ensures m == MetricOf(comp, prior, ivs)
  {
    var contains := comp.earliest <= prior && prior <= comp.latest;
    var distance: Int64 := 0;
    if !contains {
      if prior < comp.earliest {
        distance := ToSigned(comp.earliest - prior);
      } else {
        distance := ToSigned(prior - comp.latest);
      }
    }
    var depth := CountDepth(ivs, Middle(comp));
    m := Metric(comp, contains, distance, depth, ToSigned(comp.latest - comp.earliest));
  }

  method SelectPrimaryComponent(comps: seq<Interval>, prior: Int64, ivs: seq<Interval>) returns (c: Interval)
    requires comps != []
    ensures IsPrimary(comps, prior, ivs, c)
  {
    if |comps| == 1 {
      return comps[0];
    }
    var metrics: seq<Metric> := [];
    for i := 0 to |comps|
      invariant |metrics| == i && forall j :: 0 <= j < i ==> metrics[j] == MetricOf(comps[j], prior, ivs)
    {
      var m := Measure(comps[i], prior, ivs);
      metrics := metrics + [m];
    }
    var k := FirstOf(metrics);
    c := metrics[k].comp;
    forall d | d in comps
      ensures !Preferred(MetricOf(d, prior, ivs), MetricOf(c, prior, ivs))
    {
      var j :| 0 <= j < |comps| && comps[j] == d;
      assert !Preferred(metrics[j], metrics[k]);
    }
  }

  /** The target moved into the component. */
  function Clamped(target: Int64, c: Interval): Int64 {
    if target < c.earliest then c.earliest else if target > c.latest then c.latest else target
  }

  /** It is the instant of the component nearest to the target. */
  lemma ClampedIsNearest(target: Int64, c: Interval, t: int)
    requires c.earliest <= c.latest && c.earliest <= t <= c.latest
    ensures c.earliest <= Clamped(target, c) <= c.latest
    ensures var near, far := Clamped(target, c) - target, t - target;
            (if near < 0 then -near else near) <= if far < 0 then -far else far
  {
  }
}
