/** One polling round: every sample is brought to the same reading, every domain gets one vote,
    and the votes are reduced to a hull. */
module Poll {
  import opened MachineInt
  import opened Outcomes
  import opened Assurance
  import opened TrueTime
  import opened Coverage

  /** What the interval of a completed query says: it describes the time at `rawMid`. */
  datatype Measurement = Measurement(rawMid: UInt64, rawMidBound: UInt64, hard: Interval)

  datatype SourceResult = SourceResult(domain: string, measurement: Option<Measurement>)

  datatype Config = Config(
    faultBudget: int,
    minVotingDomains: int,
    minHonestCoverage: int,
    maxWidth: Int64,
    maxAge: Int64,
    maxHoldoverAge: Int64)

  /** The limits a configuration must meet before an engine is built from it. */
  predicate ValidConfig(c: Config) {
    && c.faultBudget >= 0
    && c.minVotingDomains >= 2 * c.faultBudget + 1
    && c.minHonestCoverage >= 1
    && c.maxAge >= 0 && c.maxHoldoverAge >= 0
    && c.maxWidth > 0
  }

  /** The two readings of a round and the envelopes seen with them. */
  datatype Window = Window(start: Reading, startScale: Scale, end: Reading, endScale: Scale)

  predicate Unbroken(w: Window) {
    && w.end.token == w.start.token && w.end.generation == w.start.generation
    && w.start.raw <= w.end.raw && w.endScale == w.startScale
  }

  function EffectiveAge(c: Config): Int64 {
    if c.maxAge <= 0 then 10_000_000_000 else c.maxAge
  }

  function SampleAnchor(m: Measurement, w: Window): Anchor {
    Anchor(m.rawMid, m.hard.earliest, m.hard.latest, w.startScale, m.rawMidBound, 0, 0, 0, 0, [], [], 0, 0,
           w.end.raw, w.end.token)
  }

  /** The sample's interval at the round's end reading, if the sample is eligible. */
  function Accepted(s: SourceResult, w: Window, c: Config): Option<Interval> {
    if s.measurement.None? || s.domain == "" then None
    else
      var m := s.measurement.value;
      if m.rawMid < w.start.raw || m.rawMid > w.end.raw || w.end.raw - m.rawMid > EffectiveAge(c) then None
      else
        match Propagated(SampleAnchor(m, w), w.end, c.maxWidth)
        case Success(i) => Some(i)
        case Failure(_) => None
  }

  /** The accepted intervals of one domain, in order of arrival. */
  function Evidence(results: seq<SourceResult>, domain: string, w: Window, c: Config): seq<Interval> {
    if results == [] then []
    else
      var last := results[|results| - 1];
      Evidence(results[..|results| - 1], domain, w, c)
      + if last.domain == domain && Accepted(last, w, c).Some? then [Accepted(last, w, c).value] else []
  }

  function VoteOf(results: seq<SourceResult>, domain: string, w: Window, c: Config): Option<Vote> {
    Consolidated(domain, Evidence(results, domain, w, c))
  }

  /** One vote for every domain whose evidence is consistent, and no other. */
  ghost predicate AreVotes(votes: seq<Vote>, results: seq<SourceResult>, w: Window, c: Config) {
    && (forall i, j :: 0 <= i < j < |votes| ==> votes[i].domain != votes[j].domain)
    && (forall v <- votes :: VoteOf(results, v.domain, w, c) == Some(v))
    && (forall d: string :: VoteOf(results, d, w, c).Some? ==> VoteOf(results, d, w, c).value in votes)
  }

  function Intervals(votes: seq<Vote>): seq<Interval> {
    seq(|votes|, i requires 0 <= i < |votes| => votes[i].interval)
  }

  lemma EvidenceNext(results: seq<SourceResult>, n: nat, domain: string, w: Window, c: Config)
    requires n < |results|
    ensures Evidence(results[..n + 1], domain, w, c) ==
              if results[n].domain == domain && Accepted(results[n], w, c).Some?
              then Evidence(results[..n], domain, w, c) + [Accepted(results[n], w, c).value]
              else Evidence(results[..n], domain, w, c)
  {
    assert results[..n + 1][..n] == results[..n];
  }

  method GatherEvidence(results: seq<SourceResult>, w: Window, c: Config) returns (byDomain: map<string, seq<Interval>>)
    ensures forall d: string :: d in byDomain <==> Evidence(results, d, w, c) != []
    ensures forall d <- byDomain :: byDomain[d] == Evidence(results, d, w, c)
  {
    byDomain := map[];
    for n := 0 to |results|
      invariant forall d: string :: d in byDomain <==> Evidence(results[..n], d, w, c) != []
      invariant forall d <- byDomain :: byDomain[d] == Evidence(results[..n], d, w, c)
    {
      var s := results[n];
      var accepted := Accepted(s, w, c);
      forall d: string
        ensures Evidence(results[..n + 1], d, w, c) ==
                  if accepted.Some? && s.domain == d then Evidence(results[..n], d, w, c) + [accepted.value]
                  else Evidence(results[..n], d, w, c)
      {
        EvidenceNext(results, n, d, w, c);
      }
      match accepted {
        case Some(i) =>
          byDomain := byDomain[s.domain := (if s.domain in byDomain then byDomain[s.domain] else []) + [i]];
        case None =>
      }
    }
    assert results[..|results|] == results;
  }

  /** Domains are visited in an arbitrary order; the source sorts them. */
  method CollectVotes(byDomain: map<string, seq<Interval>>, ghost results: seq<SourceResult>, ghost w: Window, ghost c: Config)
    returns (votes: seq<Vote>)
    requires forall d: string :: d in byDomain <==> Evidence(results, d, w, c) != []
    requires forall d <- byDomain :: byDomain[d] == Evidence(results, d, w, c)
    ensures AreVotes(votes, results, w, c)
  {
    votes := [];
    var rest := byDomain.Keys;
    while rest != {}
      invariant rest <= byDomain.Keys
      invariant forall i, j :: 0 <= i < j < |votes| ==> votes[i].domain != votes[j].domain
      invariant forall v <- votes :: VoteOf(results, v.domain, w, c) == Some(v) && v.domain !in rest
      invariant forall d: string :: VoteOf(results, d, w, c).Some? ==> d in rest || VoteOf(results, d, w, c).value in votes
      decreases rest
    {
      var d :| d in rest;
      var vote := ConsolidateDomainIntervals(d, byDomain[d]);
      rest := rest - {d};
      if vote.Some? {
        votes := votes + [vote.value];
      }
    }
  }

  /** A selected round: the consensus and how long it may be used. */
  datatype Selection = Selection(consensus: Consensus, validUntil: UInt64)

  ghost predicate IsSelection(s: Selection, votes: seq<Vote>, results: seq<SourceResult>, w: Window, c: Config) {
    && Unbroken(w)
    && AreVotes(votes, results, w, c)
    && IsConsensus(Intervals(votes), c.faultBudget, s.consensus)
    && s.validUntil == w.end.raw + EffectiveAge(c)
  }

  /** The part of a poll between its last query and publication. */
  method SelectRound(w: Window, results: seq<SourceResult>, c: Config)
    returns (r: Result<Selection>, votes: seq<Vote>)
    ensures r.Success? ==> IsSelection(r.value, votes, results, w, c)
    ensures r.Success? <==>
              && w.end.token == w.start.token && w.end.generation == w.start.generation
              && w.start.raw <= w.end.raw && w.endScale == w.startScale
              && w.end.raw + (if c.maxAge <= 0 then 10_000_000_000 else c.maxAge) <= UINT64_MAX
              && |votes| >= c.minVotingDomains && |votes| >= 1 && |votes| >= 2 * c.faultBudget + 1
              && |votes| - c.faultBudget >= c.minHonestCoverage && |votes| - c.faultBudget >= 1
              && exists t: real :: |Covering(Intervals(votes), t)| >= |votes| - c.faultBudget
    ensures Unbroken(w) && w.end.raw <= UINT64_MAX - EffectiveAge(c) ==> AreVotes(votes, results, w, c)
  {
    votes := [];
    if !Unbroken(w) {
      return Failure(RawChanged), votes;
    }
    var maxAge := EffectiveAge(c);
    if w.end.raw > UINT64_MAX - maxAge {
      return Failure(Overflow), votes;
    }
    var byDomain := GatherEvidence(results, w, c);
    votes := CollectVotes(byDomain, results, w, c);
    var minDomains := if c.minVotingDomains <= 0 then 1 else c.minVotingDomains;
    VotesAreOrdered(votes, results, w, c);
    if |votes| < minDomains {
      return Failure(InsufficientVotes), votes;
    }
    var minHonest := if c.minHonestCoverage <= 0 then 1 else c.minHonestCoverage;
    var consensus := ComputeAssuranceConsensus(Intervals(votes), c.faultBudget, minDomains, minHonest, 0, 0);
    if consensus.Failure? {
      return Failure(consensus.error), votes;
    }
    r := Success(Selection(consensus.value, w.end.raw + maxAge));
  }

  lemma VotesAreOrdered(votes: seq<Vote>, results: seq<SourceResult>, w: Window, c: Config)
    requires AreVotes(votes, results, w, c)
    ensures Ordered(Intervals(votes))
  {
    forall i | 0 <= i < |votes|
      ensures votes[i].interval.earliest <= votes[i].interval.latest
    {
      assert VoteOf(results, votes[i].domain, w, c) == Some(votes[i]);
    }
  }

  // ----- what honest samples guarantee -----

  /** The sample was taken at `m`, within the round, and its interval holds the time of `m`. */
  ghost predicate TakenAt(s: Measurement, m: Event, w: Window, end: Event) {
    && Labelled(m) && Follows(m, end)
    && m.reading.raw == s.rawMid && m.reading.bound == s.rawMidBound
    && m.reading.token == w.end.token && m.scale == w.startScale
    && Encloses(s.hard, m.time)
  }

  ghost predicate HonestSample(s: SourceResult, w: Window, end: Event) {
    s.measurement.Some? ==> exists m: Event :: TakenAt(s.measurement.value, m, w, end)
  }

  /** All samples of the domain are honest. */
  ghost predicate HonestDomain(results: seq<SourceResult>, domain: string, w: Window, end: Event) {
    forall i :: 0 <= i < |results| && results[i].domain == domain ==> HonestSample(results[i], w, end)
  }

  lemma AcceptedEncloses(s: SourceResult, w: Window, c: Config, end: Event)
    requires Labelled(end) && end.reading == w.end && end.scale == w.startScale
    requires HonestSample(s, w, end) && Accepted(s, w, c).Some?
    ensures Encloses(Accepted(s, w, c).value, end.time)
  {
    var sample := s.measurement.value;
    var m :| TakenAt(sample, m, w, end);
    PropagationEncloses(SampleAnchor(sample, w), m, end, c.maxWidth);
  }

  lemma {:induction false} HonestEvidenceIsCommon(results: seq<SourceResult>, domain: string, w: Window, c: Config, end: Event)
    requires Labelled(end) && end.reading == w.end && end.scale == w.startScale
    requires HonestDomain(results, domain, w, end)
    ensures CommonTo(Evidence(results, domain, w, c), end.time)
  {
    if results != [] {
      var n := |results| - 1;
      forall i | 0 <= i < n && results[..n][i].domain == domain
        ensures HonestSample(results[..n][i], w, end)
      {
        assert results[..n][i] == results[i];
      }
      HonestEvidenceIsCommon(results[..n], domain, w, c, end);
      if results[n].domain == domain && Accepted(results[n], w, c).Some? {
        AcceptedEncloses(results[n], w, c, end);
      }
    }
  }

  /** An honest domain with any accepted evidence is consistent, and its vote holds true time at
      the end reading. */
  lemma HonestVoteHoldsTrueTime(results: seq<SourceResult>, domain: string, w: Window, c: Config, end: Event)
    requires Labelled(end) && end.reading == w.end && end.scale == w.startScale
    requires HonestDomain(results, domain, w, end) && Evidence(results, domain, w, c) != []
    ensures VoteOf(results, domain, w, c).Some? && Encloses(VoteOf(results, domain, w, c).value.interval, end.time)
  {
    HonestEvidenceIsCommon(results, domain, w, c, end);
    ConsolidationIsIntersection(domain, Evidence(results, domain, w, c), end.time);
  }

  /** The votes that exclude the instant. */
  ghost function Excluding(ivs: seq<Interval>, t: real): set<int> {
    set i | 0 <= i < |ivs| && !Encloses(ivs[i], t)
  }

  /** With at most F voting domains excluding true time, the hull holds it. */
  lemma HullHoldsTrueTime(s: Selection, votes: seq<Vote>, results: seq<SourceResult>, w: Window, c: Config, time: real)
    requires IsSelection(s, votes, results, w, c) && c.faultBudget >= 0
    requires |Excluding(Intervals(votes), time)| <= c.faultBudget
    ensures Encloses(s.consensus.hull, time)
  {
    HullHoldsSharedInstant(Intervals(votes), c.faultBudget, s.consensus.components,
                           Excluding(Intervals(votes), time), time);
  }

  /** A voting domain that excludes true time contributed a dishonest sample: so at most F
      domains with dishonest samples is enough. */
  lemma ExcludingMeansDishonest(votes: seq<Vote>, results: seq<SourceResult>, w: Window, c: Config, end: Event, i: int)
    requires Labelled(end) && end.reading == w.end && end.scale == w.startScale
    requires AreVotes(votes, results, w, c) && i in Excluding(Intervals(votes), end.time)
    ensures !HonestDomain(results, votes[i].domain, w, end)
  {
    var domain := votes[i].domain;
    assert VoteOf(results, domain, w, c) == Some(votes[i]);
    if HonestDomain(results, domain, w, end) {
      HonestVoteHoldsTrueTime(results, domain, w, c, end);
    }
  }

  /** Which of the first `n` votes are from these domains. */
  ghost function VotesFrom(votes: seq<Vote>, n: nat, domains: set<string>): set<int>
    requires n <= |votes|
  {
    set i | 0 <= i < n && votes[i].domain in domains
  }

  lemma VotesFromNext(votes: seq<Vote>, n: nat, domains: set<string>)
    requires n < |votes| && forall i, j :: 0 <= i < j < |votes| ==> votes[i].domain != votes[j].domain
    ensures votes[n].domain !in domains ==> VotesFrom(votes, n + 1, domains) == VotesFrom(votes, n, domains)
    ensures votes[n].domain in domains ==>
              VotesFrom(votes, n + 1, domains) == VotesFrom(votes, n, domains - {votes[n].domain}) + {n}
  {
  }

  /** No more votes than domains. */
  lemma {:induction false} OneVotePerDomain(votes: seq<Vote>, n: nat, domains: set<string>)
    requires n <= |votes| && forall i, j :: 0 <= i < j < |votes| ==> votes[i].domain != votes[j].domain
    ensures |VotesFrom(votes, n, domains)| <= |domains|
  {
    if n == 0 {
      assert VotesFrom(votes, n, domains) == {};
    } else {
      VotesFromNext(votes, n - 1, domains);
      var last := votes[n - 1].domain;
      OneVotePerDomain(votes, n - 1, if last in domains then domains - {last} else domains);
    }
  }

  /** If only the samples of `faulty` domains may lie, no more votes than those exclude true time. */
  lemma FewFaultyDomains(votes: seq<Vote>, results: seq<SourceResult>, w: Window, c: Config, end: Event,
                         faulty: set<string>)
    requires Labelled(end) && end.reading == w.end && end.scale == w.startScale
    requires AreVotes(votes, results, w, c)
    requires forall d: string :: d !in faulty ==> HonestDomain(results, d, w, end)
    ensures |Excluding(Intervals(votes), end.time)| <= |faulty|
  {
    var out := Excluding(Intervals(votes), end.time);
    var from := VotesFrom(votes, |votes|, faulty);
    forall i | i in out
      ensures i in from
    {
      ExcludingMeansDishonest(votes, results, w, c, end, i);
    }
    OneVotePerDomain(votes, |votes|, faulty);
    SubsetSize(out, from);
  }
}
