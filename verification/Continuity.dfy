/** The continuity guard: it relabels the backend's readings with a token that changes whenever a
    discontinuity is observed. A read is one atomic step. */
module Continuity {
  import opened MachineInt
  import opened Assurance

  datatype Guard = Guard(token: UInt64, initialized: bool, lastRaw: Int64, lastToken: UInt64, lastGeneration: UInt64)

  const INITIAL_GUARD: Guard := Guard(1, false, 0, 0, 0)

  /** Raw labels are compared as signed words. */
  predicate IsDiscontinuousReading(curRaw: Int64, prevRaw: Int64, curToken: UInt64, prevToken: UInt64,
                                   curGeneration: UInt64, prevGeneration: UInt64) {
    curRaw < prevRaw || curToken != prevToken || curGeneration != prevGeneration
  }

  function GuardedRead(g: Guard, backend: Reading): (Guard, Reading) {
    var cur := ToSigned(backend.raw);
    if !g.initialized then
      (Guard(g.token, true, cur, backend.token, backend.generation), backend.(token := g.token))
    else if IsDiscontinuousReading(cur, g.lastRaw, backend.token, g.lastToken, backend.generation, g.lastGeneration) then
      var token := (g.token + 1) % TWO_64;
      (Guard(token, true, cur, backend.token, backend.generation), backend.(token := token))
    else
      (g.(lastRaw := if cur > g.lastRaw then cur else g.lastRaw), backend.(token := g.token))
  }

  class ContinuityGuard {
    var token: UInt64
    var initialized: bool
    var lastRaw: Int64
    var lastToken: UInt64
    var lastGeneration: UInt64

    ghost function View(): Guard
      reads this
    {
      Guard(token, initialized, lastRaw, lastToken, lastGeneration)
    }

    constructor ()
      ensures View() == INITIAL_GUARD
    {
      token, initialized, lastRaw, lastToken, lastGeneration := 1, false, 0, 0, 0;
    }

    method Read(backend: Reading) returns (r: Reading)
      modifies this
      ensures (View(), r) == GuardedRead(old(View()), backend)
    {
      var curRaw := ToSigned(backend.raw);
      if !initialized {
        lastRaw, lastToken, lastGeneration := curRaw, backend.token, backend.generation;
        initialized := true;
        return backend.(token := token);
      }
      if IsDiscontinuousReading(curRaw, lastRaw, backend.token, lastToken, backend.generation, lastGeneration) {
        token := (token + 1) % TWO_64;
        lastRaw, lastToken, lastGeneration := curRaw, backend.token, backend.generation;
      } else if curRaw > lastRaw {
        lastRaw := curRaw;
      }
      r := backend.(token := token);
    }
  }

  // ----- what the token means over a run -----

  /** The backend readings `a` and then `b` show a discontinuity. */
  predicate Break(a: Reading, b: Reading) {
    ToSigned(b.raw) < ToSigned(a.raw) || b.token != a.token || b.generation != a.generation
  }

  /** The number of breaks among the first `n` reads. */
  function Breaks(backend: seq<Reading>, n: nat): nat
    requires n <= |backend|
  {
    if n <= 1 then 0
    else Breaks(backend, n - 1) + if Break(backend[n - 2], backend[n - 1]) then 1 else 0
  }

  /** The guard after the first `n` reads. */
  function GuardAfter(backend: seq<Reading>, n: nat): Guard
    requires n <= |backend|
  {
    if n == 0 then INITIAL_GUARD else GuardedRead(GuardAfter(backend, n - 1), backend[n - 1]).0
  }

  /** The reading returned by the read at position `i`. */
  function LabelledRead(backend: seq<Reading>, i: nat): Reading
    requires i < |backend|
  {
    GuardedRead(GuardAfter(backend, i), backend[i]).1
  }

  /** The guard remembers exactly the last backend reading, and its token counts the breaks. */
  lemma {:induction false} TokenCountsBreaks(backend: seq<Reading>, i: nat)
    requires i < |backend|
    ensures var last, token := backend[i], (1 + Breaks(backend, i + 1)) % TWO_64;
            && GuardAfter(backend, i + 1) == Guard(token, true, ToSigned(last.raw), last.token, last.generation)
            && LabelledRead(backend, i) == last.(token := token)
  {
    if i > 0 {
      TokenCountsBreaks(backend, i - 1);
      var last := backend[i - 1];
      ReadMovesOn((1 + Breaks(backend, i)) % TWO_64, last, backend[i]);
      NextCount(1 + Breaks(backend, i));
    }
  }

  /** What one read does to a guard that remembers the reading before it. */
  lemma ReadMovesOn(token: UInt64, last: Reading, next: Reading)
    ensures var t := if Break(last, next) then (token + 1) % TWO_64 else token;
            GuardedRead(Guard(token, true, ToSigned(last.raw), last.token, last.generation), next)
            == (Guard(t, true, ToSigned(next.raw), next.token, next.generation), next.(token := t))
  {
  }

  lemma NextCount(n: nat)
    ensures (n % TWO_64 + 1) % TWO_64 == (n + 1) % TWO_64
  {
  }

  /** Nothing was observed between the reads at positions `i` and `j` that would end continuity. */
  predicate UnbrokenBetween(backend: seq<Reading>, i: nat, j: nat)
    requires i <= j < |backend|
  {
    forall m :: i < m <= j ==> !Break(backend[m - 1], backend[m])
  }

  lemma {:induction false} BreaksGrow(backend: seq<Reading>, i: nat, j: nat)
    requires i <= j < |backend|
    ensures Breaks(backend, i + 1) <= Breaks(backend, j + 1)
    ensures Breaks(backend, i + 1) == Breaks(backend, j + 1) <==> UnbrokenBetween(backend, i, j)
  {
    if i < j {
      BreaksGrow(backend, i, j - 1);
    }
  }

  /** Two readings carry the same token exactly when no raw regression, backend-token change or
      generation change was observed between them. */
  lemma SameTokenMeansUnbroken(backend: seq<Reading>, i: nat, j: nat)
    requires i <= j < |backend| && Breaks(backend, |backend|) < TWO_64
    ensures LabelledRead(backend, i).token == LabelledRead(backend, j).token <==> UnbrokenBetween(backend, i, j)
  {
    TokenCountsBreaks(backend, i);
    TokenCountsBreaks(backend, j);
    BreaksGrow(backend, i, j);
    BreaksGrow(backend, j, |backend| - 1);
    TokensOfCounts(Breaks(backend, i + 1), Breaks(backend, j + 1));
  }

  lemma TokensOfCounts(x: nat, y: nat)
    requires x <= y < TWO_64
    ensures (1 + x) % TWO_64 == (1 + y) % TWO_64 <==> x == y
  {
  }
}
