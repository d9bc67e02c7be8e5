/** Runs of the service: whatever its sources, its oscillator and its callers do. */
module Runs {
  import opened Poll
  import opened Service
  import opened CertifiedRun

  ghost predicate StepIsTaken(u: Setup, states: seq<System>, steps: seq<Step>, n: nat)
    requires n < |steps| && |states| == |steps| + 1
  {
    Next(u, states[n], steps[n], states[n + 1])
  }

  ghost predicate Linked(u: Setup, states: seq<System>, steps: seq<Step>) {
    && |states| == |steps| + 1
    && forall n {:trigger StepIsTaken(u, states, steps, n)} :: 0 <= n < |steps| ==> StepIsTaken(u, states, steps, n)
  }

  /** `states` is a run of the service under the steps. */
  ghost predicate IsRun(u: Setup, states: seq<System>, steps: seq<Step>) {
    ValidConfig(u.config) && Linked(u, states, steps) && Init(u, states[0])
  }

  lemma StepAt(u: Setup, states: seq<System>, steps: seq<Step>, n: nat)
    requires IsRun(u, states, steps) && n < |steps|
    ensures Next(u, states[n], steps[n], states[n + 1])
  {
    assert StepIsTaken(u, states, steps, n);
  }

  lemma StepExtendsHistory(u: Setup, s: System, step: Step, s': System)
    requires Next(u, s, step, s')
    ensures s.history <= s'.history
  {
  }

  lemma {:induction false} HistoriesGrow(u: Setup, states: seq<System>, steps: seq<Step>, i: nat, j: nat)
    requires IsRun(u, states, steps) && i <= j <= |steps|
    ensures states[i].history <= states[j].history
  {
    if i < j {
      HistoriesGrow(u, states, steps, i, j - 1);
      StepAt(u, states, steps, j - 1);
      StepExtendsHistory(u, states[j - 1], steps[j - 1], states[j]);
    }
  }

  ghost predicate IsReadStep(states: seq<System>, steps: seq<Step>, n: nat) {
    n < |steps| && n < |states| && steps[n].Read? && steps[n].reader in states[n].readers
  }

  /** What the reader of step `n` sees: its snapshot may be arbitrarily old. */
  function LookAt(states: seq<System>, steps: seq<Step>, n: nat): Look
    requires n < |steps| && n < |states| && steps[n].Read? && steps[n].reader in states[n].readers
  {
    Look(states[n].readers[steps[n].reader], steps[n].tick.event.reading, steps[n].tick.event.scale)
  }
}
