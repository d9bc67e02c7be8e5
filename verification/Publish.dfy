/** Snapshots, the guard every publication passes, and the publisher that holds the active one. */
module Publish {
  import opened MachineInt
  import opened Outcomes
  import opened Assurance
  import Estimate

  /** `A` is how the anchor is held, as in the assurance state. */
  datatype Snapshot<A> = Snapshot(
    mapping: Estimate.Mapping,
    assurance: ClockState<A>,
    scale: Scale,
    token: UInt64,
    leapId: Digest,
    configId: Digest,
    epochId: Digest,
    generation: UInt64)

  type View = Snapshot<Option<Anchor>>

  datatype Rejection = ScaleInvalid | GenerationNotMonotonic | StatusDisagreement | AnchorDisordered

  /** Why the snapshot may not replace the current one, if it may not. */
  function ValidatePublication(curr: View, next: View): (r: Option<Rejection>)
    ensures r.None? <==>
              && 0 < next.scale.low <= next.scale.upp
              && curr.generation < next.generation
              && (Active(next.assurance.status) <==> next.assurance.anchor.Some?)
              && (next.assurance.anchor.Some? ==>
                    next.assurance.anchor.value.lower <= next.assurance.anchor.value.upper)
  {
    if next.scale.low <= 0 || next.scale.low > next.scale.upp then Some(ScaleInvalid)
    else if next.generation <= curr.generation then Some(GenerationNotMonotonic)
    else
      match next.assurance.status
      case Synced | Holdover =>
        if next.assurance.anchor.None? then Some(StatusDisagreement)
        else if next.assurance.anchor.value.lower > next.assurance.anchor.value.upper then Some(AnchorDisordered)
        else None
      case Unanchored | Desync =>
        if next.assurance.anchor.Some? then Some(StatusDisagreement) else None
  }

  /** A snapshot of a well-formed state is rejected only for its envelope or its generation; the
      next generation is refused exactly when the counter wraps. */
  lemma WellFormedIsPublishable(curr: View, next: View)
    requires WellFormed(next.assurance)
    requires next.generation == (curr.generation + 1) % TWO_64
    ensures ValidatePublication(curr, next).None? <==>
              0 < next.scale.low <= next.scale.upp && curr.generation < UINT64_MAX
  {
    if curr.generation < UINT64_MAX {
      assert next.generation == curr.generation + 1;
    } else {
      assert next.generation == 0;
    }
  }
}
