# Certified time, verified

gstime turns delayed, rounded and partly faulty time samples into an interval that is certified to
contain true time, and keeps that interval sound across rounds, holdover, clock faults and leap
seconds. This project models that chain in Dafny, with the timescales and the authenticated transport
it rests on, and proves what it promises. `dafny verify dfyconfig.toml` checks everything.

The modules follow the program:

- `MachineInt`, `FixedPoint`: 64-bit wrap-around and Q16.48 products rounded outwards.
- `Assurance`, `AnchorRules`, `TrueTime`: anchor propagation and the UNANCHORED / SYNCED / HOLDOVER /
  DESYNC state; exactly when a bound propagates and where to, what a round makes of it, and soundness and
  tightness against every physical history.
- `Coverage`, `Primary`, `Poll`: votes per fault domain, the N-F coverage sweep, the primary component,
  the selected round.
- `Continuity`, `Publish`, `Service`, `ClockServices`: the guard, the publication rule, and the
  service with its anchors as objects that published snapshots share.
- `CertifiedRun`, `Runs`: a transition system in which poll, writer, publication and readers of
  arbitrarily stale snapshots interleave, with a ghost true time.
- `StepRules`, `Answers`: what each step does and what each caller is told, written out field by field.
- `FailSafe`: what holds in every run of it, whatever sources and oscillator do.
- `RunSafety`: truth in every run in which they can be trusted.
- `Refinement`: every call of the service's objects has the effect of steps of that system.
- `QueryTruth`: from the exchange with a server, over leap seconds and votes, to what is served.
- `Estimate`: the slewed affine clock with phase debt.
- `Leap`, `PosixTime`, `LeapCodec`: labels, POSIX timestamps and the encoding of leap histories.
- `FourTimestamps`, `MeasurementRules`: the NTP exchange.
- `Polynomial`, `Bytes`, `Polyval`, `Cmac`, `Siv`, `GcmSiv`, `SealingRules`, `Algorithms`: the field, the codes and
  both AEADs over arbitrary block ciphers, byte by byte, and that they are what the packets need. A 64-bit word is its 64 bits.
- `Octets`, `Extension`, `Budget`, `Packet`, `Records`, `KeyExchange`, `CookieJars`: extension fields,
  budgets, protected packets, key establishment and the cookie inventory.

Conventions. An operation that changes state is a method of a class, or a loop over locals and arrays,
and is proved against a function of the old state; the laws are lemmas about those functions. `Int64`
and `UInt64` are subset types and every operation that can wrap goes through `ToSigned` or
`ToUnsigned`. True times are real numbers. A lawful history (`TrueTime.Lawful`) puts the true coordinate
of every reading within its read bound and lets true time advance at a rate inside the scale envelope
over every stretch of reads that saw one continuity token and one envelope.

## Results worth knowing

- Certified intervals, set watermarks and certain answers are true, and rounds never conflict, in every
  trusted run, for readers of any snapshot (`RunSafety.ServedTimeIsTrue`, `CertainAnswersAreTrue`,
  `ConflictNeverOccurs`): at most F votes of a selected round exclude true time, and the oscillator keeps
  its envelope. `QueryTruth.HonestServersServeTrueTime` concludes the same from at most F domains with a
  server whose stamps are worse than it claims.
- Without any of that trust, evidence is served only while in force, publication does not get stuck and
  watermarks do not fall: `FailSafe`.
- The code compares the envelope at the anchor with the one at the reading. An envelope that changed in
  between and came back under the same token goes unnoticed, and then true time may leave what is
  served: `TrueTime.EnvelopeConditionIsExact`. A lawful world without that (`TrueTime.Settled`) is one in
  which the oscillator keeps its envelope: `CertifiedRun.SoundIsPhysical`.
- The comment at service.go:356 calls a commit guaranteed. That is so exactly for timestamps at or
  above -2^62, the value a watermark has before any round sets it: `RunSafety.CommitGuaranteeIsExact`.
  Below it `CommitBelowUnsetWatermark` gives the run.
- A rate 1 + base + slew of at least zero does not keep estimate readings from falling by more than
  a nanosecond, because the slew stops when the debt is paid: `Estimate.FallingExample`, with the slew
  the clock itself plans. Where two readings on one side of the slew show it, they keep that bound
  exactly if 1 + base is at least zero as well: `Estimate.FallBoundIsExact`.
- Far-off transitions can be pushed beyond the 64-bit range by the deltas of earlier ones, and then the
  loop takes them for passed: `Leap.WalkedLabelIsLabel` is the exact condition, `Leap.WrongLabel` a case.
- A label whose instant does not fit 64 bits converts without an error to a wrapped instant, and a
  deleted second converts to the instant of another label. `Leap.LabelRoundTrip` gives the exact
  condition under which a label comes back.
- `InitialTaiMinusUtc` enters the encoding only, never a conversion, as core/leap.go:291 says.

## Model

| member | source | states |
|---|---|---|
| FixedPoint.Product | core/fixedpoint.go:79-103 | the two result words are the signed 128-bit product, for every pair of operands |
| FixedPoint.OverflowIsExact | core/fixedpoint.go:105-112 | the high-word test is true exactly when the product divided by 2^48 leaves the signed 64-bit range |
| FixedPoint.MulFloorOfWords | core/fixedpoint.go:114-122 | the word arithmetic returns floor(a*b/2^48), and fails exactly when that leaves the range |
| FixedPoint.MulCeilOfWords | core/fixedpoint.go:166-207 | the word arithmetic returns the ceiling, and fails exactly when the floor or the ceiling leaves the range |
| FixedPoint.CeilingFromFloor | core/fixedpoint.go:166-181 | a remainder in the low word is what separates ceiling from floor |
| FixedPoint.FloorDiv | core/fixedpoint.go:230-237 | for divisors of either sign, the correction of the truncated quotient gives the floor, wrapped where it does not fit |
| FixedPoint.CeilDiv | core/fixedpoint.go:240-247 | for divisors of either sign, it gives the ceiling, wrapped where it does not fit |
| Assurance.CheckedSumIsExact | assurance/assurance.go:131-156 | the checked sum is the exact sum, and fails exactly when a partial sum leaves the range |
| Assurance.CheckedInstantAdd | assurance/assurance.go:131-140 | the accumulating loop refines that sum |
| Assurance.PropagatedEnds | assurance/assurance.go:55-129 | a propagated interval is the anchor moved by the outward-rounded scale envelope and both read bounds |
| AnchorRules.PropagationExactly | assurance/assurance.go:55-129 | in exact arithmetic: propagation succeeds if and only if there is an anchor, the reading is within its validity and token, the envelope valid, and every span, product, sum and the width fit; it then gives the two ends, and otherwise the first obstacle |
| AnchorRules.IntersectionIsTaken | assurance/assurance.go:220-296 | a round that finds a usable bound under its own history, configuration, token and envelope adopts exactly the instants that both allow, field by field; if there is none it conflicts, desynchronizes, and keeps the watermark |
| AnchorRules.HullIsAdopted | assurance/assurance.go:198-296 | in every other case a hull that is ordered and narrower than the limit is adopted as it is |
| AnchorRules.WideHullIsRefused | assurance/assurance.go:187-217 | any other hull changes nothing |
| TrueTime.PropagationEncloses | assurance/assurance.go:55-129 | if the anchor described the time at its reading, the propagated interval encloses true time at every later reading of the same clock |
| TrueTime.PropagationIsTight | assurance/assurance.go:55-129 | for both ends there is a physical history consistent with anchor and reading that comes within one nanosecond of the end |
| TrueTime.EnvelopeConditionIsExact | service.go:212-219 | comparing the envelopes at anchor and reading only is right in every physical world exactly when no read in between saw another envelope; otherwise one lets true time escape |
| Assurance.ValidateHull | assurance/assurance.go:187-195 | a hull passes exactly when it is ordered and narrower than the limit, without wrap-around |
| Assurance.RepeatedFailuresNeverExtend | assurance/assurance.go:305-322 | any number of failed rounds leaves the deadline at the lesser of itself and the last successful round plus the cap, and the rest of the anchor alone |
| ClockServices.AssuranceClock.ProcessFullRound | assurance/assurance.go:198-296 | the in-place update is the state function; no anchor that existed before is changed |
| ClockServices.AssuranceClock.BeginHoldover | assurance/assurance.go:305-322 | the in-place update is the state function; shortening the deadline copies the anchor |
| ClockServices.AssuranceClock.TransitionToDesync | assurance/assurance.go:325-333 | the in-place update is the state function |
| ClockServices.AssuranceClock.EvaluateAt | assurance/assurance.go:336-368 | evaluation reports the status, the interval and the reason the state function gives |
| Coverage.ConsolidationIsIntersection | source/assurance.go:24-60 | a vote holds exactly the instants common to all intervals of its domain, and there is none exactly when they have no common instant |
| Coverage.ConsolidateDomainIntervals | source/assurance.go:24-60 | the loop over running bounds computes that vote |
| Coverage.ComputeCoverageComponents | source/assurance.go:75-150 | the components are strictly ascending, disjoint, and their union is exactly the instants in at least N-F of the intervals |
| Coverage.Sweep | source/assurance.go:110-147 | the event loop opens and closes components at the right events, before any merging |
| Coverage.MergeTouchingComponents | source/assurance.go:152-171 | the merge pass returns strictly ascending components unchanged |
| Coverage.ComponentsAreFew | source/assurance.go:75-150 | there are at most F+1 components |
| Coverage.HullIsSpanned | source/assurance.go:246-280 | at least N-2F input intervals each contain the whole hull |
| Coverage.CoveredByHonest | source/assurance.go:75-150 | every point of a component lies in an honest interval when at most F inputs are faulty |
| Coverage.HullHoldsSharedInstant | source/assurance.go:246-280 | an instant shared by all but F of the inputs lies in the hull |
| Coverage.ComputeAssuranceConsensus | source/assurance.go:246-304 | success exactly for enough votes and covered instants, with components, hull, primary component and clamped target; a refusal says which check failed first |
| Primary.SelectPrimaryComponent | source/assurance.go:174-243 | the component chosen is one to which no other is preferred, in the order of the tie-breaking rules |
| Primary.PrimaryIsUnique | source/assurance.go:174-243 | components that start at different instants have one preferred component, so the sort need not be stable |
| Primary.PrimaryKeepsPrior | source/assurance.go:218-223 | if a component holds the prior target, the preferred one does |
| Primary.PrimaryIsNearest | source/assurance.go:174-243 | in the ends of the components: the primary one is nearest to the prior target, among those deepest at its middle, then narrowest, then first |
| Primary.ClampedIsNearest | source/assurance.go:284-292 | the clamped target is the instant of the component nearest to the target |
| Primary.FirstOf | source/assurance.go:218-242 | what a stable sort puts first: nothing is preferred to it, and it is preferred to everything before it |
| Poll.GatherEvidence | sync.go:244-262 | the loop collects, per domain and in order, the propagated intervals of exactly the eligible samples |
| Poll.CollectVotes | sync.go:263-274 | there is one vote for every domain with consistent evidence, and no other |
| Poll.SelectRound | sync.go:234-302 | a round is selected exactly when the clock is unbroken, the deadline representable, the votes enough and some instant covered |
| Poll.HonestVoteHoldsTrueTime | sync.go:244-274 | the vote of a domain whose samples are all honest exists and holds true time at the round's reading |
| Poll.HullHoldsTrueTime | sync.go:291-298 | with at most F votes excluding true time, the hull holds it |
| Poll.FewFaultyDomains | sync.go:244-274 | no more votes exclude true time than there are domains with dishonest samples |
| Answers.SampleCountsExactly | sync.go:244-261 | a sample counts if and only if it names a domain, lies within the round and the configured age or ten seconds, and nothing keeps its interval from being moved to the round's reading; the moved interval counts |
| Continuity.ContinuityGuard.Read | clock/continuity.go:28-56 | one read updates the guard and labels the reading as the state function says |
| Continuity.TokenCountsBreaks | clock/continuity.go:28-66 | after any reads, the guard remembers the last backend reading and its token is one plus the number of breaks |
| Continuity.SameTokenMeansUnbroken | clock/continuity.go:28-66 | two readings carry the same token exactly when no raw regression, token change or generation change was observed between them |
| Publish.WellFormedIsPublishable | publish/snapshot.go:33-62 | a well-formed state with the next generation is refused only for an invalid scale or an exhausted counter |
| ClockServices.Publisher.Publish | publish/publisher.go:25-36 | the active snapshot is replaced exactly when validation passes |
| ClockServices.Publisher.Acquire | publish/publisher.go:39-41 | readers get the active snapshot |
| Service.HullCentre | service.go:433-436 | the centre is the floored midpoint and lies in the hull, also across zero and at the ends of the range |
| ClockServices.ClockService.PublishCurrent | service.go:503-523 | one read, then a snapshot of the writer's whole state with the next generation |
| ClockServices.ClockService.PublishSyncRound | service.go:413-439 | the whole effect of a selected round on guard, estimate, assurance and publication; an invalid hull changes nothing |
| ClockServices.ClockService.MarkRoundFailure | service.go:221-239 | the whole effect of a failed round, with its second look at the held-over anchor |
| ClockServices.ClockService.Invalidate | service.go:494-499 | desynchronizes and publishes; no anchor that existed before is changed |
| ClockServices.ClockService.InitializeEstimate | service.go:483-488 | restarts the estimate and publishes |
| ClockServices.ClockService.Now | service.go:70-132 | one snapshot and one reading give interval, estimate, symmetric epsilon, status, reason, origin, fault budget, domains and age |
| Answers.NowExactly | service.go:70-132 | an interval is served if and only if the snapshot is synchronized or held over, the envelope is the anchor's, and nothing keeps the anchor from being moved to the reading; then it is the moved one, and otherwise the status and reason tell the first obstacle |
| Answers.ServedEstimate | service.go:70-76 | in range, the estimate is the published mapping at the raw instant of the reading |
| Answers.EvaluationExactly | assurance/assurance.go:336-368 | the clock's own evaluation gives the same for its state, with its own reasons |
| Service.ServedAge | service.go:88-106 | a served interval has an active status and an unexpired anchor, and its age is the raw time since the last successful round |
| ClockServices.ClockService.After | service.go:262-274 | the decision for the interval served, with its status and reason; one read |
| ClockServices.ClockService.Before | service.go:277-289 | the decision for the interval served, with its status and reason; one read |
| ClockServices.ClockService.PastWatermark | service.go:292-320 | the watermark or the first refusal, in the order of the checks, with the status; the clock is read only if no earlier check refuses |
| Answers.WatermarkExactly | service.go:292-320 | a watermark is answered if and only if the identities agree and an interval would be served, and it is the snapshot's; otherwise the first refusal |
| Answers.AnswersNeverFall | service.go:292-320 | in any run, watermarks handed out from snapshots published one after the other never fall |
| ClockServices.CommitWait | service.go:323-369 | a wait commits exactly when the first look that decides shows a watermark past the timestamp |
| CertifiedRun.RoundIsConsistent | assurance/assurance.go:198-296 | a hull holding true time always meets the bound carried over from an anchor that described true time: no conflict |
| CertifiedRun.StepKeepsInv | sync.go:180-310 | the invariant of the transition system is kept by every writer, guard, reader and poll step |
| StepRules.InitialOutcome | assurance/assurance.go:163-184 | at first nothing is held, the watermark is -2^62 and the width is limited as configured, or to 32 seconds |
| StepRules.SyncOutcome | service.go:413-439 | a synchronization takes its round if and only if the clock is the one the round was selected on and some instant agrees with the bound held before; it adopts those instants and the estimate starts over, or nothing is held any more |
| StepRules.SelectionExpires | sync.go:236-303 | a selection expires the configured age, or ten seconds, after its reading |
| StepRules.StoreOutcome | service.go:503-523 | the stored snapshot field by field, and that it replaces the published one exactly if its envelope is valid and the generation rises |
| StepRules.InvalidateOutcome | service.go:494-499 | invalidation drops the anchor and keeps the watermark |
| FailSafe.StepIsMonotone | service.go:410-523 | no step lowers the published watermark, and every publication raises the generation |
| RunSafety.ServedTimeIsTrue | service.go:70-132 | in every physical run in which at most F votes of each selected round exclude true time, every served interval, also from a stale snapshot, encloses true time, and a watermark once set does not exceed it |
| QueryTruth.MeasureResponse | sync.go:521-583 | a measurement is the exchange's interval moved to the axis of exact instants, with its raw midpoint; a failure of a representable exchange has an unclear interval or an end that does not fit |
| QueryTruth.QueryIsHonest | sync.go:541-583 | if the server's stamps and the elapsed local time are within what the answer claims, the sample was taken at the middle of the exchange and its converted interval holds the time there |
| QueryTruth.HonestServersAreTrusted | sync.go:180-302 | with at most F domains holding a dishonest server, at most F votes of a selected round exclude true time |
| QueryTruth.HonestServersServeTrueTime | service.go:70-132 | in every lawful run in which at most F domains of each selected round hold a dishonest server, every served interval encloses true time and no set watermark exceeds it |
| RunSafety.CertainAnswersAreTrue | service.go:262-289 | in every such run a certain answer to whether a timestamp has passed, or is still to come, is true of the time at the reading |
| Service.EpsilonCovers | service.go:80-84 | the symmetric epsilon reaches from the estimate over the whole interval exactly when neither distance wraps |
| Service.EpsilonIsFarther | service.go:80-84 | without wrap-around it is the distance to the farther end, up to 2^53 |
| RunSafety.EstimateIsWithinEpsilon | service.go:80-104 | then, in every such run, true time is within the epsilon of the estimate |
| RunSafety.ConflictNeverOccurs | assurance/assurance.go:246-253 | in no such run does a round conflict |
| FailSafe.WatermarkNeverFalls | assurance/assurance.go:263-266 | published watermarks never fall, in any run, whatever the sources and the oscillator do |
| FailSafe.FailureIsNoted | service.go:221-239 | after a failed round the writer is not synchronized: it keeps its bounds with the deadline capped, if the published bound can still be served, and otherwise nothing |
| FailSafe.RecheckDrops | service.go:231-236 | the second look drops a bound that can no longer be moved to its reading and leaves any other alone |
| FailSafe.FailureLasts | service.go:221-239 | from a failed round until one is taken, the writer keeps exactly the capped bound or none |
| FailSafe.SnapshotsWereStored | service.go:503-523 | every snapshot with an anchor, published or held by a reader, is the writer's state at some storing |
| RunSafety.CommitGuaranteeIsExact | service.go:322-369 | no trusted run commits a timestamp before true time has passed it, if and only if the timestamp is at or above the initial watermark of -2^62 |
| RunSafety.CommitBelowUnsetWatermark | service.go:355-357 | for every timestamp below it, a run of one honest round that commits too early |
| FailSafe.ServedEvidenceIsInForce | assurance/assurance.go:305-322 | in any run, trusted or not, an interval is served only from a stored snapshot, within the deadline of its round, within the cap if a round had failed before the storing and none was taken since, and with no break observed since a read with the anchor's raw label and token |
| FailSafe.PublicationSucceeds | publish/snapshot.go:33-62 | in any run, also after a conflict, publication is refused only for an invalid scale or an exhausted counter, and raises the generation by one |
| FailSafe.RoundIsFounded | assurance/assurance.go:198-296 | a round that is adopted, conflicts or has an invalid hull leaves a well-formed state with an anchor that some read labelled |
| FailSafe.StepKeepsFounded | sync.go:180-310 | that holds of writer, publication and every reader after every step, without trust in anything |
| Refinement.Create | service.go:29-67 | a new service holds an initial state of the transition system |
| Refinement.PublishSyncRound | service.go:413-439 | the effect on the objects is that of a refused hull, or of a synchronization and a storing; the poll fails exactly when a fault or a rejection is reported |
| Refinement.MarkRoundFailure | service.go:221-239 | the effect is a skip without an active snapshot; otherwise the failure is noted, rechecked while held over, and stored |
| Refinement.Invalidate | service.go:494-499 | the effect is that of an invalidation and a storing |
| Refinement.InitializeEstimate | service.go:483-488 | the effect is that of a reset of the estimate and a storing |
| Refinement.FinishPoll | sync.go:226-302 | the end of a poll is a selection step or a failure step |
| Refinement.StartPoll | sync.go:196-197 | a poll starts with one read |
| Refinement.QueryRead | sync.go:385-402 | so does each half of a query |
| Refinement.NowInRun | service.go:70-132 | after any trusted run that the objects have followed, an interval the service returns holds the true time of its read, certain answers are true, and the longer run is trusted again |
| Refinement.Now | service.go:70-132 | a caller's answer is what a reader sees who acquires the snapshot and then reads |
| Refinement.PastWatermark | service.go:292-320 | so is a watermark; a refusal before the read takes the acquisition only |
| Refinement.StepsCompose | service.go:410-523 | steps of one call after another are steps from the first state to the last |
| Refinement.CommitWaitInRun | service.go:323-369 | over looks taken in a run, a commit means that at the first look that ends the wait, and at every later read, true time is past the timestamp, for timestamps at or above -2^62 |
| Estimate.BranchesAgree | clock/estimate.go:63-82 | the branches for earlier and later readings compute the same floor((1+rate)*dr) |
| Estimate.EvaluateIsExact | clock/estimate.go:32-82 | in range, a reading is the anchor plus the exact advance plus the slew |
| Estimate.InitializedReads | clock/estimate.go:101-115 | after an initialization readings start at the target and run at the given rate |
| Estimate.SteppedReads | clock/estimate.go:168-189 | after a step they start a step away and run at the rate they had |
| Estimate.ReanchoredReads | clock/estimate.go:132-165 | after a re-anchoring they start where they were, run at the new rate, and are slewed at the planned rate until what is left of the debt and what was added is paid |
| Estimate.ReadingsRise | clock/estimate.go:32-82 | later readings fall by at most one nanosecond when both 1+base and 1+base+slew are non-negative, and not at all when the base rate is |
| Estimate.NegativeRateFalls | clock/estimate.go:32-82 | with 1+base negative, readings before the slew starts, or after the debt is paid, fall by two or more wherever the rate loses two nanoseconds |
| Estimate.FallBoundIsExact | clock/estimate.go:32-82 | given 1+base+slew non-negative, no reading in range falls by more than a nanosecond if and only if 1+base is non-negative; the negative case needs two such readings in range |
| Estimate.DebtIsPaid | clock/estimate.go:32-60 | the slew equals a positive debt exactly from one raw instant on, the ceiling of debt over rate after its start |
| Estimate.FallingMapping | clock/estimate.go:32-82 | for every positive debt and slew rate that pays it within the raw range, a mapping with 1+base+slew non-negative whose reading falls by two |
| Estimate.FallingExample | clock/estimate.go:191-210 | in particular for a debt of one nanosecond and the slew 28147 planned for it, however the rate is rounded |
| Estimate.FallingEarly | clock/estimate.go:32-82 | a mapping that falls by four before its slew starts, though its debt is never paid in range |
| Estimate.SlewBeyondRange | clock/estimate.go:32-60 | a slew target that does not fit counts as reached |
| Estimate.PlanPays | clock/estimate.go:191-210 | for debts up to 327,679,999,999,999 ns the planned slew pays the debt and keeps within the limit, however the rate is rounded |
| Estimate.PlanIsTheRate | clock/estimate.go:191-210 | the planned slew pays the debt in ten seconds, to within the rounding and a unit, or is a twelfth of real time if that is slower |
| Estimate.ReanchorIsContinuous | clock/estimate.go:132-165 | the new mapping reads at the re-anchoring what the old one did |
| Estimate.DebtIsConserved | clock/estimate.go:132-165 | over any run of re-anchorings the reading at the end is the one at the start plus the base advances plus the debt paid, as words, and exactly when that fits |
| Estimate.EstimateClock.InitializeAnchors | clock/estimate.go:101-115 | the mapping starts anew and reads the target |
| Estimate.EstimateClock.ReanchorContinuity | clock/estimate.go:132-165 | the in-place update is the re-anchored mapping with the slew planned for its debt, which pays it if the debt is in that range, and reads what the old one did; nothing on failure |
| Estimate.EstimateClock.Step | clock/estimate.go:168-189 | the in-place update moves the reading by the step and drops the debt |
| Leap.GstInstantToUtc | core/leap.go:193-237 | for every valid history the wrapping loop with early return gives the first inserted second that holds the instant, or else the second moved by the deltas; for midnight histories that is the label exactly under the condition below |
| Leap.WalkedLabelIsLabel | core/leap.go:193-237 | for midnight histories the loop finds the label if and only if the second is inserted or the transitions that the deltas push beyond the 64-bit range cancel out |
| Leap.WalkFinds | core/leap.go:198-221 | what the loop finds in every case: it adds the transitions passed and all from the first that is pushed beyond the range |
| Leap.RoomSuffices | core/leap.go:198-221 | none is if every transition is further from the end of the range than there are transitions |
| Leap.WrongLabel | core/leap.go:193-237 | a midnight history of 55,808 transitions for which the loop finds another label at every instant after most of them |
| Leap.UtcToGstInstant | core/leap.go:240-286 | for any list of transitions the wrapping loops give the exact instant wrapped once, or the error of the first failed check |
| Leap.InstantRoundTrip | core/leap.go:193-286 | for midnight histories every instant comes back from its label, which is what the loop gives under the condition above |
| Leap.LabelRoundTrip | core/leap.go:193-286 | for midnight histories a label comes back from its instant if and only if it exists and its instant is representable; so deleted seconds do not |
| Leap.NextSecondFollows | core/leap.go:193-237 | consecutive SI seconds have the labels that follow one another on the calendar with its inserted and deleted seconds |
| Leap.LabelsAscend | core/leap.go:193-237 | labels are in lexicographic order exactly as their instants are, across all leaps |
| Leap.MidnightsLeaveRoom | core/leap.go:198-221 | that room is automatic for midnight histories of up to 55,806 transitions |
| PosixTime.UnixNanosToGstInstant | core/leap.go:292-312 | conversion fails exactly on an ambiguous second or when the exact instant does not fit |
| PosixTime.WillOffsetOverflow | core/leap.go:314-322 | the test is true exactly when the sum leaves the range |
| PosixTime.GstInstantToUnixProjection | core/leap.go:325-347 | for every valid history the projection of what the loop finds, marked for inserted seconds; for midnight histories that of the label, where the loop finds it |
| PosixTime.InsertedRepeats | core/leap.go:325-347 | at an inserted second the projection is that of the second before, and marked |
| PosixTime.ProjectionInverts | core/leap.go:292-347 | a timestamp that converts is the unmarked projection of its instant |
| PosixTime.CheckUnixInterval | sync.go:589-600 | an interval is accepted exactly when it is ordered and stays clear of the seconds before and after every transition |
| PosixTime.ClearExactly | sync.go:589-600 | that is, none of its seconds is the one before a transition or the one that starts at it |
| PosixTime.ClearIntervalsMoveRigidly | sync.go:566-600 | all timestamps of an accepted interval are unambiguous and moved by the same amount |
| PosixTime.ConvertSample | sync.go:566-583 | for a centre inside, conversion succeeds exactly for accepted intervals whose ends fit; width and centre are kept |
| PosixTime.ConvertedIntervalsProjectBack | sync.go:566-600 | every instant of a converted interval projects back to its timestamp |
| LeapCodec.NewLeapHistory | core/leap.go:76-122 | succeeds exactly for ascending one-second transitions, with the canonical encoding |
| LeapCodec.ParseLeapHistory | core/leap.go:125-183 | accepts exactly the canonical encodings of valid histories |
| LeapCodec.EncodingIsInjective | core/leap.go:76-183 | no data encode two histories |
| LeapCodec.PreambleOctets | core/leap.go:76-122 | the octets before the entries |
| FourTimestamps.MeasurementIsExact | ntp/measurement.go:56-132 | the wrapping sums give the exact interval whenever the compared, halved and returned quantities are representable |
| MeasurementRules.MeasuredExactly | ntp/measurement.go:56-93 | in the fields of the exchange: a measurement is made if and only if the times are in order, turnaround and root distance within their limits and the read errors representable; otherwise the first reason |
| MeasurementRules.IntervalExactly | ntp/measurement.go:74-132 | the interval reaches from the corrected estimate to both sides by root distance, half the greater of delay and floor, and the error terms; raw midpoint, its bound, offset and delays are exact |
| MeasurementRules.IntervalIsTight | ntp/measurement.go:74-132 | where the delay is no shorter than the floor, true times within everything the answer claims put the midpoint within two nanoseconds of either end |
| FourTimestamps.IntervalEnclosesMidpoint | ntp/measurement.go:56-132 | if stamp errors, disagreement of the local estimates and the asymmetry correction together stay 1.5 ns within root distance, read errors, quantization, mapping, asymmetry and conversion terms, true time at the midpoint lies in the interval |
| FourTimestamps.CentreError | ntp/measurement.go:74-101 | the distance of the centre from the midpoint is at most half the delay, the disagreement of the local estimates and the larger stamp error |
| FourTimestamps.QueryEnclosesMidpoint | sync.go:541-562 | the same for the exchange a query builds, where only the elapsed time between the two local estimates matters, within 2 ns of the terms |
| FourTimestamps.RawMidIsBounded | ntp/measurement.go:90-100 | the raw midpoint is between the readings and within its bound of the true coordinate |
| FourTimestamps.PlausibleIsRepresentable | ntp/measurement.go:56-132 | timestamps within 36 years of one another and terms below four years meet that condition |
| Polyval.UMul64 | internal/siv/aes_gcm_siv.go:249-261 | the masked shift loop computes the carry-less product |
| Polyval.Fold | internal/siv/aes_gcm_siv.go:233-243 | one reduction step A to A' satisfies x^64 A' = A + a0 P with P = x^128+x^127+x^126+x^121+1 |
| Polyval.FoldsReduce | internal/siv/aes_gcm_siv.go:233-246 | two folds of the full product are its multiple by x^-128 modulo P |
| Polyval.Multiply | internal/siv/aes_gcm_siv.go:212-247 | the in-place update is the field product of section 3 of RFC 8452 |
| Polynomial.DotIsUnique | internal/siv/aes_gcm_siv.go:212-247 | that product is unique: P divides no nonzero multiple of x^128 of smaller degree |
| Polyval.DotIsProduct | internal/siv/aes_gcm_siv.go:212-247 | and it always exists: being the product is being the value of a function |
| Polyval.ComputePolyval | internal/siv/aes_gcm_siv.go:165-210 | the tag is the hash of the padded associated data, the padded text and the length block |
| Polyval.PolyvalIsUnique | internal/siv/aes_gcm_siv.go:165-210 | the hash is a function of key and blocks |
| Polyval.PolyvalIsHash | internal/siv/aes_gcm_siv.go:165-210 | every sequence of blocks has exactly one hash, the value of a function |
| Cmac.DoubleIsTimesX | internal/siv/aes_siv.go:136-144 | doubling is multiplication by x modulo x^128+x^7+x^2+x+1, coefficient by coefficient |
| Cmac.ShiftLeft | internal/siv/cmac.go:93-101 | the byte loop shifts the whole block and returns the bit that fell out |
| Cmac.Cmac.constructor | internal/siv/cmac.go:18-33 | the subkeys are the two doublings of the encrypted zero block |
| Cmac.Cmac.Write | internal/siv/cmac.go:45-73 | what is held depends only on the concatenation of everything written |
| Cmac.Cmac.Sum | internal/siv/cmac.go:75-91 | the code is the one-shot CMAC of section 2.4 of RFC 4493 of everything written |
| Cmac.Cmac.Reset | internal/siv/cmac.go:38-43 | the next message starts empty |
| Cmac.FinishIsMac | internal/siv/cmac.go:79-91 | finishing the lazily held block gives the one-shot code |
| Cmac.MacWrittenOut | internal/siv/cmac.go:75-91 | the code by its parts: chained blocks, and a last block whole under the first subkey, or ended by a one bit under the second |
| Siv.Dbl | internal/siv/aes_siv.go:136-144 | the in-place loop doubles the block |
| Siv.ComputeS2V | internal/siv/aes_siv.go:81-128 | the buffer code is S2V of section 2.4 of RFC 5297 of (P), (AD,P) or (AD,nonce,P) |
| Siv.SealedExactly | internal/siv/aes_siv.go:39-79 | a message is the sealing of a text exactly when the text is its decryption and the code in front is the text's |
| Siv.AesSivCmac.Seal | internal/siv/aes_siv.go:39-52 | the buffer is filled with the sealing |
| Siv.AesSivCmac.Open | internal/siv/aes_siv.go:54-79 | returns a text exactly if the message is its sealing, refuses exactly if it is the sealing of none, and leaves zeros then |
| GcmSiv.XorKeystream | internal/siv/aes_gcm_siv.go:141-161 | the loop applies the keystream of the wrapping 32-bit counter, also to a partial block |
| GcmSiv.StreamedTwice | internal/siv/aes_gcm_siv.go:141-161 | the keystream undoes itself |
| GcmSiv.AesGcmSiv.Seal | internal/siv/aes_gcm_siv.go:35-62 | the buffer is filled with a sealing of the text |
| GcmSiv.AesGcmSiv.Open | internal/siv/aes_gcm_siv.go:64-102 | returns a text exactly if the message is its sealing, refuses exactly if it is the sealing of none, and leaves zeros then |
| GcmSiv.SealedIsUnique | internal/siv/aes_gcm_siv.go:35-62 | a text has one sealing |
| GcmSiv.IsSealedExactly | internal/siv/aes_gcm_siv.go:35-62 | every text has exactly one sealing, the value of a function |
| SealingRules.SealedAsPrescribed | internal/siv/aes_gcm_siv.go:35-62 | byte by byte: the tag is the encryption of a block with a clear top bit, made of hash and nonce; the j-th part is hidden by the encryption of the tag with its top bit set and j added to its first four bytes, the least first |
| SealingRules.DomainsAreApart | internal/siv/aes_gcm_siv.go:50-59 | no block encrypted for a tag is one encrypted to hide a part |
| SealingRules.SivSealedAsPrescribed | internal/siv/aes_siv.go:39-52 | the code comes first, and the text is hidden by the keystream that starts at the code with two bits cleared |
| Algorithms.SivIsAuthenticated | nts/aead.go:11-30 | algorithm 15 adds its tag, opens what it sealed and opens nothing else, under any cipher |
| Algorithms.GcmIsAuthenticated | nts/aead.go:11-30 | so does algorithm 30, under any cipher and key derivation |
| Algorithms.SivSeal | internal/siv/aes_siv.go:39-52 | on octets the sealing object is that algorithm |
| Algorithms.SivOpen | internal/siv/aes_siv.go:54-79 | and the opening object |
| Algorithms.GcmSeal | internal/siv/aes_gcm_siv.go:35-62 | on octets the sealing object is that algorithm |
| Algorithms.GcmOpen | internal/siv/aes_gcm_siv.go:64-102 | and the opening object |
| Algorithms.AuthenticIsSealed | nts/packet.go:129-193 | under a registered algorithm a response is authentic if and only if it is well formed, ours, and its ciphertext is the sealing of its text over the octets before the authenticator |
| SealingRules.S2VWrittenOut | internal/siv/aes_siv.go:81-128 | the code of a text under associated data and a nonce, step by step |
| SealingRules.LengthBlockIs | internal/siv/aes_gcm_siv.go:165-210 | the last block hashed holds the two lengths in bits, that of the associated data first |
| Extension.ParseExtensionFields | ntp/extension.go:21-59 | finds the fields whose wires and fewer than four trailing octets make up the data, and fails exactly when there are none |
| Extension.FramingIsUnique | ntp/extension.go:21-59 | data can be read in one way only |
| Extension.EncodeExtensionFields | ntp/extension.go:62-86 | the buffer holds the encodings one after another, padding zero |
| Extension.ParsedFieldsReencode | ntp/extension.go:21-86 | re-encoding parsed fields gives the octets they came from |
| Extension.EncodingIsReceived | ntp/extension.go:21-86 | encoded fields are received one by one with padded values |
| Octets.WordIsBigEndian | ntp/extension.go:62-86 | 16-bit words are sent high octet first |
| Budget.RequestPlaceholderCount | nts/budget.go:48-69 | a granted count is between zero, what was requested and seven |
| Budget.PlaceholdersFit | nts/budget.go:48-69 | the count keeps a request within the hard limit, within the preferred one if it is positive, and is the largest that does |
| Budget.RegisteredCookiesFit | nts/budget.go:37-39 | under either registered algorithm a request is possible exactly for cookies of valid size |
| Budget.LargerCookiesDoNotFit | nts/budget.go:26-30 | the bound on cookies is tight: no larger cookie fits a request under algorithm 15 |
| Budget.CheckResponsePacketSize | nts/budget.go:73-89 | fails exactly for a wrong header or when wires or re-encodings exceed a datagram |
| Packet.BuildProtectedRequest | nts/packet.go:41-126 | the request is the encoding of identifier, cookie, placeholders and an authenticator over header and encoded fields |
| Packet.RequestIsReadBack | nts/packet.go:41-126 | it parses in one way, to those fields, and the authenticator is sealed over the header and exactly the octets before it |
| Packet.RequestKeepsBudget | nts/packet.go:41-126 | the complete packet is at most 65,507 octets, and at most 1,232 if it carries placeholders |
| Packet.RequestSizeIsExact | nts/budget.go:41-69 | under a registered algorithm the size budgeted is the size sent |
| Packet.CountedOctets | nts/budget.go:73-89 | a received field counts for its wire image, any other for the longer of image and encoding |
| Packet.FirstUniqueIdIs | nts/packet.go:149-158 | the identifier that counts is the value of the first field of type 0x0104 |
| Packet.OpenResponse | nts/packet.go:129-193 | opens exactly the authentic responses and otherwise reports the first reason |
| Packet.VerifyAndDecryptResponse | nts/packet.go:129-215 | succeeds exactly when the response yields valid cookies, and returns them in order |
| Packet.AssociatedDataAreReceived | nts/packet.go:181-188 | for received fields, what is authenticated is the received octets before the authenticator |
| Packet.SealedResponseOpens | nts/packet.go:165-193 | what a peer seals over its encoded fields is authentic to the receiver |
| Packet.YieldedCookiesFit | nts/packet.go:204-211 | every cookie of a response fits a request |
| Records.ParseRecords | nts/record.go:53-90 | the loop reads what the recursive definition reads |
| Records.EncodedIsParsed | nts/record.go:38-90 | framable records within the cap are parsed from their concatenated encodings |
| Records.ParsedIsEncoded | nts/record.go:38-90 | what is parsed encodes to the data |
| Records.BuildClientRequest | nts/record.go:93-133 | the client request is the encoding of its records |
| Records.RequestIsParsed | nts/record.go:93-133 | and is read back as sent |
| Records.RequestOctets | nts/record.go:93-133 | the request for both algorithms with the exporter record, octet by octet |
| KeyExchange.ReadServerResponse | nts/ke.go:32-127 | succeeds exactly when the stream starts with an acceptable message, and returns what it says |
| KeyExchange.TakeRecord | nts/ke.go:56-125 | one record is taken exactly when it is acceptable and not a repeated single one; otherwise the fault of the first failed check is reported |
| KeyExchange.AcceptableByType | nts/ke.go:56-125 | which records are acceptable, by the numbers of their types |
| KeyExchange.OnlyTheMessageMatters | nts/ke.go:32-127 | the result depends only on the octets through the first end of message |
| KeyExchange.OrderDoesNotMatter | nts/ke.go:32-127 | permuting the records changes neither acceptance nor algorithm, server, port or the multiset of cookies |
| KeyExchange.AcceptedCookiesFit | nts/ke.go:86-90 | every accepted cookie fits a request under the negotiated algorithm |
| CookieJars.StockingIsSafe | nts/cookie.go:49-89 | stocking never exceeds the capacity, loses no unspent cookie and puts none in flight |
| CookieJars.StockingRetains | nts/cookie.go:49-89 | valid cookies are all retained when they fit beside the unspent ones |
| CookieJars.ReplacementsAreRetained | nts/cookie.go:140-170 | after a cookie is spent, placeholders plus one valid replacements are all retained and no unspent cookie is lost |
| CookieJars.PlaceholdersAreMost | nts/cookie.go:140-170 | and no more could be asked for: one more would not be retained with the others |
| CookieJars.CookieJar.AddCookies | nts/cookie.go:49-79 | the in-place update is the stocked inventory, and the result is by how many its unspent cookies grew |
| CookieJars.CookieJar.AcquireForRequest | nts/cookie.go:115-141 | hands out the first unused cookie, which was never handed out before, or none exactly when the reserve forbids |
| CookieJars.CookieJar.MarkSpent | nts/cookie.go:144-156 | spends the first cookie in flight under the name; the counter stays the number in flight |
| CookieJars.CookieJar.Counts | nts/cookie.go:92-107 | the three counts, which add up to at most eight |
| CookieJars.CookieJar.CalculatePlaceholderCount | nts/cookie.go:162-170 | the number of placeholders the inventory allows |

## Left out

- Sockets, TLS, DNS, contexts, timers, goroutine start and stop: I/O. The backend's readings, the servers' answers and the looks of a waiting caller are parameters.
- PublishAssuranceRound: it takes a caller's own reading and hull, so nothing ties its evidence to a clock; no run contains it.
- Several sync engines on one service: rounds are serialized by a lock in the engine, not in the service; a run has one engine.
- Interleavings inside ContinuityGuard.Read: its atomics are not one transaction; a read is one step here.
- Refinement.PublishSyncRound: is stated for a call during which nobody else acts, and so are the other calls there; that others may act between its steps is part of the transition system only.
- The floating-point code: source/estimate.go, the poll scheduler, smear planning, ppm conversions and epsilon display.
- ClockServices.ClockService.Now: does not model the symmetric epsilon where a distance exceeds 2^53, because there the floating-point maximum rounds.
- Two reads for one: service.go:212-216, :420-421 and :504-505 read the clock and its envelope in two calls; a reading and the envelope seen with it are one event here.
- Estimate.EstimateClock.ReanchorContinuity: does not model the exact rounding of the planned rate, because it is floating-point; the rate is any that differs from the exact one by at most a 2^51st part, and any word where that leaves 64 bits.
- Estimate.FallBoundIsExact: takes slews that have the sign of the debt and stay within OneQ48/12, as Estimate.ReadingsRise does. Estimate.PlanPays promises that for debts below 3.2768e14 ns only; beyond, the floating-point rate leaves 64 bits before it is limited, and the conversion may give either sign. Mappings with 1 + base negative and no two readings in range on one side of the slew that lose two nanoseconds are not decided.
- Coverage.ComputeAssuranceConsensus: does not model 64-bit wrap-around of 2F+1 or the casts of counts to 32 bits, because F and N are small configuration values.
- div128, DeltaRate and ComposeRate: nothing in the pipeline uses them.
- Poll.CollectVotes: does not model the sort of domain names, because the votes are used as a set.
- Leap: dates are day numbers; the Gregorian calendar of the Go library and the digest of a history are not modelled, a history's identifier is arbitrary.
- Leap.WalkedLabelIsLabel: does not cover histories off midnight, because the label of an inserted second is then not the end of a day. For those the loop's result is stated, not that it is a label.
- LeapCodec.NewLeapHistory: does not model which of several faults is reported, because only acceptance is promised.
- FourTimestamps.IntervalEnclosesMidpoint: does not model quantities that leave 64 bits, because the promise is not made for them.
- MeasurementRules.IntervalIsTight: takes exchanges without an asymmetry correction, because every query is made without one.
- QueryTruth.MeasureResponse: does not model the checks of version, mode, stratum and leap indicator or the unfolding of eras, because its stamps are already unfolded.
- PublicClock, the reachability bitmap, era unfolding, NTP header packing, configuration, telemetry and platform clocks: easy members or library wrappers.
- AES, the key derivation of GCM-SIV, the library's counter mode for AES-SIV, SHA-256, random octets and constant-time comparison: arbitrary functions, parameters or plain equality.
- Siv.AesSivCmac.Seal: does not model appending to the caller's slice, because the buffer given is the appended part; the same holds for Open and for GcmSiv.
- Packet.VerifyAndDecryptResponse: does not model the panic of the library AEADs on another nonce length, because the algorithm is an arbitrary function here; Algorithms.GcmAead counts such nonces as zeros.
- Packet.BuildProtectedRequest: does not model failing random sources, because identifier and nonce are parameters.
- KeyExchange.ReadServerResponse: does not model the check of server names and addresses, because it is library parsing; the reader of names is an arbitrary function. Which fault a whole stream is refused for is stated per record only.
- CookieJars.CookieJar.AddCookies: does not model that the digest names cookies uniquely, because nothing relies on it.
