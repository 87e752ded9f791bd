# Sunwukong: a verified model of the autoscaler

Sunwukong re-implements the Kubernetes Horizontal Pod Autoscaler. This project models its decision logic and its two
protocols in Dafny and proves what they guarantee over whole runs. `dafny verify dfyconfig.toml` checks all of it.

**Scaling behaviour.** A scaling call stabilises the desired count against recent recommendations, limits it by what each
policy's period has already changed, sends it to the API and stores the change. The code keeps three logs (recommendations,
scale-ups, scale-downs) that overwrite an expired entry before they grow.

| file | contents |
|---|---|
| `ScalingRules.dfy` | behaviour rules, times, small arithmetic |
| `SlotLogs.dfy` | the logs that reuse slots |
| `BehaviorProcessor.dfy` | stabilisation and rate limits |
| `ScaleRuns.dfy` | runs of calls, the full history beside the kept logs, and their agreement |
| `CallHistory.dfy` | the full history read call by call |
| `RunGuarantees.dfy` | stabilisation, stickiness and the rate guarantee over runs |
| `LogSpace.dfy` | how long the logs can get |
| `ControlledRuns.dfy` | runs in which nobody else writes the count: range, conservation, progress |
| `PeriodGuarantees.dfy` | what Pods and Percent policies let through, per period and per call |
| `BehaviorEdits.dfy` | exactly which edits of a period or a window break the agreement |
| `ScalerState.dfy` | the loops and the in-place updates, proved to be such a run |
| `ScalingRounds.dfy` | whole rounds: election, scaling call, status |

**Replica arithmetic.** `PodGroups.dfy` classifies pods, `PodMetrics.dfy` has the integer averages and counts,
`ReplicaCalculator.dfy` the plain and the resource calculators, `MetricElection.dfy` the election among metrics and
`StatusHistory.dfy` the results kept in the status.

**Protocols.** `HoumaoLifecycle.dfy` is the step machine of the Houmao and Xianqi lifecycle, `HoumaoReconciler.dfy` the
reconciler method that sequences those steps, `FailedPasses.dfy` what a pass leaves whichever calls fail,
`SpecReload.dfy` the hand-over of an edited spec over an unbuffered channel.

**Departures from intent.** `AsWritten.dfy` holds the code that misses its own intent, see "Repairs" below.

`Options.dfy` and `IntArithmetic.dfy` are small helpers.

## How to read the results

* A run is a sequence of `Call`s with arbitrary counts, times and behaviours; `updated` says whether the API accepted the
  call. `Run(calls).logs` is what the scaler keeps, `Run(calls).history` everything that happened. The class
  `ScalerLogs` keeps `Valid()`: its fields are always `Run(calls).logs` for the calls made so far, so every result about
  runs is a result about every reachable state of the class.
* `Covered(calls)` says that no call looks back further than the calls before it kept entries for. It follows from an
  unedited behaviour and a clock that does not run back (`FixedBehaviorIsCovered`), and also holds while edits
  only shrink windows and periods (`NarrowingBehaviorIsCovered`). That is as far as it goes: an edit of a policy period
  or of the stabilisation window is safe in all runs exactly when it does not lengthen the period or widen the window
  (`PeriodEditIsSafeExactly`, `WindowEditIsSafeExactly`).
* One `now` per call stands for the several `time.Now()` of the code. Times are nanoseconds, windows and periods seconds.
* Ratios are compared by integers: `usageRatio < 1` is `utilization < target`, and `math.Ceil` of a ratio times a count is
  `CeilDiv`. Go's integer division, which truncates, is `Quotient`.
* The methods are proved against functions (`Stabilized`, `UpLimit`, `Final`, `Classify`, `Plain`, `PassUnder`), and what
  those functions mean is proved in turn in the caller's own numbers and fields, without them: `ScaleUpTakesLeast`,
  `ScaleDownTakesGreatest`, `ChangeWithinPolicies`, `OneUpPolicyExactly`, `UnruledRoundSendsElected`,
  `RunningPodsExactly`, `PlainMovesWithRatio` with `BalancedHoldsClasses`, `LivePassExactly`, and the like.

## Repairs

In these places the code misses its evident intent. The model follows the intent, and `AsWritten.dfy` compares the two
(for the last one, `SpecReload.dfy`):

| source | as written | compared by |
|---|---|---|
| `pkg/zaohua/daofa/behavor_processor.go:225-230` | `max` returns the smaller value | `ScaleDownStabilizedOnlyWhenConstant`, `ExpiryAsWrittenAgrees`, `ZeroWindowKeepsOneRecord` |
| `pkg/zaohua/daofa/behavor_processor.go:113` | compares the desired count with itself, so every count that should not fall becomes 0 | `ConvertAsWrittenIsZero` |
| `pkg/zaohua/daofa/behavor_processor.go:127` | the scale-down limit gets the scale-up rules | `DownLimitAsWrittenAgrees`, for any two rule sets |
| `pkg/zaohua/daofa/behavor_processor.go:149-157`, `182-190` | the selector other than "Min" is nil, and the seeds are on the wrong side | `UpLimitAsWrittenFreezes`, `UnsetSelectorCrashes`, `DownLimitAsWrittenAgrees` |
| `pkg/zaohua/daofa/behavor_processor.go:194-198` | scale-down uses the scale-up formulas | `DownLimitAsWrittenAgrees`, `DownLimitAsWrittenBlocks` |
| `pkg/zaohua/daofa/zaohua.go:344`, `352` | the revised count is assigned to a shadowing variable | `SentUnrevised` |
| `pkg/zaohua/daofa/zaohua.go:343-352` | the event log is picked by the direction before stabilisation | `DirectionFlips` |
| `pkg/zaohua/daofa/zaohua.go:295-296` | labels an elected Pods metric from its ContainerResource field, which is nil, and so crashes | `ElectAsWritten`, `SafeInEveryOrder` |
| `pkg/zaohua/daofa/replica_calculator.go:612` | `!= PodFailed` for `==` | `OnlyDeletedPodsAgree` |
| `pkg/zaohua/daofa/replica_calculator.go:115-117` | a count for the ready pods instead of the current count | `ToleratedCountAsWritten` |
| `controllers/houmao_controller.go:188-189` | appends the finalizer, to an empty list only, instead of removing it | `FinalizerIsNeverRemoved` |
| `controllers/houmao_controller.go:73`, `pkg/xianqi_manager/xianqi_manager.go:121` | every Get error counts as "not found" | `FailedGetDestroysLive`, `DestroyAsWrittenAgrees`, `FailedGetOrphans` |
| `pkg/zaohua/daofa/behavor_processor.go:24-26` | writes a default window through a nil pointer | windows are taken as given |
| `pkg/zaohua/daofa/zaohua.go:126` | a round on a zero object consumes a reload signal | kept in the model; `SignalLoadsExactly`, `ZeroSpecLosesSignal` |

Other departures are kept as they are, and show up as results:

* The election starts from the running count and only raises it, although `Readme.md:2` promises compatibility with the
  native autoscaler: `RoundsNeverScaleDown`.
* A reload copies spec and status but no metadata, so the loop loses its namespace: `ReloadDropsMetadata`.
* The finalizer is added only to an empty list, so a foreign finalizer on a new Houmao defeats it: `OrphanedExactly`,
  `ForeignFinalizerOrphans`.
* With only one side of the behaviour set, a change in the other direction crashes after the API has accepted it:
  `ScalerState.Outcome`, and the change is missing from the log: `ReplicasAreConserved`.
* `pkg/zaohua/daofa/replica_calculator.go:51` and `56-61` drop errors and propose 0 replicas instead. That is harmless
  only because the election never goes below the running count (`MetricElection.Peak`).
* A failed scale update is still recorded in the status, as a wish for zero replicas: `DetectAndScale`.

## Model

| member | source | states |
|---|---|---|
| ScaleRuns.LossyRunRefinesUnboundedRun | pkg/zaohua/daofa/zaohua.go:338-378 | Over every covered run, each recommendation and each final count made from the slot-reusing logs is the one that a scaler with complete logs makes, and the complete logs are the history. |
| ScaleRuns.NarrowingBehaviorIsCovered | pkg/zaohua/daofa/behavor_processor.go:83-85 | While edits only shrink the longer window and the longest periods and times never fall, no call needs a record or event that an earlier one could overwrite. |
| ScaleRuns.FixedBehaviorIsCovered | pkg/zaohua/daofa/zaohua.go:468-501 | The same for an unedited behaviour. |
| ScaleRuns.KeptEventsSumLikeHistory | pkg/zaohua/daofa/zaohua.go:416-501 | Under a fixed behaviour the window sum over the kept log equals the sum over all events, for every period up to the longest and every later time, in both directions. |
| ScaleRuns.CallsDecideFromHistory | pkg/zaohua/daofa/behavor_processor.go:22-54 | A call covered by the calls before it recommends and sends the same from the kept logs as from the full history. |
| ScaleRuns.RecordsRefineHistory | pkg/zaohua/daofa/behavor_processor.go:93-106 | Every record at or after the latest expiry horizon is in the kept log exactly when it is in the history. |
| ScaleRuns.UpsRefineHistory | pkg/zaohua/daofa/zaohua.go:425-444 | From the latest horizon on, every window sum of the kept scale-up log is that of the history, and only older events are flagged. |
| ScaleRuns.DownsRefineHistory | pkg/zaohua/daofa/zaohua.go:445-463 | The same for scale-downs. |
| SlotLogs.PutRecordKeepsRecent | pkg/zaohua/daofa/behavor_processor.go:102-106 | Recording into a reused slot loses only records older than the horizon. |
| SlotLogs.PutEventAgrees | pkg/zaohua/daofa/zaohua.go:432-444 | Storing into a reused slot leaves every window sum from the horizon on as if the event had been appended to the full log. |
| SlotLogs.LastStale | pkg/zaohua/daofa/behavor_processor.go:95-98 | The slot chosen is the last record older than the horizon, if there is one. |
| SlotLogs.LastOutdated | pkg/zaohua/daofa/zaohua.go:432-437 | The slot chosen is the last flagged event, if there is one. |
| RunGuarantees.StabilizationRefinesHistory | pkg/zaohua/daofa/behavor_processor.go:64-109 | A scale-up recommends exactly the least, a scale-down exactly the greatest, of the desired count and every recommendation ever made inside the window of its direction. |
| RunGuarantees.ScaleUpTakesLeast | pkg/zaohua/daofa/behavor_processor.go:71-91 | Any other call recommends exactly the least, over the scale-up window. |
| RunGuarantees.ScaleDownTakesGreatest | pkg/zaohua/daofa/behavor_processor.go:76-91 | A call that wants less than the current count recommends exactly the greatest of its desired count and everything recommended later than now minus the scale-down window, in nanoseconds. |
| RunGuarantees.RecommendationsStick | pkg/zaohua/daofa/behavor_processor.go:71-108 | Along a chain of calls in one direction, each inside the window of the previous, scale-up recommendations never rise and scale-down ones never fall, whatever comes in between. |
| RunGuarantees.RateGuarantee | pkg/zaohua/daofa/behavor_processor.go:112-223 | In every half-open stretch of time no longer than the period of a Pods policy that its calls enforce under "Min", whatever other calls do, all accepted scale-ups (all scale-downs) together move at most its value. |
| RunGuarantees.ChangeWithinPolicies | pkg/zaohua/daofa/behavor_processor.go:145-210 | Each count sent is exactly the one nearest to the recommendation that the rules allow: it keeps within every policy under "Min" and within some policy otherwise, no allowed count lies beyond it, and each period is charged with what all earlier calls moved in it. |
| RunGuarantees.RespectsBoundsWindows | pkg/zaohua/daofa/behavor_processor.go:213-223 | A bound that holds at each event, looking back one period, bounds every window of that length. |
| CallHistory.HistoryHoldsChanges | pkg/zaohua/daofa/zaohua.go:416-466 | The events of a run are exactly the accepted changes of the calls that had rules for their direction, each under the time of its call; an accepted call without a change is an event of zero replicas in the scale-down log. |
| CallHistory.HistoryHoldsRecommendations | pkg/zaohua/daofa/behavor_processor.go:102-106 | What is on record is exactly what the calls with a complete behaviour recommended. |
| CallHistory.WindowSumIsMoved | pkg/zaohua/daofa/behavor_processor.go:213-223 | The sum that a policy looks at is what the calls since the start of its period moved. |
| BehaviorProcessor.BestIsExtremum | pkg/zaohua/daofa/behavor_processor.go:87-100 | The stabilised count is the least (greatest) of the seed and the recommendations after the cutoff. |
| BehaviorProcessor.Limited | pkg/zaohua/daofa/behavor_processor.go:112-143 | The limiter's count lies between the current and the stabilised one. |
| BehaviorProcessor.LimitedStaysWithin | pkg/zaohua/daofa/behavor_processor.go:145-210 | A count that changes respects all policies under "Min", some policy under "Max", and needs scaling to be enabled. |
| BehaviorProcessor.LimitedIsFurthest | pkg/zaohua/daofa/behavor_processor.go:112-143 | No count allowed by the rules lies beyond the limiter's, up to the stabilised one. |
| BehaviorProcessor.PickBounds | pkg/zaohua/daofa/behavor_processor.go:159-168 | The selected proposal is the least (greatest) of all policies' proposals, or the end of the int32 range when it is none of them. |
| BehaviorProcessor.PermitsExactly | pkg/zaohua/daofa/behavor_processor.go:162-166 | The count that a policy proposes is the furthest one it permits: value pods from the start of the period, or value percent, rounded up. |
| BehaviorProcessor.LimitsAreExact | pkg/zaohua/daofa/behavor_processor.go:145-210 | A limit is never on the wrong side of the current count, and the counts up to it are exactly those that the rules allow. |
| LogSpace.LogsFitWindow | pkg/zaohua/daofa/zaohua.go:425-463 | Each of the three logs is never longer than the largest number of its entries in a closed window of its retention time. |
| LogSpace.SpacedLogsAreShort | pkg/zaohua/daofa/zaohua.go:425-463 | With entries at least a gap apart, a log is never longer than the retention time divided by the gap, plus one. |
| ControlledRuns.RecommendationInRangeExactly | pkg/zaohua/daofa/behavor_processor.go:64-109 | A recommendation keeps bounds that its desired count keeps exactly when its window holds no lower one (for a scale-down, no higher one) than they allow. |
| ControlledRuns.RunStaysInRange | pkg/zaohua/daofa/behavor_processor.go:22-54 | From any call k at which the records and the count lie in [lo, hi], and while desired counts do, every later recommendation, count sent, current count and record does. |
| ControlledRuns.ReplicasAreConserved | pkg/zaohua/daofa/zaohua.go:338-378 | After every call of every run the count is the initial one plus all recorded ups minus all recorded downs plus the changes accepted while the rules of their direction were missing; failed updates record nothing. |
| ControlledRuns.CompleteRulesLoseNothing | pkg/zaohua/daofa/zaohua.go:416-466 | With both sides of the behaviour set at every accepted call, nothing is missing: the count is exactly initial plus ups minus downs. |
| ControlledRuns.ClimbTakesExactly | pkg/zaohua/daofa/behavor_processor.go:145-176 | From any call k whose window holds no lower recommendation and whose period no scale-up: with a constant desired count, one Pods policy of value at least 1 and calls a period apart, the desired count is in force after n calls exactly when n is at least ceil(distance / value), and every earlier call comes nearer. |
| PeriodGuarantees.GrowthGuarantee | pkg/zaohua/daofa/behavor_processor.go:145-176 | Within one period of a policy that its calls enforce under "Min" the count stays at or below start + value for a Pods policy, and less than one pod above start * (100 + value) / 100 for a Percent policy, or does not exceed the start. |
| PeriodGuarantees.ShrinkGuarantee | pkg/zaohua/daofa/behavor_processor.go:178-210 | Dually it stays at or above start - value, or start * (100 - value) / 100, or does not fall below the start. |
| PeriodGuarantees.OneUpPolicyExactly | pkg/zaohua/daofa/behavor_processor.go:145-176 | Exactly the count that a single Pods or Percent policy lets through, from what its period has moved so far: the recommendation, held back to base + value, or to the least n with n * 100 at least base * (100 + value), and never below the current count. |
| PeriodGuarantees.OneDownPolicyExactly | pkg/zaohua/daofa/behavor_processor.go:178-210 | The same for a single scale-down policy. |
| BehaviorEdits.PeriodEditIsSafeExactly | pkg/zaohua/daofa/zaohua.go:468-501 | In either direction, an edit that changes the longest period from p to q leaves every decision as the full history would make it, in all runs, exactly when q <= p. |
| BehaviorEdits.LongerPeriodMissesEvents | pkg/zaohua/daofa/zaohua.go:468-501 | For all p < q and both directions, a run in which that edit makes an overwritten event needed again: one replica too many gets through. |
| BehaviorEdits.WindowEditIsSafeExactly | pkg/zaohua/daofa/behavor_processor.go:83-98 | An edit that changes the longer stabilisation window from v to w does so exactly when w <= v. |
| BehaviorEdits.WiderWindowMissesRecords | pkg/zaohua/daofa/behavor_processor.go:83-106 | For all v < w, a run in which that edit makes an overwritten recommendation needed again: nine replicas stay where one is asked for. |
| ScalerState.ScalerLogs.constructor | pkg/zaohua/daofa/zaohua.go:25-33 | The logs start empty. |
| ScalerState.ScalerLogs.Stabilize | pkg/zaohua/daofa/behavor_processor.go:64-109 | The loop returns the least recommendation of the scale-up window (the greatest of the scale-down window) and the desired count, and puts it into the record log, in the reused slot or at the end. |
| ScalerState.ScalerLogs.LimitRate | pkg/zaohua/daofa/behavor_processor.go:112-143 | Returns the limited count, from the event log of the direction after stabilisation. |
| ScalerState.ScaleUpLimit | pkg/zaohua/daofa/behavor_processor.go:145-176 | The loop over policies returns the scale-up limit: exactly the counts up to it are allowed by the rules. |
| ScalerState.ScaleDownLimit | pkg/zaohua/daofa/behavor_processor.go:178-210 | The loop over policies returns the scale-down limit: exactly the counts down to it are allowed by the rules. |
| ScalerState.ReplicasChanged | pkg/zaohua/daofa/behavor_processor.go:213-223 | Returns the sum of the changes after the start of the period. |
| ScalerState.LongestPolicyPeriod | pkg/zaohua/daofa/zaohua.go:468-477 | Returns the longest period of the policies, 0 for none. |
| ScalerState.ScalerLogs.Revise | pkg/zaohua/daofa/behavor_processor.go:22-54 | Limits the stabilised count, and records the stabilised one. |
| ScalerState.ScalerLogs.MarkScaleUpEventsOutdated | pkg/zaohua/daofa/zaohua.go:479-489 | Flags exactly the scale-ups older than the longest period, keeping older flags and all else. |
| ScalerState.ScalerLogs.MarkScaleDownEventsOutdated | pkg/zaohua/daofa/zaohua.go:491-501 | The same for scale-downs. |
| ScalerState.ScalerLogs.StoreScaleEvent | pkg/zaohua/daofa/zaohua.go:416-466 | Stores the change in the log of its direction, in the last expired slot or at the end; fails, changing nothing, when the rules of that direction are missing. |
| ScalerState.ScalerLogs.ExecScale | pkg/zaohua/daofa/zaohua.go:338-378 | The fields stay the logs of a run, extended by this call. The count sent is the run's final count, and the desired count when a side of the behaviour is missing; the outcome is a failed update exactly when the API refuses, a crash exactly when an accepted change has no rules, and otherwise reports the count sent. |
| ScalingRounds.DetectAndScale | pkg/zaohua/daofa/zaohua.go:122-207 | A round whose election labels its metrics without a crash (`AsWritten.ElectAsWritten` says when it crashes) makes one scaling call with the elected count, or none when it equals the current one, and records its result, 0 replicas for a failed update. |
| ScalingRounds.UnruledRoundSendsElected | pkg/zaohua/daofa/zaohua.go:338-363 | With a side of the behaviour missing an accepted round leaves exactly the clamped maximum of the running count and the proposals. |
| ScalingRounds.SettledRoundDoesNothing | pkg/zaohua/daofa/zaohua.go:160-170 | A round with an unsupported metric, or whose elected count is the one asked for already, changes neither the count nor any log. |
| ScalingRounds.OtherRoundsCall | pkg/zaohua/daofa/zaohua.go:151-177 | Every other round makes exactly one call, from the count asked for to the elected one, and leaves what that call sends, or the old count when the API refuses. |
| ScalingRounds.RoundsComeToStayInRange | pkg/zaohua/daofa/zaohua.go:328-335 | From any round k on, under bounds lo <= hi and with no other writer, the count and all records stay in [lo, hi] if they are there at round k, whatever bounds and writers came before. |
| ScalingRounds.RoundsStayInRange | pkg/zaohua/daofa/zaohua.go:328-335 | With fixed bounds lo <= hi the count never leaves [lo, hi] once inside, at whatever round that is. |
| ScalingRounds.RoundsNeverScaleDown | pkg/zaohua/daofa/zaohua.go:257-335 | With a fixed behaviour, no other writer, at least as many replicas running as asked for and a count within its maximum, no metrics whatsoever lower the count. |
| ScalingRounds.ScaleUpsNeverFall | pkg/zaohua/daofa/behavor_processor.go:64-143 | In a run of scale-up calls under one behaviour stabilisation never turns a call into a scale-down. |
| MetricElection.Elect | pkg/zaohua/daofa/zaohua.go:238-336 | With the labels repaired, returns the clamped maximum of the current count and all successful proposals, and the first metric that attains it (0 when none exceeds the current count); an unsupported metric fails the election; it scales down exactly to a maximum below the current count. |
| MetricElection.Peak | pkg/zaohua/daofa/zaohua.go:257-326 | The value is at least the current count and every proposal, and is one of them. |
| MetricElection.Clamp | pkg/zaohua/daofa/zaohua.go:328-333 | The result lies in [lo, hi] exactly when lo <= hi, and moves only to the bound that was passed; with crossed bounds the upper one counts first. |
| MetricElection.OrderDoesNotMatter | pkg/zaohua/daofa/zaohua.go:260-326 | The elected value is the same for every permutation of the metrics. |
| StatusHistory.KeepsTheFiveBefore | pkg/zaohua/daofa/zaohua.go:386-400 | After any updates the current result is the last accepted one, and the five kept are the five before it, oldest first, padded with the initial ones. |
| StatusHistory.OriginIsFirstFound | pkg/zaohua/daofa/zaohua.go:402-405 | The original count is the first non-zero count found by an accepted update, and once non-zero it never changes. |
| StatusHistory.ShiftIn | pkg/zaohua/daofa/zaohua.go:394-400 | The in-place loop drops the oldest entry, keeps the order and appends the newest. |
| StatusHistory.StatusRecord.UpdateStatus | pkg/zaohua/daofa/zaohua.go:386-414 | An accepted update replaces the record by the next one, a failed one leaves it alone. |
| PodGroups.GroupPods | pkg/zaohua/daofa/replica_calculator.go:603-653 | The loop returns the number of ready pods and the names of the unready, missing and ignored ones. |
| PodGroups.RunningPodsExactly | pkg/zaohua/daofa/replica_calculator.go:628-649 | A running pod with a sample is ready for any metric but CPU; for CPU, unready without a condition or start time, in its initialisation period ready exactly when not unready and sampled since its last transition, and later exactly when not unready or unready only since the readiness delay passed. |
| PodGroups.OtherPodsExactly | pkg/zaohua/daofa/replica_calculator.go:612-626 | In the pod's own fields: ignored exactly when being deleted or failed, unready when pending, missing exactly when none of these and without a sample; the phase makes no other difference. |
| PodGroups.PodsArePartitioned | pkg/zaohua/daofa/replica_calculator.go:603-653 | With distinct names the classes are disjoint, cover the list, and have sizes that add up to it. |
| PodMetrics.MetricUtilization | pkg/zaohua/daofa/metrics/utilization.go:34-44 | The loop returns the truncated average over all entries, in whatever order they come. |
| PodMetrics.AverageLiesWithin | pkg/zaohua/daofa/metrics/utilization.go:34-44 | The average lies between the least and the greatest value. |
| PodMetrics.DeleteAll | pkg/zaohua/daofa/replica_calculator.go:85-92 | The loop deletes exactly the given names. |
| PodMetrics.FillAll | pkg/zaohua/daofa/replica_calculator.go:120-140 | The loop gives exactly the given names the given value. |
| PodMetrics.FillWithTargetStaysBelow | pkg/zaohua/daofa/replica_calculator.go:120-126 | Below target, filling with the target keeps the truncated average below the target and never lowers it. |
| PodMetrics.FillWithZeroNeverRaises | pkg/zaohua/daofa/replica_calculator.go:127-140 | At or above target, filling with zeros never raises the truncated average. |
| PodMetrics.CountIsSufficientAndMinimal | pkg/zaohua/daofa/replica_calculator.go:151 | For a count r from n entries of load total: total - r * target < n, and (r - 1) * target < total for a load that is not negative. |
| ReplicaCalculator.PlainMetricReplicas | pkg/zaohua/daofa/replica_calculator.go:64-157 | The method, with its deletions and fillings, computes the specified proposal or error. |
| ReplicaCalculator.RebalanceAndSettle | pkg/zaohua/daofa/replica_calculator.go:120-156 | The shared tail fills the map, averages again and applies the guards. |
| ReplicaCalculator.BalancedHoldsClasses | pkg/zaohua/daofa/replica_calculator.go:83-140 | After deletion and filling the listed pods in the map are exactly ready, missing and (above target) unready ones, and the map has grown by exactly those sets; samples are kept, missing pods count as at the target below it and as idle otherwise, unready ones as idle. |
| ReplicaCalculator.RebalancingDampens | pkg/zaohua/daofa/replica_calculator.go:109-143 | The rebalanced average stays below target and is no lower when the first was below it, and is no higher otherwise. |
| ReplicaCalculator.SettleMovesWithRatio | pkg/zaohua/daofa/replica_calculator.go:250-267 | For any first ratio: the count rises exactly when the second average exceeds the target by more than tolerance times the target, the first was not below, and the count asked for is higher; dually it falls; a new count is the one asked for. |
| ReplicaCalculator.PlainAlwaysSettles | pkg/zaohua/daofa/replica_calculator.go:112-118 | The early answer within tolerance equals what the last step would give. |
| ReplicaCalculator.PlainMovesWithRatio | pkg/zaohua/daofa/replica_calculator.go:64-157 | Exactly when the plain calculator scales up and down, with the tolerance in plain numbers; it never moves against the first ratio, and at the target never up. |
| ReplicaCalculator.PlainCountIsSufficientAndMinimal | pkg/zaohua/daofa/replica_calculator.go:142-156 | A new count serves the balanced load up to the error of the average, and one replica fewer would not. |
| ReplicaCalculator.PlainFailsExactly | pkg/zaohua/daofa/replica_calculator.go:73-107 | Exactly which error the plain calculator answers, and otherwise the average over the samples of pods that are neither unready nor ignored as its utilization. |
| ReplicaCalculator.ResourceUtilization | pkg/zaohua/daofa/metrics/utilization.go:6-31 | The loop returns the used percentage of all requests over the pods that have both, or fails when nothing is requested. |
| ReplicaCalculator.PercentUsedExactly | pkg/zaohua/daofa/metrics/utilization.go:11-26 | It fails exactly when all counted requests are zero, and is otherwise the truncated percentage of the usage in the requests of exactly the pods that have both. |
| ReplicaCalculator.PercentLiesWithin | pkg/zaohua/daofa/metrics/utilization.go:6-31 | When every pod uses between lo and hi percent of its request, so do all together, whatever pods without a request use. |
| ReplicaCalculator.ResourceMetricReplicas | pkg/zaohua/daofa/replica_calculator.go:165-268 | Each error in its order; otherwise the count for the ready pods, or the shared tail with the percentage as first ratio. |
| ReplicaCalculator.ResourceMovesWithRatio | pkg/zaohua/daofa/replica_calculator.go:220-267 | With nothing to fill in: the current count within tolerance, otherwise the least count that covers the ready pods' load; with something to fill in: exactly when the count rises and falls. |
| HoumaoLifecycle.NoOrphans | controllers/houmao_controller.go:55-147 | At every point of every interleaving of users, other controllers, failing API calls, outdated copies of the Houmao and crashes, a Xianqi has its Houmao, which holds the finalizer. |
| HoumaoLifecycle.XianqiGoesFirst | controllers/houmao_controller.go:118-141 | Whatever step makes a Houmao disappear, its Xianqi is already gone. |
| HoumaoLifecycle.ActKeepsInv | controllers/houmao_controller.go:164-198 | Every step of anybody keeps the lifecycle invariant. |
| HoumaoLifecycle.OrphanedExactly | controllers/houmao_controller.go:168-173 | For every live Houmao and cluster: no interleaving of the reconciler with others who are polite from now on leaves an orphan, if and only if the Houmao holds the finalizer, or has none while there is no Xianqi. |
| HoumaoLifecycle.ForeignFinalizerOrphans | controllers/houmao_controller.go:168-173 | For every live Houmao: a pass, the deletion and the withdrawal of all other finalizers orphan nothing exactly when its list was empty or held this finalizer. |
| HoumaoLifecycle.StaleCopyOrphansExactly | controllers/houmao_controller.go:71-82 | A pass that starts from an outdated copy of the Houmao can orphan, in some polite interleaving, exactly when the copy shows a live Houmao with finalizers that no longer holds this one. |
| HoumaoLifecycle.MissedXianqiIsOrphaned | pkg/xianqi_manager/xianqi_manager.go:114-124 | A lookup that wrongly reports no Xianqi leaves it behind exactly when nobody else holds the deleting Houmao. |
| HoumaoLifecycle.PassConverges | controllers/houmao_controller.go:73-146 | From any cluster one undisturbed pass leaves a Xianqi exactly when the Houmao lives, with its resources; a deleting Houmao is gone unless another controller holds it. |
| HoumaoLifecycle.SecondPassChangesNothing | controllers/houmao_controller.go:73-146 | A second undisturbed pass leaves the whole cluster as it is. |
| HoumaoLifecycle.WithoutString | controllers/houmao_controller.go:210-219 | The result lacks the given string and keeps the number of every other one. |
| HoumaoReconciler.AddString | controllers/houmao_controller.go:200-208 | Appends the string unless the list has it. |
| HoumaoReconciler.RemoveString | controllers/houmao_controller.go:210-219 | Removes every occurrence and keeps the rest in order. |
| HoumaoReconciler.Reconciler.AddFinalizers | controllers/houmao_controller.go:164-180 | One step of the machine: an empty list gets the finalizer by an update that may fail or conflict; a deleting Houmao is left alone without an error. |
| HoumaoReconciler.Reconciler.DelFinalizers | controllers/houmao_controller.go:183-198 | One step of the machine: a deleting Houmao loses the finalizer by an update that may fail or conflict. |
| HoumaoReconciler.Reconciler.CreateOrUpdateXianqi | pkg/xianqi_manager/xianqi_manager.go:21-88 | Two steps of the machine: after a failed or empty get it creates, otherwise it updates the resources. |
| HoumaoReconciler.Reconciler.DestroyXianqi | pkg/xianqi_manager/xianqi_manager.go:114-133 | The machine's steps: nothing to do without a Xianqi, otherwise a deletion that may fail. |
| HoumaoReconciler.Reconciler.Reconcile | controllers/houmao_controller.go:55-147 | For every set of answers the method leaves the cluster that the step machine leaves. |
| HoumaoReconciler.FailedPassIsRepaired | controllers/houmao_controller.go:55-147 | A pass that fails anywhere orphans nothing, and the next undisturbed pass settles the cluster. |
| FailedPasses.LivePassExactly | controllers/houmao_controller.go:82-117 | For every set of failing calls, exactly what a pass leaves of a live Houmao: finalizers, Xianqi and resources, phase and name. A failed lookup leads to a creation, which fails when the Xianqi exists. |
| FailedPasses.DyingPassExactly | controllers/houmao_controller.go:118-141 | The same for a deleting Houmao: the Xianqi goes first, then the phase, then the finalizer, each only if what comes before succeeded. |
| FailedPasses.AbsentPassExactly | controllers/houmao_controller.go:73-80 | A pass whose get fails does nothing; one without a Houmao only deletes the Xianqi, if both its calls succeed. |
| FailedPasses.StepsKeepEdits | controllers/houmao_controller.go:164-198 | No step of the reconciler takes back what a user asked for or a deletion, brings a Houmao back, or makes a live one disappear. |
| FailedPasses.OutdatedPassGivesUp | controllers/houmao_controller.go:168-173 | A call whose object has changed since it was read ends the pass and touches nothing. |
| SpecReload.RoundsUseReturnedSpecs | pkg/zaohua/daofa/zaohua.go:65-119 | In every interleaving a round uses a spec at least as new as that of every reload call that has returned; with no call under way and no copy half done the loop holds the last publication. |
| SpecReload.SignalIsServed | pkg/zaohua/daofa/zaohua.go:91-100 | A waiting signal is taken and its spec loaded within seven steps of the loop, and stays loaded. |
| SpecReload.PublicationsDiffer | pkg/zaohua/controllers/zaohua_controller.go:47-48 | No spec is published twice in a row, and never the zero spec first. |
| SpecReload.EditIsLoaded | pkg/zaohua/controllers/zaohua_controller.go:47-52 | An observed spec that differs from the last published one is published once, and held by the loop within seven of its steps; an equal one changes nothing and, outside a copy, is held already. |
| SpecReload.RoundsComeAround | pkg/zaohua/daofa/zaohua.go:69-102 | From every state the loop reaches its next round within four steps, with or without a reload. |
| SpecReload.ReloadDropsMetadata | pkg/zaohua/daofa/zaohua.go:115-119 | Outside a copy the loop holds its initial metadata exactly until the first reload call returns, and none from then on. |
| SpecReload.PublisherKeepsInv | pkg/zaohua/controllers/zaohua_controller.go:32-52 | Every step of the publishing reconciler keeps the hand-over invariant. |
| SpecReload.SignalLoadsExactly | pkg/zaohua/daofa/zaohua.go:91-128 | From every reachable state, with no condition on specs: a waiting signal is taken within seven steps, and its object is held from then on exactly when no round on a zero object takes it. |
| SpecReload.RunsWaitOnZero | pkg/zaohua/daofa/zaohua.go:122-128 | In every run the loop waits in the middle of a round only while it holds a zero object. |
| SpecReload.ZeroSpecLosesSignal | pkg/zaohua/daofa/zaohua.go:122-128 | For any specs before and after: once a zero spec is published, the next reload call returns but its spec is not loaded. |
| AsWritten.ScaleDownStabilizedOnlyWhenConstant | pkg/zaohua/daofa/behavor_processor.go:225-230 | Scale-down stabilisation is right exactly when the window holds only the desired count. |
| AsWritten.ExpiryAsWrittenAgrees | pkg/zaohua/daofa/behavor_processor.go:83-106 | Taking the smaller window for expiry leaves every log as intended exactly when the two windows are equal. |
| AsWritten.ZeroWindowKeepsOneRecord | pkg/zaohua/daofa/behavor_processor.go:83-85 | With a scale-up window of zero the record log never holds more than the last recommendation. |
| AsWritten.UpLimitAsWrittenFreezes | pkg/zaohua/daofa/behavor_processor.go:149-168 | Under "Min" the scale-up limit is the current count; right exactly when some policy allows no increase or the count is the largest. |
| AsWritten.UnsetSelectorCrashes | pkg/zaohua/daofa/behavor_processor.go:155-167 | Any selector but "Disabled" and "Min" crashes exactly when there is a policy, and without one gives the right limits exactly at the ends of the int32 range. |
| AsWritten.DownLimitAsWrittenAgrees | pkg/zaohua/daofa/behavor_processor.go:127-207 | For the scale-up rules passed and any scale-down rules: exactly when the scale-down limit is the one that the scale-down rules ask for, under every selector. |
| AsWritten.DownLimitAsWrittenBlocks | pkg/zaohua/daofa/behavor_processor.go:185-207 | Under "Min" the scale-down limit lets the count fall exactly when a scale-up proposal lies below it; with no recent changes, never. |
| AsWritten.ConvertAsWrittenIsZero | pkg/zaohua/daofa/behavor_processor.go:112-143 | For a count that should not fall, the answer 0 is right exactly for zero replicas that may not, or need not, grow; for one that should, the answer is right exactly when its limit is, or neither limit is reached. |
| AsWritten.SentUnrevised | pkg/zaohua/daofa/zaohua.go:338-363 | Exactly when sending the desired count equals sending the revised one. |
| AsWritten.DirectionFlips | pkg/zaohua/daofa/zaohua.go:343-352 | The direction changes exactly when the window holds a recommendation beyond the current count. |
| AsWritten.ElectAsWritten | pkg/zaohua/daofa/zaohua.go:257-326 | The loop as written crashes exactly when some Pods metric asks for more than the current count and all metrics before it; otherwise it elects as intended, and never a Pods metric. |
| AsWritten.SafeInEveryOrder | pkg/zaohua/daofa/zaohua.go:287-297 | A set of metrics never crashes the election in any order exactly when no Pods metric asks for more than the current count. |
| AsWritten.OnlyDeletedPodsAgree | pkg/zaohua/daofa/replica_calculator.go:612-615 | A pod is classified as intended exactly when it is being deleted; every other pod is ignored unless it failed, and a failed one is taken for a running one. |
| AsWritten.ToleratedCountAsWritten | pkg/zaohua/daofa/replica_calculator.go:113-118 | The count given within tolerance is the current one exactly when the ready pods' load needs it; at a ratio of 1, when all replicas are ready. |
| AsWritten.FinalizerIsNeverRemoved | controllers/houmao_controller.go:183-198 | A deleting Houmao with finalizers is never released; right exactly when this controller's is not among them or the update would fail. |
| AsWritten.DestroyAsWrittenAgrees | pkg/xianqi_manager/xianqi_manager.go:121-124 | The steps agree exactly when the get succeeds or no Houmao waits for release. |
| AsWritten.FailedGetOrphans | pkg/xianqi_manager/xianqi_manager.go:121-124 | With the removal of the finalizer repaired, one failed get leaves an orphan exactly when nobody else holds the Houmao. |
| AsWritten.FailedGetPassKeepsBoth | controllers/houmao_controller.go:118-141 | With both departures as written the failed get orphans nothing: the Houmao is never released, and only its phase changes. |
| AsWritten.FailedGetDestroysLive | controllers/houmao_controller.go:73-80 | The steps agree exactly when the get succeeds; otherwise one failed get destroys the Xianqi of a live Houmao. |

## Left out

- float64 rounding and int32 wrap-around: counts and ratios are computed exactly; desired, current and proposed counts are int32.
- Missing windows and selectors, and policy types other than Pods and Percent: rules are assumed to have all their fields. Nothing in the repository fills them in; without a selector the code crashes (`pkg/zaohua/daofa/behavor_processor.go:149`, `182`).
- A target that is not positive: the code divides by it as a float; the calculators here require a positive one.
- Informer caches: an outdated copy of the Houmao is a step (`ReadsCache`), assumed safe in the sense of `StaleCopyOrphansExactly`; an outdated "not found" for the Xianqi is not a step of `NoOrphans`, which it breaks (`MissedXianqiIsOrphaned`).
- HoumaoLifecycle.NoOrphans: other controllers must not touch this controller's finalizer, nor put one of their own on a live Houmao before it; without the latter it is false, see `OrphanedExactly` for exactly when.
- A restart after a crash: runs go on with the kept logs, while a new process starts from empty ones.
- Torn reads inside one spec: `SpecReload` copies spec and status as two steps, each of them atomic.
- `StartZaohua`'s exit on a cancelled context and its modes: the loop runs on, and every mode is the active one.
- pkg/status_updator/status_updator.go: a status patch is a step that sets the field or fails; its JSON is not part of this model.
- pkg/zaohua/daofa/metrics/rest_metrics_client.go and the pod request sums (`calculatePodRequests`): fetched values are arbitrary inputs.
- The Object and External calculators: single formulas over one fetched number.
- ReplicaCalculator.ResourceMetricReplicas: relates its first ratio (a percentage of requests) and its second (an average against the target) only by the guards of the last step, because the code measures them differently.
- Metric type and name labels of an election: their values are reported only; that reading them can crash is modelled (`AsWritten.ElectAsWritten`).
- `UpdateXianqi`, `scaleForEvent`, `syncService`, `ZaohuaStartup`: unused or empty.
- Loss of the getScale, selector and ParseGroupVersion errors: such a round ends before the election.
