/** How many replicas one metric asks for, from per-pod values and the state of the pods. */
module ReplicaCalculator {
  import opened IntArithmetic
  import opened Options
  import opened PodMetrics
  import opened PodGroups

  /** How a utilization compares with its target: the usage ratio below, at or above 1. */
  datatype Side = Below | At | Above

  function SideOf(utilization: int, target: int): Side {
    if utilization < target then Below else if utilization == target then At else Above
  }

  /** |1 - utilization / target| <= tolerance. */
  predicate WithinTolerance(utilization: int, target: int, tolerance: real)
    requires 0 < target
  {
    -(tolerance * target as real) <= (target - utilization) as real <= tolerance * target as real
  }

  datatype CountResult = Proposed(replicas: int, utilization: int) | ListFailed | NoPods | NoMetrics | NoRequests

  /** Whether unready pods must be counted as idle before scaling up. */
  predicate Rebalances(unready: set<string>, first: Side) {
    unready != {} && first == Above
  }

  /** The unready pods that are filled in. */
  function FilledUnready(unready: set<string>, first: Side): set<string> {
    if Rebalances(unready, first) then unready else {}
  }

  /** The metrics map once missing (and, when rebalancing, unready) pods have been filled in. */
  function Balanced(
    kept: Metrics, missing: set<string>, unready: set<string>, first: Side, target: int): (balanced: Metrics)
    ensures kept != map[] || missing != {} ==> balanced != map[]
  {
    var filled := Filled(kept, missing, if first == Below then target else 0);
    assert filled.Keys == kept.Keys + missing;
    if Rebalances(unready, first) then
      assert Filled(filled, unready, 0).Keys == filled.Keys + unready;
      Filled(filled, unready, 0)
    else filled
  }

  /** The last step: the count for `n` entries of average `second`, unless it would be a change within tolerance, a
      change of mind, or a change against its own ratio. */
  function Settle(first: Side, second: int, n: nat, current: int, target: int, tolerance: real): int
    requires 0 < target
  {
    var side := SideOf(second, target);
    var count := CountFor(second, n, target);
    if WithinTolerance(second, target, tolerance)
      || (first == Below && side == Above) || (first == Above && side == Below)
      || (side == Below && count > current) || (side == Above && count < current)
    then current
    else count
  }

  function Kept(pods: seq<Pod>, metrics: Metrics, cpu: bool, t: Timing): Metrics {
    metrics - Names(pods, metrics, cpu, t, Unready) - Names(pods, metrics, cpu, t, Ignored)
  }

  /** The balanced map that the second average of the plain calculator is taken over. */
  ghost function PlainBalanced(pods: seq<Pod>, metrics: Metrics, target: int, t: Timing): (balanced: Metrics)
    requires Kept(pods, metrics, false, t) != map[]
    ensures balanced != map[]
  {
    var kept := Kept(pods, metrics, false, t);
    Balanced(
      kept, Names(pods, metrics, false, t, Missing), Names(pods, metrics, false, t, Unready),
      SideOf(Average(kept), target), target)
  }

  // Repaired: within tolerance the code answers a count for the ready pods (AsWritten.ToleratedCountAsWritten).
  /** The plain calculator; `pods` is None when the list call fails. */
  ghost function Plain(
    pods: Option<seq<Pod>>, metrics: Metrics, current: int, target: int, tolerance: real, t: Timing): CountResult
    requires 0 < target
  {
    if pods.None? then ListFailed
    else if pods.value == [] then NoPods
    else
      var kept := Kept(pods.value, metrics, false, t);
      if kept == map[] then NoMetrics
      else
        var first := Average(kept);
        var side := SideOf(first, target);
        if !Rebalances(Names(pods.value, metrics, false, t, Unready), side)
          && Names(pods.value, metrics, false, t, Missing) == {}
          && WithinTolerance(first, target, tolerance)
        then Proposed(current, first)
        else
          var balanced := PlainBalanced(pods.value, metrics, target, t);
          Proposed(Settle(side, Average(balanced), |balanced|, current, target, tolerance), first)
  }

  /** The tail that the calculators share: filling, the second average, and the guards on the count. */
  method RebalanceAndSettle(
    kept: Metrics, missing: set<string>, unready: set<string>, first: Side, current: int, target: int, tolerance: real)
    returns (replicas: int)
    requires 0 < target && (kept != map[] || missing != {})
    ensures var balanced := Balanced(kept, missing, unready, first, target);
      replicas == Settle(first, Average(balanced), |balanced|, current, target, tolerance)
  {
    var m;
    if first == Below {
      m := FillAll(kept, missing, target);
    } else {
      m := FillAll(kept, missing, 0);
    }
    if unready != {} && first == Above {
      m := FillAll(m, unready, 0);
    }
    assert m == Balanced(kept, missing, unready, first, target);
    var second := MetricUtilization(m);
    var side := SideOf(second, target);
    if WithinTolerance(second, target, tolerance)
      || (first == Below && side == Above) || (first == Above && side == Below)
    {
      return current;
    }
    var count := CountFor(second, |m|, target);
    if (side == Below && count > current) || (side == Above && count < current) {
      return current;
    }
    replicas := count;
  }

  method PlainMetricReplicas(
    pods: Option<seq<Pod>>, metrics: Metrics, current: int, target: int, tolerance: real, t: Timing)
    returns (proposal: CountResult)
    requires 0 < target
    ensures proposal == Plain(pods, metrics, current, target, tolerance, t)
  {
    if pods.None? {
      return ListFailed;
    }
    if |pods.value| == 0 {
      return NoPods;
    }
    var ready, unready, missing, ignored := GroupPods(pods.value, metrics, false, t);
    var m := DeleteAll(metrics, unready);
    m := DeleteAll(m, ignored);
    assert m == Kept(pods.value, metrics, false, t);
    if m == map[] {
      return NoMetrics;
    }
    var first := MetricUtilization(m);
    var side := SideOf(first, target);
    if !Rebalances(unready, side) && missing == {} {
      if WithinTolerance(first, target, tolerance) {
        return Proposed(current, first);
      }
    }
    var replicas := RebalanceAndSettle(m, missing, unready, side, current, target, tolerance);
    proposal := Proposed(replicas, first);
  }

  // ---------- What filling does ----------

  /** Contents when the missing and unready names are new to the map and to each other. */
  lemma BalancedEntries(kept: Metrics, missing: set<string>, unready: set<string>, first: Side, target: int)
    requires missing !! kept.Keys && unready !! kept.Keys && missing !! unready
    ensures var balanced := Balanced(kept, missing, unready, first, target);
      && balanced.Keys == kept.Keys + missing + FilledUnready(unready, first)
      && (forall name <- kept :: balanced[name] == kept[name])
      && (forall name <- missing :: balanced[name].value == if first == Below then target else 0)
      && (forall name <- FilledUnready(unready, first) :: balanced[name].value == 0)
  {
    var filled := Filled(kept, missing, if first == Below then target else 0);
    assert filled.Keys == kept.Keys + missing;
    if Rebalances(unready, first) {
      assert Filled(filled, unready, 0).Keys == filled.Keys + unready;
    }
  }

  lemma FilledAddsUp(m: Metrics, names: set<string>, v: int)
    requires names !! m.Keys
    ensures |Filled(m, names, v)| == |m| + |names| && Filled(m, names, v).Keys == m.Keys + names
    ensures Total(Filled(m, names, v)) == Total(m) + |names| * v
  {
    FilledTotal(m, names, v);
    FilledSize(m, names, v);
  }

  lemma BalancedAddsUp(kept: Metrics, missing: set<string>, unready: set<string>, first: Side, target: int)
    requires missing !! kept.Keys && unready !! kept.Keys && missing !! unready
    ensures var balanced := Balanced(kept, missing, unready, first, target);
      && |balanced| == |kept| + |missing| + |FilledUnready(unready, first)|
      && Total(balanced) == Total(kept) + |missing| * (if first == Below then target else 0)
  {
    var v := if first == Below then target else 0;
    var filled := Filled(kept, missing, v);
    FilledAddsUp(kept, missing, v);
    if Rebalances(unready, first) {
      FilledAddsUp(filled, unready, 0);
      assert Balanced(kept, missing, unready, first, target) == Filled(filled, unready, 0);
    } else {
      assert Balanced(kept, missing, unready, first, target) == filled;
    }
  }

  lemma ClassesMeetMap(pods: seq<Pod>, metrics: Metrics, cpu: bool, t: Timing)
    requires DistinctNames(pods)
    ensures var kept := Kept(pods, metrics, cpu, t);
      var missing, unready := Names(pods, metrics, cpu, t, Missing), Names(pods, metrics, cpu, t, Unready);
      && missing !! kept.Keys && unready !! kept.Keys && missing !! unready
      && kept.Keys * AllNames(pods) == Names(pods, metrics, cpu, t, Ready)
      && kept.Keys - AllNames(pods) == metrics.Keys - AllNames(pods)
      && missing <= AllNames(pods) && unready <= AllNames(pods)
  {
    var ready, ignored := Names(pods, metrics, cpu, t, Ready), Names(pods, metrics, cpu, t, Ignored);
    ClassesCover(pods, metrics, cpu, t);
    ReadyAreMeasured(pods, metrics, cpu, t);
    ClassesAreDisjoint(pods, metrics, cpu, t, Missing, Unready);
    ClassesAreDisjoint(pods, metrics, cpu, t, Ready, Unready);
    ClassesAreDisjoint(pods, metrics, cpu, t, Ready, Ignored);
  }

  /** What the map holds after deletion and filling, when the first ratio compares `first` with `target`.  The listed
      pods in it are exactly the ready and the missing ones and, above the target, the unready ones, and it has grown by
      exactly those sets; samples stay as they are, missing pods count as running at the target below it and as idle
      otherwise, and unready ones as idle. */
  lemma BalancedHoldsClasses(pods: seq<Pod>, metrics: Metrics, cpu: bool, t: Timing, first: int, target: int)
    requires DistinctNames(pods)
    ensures var kept := Kept(pods, metrics, cpu, t);
      var missing, unready := Names(pods, metrics, cpu, t, Missing), Names(pods, metrics, cpu, t, Unready);
      var idle := if first > target then unready else {};
      var balanced := Balanced(kept, missing, unready, SideOf(first, target), target);
      && balanced.Keys * AllNames(pods) == Names(pods, metrics, cpu, t, Ready) + missing + idle
      && balanced.Keys - AllNames(pods) == metrics.Keys - AllNames(pods)
      && |balanced| == |kept| + |missing| + |idle|
      && (forall name <- kept :: name in balanced && balanced[name] == metrics[name])
      && (forall name <- missing :: name in balanced && balanced[name].value == if first < target then target else 0)
      && (forall name <- idle :: name in balanced && balanced[name].value == 0)
  {
    var kept, side := Kept(pods, metrics, cpu, t), SideOf(first, target);
    var missing, unready := Names(pods, metrics, cpu, t, Missing), Names(pods, metrics, cpu, t, Unready);
    ClassesMeetMap(pods, metrics, cpu, t);
    BalancedEntries(kept, missing, unready, side, target);
    BalancedAddsUp(kept, missing, unready, side, target);
    KeysSplit(kept.Keys, missing, FilledUnready(unready, side), AllNames(pods), Names(pods, metrics, cpu, t, Ready));
  }

  lemma KeysSplit(kept: set<string>, missing: set<string>, idle: set<string>, all: set<string>, ready: set<string>)
    requires kept * all == ready && missing <= all && idle <= all
    ensures (kept + missing + idle) * all == ready + missing + idle
    ensures (kept + missing + idle) - all == kept - all
  {
  }

  lemma ReadyAreMeasured(pods: seq<Pod>, metrics: Metrics, cpu: bool, t: Timing)
    ensures Names(pods, metrics, cpu, t, Ready) <= metrics.Keys
    ensures Names(pods, metrics, cpu, t, Missing) !! metrics.Keys
  {
  }

  /** Rebalancing only dampens: below target the filled average stays below and is no lower than before; at or above
      target it is no higher than before. */
  lemma RebalancingDampens(pods: seq<Pod>, metrics: Metrics, target: int, t: Timing)
    requires DistinctNames(pods) && 0 < target && Kept(pods, metrics, false, t) != map[]
    ensures var first := Average(Kept(pods, metrics, false, t));
      var second := Average(PlainBalanced(pods, metrics, target, t));
      if first < target then first <= second < target else 0 <= second <= first
  {
    ClassesMeetMap(pods, metrics, false, t);
    FillingDampens(
      Kept(pods, metrics, false, t), Names(pods, metrics, false, t, Missing), Names(pods, metrics, false, t, Unready),
      target);
  }

  lemma FillingDampens(kept: Metrics, missing: set<string>, unready: set<string>, target: int)
    requires kept != map[] && 0 < target
    requires missing !! kept.Keys && unready !! kept.Keys && missing !! unready
    ensures var first := Average(kept);
      var second := Average(Balanced(kept, missing, unready, SideOf(first, target), target));
      if first < target then first <= second < target else 0 <= second <= first
  {
    var side := SideOf(Average(kept), target);
    BalancedAddsUp(kept, missing, unready, side, target);
    if side == Below {
      FillWithTargetStaysBelow(Total(kept), |kept|, |missing|, target);
    } else {
      var idle := |missing| + |FilledUnready(unready, side)|;
      FillWithZeroNeverRaises(Total(kept), |kept|, idle, target);
    }
  }

  // ---------- What the result means ----------

  /** The guards of the last step, for any first ratio, including the different measure that the resource calculators
      take it by.  The count goes up exactly when the second average exceeds the target by more than the tolerance, the
      first ratio was not below it, and the count asked for is higher; and dually it goes down. */
  lemma SettleMovesWithRatio(first: Side, second: int, n: nat, current: int, target: int, tolerance: real)
    requires 0 < target && 0.0 <= tolerance
    ensures var r, count := Settle(first, second, n, current, target, tolerance), CountFor(second, n, target);
      && (r > current <==>
            (second - target) as real > tolerance * target as real && first != Below && count > current)
      && (r < current <==>
            (target - second) as real > tolerance * target as real && first != Above && count < current)
      && (r != current ==> r == count)
  {
    assert 0.0 <= tolerance * target as real;
  }

  /** The early answer within tolerance is the one that the last step would have given. */
  lemma PlainAlwaysSettles(
    pods: seq<Pod>, metrics: Metrics, current: int, target: int, tolerance: real, t: Timing)
    requires 0 < target && pods != [] && Kept(pods, metrics, false, t) != map[]
    ensures var kept, balanced := Kept(pods, metrics, false, t), PlainBalanced(pods, metrics, target, t);
      var settled := Settle(
        SideOf(Average(kept), target), Average(balanced), |balanced|, current, target, tolerance);
      Plain(Some(pods), metrics, current, target, tolerance, t) == Proposed(settled, Average(kept))
  {
    hide Filled, Total, Quotient, Names;
    var kept := Kept(pods, metrics, false, t);
    FilledNothing(kept, 0);
    FilledNothing(kept, target);
  }

  /** Given pods and metrics for some of those that count, the plain calculator scales up exactly when the average over
      the map that `BalancedHoldsClasses` describes exceeds the target by more than the tolerance and asks for more
      replicas, and dually down, except that it stays when filling has taken an overloaded average below the target.  So
      it never moves against the ratio that it measured, and at the target it never scales up. */
  lemma PlainMovesWithRatio(
    pods: seq<Pod>, metrics: Metrics, current: int, target: int, tolerance: real, t: Timing)
    requires 0 < target && 0.0 <= tolerance && DistinctNames(pods) && pods != []
    requires Kept(pods, metrics, false, t) != map[]
    ensures var first := Average(Kept(pods, metrics, false, t));
      var balanced := Balanced(
        Kept(pods, metrics, false, t), Names(pods, metrics, false, t, Missing), Names(pods, metrics, false, t, Unready),
        SideOf(first, target), target);
      var second, slack := Average(balanced), tolerance * target as real;
      var count := CountFor(second, |balanced|, target);
      var proposal := Plain(Some(pods), metrics, current, target, tolerance, t);
      && proposal.Proposed? && proposal.utilization == first
      && (proposal.replicas > current <==> (second - target) as real > slack && count > current)
      && (proposal.replicas < current <==> (target - second) as real > slack && count < current && first <= target)
      && (proposal.replicas != current ==> proposal.replicas == count)
      && (first <= target ==> proposal.replicas <= current)
      && (first > target ==> proposal.replicas >= current)
  {
    hide Total, Quotient, Names, Settle, Kept, Filled, WithinTolerance, CountFor, Plain, Balanced;
    var balanced := PlainBalanced(pods, metrics, target, t);
    RebalancingDampens(pods, metrics, target, t);
    PlainAlwaysSettles(pods, metrics, current, target, tolerance, t);
    var first, second := Average(Kept(pods, metrics, false, t)), Average(balanced);
    SettleMovesWithRatio(SideOf(first, target), second, |balanced|, current, target, tolerance);
  }

  /** A new count serves the balanced load up to the error of the integer average, and for a load that is not negative
      one replica fewer would be overloaded. */
  lemma PlainCountIsSufficientAndMinimal(
    pods: seq<Pod>, metrics: Metrics, current: int, target: int, tolerance: real, t: Timing)
    requires 0 < target && 0.0 <= tolerance && DistinctNames(pods) && pods != []
    requires Kept(pods, metrics, false, t) != map[]
    ensures var balanced := Balanced(
        Kept(pods, metrics, false, t), Names(pods, metrics, false, t, Missing), Names(pods, metrics, false, t, Unready),
        SideOf(Average(Kept(pods, metrics, false, t)), target), target);
      match Plain(Some(pods), metrics, current, target, tolerance, t)
      case Proposed(r, _) => r != current ==>
        && Total(balanced) - r * target < |balanced|
        && (0 <= Total(balanced) ==> (r - 1) * target < Total(balanced))
      case _ => false
  {
    hide Total, Quotient, Names, Kept, Filled, CountFor, Plain;
    var balanced := PlainBalanced(pods, metrics, target, t);
    PlainMovesWithRatio(pods, metrics, current, target, tolerance, t);
    CountIsSufficientAndMinimal(Total(balanced), |balanced|, target);
  }

  /** When the plain calculator fails, and what it reports otherwise: the truncated average of the samples of those pods
      that are neither unready nor ignored. */
  lemma PlainFailsExactly(
    pods: Option<seq<Pod>>, metrics: Metrics, current: int, target: int, tolerance: real, t: Timing)
    requires 0 < target
    ensures var proposal := Plain(pods, metrics, current, target, tolerance, t);
      && (proposal == ListFailed <==> pods.None?)
      && (proposal == NoPods <==> pods == Some([]))
      && (proposal == NoMetrics <==>
            pods.Some? && pods.value != [] && forall name <- metrics :: LeftOut(pods.value, metrics, t, name))
      && proposal != NoRequests
      && (proposal.Proposed? ==>
            forall m :: m != map[] && CountedSamples(m, pods.value, metrics, t)
              ==> proposal.utilization == Average(m))
  {
    hide Quotient, Total, Settle, PlainBalanced;
    if pods.Some? && pods.value != [] {
      var kept := Kept(pods.value, metrics, false, t);
      assert forall name <- metrics :: name in kept <==> !LeftOut(pods.value, metrics, t, name);
      forall m | CountedSamples(m, pods.value, metrics, t)
        ensures m == kept
      {
        assert forall name :: name in m <==> name in kept;
      }
    }
  }

  /** A listed pod of this name is unready or ignored. */
  ghost predicate LeftOut(pods: seq<Pod>, metrics: Metrics, t: Timing, name: string) {
    exists p <- pods :: p.name == name && Classify(p, metrics, false, t) in {Unready, Ignored}
  }

  /** `m` holds the samples of all but those pods. */
  ghost predicate CountedSamples(m: Metrics, pods: seq<Pod>, metrics: Metrics, t: Timing) {
    && (forall name :: name in m <==> name in metrics && !LeftOut(pods, metrics, t, name))
    && (forall name <- m :: m[name] == metrics[name])
  }

  // ---------- The resource calculators ----------

  /** The entries of pods that have a request, and those pods' requests. */
  function Measured(metrics: Metrics, requests: map<string, nat>): Metrics {
    metrics - (metrics.Keys - requests.Keys)
  }

  function Requested(metrics: Metrics, requests: map<string, nat>): Metrics {
    map name | name in metrics && name in requests :: PodMetric(requests[name], 0, 0)
  }

  lemma MeasuredStep(rest: Metrics, requests: map<string, nat>, name: string)
    requires name in rest
    ensures Total(Measured(rest, requests))
         == (if name in requests then rest[name].value else 0) + Total(Measured(rest - {name}, requests))
    ensures Total(Requested(rest, requests))
         == (if name in requests then requests[name] else 0) + Total(Requested(rest - {name}, requests))
  {
    var left := rest - {name};
    if name in requests {
      TotalRemove(Measured(rest, requests), name);
      TotalRemove(Requested(rest, requests), name);
      assert Measured(rest, requests) - {name} == Measured(left, requests);
      assert Requested(rest, requests) - {name} == Requested(left, requests);
    } else {
      assert Measured(rest, requests) == Measured(left, requests);
      assert Requested(rest, requests) == Requested(left, requests);
    }
  }

  /** The metrics and the requests of the pods that have both, summed. */
  method MeasuredTotals(metrics: Metrics, requests: map<string, nat>) returns (used: int, requested: int)
    ensures used == Total(Measured(metrics, requests))
    ensures requested == Total(Requested(metrics, requests)) && 0 <= requested
  {
    var rest := metrics;
    used, requested := 0, 0;
    while rest != map[]
      invariant used + Total(Measured(rest, requests)) == Total(Measured(metrics, requests))
      invariant requested + Total(Requested(rest, requests)) == Total(Requested(metrics, requests))
      invariant 0 <= requested
      decreases |rest|
    {
      var name :| name in rest;
      MeasuredStep(rest, requests, name);
      if name in requests {
        used := used + rest[name].value;
        requested := requested + requests[name];
      }
      rest := rest - {name};
    }
    assert Measured(rest, requests) == map[] && Requested(rest, requests) == map[];
  }

  /** The percentage of all requests that is used, by the pods that have both; None when nothing is requested. */
  method ResourceUtilization(metrics: Metrics, requests: map<string, nat>) returns (percent: Option<int>)
    ensures percent == PercentUsed(metrics, requests)
  {
    var used, requested := MeasuredTotals(metrics, requests);
    percent := if requested == 0 then None else Some(Quotient(used * 100, requested));
  }

  ghost function PercentUsed(metrics: Metrics, requests: map<string, nat>): Option<int> {
    var requested := Total(Requested(metrics, requests));
    if requested <= 0 then None else Some(Quotient(Total(Measured(metrics, requests)) * 100, requested))
  }

  /** The count of a resource calculator, for pods whose percentage is `first`. */
  ghost function ResourceCount(
    pods: seq<Pod>, metrics: Metrics, cpu: bool, first: int, current: int, target: int, tolerance: real, t: Timing): int
    requires 0 < target && Kept(pods, metrics, cpu, t) != map[]
  {
    var kept, side := Kept(pods, metrics, cpu, t), SideOf(first, target);
    var missing, unready := Names(pods, metrics, cpu, t, Missing), Names(pods, metrics, cpu, t, Unready);
    if missing == {} && !Rebalances(unready, side) then
      if WithinTolerance(first, target, tolerance) then current
      else CountFor(first, Count(pods, metrics, cpu, t, Ready), target)
    else
      var balanced := Balanced(kept, missing, unready, side, target);
      Settle(side, Average(balanced), |balanced|, current, target, tolerance)
  }

  lemma PercentNeedsMetrics(metrics: Metrics, requests: map<string, nat>)
    requires PercentUsed(metrics, requests).Some?
    ensures metrics != map[]
  {
    assert metrics == map[] ==> Requested(metrics, requests) == map[];
  }

  /** The resource calculators (per pod, or per container with `cpu` false).  `requests` is None when they cannot be
      computed. */
  method ResourceMetricReplicas(
    pods: Option<seq<Pod>>, metrics: Metrics, requests: Option<map<string, nat>>, cpu: bool,
    current: int, target: int, tolerance: real, t: Timing)
    returns (proposal: CountResult)
    requires 0 < target
    ensures metrics == map[] ==> proposal == NoMetrics
    ensures metrics != map[] && pods.None? ==> proposal == ListFailed
    ensures metrics != map[] && pods == Some([]) ==> proposal == NoPods
    ensures metrics != map[] && pods.Some? && pods.value != [] ==>
      var kept := Kept(pods.value, metrics, cpu, t);
      if requests.None? || PercentUsed(kept, requests.value).None? then proposal == NoRequests
      else
        var first := PercentUsed(kept, requests.value).value;
        && kept != map[]
        && proposal == Proposed(ResourceCount(pods.value, metrics, cpu, first, current, target, tolerance, t), first)
  {
    if metrics == map[] {
      return NoMetrics;
    }
    if pods.None? {
      return ListFailed;
    }
    if |pods.value| == 0 {
      return NoPods;
    }
    var ready, unready, missing, ignored := GroupPods(pods.value, metrics, cpu, t);
    var m := DeleteAll(metrics, unready);
    m := DeleteAll(m, ignored);
    assert m == Kept(pods.value, metrics, cpu, t);
    if requests.None? {
      return NoRequests;
    }
    var percent := ResourceUtilization(m, requests.value);
    if percent.None? {
      return NoRequests;
    }
    PercentNeedsMetrics(m, requests.value);
    var first := percent.value;
    var side := SideOf(first, target);
    if !Rebalances(unready, side) && missing == {} {
      if WithinTolerance(first, target, tolerance) {
        return Proposed(current, first);
      }
      return Proposed(CountFor(first, ready, target), first);
    }
    var replicas := RebalanceAndSettle(m, missing, unready, side, current, target, tolerance);
    proposal := Proposed(replicas, first);
  }

  // ---------- What a resource calculator measures ----------

  lemma {:induction false} RequestedIsZero(metrics: Metrics, requests: map<string, nat>)
    ensures 0 <= Total(Requested(metrics, requests))
    ensures Total(Requested(metrics, requests)) == 0
      <==> forall name <- metrics :: name in requests ==> requests[name] == 0
    decreases |metrics|
  {
    if metrics == map[] {
      assert Requested(metrics, requests) == map[];
    } else {
      var name :| name in metrics;
      MeasuredStep(metrics, requests, name);
      RequestedIsZero(metrics - {name}, requests);
    }
  }

  /** The percentage, without naming the maps that it is summed over: `used` and `asked` hold the usage and the requests
      of exactly the pods that have both.  It fails exactly when all of those requests are zero. */
  lemma PercentUsedExactly(metrics: Metrics, requests: map<string, nat>, used: Metrics, asked: Metrics)
    requires used.Keys == asked.Keys == metrics.Keys * requests.Keys
    requires forall name <- used :: used[name].value == metrics[name].value && asked[name].value == requests[name]
    ensures PercentUsed(metrics, requests).None?
      <==> forall name <- metrics :: name in requests ==> requests[name] == 0
    ensures PercentUsed(metrics, requests).Some? ==>
      IsTruncated(PercentUsed(metrics, requests).value, Total(used) * 100, Total(asked))
  {
    hide Total, Quotient, IsTruncated;
    RequestedIsZero(metrics, requests);
    SameValuesSameTotal(used, Measured(metrics, requests));
    SameValuesSameTotal(asked, Requested(metrics, requests));
    if Total(asked) > 0 {
      QuotientBounds(Total(used) * 100, Total(asked));
    }
  }

  /** A usage of between `lo` and `hi` percent of a request. */
  predicate UsesBetween(used: int, asked: int, lo: int, hi: int) {
    asked * lo <= used * 100 <= asked * hi
  }

  lemma UsesAddUp(used: int, asked: int, more: int, askedMore: int, lo: int, hi: int)
    requires UsesBetween(used, asked, lo, hi) && UsesBetween(more, askedMore, lo, hi)
    ensures UsesBetween(used + more, asked + askedMore, lo, hi)
  {
    MulSplit(lo, asked, askedMore);
    MulSplit(hi, asked, askedMore);
  }

  lemma UsesNothing(lo: int, hi: int)
    ensures UsesBetween(0, 0, lo, hi)
  {
  }

  lemma {:induction false} MeasuredLiesWithin(metrics: Metrics, requests: map<string, nat>, lo: int, hi: int)
    requires forall name <- metrics :: name in requests ==> UsesBetween(metrics[name].value, requests[name], lo, hi)
    ensures UsesBetween(Total(Measured(metrics, requests)), Total(Requested(metrics, requests)), lo, hi)
    decreases |metrics|
  {
    hide UsesBetween;
    if metrics == map[] {
      assert Requested(metrics, requests) == map[] == Measured(metrics, requests);
      UsesNothing(lo, hi);
    } else {
      var name :| name in metrics;
      var rest := metrics - {name};
      MeasuredStep(metrics, requests, name);
      MeasuredLiesWithin(rest, requests, lo, hi);
      if name in requests {
        UsesAddUp(
          metrics[name].value, requests[name],
          Total(Measured(rest, requests)), Total(Requested(rest, requests)), lo, hi);
      }
    }
  }

  /** When every pod uses between `lo` and `hi` percent of its request, so do all of them together, however large the
      pods are and whatever the pods without a request use. */
  lemma PercentLiesWithin(metrics: Metrics, requests: map<string, nat>, lo: int, hi: int)
    requires PercentUsed(metrics, requests).Some?
    requires forall name <- metrics :: name in requests ==> UsesBetween(metrics[name].value, requests[name], lo, hi)
    ensures lo <= PercentUsed(metrics, requests).value <= hi
  {
    hide Total, Measured, Requested;
    var used, asked := Total(Measured(metrics, requests)), Total(Requested(metrics, requests));
    MeasuredLiesWithin(metrics, requests, lo, hi);
    QuotientBounds(used * 100, asked);
    QuotientWithin(used * 100, asked, lo, hi, Quotient(used * 100, asked));
  }

  /** Exactly what a resource calculator proposes, for a percentage of `first`.  With nothing to fill in: the current
      count within tolerance, and otherwise the least count that covers the ready pods' load.  With something to fill
      in: the guards of the last step, over the map that `BalancedHoldsClasses` describes. */
  lemma ResourceMovesWithRatio(
    pods: seq<Pod>, metrics: Metrics, cpu: bool, first: int, current: int, target: int, tolerance: real, t: Timing)
    requires 0 < target && 0.0 <= tolerance && DistinctNames(pods) && Kept(pods, metrics, cpu, t) != map[]
    ensures var r, slack := ResourceCount(pods, metrics, cpu, first, current, target, tolerance, t),
                            tolerance * target as real;
      var ready := |Names(pods, metrics, cpu, t, Ready)|;
      var missing, unready := Names(pods, metrics, cpu, t, Missing), Names(pods, metrics, cpu, t, Unready);
      if missing == {} && (unready == {} || first <= target) then
        if (first - target) as real > slack || (target - first) as real > slack
        then (r - 1) * target < first * ready <= r * target
        else r == current
      else
        var balanced := Balanced(Kept(pods, metrics, cpu, t), missing, unready, SideOf(first, target), target);
        var second, count := Average(balanced), CountFor(Average(balanced), |balanced|, target);
        && (r > current <==> (second - target) as real > slack && first >= target && count > current)
        && (r < current <==> (target - second) as real > slack && first <= target && count < current)
        && (r != current ==> r == count)
  {
    hide Kept, Names, Classify, Balanced, Quotient, Total, Settle;
    CountIsNames(pods, metrics, cpu, t, Ready);
    var missing, unready := Names(pods, metrics, cpu, t, Missing), Names(pods, metrics, cpu, t, Unready);
    var balanced := Balanced(Kept(pods, metrics, cpu, t), missing, unready, SideOf(first, target), target);
    SettleMovesWithRatio(SideOf(first, target), Average(balanced), |balanced|, current, target, tolerance);
  }
}
