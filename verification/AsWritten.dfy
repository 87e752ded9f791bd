/**
 * The places where the code departs from its intent, as they are written.  The other modules model the
 * repaired form; here each departure is compared with it, and a condition on the inputs says exactly when the
 * two agree.
 */
module AsWritten {
  import opened Options
  import opened ScalingRules
  import opened SlotLogs
  import opened BehaviorProcessor
  import opened ScaleRuns
  import opened MetricElection
  import opened PodMetrics
  import opened PodGroups
  import opened HoumaoLifecycle

  // ---------- max returns the smaller value ----------

  function MaxAsWritten(a: int, b: int): int {
    if a <= b then a else b
  }

  /** Stabilisation with it: both directions take the least recommendation. */
  function BestAsWritten(records: seq<Record>, cutoff: int, least: bool, seed: int): int {
    if records == [] then seed
    else
      var last := records[|records| - 1];
      var rest := BestAsWritten(records[..|records| - 1], cutoff, least, seed);
      if last.time > cutoff then
        if least then Min(last.desired, rest) else MaxAsWritten(last.desired, rest)
      else rest
  }

  lemma {:induction false} BestAsWrittenIsLeast(records: seq<Record>, cutoff: int, least: bool, seed: int)
    ensures BestAsWritten(records, cutoff, least, seed) == Best(records, cutoff, true, seed)
  {
    if records != [] {
      BestAsWrittenIsLeast(records[..|records| - 1], cutoff, least, seed);
    }
  }

  /** Scale-down is stabilised as intended exactly when the whole window holds nothing but the desired count. */
  lemma ScaleDownStabilizedOnlyWhenConstant(records: seq<Record>, cutoff: int, desired: int)
    ensures BestAsWritten(records, cutoff, false, desired) == Best(records, cutoff, false, desired)
      <==> forall r <- records :: r.time > cutoff ==> r.desired == desired
  {
    BestAsWrittenIsLeast(records, cutoff, false, desired);
    BestIsExtremum(records, cutoff, true, desired);
    BestIsExtremum(records, cutoff, false, desired);
  }

  /** The record log when the smaller window decides what has expired. */
  function RecordsAsWritten(calls: seq<Call>, counts: seq<int>): seq<Record>
    requires |calls| == |counts|
    requires forall c <- calls :: c.behavior.Complete()
  {
    if calls == [] then []
    else
      var last := |calls| - 1;
      var b := calls[last].behavior;
      assert calls[last] in calls && b.Complete();
      PutRecord(
        RecordsAsWritten(calls[..last], counts[..last]),
        Cutoff(calls[last].now, MaxAsWritten(b.up.value.window, b.down.value.window)),
        Record(counts[last], calls[last].now))
  }

  /** With the default scale-up window of zero the log then never holds more than the last recommendation, however
      long the scale-down window is. */
  lemma {:induction false} ZeroWindowKeepsOneRecord(calls: seq<Call>, counts: seq<int>)
    requires |calls| == |counts|
    requires forall c <- calls :: c.behavior.Complete() && c.behavior.up.value.window == 0
                                  && 0 <= c.behavior.down.value.window
    requires forall i, j :: 0 <= i < j < |calls| ==> calls[i].now < calls[j].now
    ensures RecordsAsWritten(calls, counts)
         == if calls == [] then [] else [Record(counts[|calls| - 1], calls[|calls| - 1].now)]
  {
    if calls != [] {
      var last := |calls| - 1;
      ZeroWindowKeepsOneRecord(calls[..last], counts[..last]);
      assert calls[last] in calls;
      if last > 0 {
        assert LastStale([Record(counts[last - 1], calls[last - 1].now)], calls[last].now) == 0;
      }
    }
  }

  /** The smaller window expires the right records exactly when the two windows are equal. */
  lemma ExpiryAsWrittenAgrees(up: Rules, down: Rules, now: int)
    ensures (forall records: seq<Record>, r: Record ::
               PutRecord(records, Cutoff(now, MaxAsWritten(up.window, down.window)), r)
                 == PutRecord(records, Cutoff(now, Max(up.window, down.window)), r))
      <==> up.window == down.window
  {
    var early, late := Cutoff(now, Max(up.window, down.window)), Cutoff(now, MaxAsWritten(up.window, down.window));
    if up.window != down.window {
      var needed, r := Record(0, early), Record(0, now);
      assert LastStale([needed], late) == 0 && LastStale([needed], early) == -1;
      assert |PutRecord([needed], late, r)| == 1 && |PutRecord([needed], early, r)| == 2;
    }
  }

  // ---------- The limits ----------

  /** None is the call of a selector that was never set. */
  function UpLimitAsWritten(current: int, events: seq<Event>, rules: Rules, now: int): Option<int> {
    match rules.select
    case Disabled => Some(current)
    case MinChange => Some(Max(current, LeastFrom(MIN_INT32, rules.policies, current, events, now)))
    case MaxChange => if rules.policies == [] then Some(Max(current, MAX_INT32)) else None
  }

  function DownLimitAsWritten(current: int, events: seq<Event>, rules: Rules, now: int): Option<int> {
    match rules.select
    case Disabled => Some(current)
    case MinChange => Some(Min(current, LeastFrom(MAX_INT32, rules.policies, current, events, now)))
    case MaxChange => if rules.policies == [] then Some(Min(current, MIN_INT32)) else None
  }

  /** Both limits take the least of the scale-up proposals, from a seed. */
  function LeastFrom(seed: int, policies: seq<Policy>, current: int, events: seq<Event>, now: int): int {
    if policies == [] then seed
    else
      var last := |policies| - 1;
      Min(LeastFrom(seed, policies[..last], current, events, now), Proposal(true, policies[last], current, events, now))
  }

  lemma {:induction false} LeastFromBounds(
    seed: int, policies: seq<Policy>, current: int, events: seq<Event>, now: int)
    ensures var least := LeastFrom(seed, policies, current, events, now);
      && least <= seed && (forall p <- policies :: least <= Proposal(true, p, current, events, now))
      && (least == seed || exists p <- policies :: least == Proposal(true, p, current, events, now))
  {
    if policies != [] {
      var last := |policies| - 1;
      LeastFromBounds(seed, policies[..last], current, events, now);
      assert policies == policies[..last] + [policies[last]];
      assert policies[last] in policies;
    }
  }

  /** Under "Min" the scale-up limit is stuck at the current count; that is the intended limit exactly when some
      policy allows no increase, or the count is already the largest one. */
  lemma UpLimitAsWrittenFreezes(current: int32, events: seq<Event>, rules: Rules, now: int)
    requires rules.select == MinChange
    ensures UpLimitAsWritten(current, events, rules, now) == Some(current)
    ensures UpLimit(current, events, rules, now) == current
      <==> current == MAX_INT32 || exists p <- rules.policies :: Proposal(true, p, current, events, now) <= current
  {
    LeastFromBounds(MIN_INT32, rules.policies, current, events, now);
    PickBounds(true, rules.policies, true, current, events, now);
    var pick := Pick(true, rules.policies, true, current, events, now);
    if pick <= current && pick != MAX_INT32 {
      var p :| p in rules.policies && pick == Proposal(true, p, current, events, now);
      assert Proposal(true, p, current, events, now) <= current;
    }
  }

  /** Any other selector crashes as soon as there is a policy; without one its limit is the wrong end of the int32
      range, and so right exactly when the count is already there. */
  lemma UnsetSelectorCrashes(current: int32, events: seq<Event>, rules: Rules, now: int)
    ensures rules.select == Disabled ==>
      UpLimitAsWritten(current, events, rules, now) == DownLimitAsWritten(current, events, rules, now) == Some(current)
    ensures UpLimitAsWritten(current, events, rules, now).None? <==> rules.select == MaxChange && rules.policies != []
    ensures DownLimitAsWritten(current, events, rules, now).None? <==> rules.select == MaxChange && rules.policies != []
    ensures rules.select == MaxChange ==>
      (UpLimitAsWritten(current, events, rules, now) == Some(UpLimit(current, events, rules, now))
       <==> rules.policies == [] && current == MAX_INT32)
    ensures rules.select == MaxChange ==>
      (DownLimitAsWritten(current, events, rules, now) == Some(DownLimit(current, events, rules, now))
       <==> rules.policies == [] && current == MIN_INT32)
  {
  }

  /** The rules leave no room below the current count. */
  ghost predicate MayNotFall(current: int, events: seq<Event>, rules: Rules, now: int) {
    match rules.select
    case Disabled => true
    case MinChange =>
      current == MIN_INT32 || exists p <- rules.policies :: Proposal(false, p, current, events, now) >= current
    case MaxChange => forall p <- rules.policies :: Proposal(false, p, current, events, now) >= current
  }

  /** Count `n`, below the current one, is the furthest that the rules allow. */
  ghost predicate MayFallTo(n: int, current: int, events: seq<Event>, rules: Rules, now: int) {
    match rules.select
    case Disabled => false
    case MinChange =>
      && (n == MIN_INT32 || exists p <- rules.policies :: Proposal(false, p, current, events, now) == n > MIN_INT32)
      && (forall p <- rules.policies :: Proposal(false, p, current, events, now) <= n)
    case MaxChange =>
      && (exists p <- rules.policies :: Proposal(false, p, current, events, now) == n)
      && (forall p <- rules.policies :: Proposal(false, p, current, events, now) >= n)
  }

  lemma DownLimitIs(n: int, current: int32, events: seq<Event>, rules: Rules, now: int)
    requires n <= current
    ensures DownLimit(current, events, rules, now) == n
      <==> if n == current then MayNotFall(current, events, rules, now) else MayFallTo(n, current, events, rules, now)
  {
    PickBounds(rules.select != MinChange, rules.policies, false, current, events, now);
  }

  /** The policy whose scale-up proposal is the least. */
  ghost predicate AsksLeast(q: Policy, policies: seq<Policy>, current: int, events: seq<Event>, now: int) {
    && q in policies
    && (forall p <- policies :: Proposal(true, q, current, events, now) <= Proposal(true, p, current, events, now))
  }

  /** The scale-down limit is taken from the wrong rules (`wrong` are those of scale-up), by the wrong formulas and from
      the wrong seeds.  Exactly when it is still the limit that `rules` ask for: when it stays at the current count and
      they leave no room; and when some scale-up proposal lies below the current count, if the least of them happens to
      be the furthest count that they allow. */
  lemma DownLimitAsWrittenAgrees(current: int32, events: seq<Event>, wrong: Rules, rules: Rules, now: int)
    ensures DownLimitAsWritten(current, events, wrong, now) == Some(DownLimit(current, events, rules, now)) <==>
      match wrong.select
      case Disabled => MayNotFall(current, events, rules, now)
      case MinChange =>
        if forall q <- wrong.policies :: Proposal(true, q, current, events, now) >= current
        then MayNotFall(current, events, rules, now)
        else exists q <- wrong.policies ::
               && AsksLeast(q, wrong.policies, current, events, now)
               && MayFallTo(Proposal(true, q, current, events, now), current, events, rules, now)
      case MaxChange =>
        && wrong.policies == []
        && (if current == MIN_INT32 then MayNotFall(current, events, rules, now)
            else MayFallTo(MIN_INT32, current, events, rules, now))
  {
    hide MayNotFall, MayFallTo, Proposal, DownLimit;
    LeastFromBounds(MAX_INT32, wrong.policies, current, events, now);
    match wrong.select {
      case Disabled => DownLimitIs(current, current, events, rules, now);
      case MinChange => DownLimitIs(DownLimitAsWritten(current, events, wrong, now).value, current, events, rules, now);
      case MaxChange => DownLimitIs(MIN_INT32, current, events, rules, now);
    }
  }

  /** Under "Min" the scale-down limit lets the count fall exactly when some policy's period has already seen more
      changes than the policy would add: with nothing changed recently, no scale-down gets through. */
  lemma DownLimitAsWrittenBlocks(current: int32, events: seq<Event>, rules: Rules, now: int)
    requires rules.select == MinChange
    ensures DownLimitAsWritten(current, events, rules, now).Some?
    ensures DownLimitAsWritten(current, events, rules, now).value < current
      <==> exists p <- rules.policies :: Proposal(true, p, current, events, now) < current
    ensures (forall p <- rules.policies ::
               p.kind == Pods && 0 <= p.value && WindowSum(events, Cutoff(now, p.period)) == 0)
      ==> DownLimitAsWritten(current, events, rules, now) == Some(current)
  {
    LeastFromBounds(MAX_INT32, rules.policies, current, events, now);
  }

  // ---------- The converted count ----------

  /** `limit` is the limit of a scale-down; anything else falls through every branch. */
  function ConvertAsWritten(stabilized: int, current: int, limit: int): int {
    if stabilized < current then Max(stabilized, limit) else 0
  }

  /** When the count should not fall, the answer 0 is right exactly for a target of zero replicas that may not, or need
      not, grow; when it should, the answer is right exactly when the limit is, or neither limit is reached. */
  lemma ConvertAsWrittenIsZero(
    stabilized: int, current: int32, ups: seq<Event>, downs: seq<Event>, up: Rules, down: Rules, now: int, limit: int)
    requires 0 <= current
    ensures ConvertAsWritten(stabilized, current, limit) == Limited(stabilized, current, ups, downs, up, down, now) <==>
      if stabilized < current then
        limit == DownLimit(current, downs, down, now)
        || (limit <= stabilized && DownLimit(current, downs, down, now) <= stabilized)
      else current == 0 && (stabilized == 0 || UpLimit(current, ups, up, now) == 0)
  {
  }

  // ---------- The shadowed result ----------

  ghost predicate NothingInWindow(records: seq<Record>, cutoff: int, desired: int, below: bool) {
    forall r <- records :: r.time > cutoff ==> if below then r.desired >= desired else r.desired <= desired
  }

  /** The revised count is thrown away and the desired one is sent.  Revision would have changed nothing exactly when
      no recommendation in the window is more cautious and the limit leaves room; for an unchanged count, when the
      window does not turn it into a scale-down that the limit allows. */
  lemma SentUnrevised(l: Logs, c: Call)
    requires c.behavior.Complete()
    ensures var up, down := c.behavior.up.value, c.behavior.down.value;
      Final(l, c) == c.desired <==>
        if c.desired > c.current then
          NothingInWindow(l.records, c.WindowStart(), c.desired, true)
          && c.desired <= UpLimit(c.current, l.ups, up, c.now)
        else if c.desired < c.current then
          NothingInWindow(l.records, c.WindowStart(), c.desired, false)
          && c.desired >= DownLimit(c.current, l.downs, down, c.now)
        else
          NothingInWindow(l.records, c.WindowStart(), c.desired, true)
          || c.current <= DownLimit(c.current, l.downs, down, c.now)
  {
    BestIsExtremum(l.records, c.WindowStart(), c.ScalesUp(), c.desired);
  }

  /** The event log is picked by the direction before stabilisation.  It is the wrong one exactly when the window holds
      a recommendation beyond the current count: stabilisation then turns a scale-up into a scale-down, or keeps a
      scale-down from scaling down at all. */
  lemma DirectionFlips(l: Logs, c: Call)
    requires c.behavior.Complete()
    ensures (c.desired > c.current && Recommended(l, c) < c.current)
      <==> (c.desired > c.current && exists r <- l.records :: r.time > c.WindowStart() && r.desired < c.current)
    ensures c.desired < c.current && Recommended(l, c) >= c.current
      <==> c.desired < c.current && exists r <- l.records :: r.time > c.WindowStart() && r.desired >= c.current
  {
    BestIsExtremum(l.records, c.WindowStart(), c.ScalesUp(), c.desired);
  }

  // ---------- The label of an elected metric ----------

  /** A metric as the election meets it.  `pods` tells a Pods metric, which has no ContainerResource field. */
  datatype Metric = Metric(pods: bool, outcome: MetricOutcome)

  function Outcomes(metrics: seq<Metric>): seq<MetricOutcome> {
    seq(|metrics|, i requires 0 <= i < |metrics| => metrics[i].outcome)
  }

  /** Metric `i` raises what the metrics before it ask for, none of which ends the election. */
  predicate Raises(outcomes: seq<MetricOutcome>, current: int32, i: nat)
    requires i < |outcomes|
  {
    outcomes[i].Wants? && outcomes[i].replicas > Peak(outcomes[..i], current) && Unsupported !in outcomes[..i]
  }

  ghost predicate Mislabels(metrics: seq<Metric>, current: int32) {
    exists i :: 0 <= i < |metrics| && metrics[i].pods && Raises(Outcomes(metrics), current, i)
  }

  lemma RaisesPrefix(metrics: seq<Metric>, current: int32, i: nat, k: nat)
    requires k < i <= |metrics|
    ensures Raises(Outcomes(metrics[..i]), current, k) <==> Raises(Outcomes(metrics), current, k)
  {
    assert Outcomes(metrics[..i])[..k] == Outcomes(metrics)[..k];
  }

  lemma MislabelsKept(metrics: seq<Metric>, current: int32, i: nat)
    requires i <= |metrics| && Mislabels(metrics[..i], current)
    ensures Mislabels(metrics, current)
  {
    hide Raises;
    var k :| 0 <= k < i && metrics[..i][k].pods && Raises(Outcomes(metrics[..i]), current, k);
    RaisesPrefix(metrics, current, i, k);
    assert metrics[k].pods;
  }

  lemma NothingMislabels(current: int32)
    ensures !Mislabels([], current)
  {
  }

  /** Metric `i` makes the election crash if it is a Pods metric that raises the count. */
  lemma MislabelsNext(metrics: seq<Metric>, current: int32, i: nat)
    requires i < |metrics| && !Mislabels(metrics[..i], current)
    ensures Mislabels(metrics[..i + 1], current) <==> metrics[i].pods && Raises(Outcomes(metrics), current, i)
  {
    hide Raises;
    var more := metrics[..i + 1];
    RaisesPrefix(metrics, current, i + 1, i);
    assert more[i] == metrics[i];
    forall k | 0 <= k < i && more[k].pods
      ensures !Raises(Outcomes(more), current, k)
    {
      RaisesPrefix(metrics, current, i, k);
      RaisesPrefix(metrics, current, i + 1, k);
      assert metrics[..i][k].pods;
    }
  }

  /** Metrics after an unsupported one do not matter. */
  lemma MislabelsEnds(metrics: seq<Metric>, current: int32, i: nat)
    requires i < |metrics| && metrics[i].outcome.Unsupported? && !Mislabels(metrics[..i], current)
    ensures !Mislabels(metrics, current)
  {
    var outcomes := Outcomes(metrics);
    forall k | 0 <= k < |metrics| && metrics[k].pods
      ensures !Raises(outcomes, current, k)
    {
      if k < i {
        RaisesPrefix(metrics, current, i, k);
        assert metrics[..i][k].pods;
      } else if k > i {
        assert outcomes[..k][i] == Unsupported;
      }
    }
  }

  /** The election as it is written: a Pods metric that raises the count is given the name of its ContainerResource
      field, and the process crashes on it.  That happens exactly when some Pods metric asks for more than the current
      count and all metrics before it.  Otherwise the election ends as intended, and the winner is no Pods metric: no
      increase that the plain calculator asks for is ever sent. */
  method ElectAsWritten(metrics: seq<Metric>, current: int32, minReplicas: int32, maxReplicas: int32)
    returns (e: Option<Election>)
    ensures e.None? <==> Mislabels(metrics, current)
    ensures e.Some? ==> e.value == Intended(Outcomes(metrics), current, minReplicas, maxReplicas)
    ensures e.Some? && e.value.Elected? && Peak(Outcomes(metrics), current) > current ==>
      0 <= e.value.index < |metrics| && !metrics[e.value.index].pods
  {
    hide Leading, FirstWanting, Mislabels, Peak;
    ghost var outcomes := Outcomes(metrics);
    var desired: int32, index := current, 0;
    NobodyLeads(current);
    NothingMislabels(current);
    assert outcomes[..0] == [] && metrics[..0] == [];
    for i := 0 to |metrics|
      invariant Leading(outcomes[..i], current, desired, index) && !Mislabels(metrics[..i], current)
      invariant desired > current ==> 0 <= index < i && !metrics[index].pods
    {
      LeadingIsFirst(outcomes[..i], current, desired, index);
      MislabelsNext(metrics, current, i);
      assert outcomes[..i + 1] == outcomes[..i] + [outcomes[i]];
      match metrics[i].outcome {
        case Wants(replicas) =>
          LeadingNext(outcomes[..i], outcomes[i], current, desired, index);
          if desired < replicas {
            desired, index := replicas, i;
            if metrics[i].pods {
              MislabelsKept(metrics, current, i + 1);
              return None;
            }
          }
        case Failed =>
          LeadingNext(outcomes[..i], outcomes[i], current, desired, index);
        case Unsupported =>
          MislabelsEnds(metrics, current, i);
          assert outcomes[i] in outcomes;
          return Some(NotSupported);
      }
    }
    assert outcomes[..|outcomes|] == outcomes && metrics[..|metrics|] == metrics;
    LeadingIsFirst(outcomes, current, desired, index);
    e := Some(Elected(Clamp(desired, minReplicas, maxReplicas), index));
  }

  /** The result of the election that labels its metrics without a crash. */
  function Intended(outcomes: seq<MetricOutcome>, current: int32, minReplicas: int32, maxReplicas: int32): Election {
    if Unsupported in outcomes then NotSupported
    else
      var peak := Peak(outcomes, current);
      Elected(Clamp(peak, minReplicas, maxReplicas), if peak > current then FirstWanting(outcomes, peak) else 0)
  }

  /** A Pods metric that raises the current count by itself. */
  predicate CanMislabel(m: Metric, current: int32) {
    m.pods && m.outcome.Wants? && m.outcome.replicas > current
  }

  lemma SomeMetricMislabels(metrics: seq<Metric>, current: int32)
    requires Mislabels(metrics, current)
    ensures exists m :: m in multiset(metrics) && CanMislabel(m, current)
  {
    var i :| 0 <= i < |metrics| && metrics[i].pods && Raises(Outcomes(metrics), current, i);
    assert CanMislabel(metrics[i], current) && metrics[i] in multiset(metrics);
  }

  lemma FirstMetricMislabels(metrics: seq<Metric>, current: int32)
    requires metrics != [] && CanMislabel(metrics[0], current)
    ensures Mislabels(metrics, current)
  {
    assert Outcomes(metrics)[..0] == [];
    assert Raises(Outcomes(metrics), current, 0);
  }

  lemma PutFirst(metrics: seq<Metric>, m: Metric) returns (order: seq<Metric>)
    requires m in metrics
    ensures order != [] && order[0] == m && multiset(order) == multiset(metrics)
  {
    var i :| 0 <= i < |metrics| && metrics[i] == m;
    order := [m] + (metrics[..i] + metrics[i + 1..]);
    assert metrics == metrics[..i] + [m] + metrics[i + 1..];
  }

  /** Unlike the elected count, the crash depends on the order of the metrics.  A set of metrics is safe in every order
      exactly when no Pods metric among them asks for more than the current count. */
  lemma SafeInEveryOrder(metrics: seq<Metric>, current: int32)
    ensures (forall order: seq<Metric> :: multiset(order) == multiset(metrics) ==> !Mislabels(order, current))
      <==> forall m <- metrics :: !CanMislabel(m, current)
  {
    hide Mislabels, CanMislabel;
    forall order: seq<Metric> | multiset(order) == multiset(metrics) && Mislabels(order, current)
      ensures exists m <- metrics :: CanMislabel(m, current)
    {
      SomeMetricMislabels(order, current);
      var m :| m in multiset(order) && CanMislabel(m, current);
      assert m in multiset(metrics);
    }
    if m :| m in metrics && CanMislabel(m, current) {
      var order := PutFirst(metrics, m);
      FirstMetricMislabels(order, current);
    }
  }

  // ---------- Pods ----------

  function ClassifyAsWritten(pod: Pod, metrics: Metrics, cpu: bool, t: Timing): Class {
    if pod.deleting || pod.phase != PodGroups.Phase.Failed then Ignored
    else if pod.phase == Pending then Unready
    else if pod.name !in metrics then Missing
    else if cpu && CpuUnready(pod, metrics[pod.name], t) then Unready
    else Ready
  }

  /** Only pods being deleted are classified as intended: a healthy pod is always ignored, and a failed one never, but
      taken for one that runs. */
  lemma OnlyDeletedPodsAgree(pod: Pod, metrics: Metrics, cpu: bool, t: Timing)
    ensures ClassifyAsWritten(pod, metrics, cpu, t) == Classify(pod, metrics, cpu, t) <==> pod.deleting
    ensures ClassifyAsWritten(pod, metrics, cpu, t) == Ignored
      <==> pod.deleting || pod.phase != PodGroups.Phase.Failed
    ensures !pod.deleting && pod.phase == PodGroups.Phase.Failed ==>
      ClassifyAsWritten(pod, metrics, cpu, t) == Classify(pod.(phase := Running), metrics, cpu, t)
  {
  }

  /** Within tolerance the plain calculator answers a count for the ready pods instead of the current count: the right
      one exactly when the ready pods' load needs the current count; at a ratio of 1, when all replicas are ready. */
  lemma ToleratedCountAsWritten(first: int, ready: nat, current: int, target: int)
    requires 0 < target
    ensures CountFor(first, ready, target) == current <==> (current - 1) * target < first * ready <= current * target
    ensures first == target ==> (CountFor(first, ready, target) == current <==> ready == current)
  {
    CeilDivIs(first * ready, target, current);
    CeilDivIs(first * ready, target, ready);
    if first == target {
      assert (ready - 1) * target == ready * target - target;
    }
  }

  lemma CeilDivIs(a: int, b: int, n: int)
    requires 0 < b
    ensures CeilDiv(a, b) == n <==> (n - 1) * b < a <= n * b
  {
    CeilDivReaches(a, b, n);
    CeilDivReaches(a, b, n - 1);
  }

  // ---------- Lifecycle ----------

  /** Appends instead of removing, and only to an empty list. */
  function RemoveFinalizerAsWritten(s: System, h: Houmao, answer: bool): System {
    if h.deleting && h.finalizers == [] then
      var result := Updated(s.cluster, h.(finalizers := [FINALIZER]));
      if answer && result.Some? then System(result.value, Idle) else s.(pc := Idle)
    else s.(pc := Idle)
  }

  /** A deleting Houmao with any finalizer is never released.  That is right exactly when this controller's finalizer
      is not among them, or the update would have failed. */
  lemma FinalizerIsNeverRemoved(s: System, h: Houmao, answer: bool)
    requires h.deleting && h.finalizers != []
    ensures RemoveFinalizerAsWritten(s, h, answer).cluster == s.cluster
    ensures s.cluster.houmao == Some(h) ==>
      (RemoveFinalizerAsWritten(s, h, answer) == RemoveFinalizer(s, h, answer) <==>
        !answer || FINALIZER !in h.finalizers)
  {
    WithoutStringKeepsOthers(h.finalizers, FINALIZER);
  }

  /** Every failure to get the Xianqi counts as "not found". */
  function DestroyAsWritten(s: System, dying: Option<Houmao>, answer: bool): System {
    if !answer then s.(pc := AfterDestroy(dying)) else Destroy(s, dying, answer)
  }

  /** That agrees exactly when the call succeeds or no Houmao waits for its release. */
  lemma DestroyAsWrittenAgrees(cl: Cluster, dying: Option<Houmao>, answer: bool)
    ensures var s := System(cl, Destroys(dying));
      DestroyAsWritten(s, dying, answer) == Destroy(s, dying, answer) <==> answer || dying.None?
  {
  }

  /** Otherwise one failed get, and success from there on, leaves the Xianqi an orphan, once the finalizer is really
      removed at the end of the pass, exactly when nobody else holds the Houmao. */
  lemma FailedGetOrphans(cl: Cluster, h: Houmao)
    requires cl.houmao == Some(h) && h.deleting && cl.xianqi.Some?
    ensures var after := Finish(DestroyAsWritten(System(cl, Destroys(Some(h))), Some(h), false));
      && after.xianqi == cl.xianqi
      && (Orphaned(after) <==> forall name <- h.finalizers :: name == FINALIZER)
  {
    MissedXianqiIsOrphaned(cl, h);
  }

  /** The rest of a pass over a deleting Houmao with both departures: the failed get, then the step that marks the
      Houmao, then the finalizer that is not removed. */
  function FailedGetPassAsWritten(cl: Cluster, h: Houmao): Cluster {
    var s := Step(DestroyAsWritten(System(cl, Destroys(Some(h))), Some(h), false), true);
    if s.pc.RemovesFinalizer? then RemoveFinalizerAsWritten(s, s.pc.h, true).cluster else s.cluster
  }

  /** As the code stands the second departure covers up the first: the Houmao is not released, so nothing is orphaned,
      and nothing but its phase changes. */
  lemma FailedGetPassKeepsBoth(cl: Cluster, h: Houmao)
    requires cl.houmao == Some(h) && h.deleting && h.finalizers != []
    ensures var after := FailedGetPassAsWritten(cl, h);
      && after.xianqi == cl.xianqi && after.houmao.Some?
      && after.houmao.value == h.(version := after.houmao.value.version, phase := Destroying)
      && (h.phase == Destroying ==> after == cl)
  {
    var s := Step(DestroyAsWritten(System(cl, Destroys(Some(h))), Some(h), false), true);
    assert s.pc.RemovesFinalizer? && s.pc.h.finalizers == h.finalizers;
  }

  /** Every failure to get the Houmao counts as its absence. */
  function BeginAsWritten(cl: Cluster, answer: bool): Pc {
    if !answer then Destroys(None) else Begin(cl, answer)
  }

  /** So one failed get, and success from there on, destroys the Xianqi of a live Houmao. */
  lemma FailedGetDestroysLive(cl: Cluster, answer: bool)
    ensures BeginAsWritten(cl, answer) == Begin(cl, answer) <==> answer
    ensures Finish(System(cl, BeginAsWritten(cl, false))) == cl.(xianqi := None)
  {
    var s := System(cl, BeginAsWritten(cl, false));
    var s1 := Step(s, true);
    FinishStep(s);
    if s1.pc.DeletesXianqi? {
      FinishStep(s1);
      assert Step(s1, true).pc.Idle?;
    }
  }
}
