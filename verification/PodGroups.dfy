/** The classification of the pods behind a scale target. */
module PodGroups {
  import opened Options
  import opened PodMetrics

  datatype Phase = Pending | Running | Succeeded | Failed | UnknownPhase

  datatype ConditionStatus = IsTrue | IsFalse | IsUnknown

  datatype Condition = Condition(status: ConditionStatus, lastTransition: int)

  datatype Pod = Pod(
    name: string, deleting: bool, phase: Phase, ready: Option<Condition>, startTime: Option<int>)

  /** The moment of classification and the two start-up periods, all in nanoseconds. */
  datatype Timing = Timing(now: int, cpuInitialization: int, initialReadinessDelay: int)

  datatype Class = Ready | Unready | Missing | Ignored

  /** Whether the CPU sample of a pod that has one is still that of a starting pod. */
  predicate CpuUnready(pod: Pod, metric: PodMetric, t: Timing) {
    if pod.ready.None? || pod.startTime.None? then true
    else
      var condition, start := pod.ready.value, pod.startTime.value;
      if start + t.cpuInitialization > t.now then
        condition.status.IsFalse? || metric.time < condition.lastTransition + metric.window
      else
        condition.status.IsFalse? && start + t.initialReadinessDelay > condition.lastTransition
  }

  // Repaired: the code ignores the pods that have not failed (AsWritten.ClassifyAsWritten).
  function Classify(pod: Pod, metrics: Metrics, cpu: bool, t: Timing): Class {
    if pod.deleting || pod.phase == Failed then Ignored
    else if pod.phase == Pending then Unready
    else if pod.name !in metrics then Missing
    else if cpu && CpuUnready(pod, metrics[pod.name], t) then Unready
    else Ready
  }

  /** The sample of a pod counts once the pod has started: within the initialisation period, if the pod is not unready
      and the sample began no earlier than the last change of its readiness; after it, unless the pod became unready
      before the readiness delay had passed since its start. */
  lemma RunningPodsExactly(pod: Pod, metrics: Metrics, t: Timing)
    requires !pod.deleting && pod.phase == Running && pod.name in metrics
    ensures Classify(pod, metrics, false, t) == Ready
    ensures pod.ready.None? || pod.startTime.None? ==> Classify(pod, metrics, true, t) == Unready
    ensures pod.ready.Some? && pod.startTime.Some? ==>
      var status, changed, start := pod.ready.value.status, pod.ready.value.lastTransition, pod.startTime.value;
      && (t.now < start + t.cpuInitialization ==>
            (Classify(pod, metrics, true, t) == Ready
             <==> status != IsFalse && metrics[pod.name].time - metrics[pod.name].window >= changed))
      && (t.now >= start + t.cpuInitialization ==>
            (Classify(pod, metrics, true, t) == Ready
             <==> status != IsFalse || changed >= start + t.initialReadinessDelay))
      && (Classify(pod, metrics, true, t) == Ready || Classify(pod, metrics, true, t) == Unready)
  {
  }

  /** Which pods do not get that far.  Being deleted or failed comes before everything else, and pending before the
      lack of a sample. */
  lemma OtherPodsExactly(pod: Pod, metrics: Metrics, cpu: bool, t: Timing)
    ensures Classify(pod, metrics, cpu, t) == Ignored <==> pod.deleting || pod.phase == Failed
    ensures !pod.deleting && pod.phase == Pending ==> Classify(pod, metrics, cpu, t) == Unready
    ensures Classify(pod, metrics, cpu, t) == Missing <==>
      !pod.deleting && pod.phase !in {Failed, Pending} && pod.name !in metrics
    ensures Classify(pod, metrics, cpu, t) == Ready ==> pod.name in metrics
    // Nothing but the phases above, and nothing outside CPU metrics, keeps a sample from counting.
    ensures !pod.deleting && pod.phase !in {Failed, Pending} ==>
      Classify(pod, metrics, cpu, t) == Classify(pod.(phase := Running), metrics, cpu, t)
  {
  }

  /** The names of the pods of one class. */
  function Names(pods: seq<Pod>, metrics: Metrics, cpu: bool, t: Timing, class_: Class): set<string> {
    set p <- pods | Classify(p, metrics, cpu, t) == class_ :: p.name
  }

  function AllNames(pods: seq<Pod>): set<string> {
    set p <- pods :: p.name
  }

  function Count(pods: seq<Pod>, metrics: Metrics, cpu: bool, t: Timing, class_: Class): nat {
    if pods == [] then 0
    else
      var last := |pods| - 1;
      Count(pods[..last], metrics, cpu, t, class_) + (if Classify(pods[last], metrics, cpu, t) == class_ then 1 else 0)
  }

  ghost predicate DistinctNames(pods: seq<Pod>) {
    forall i, j :: 0 <= i < j < |pods| ==> pods[i].name != pods[j].name
  }

  method GroupPods(pods: seq<Pod>, metrics: Metrics, cpu: bool, t: Timing)
    returns (ready: nat, unready: set<string>, missing: set<string>, ignored: set<string>)
    ensures ready == Count(pods, metrics, cpu, t, Ready)
    ensures unready == Names(pods, metrics, cpu, t, Unready)
    ensures missing == Names(pods, metrics, cpu, t, Missing)
    ensures ignored == Names(pods, metrics, cpu, t, Ignored)
  {
    ready, unready, missing, ignored := 0, {}, {}, {};
    for i := 0 to |pods|
      invariant ready == Count(pods[..i], metrics, cpu, t, Ready)
      invariant unready == Names(pods[..i], metrics, cpu, t, Unready)
      invariant missing == Names(pods[..i], metrics, cpu, t, Missing)
      invariant ignored == Names(pods[..i], metrics, cpu, t, Ignored)
    {
      var pod := pods[i];
      PrefixGrows(pods, i, metrics, cpu, t, Unready);
      PrefixGrows(pods, i, metrics, cpu, t, Missing);
      PrefixGrows(pods, i, metrics, cpu, t, Ignored);
      PrefixGrows(pods, i, metrics, cpu, t, Ready);
      if pod.deleting || pod.phase == Failed {
        ignored := ignored + {pod.name};
      } else if pod.phase == Pending {
        unready := unready + {pod.name};
      } else if pod.name !in metrics {
        missing := missing + {pod.name};
      } else if cpu && CpuUnready(pod, metrics[pod.name], t) {
        unready := unready + {pod.name};
      } else {
        ready := ready + 1;
      }
    }
    assert pods[..|pods|] == pods;
  }

  lemma NamesAppend(pods: seq<Pod>, pod: Pod, metrics: Metrics, cpu: bool, t: Timing, class_: Class)
    ensures Names(pods + [pod], metrics, cpu, t, class_)
         == Names(pods, metrics, cpu, t, class_)
            + (if Classify(pod, metrics, cpu, t) == class_ then {pod.name} else {})
  {
    assert forall p :: p in pods + [pod] <==> p in pods || p == pod;
  }

  lemma PrefixGrows(pods: seq<Pod>, i: nat, metrics: Metrics, cpu: bool, t: Timing, class_: Class)
    requires i < |pods|
    ensures Names(pods[..i + 1], metrics, cpu, t, class_)
         == Names(pods[..i], metrics, cpu, t, class_)
            + (if Classify(pods[i], metrics, cpu, t) == class_ then {pods[i].name} else {})
    ensures Count(pods[..i + 1], metrics, cpu, t, class_)
         == Count(pods[..i], metrics, cpu, t, class_)
            + (if Classify(pods[i], metrics, cpu, t) == class_ then 1 else 0)
  {
    NamesAppend(pods[..i], pods[i], metrics, cpu, t, class_);
    assert pods[..i] + [pods[i]] == pods[..i + 1];
    assert pods[..i + 1][..i] == pods[..i];
  }

  lemma NameDecidesPod(pods: seq<Pod>, p: Pod, q: Pod)
    requires DistinctNames(pods) && p in pods && q in pods && p.name == q.name
    ensures p == q
  {
    var i :| 0 <= i < |pods| && pods[i] == p;
    var j :| 0 <= j < |pods| && pods[j] == q;
    assert i == j;
  }

  lemma NameIsNew(pods: seq<Pod>, metrics: Metrics, cpu: bool, t: Timing, class_: Class)
    requires DistinctNames(pods) && pods != []
    ensures pods[|pods| - 1].name !in Names(pods[..|pods| - 1], metrics, cpu, t, class_)
  {
  }

  lemma {:induction false} CountIsNames(pods: seq<Pod>, metrics: Metrics, cpu: bool, t: Timing, class_: Class)
    requires DistinctNames(pods)
    ensures |Names(pods, metrics, cpu, t, class_)| == Count(pods, metrics, cpu, t, class_)
  {
    if pods == [] {
      assert Names(pods, metrics, cpu, t, class_) == {};
    } else {
      var before, last := pods[..|pods| - 1], pods[|pods| - 1];
      CountIsNames(before, metrics, cpu, t, class_);
      NamesAppend(before, last, metrics, cpu, t, class_);
      NameIsNew(pods, metrics, cpu, t, class_);
      assert before + [last] == pods;
    }
  }

  lemma {:induction false} CountsAddUp(pods: seq<Pod>, metrics: Metrics, cpu: bool, t: Timing)
    ensures Count(pods, metrics, cpu, t, Ready) + Count(pods, metrics, cpu, t, Unready)
          + Count(pods, metrics, cpu, t, Missing) + Count(pods, metrics, cpu, t, Ignored) == |pods|
  {
    if pods != [] {
      CountsAddUp(pods[..|pods| - 1], metrics, cpu, t);
    }
  }

  lemma ClassesAreDisjoint(pods: seq<Pod>, metrics: Metrics, cpu: bool, t: Timing, c: Class, d: Class)
    requires DistinctNames(pods) && c != d
    ensures Names(pods, metrics, cpu, t, c) !! Names(pods, metrics, cpu, t, d)
  {
    forall p, q | p in pods && q in pods && p.name == q.name
      ensures p == q
    {
      NameDecidesPod(pods, p, q);
    }
  }

  lemma ClassesCover(pods: seq<Pod>, metrics: Metrics, cpu: bool, t: Timing)
    ensures Names(pods, metrics, cpu, t, Ready) + Names(pods, metrics, cpu, t, Unready)
          + Names(pods, metrics, cpu, t, Missing) + Names(pods, metrics, cpu, t, Ignored) == AllNames(pods)
  {
    forall p <- pods
      ensures p.name in Names(pods, metrics, cpu, t, Classify(p, metrics, cpu, t))
    {
    }
  }

  /** With distinct pod names the four classes split the pod list: every pod is in exactly one, and the returned
      count and sets have sizes that add up to the list. */
  lemma PodsArePartitioned(pods: seq<Pod>, metrics: Metrics, cpu: bool, t: Timing)
    requires DistinctNames(pods)
    ensures forall c, d :: c != d ==> Names(pods, metrics, cpu, t, c) !! Names(pods, metrics, cpu, t, d)
    ensures Names(pods, metrics, cpu, t, Ready) + Names(pods, metrics, cpu, t, Unready)
          + Names(pods, metrics, cpu, t, Missing) + Names(pods, metrics, cpu, t, Ignored) == AllNames(pods)
    ensures |Names(pods, metrics, cpu, t, Ready)| == Count(pods, metrics, cpu, t, Ready)
    ensures Count(pods, metrics, cpu, t, Ready) + |Names(pods, metrics, cpu, t, Unready)|
          + |Names(pods, metrics, cpu, t, Missing)| + |Names(pods, metrics, cpu, t, Ignored)| == |pods|
  {
    forall c, d | c != d
      ensures Names(pods, metrics, cpu, t, c) !! Names(pods, metrics, cpu, t, d)
    {
      ClassesAreDisjoint(pods, metrics, cpu, t, c, d);
    }
    ClassesCover(pods, metrics, cpu, t);
    forall c
      ensures |Names(pods, metrics, cpu, t, c)| == Count(pods, metrics, cpu, t, c)
    {
      CountIsNames(pods, metrics, cpu, t, c);
    }
    CountsAddUp(pods, metrics, cpu, t);
  }
}
