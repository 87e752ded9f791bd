/** The election of one count among those that the metrics ask for. */
module MetricElection {
  import opened ScalingRules

  /** What became of one metric: a count, a calculator that failed, or a type that is not supported. */
  datatype MetricOutcome = Wants(replicas: int32) | Failed | Unsupported

  datatype Election = Elected(replicas: int, index: int) | NotSupported

  /** `v` is the greatest of `current` and the successful proposals. */
  ghost predicate IsPeak(v: int32, outcomes: seq<MetricOutcome>, current: int32) {
    && current <= v
    && (v == current || Wants(v) in outcomes)
    && (forall o <- outcomes :: o.Wants? ==> o.replicas <= v)
  }

  function Peak(outcomes: seq<MetricOutcome>, current: int32): (v: int32)
    ensures IsPeak(v, outcomes, current)
  {
    if outcomes == [] then current
    else
      var last := outcomes[|outcomes| - 1];
      var rest := Peak(outcomes[..|outcomes| - 1], current);
      assert outcomes == outcomes[..|outcomes| - 1] + [last];
      if last.Wants? && rest < last.replicas then last.replicas else rest
  }

  /** The first metric that asks for `v`, or 0 when none does. */
  function FirstWanting(outcomes: seq<MetricOutcome>, v: int32): (i: nat)
    ensures Wants(v) in outcomes ==>
      i < |outcomes| && outcomes[i] == Wants(v) && Wants(v) !in outcomes[..i]
  {
    if Wants(v) !in outcomes then 0
    else if outcomes[0] == Wants(v) then 0
    else
      var i := FirstWanting(outcomes[1..], v);
      assert outcomes == [outcomes[0]] + outcomes[1..];
      assert outcomes[..i + 1] == [outcomes[0]] + outcomes[1..][..i];
      i + 1
  }

  /** Inside [lo, hi] for every input exactly when lo <= hi; when the bounds cross, the upper one counts first. */
  function Clamp(v: int, lo: int, hi: int): (c: int)
    ensures lo <= c <= hi <==> lo <= hi
    ensures lo <= v <= hi ==> c == v
    ensures lo <= hi && c != v ==> (v > hi && c == hi) || (v < lo && c == lo)
    ensures hi < lo ==> if hi < v then c == hi else c == lo
  {
    if v > hi then hi else if v < lo then lo else v
  }

  lemma FirstIsUnique(outcomes: seq<MetricOutcome>, v: int32, i: nat)
    requires i < |outcomes| && outcomes[i] == Wants(v) && Wants(v) !in outcomes[..i]
    ensures FirstWanting(outcomes, v) == i
  {
    var j := FirstWanting(outcomes, v);
    assert forall k :: 0 <= k < i ==> outcomes[k] in outcomes[..i];
    assert forall k :: 0 <= k < j ==> outcomes[k] in outcomes[..j];
  }

  /** The election after some metrics: their peak, and the first of them that attains it. */
  ghost predicate Leading(outcomes: seq<MetricOutcome>, current: int32, desired: int32, index: int) {
    && Unsupported !in outcomes && desired == Peak(outcomes, current)
    && (if desired == current then index == 0
        else 0 <= index < |outcomes| && outcomes[index] == Wants(desired) && Wants(desired) !in outcomes[..index])
  }

  lemma LeadingNext(before: seq<MetricOutcome>, o: MetricOutcome, current: int32, desired: int32, index: int)
    requires Leading(before, current, desired, index) && !o.Unsupported?
    ensures if o.Wants? && desired < o.replicas then Leading(before + [o], current, o.replicas, |before|)
            else Leading(before + [o], current, desired, index)
  {
    var after := before + [o];
    assert after[..|before|] == before;
    if o.Wants? && desired < o.replicas {
      assert Wants(o.replicas) !in before;
    } else if desired != current {
      assert after[..index] == before[..index];
    }
  }

  lemma NobodyLeads(current: int32)
    ensures Leading([], current, current, 0)
  {
  }

  lemma LeadingIsFirst(outcomes: seq<MetricOutcome>, current: int32, desired: int32, index: int)
    requires Leading(outcomes, current, desired, index)
    ensures Unsupported !in outcomes && desired == Peak(outcomes, current)
    ensures desired > current ==> 0 <= index < |outcomes| && outcomes[index] == Wants(desired)
    ensures index == if desired > current then FirstWanting(outcomes, desired) else 0
  {
    if desired > current {
      FirstIsUnique(outcomes, desired, index);
    }
  }

  // Repaired: the label of an elected Pods metric, on which the code crashes (AsWritten.ElectAsWritten).
  method Elect(outcomes: seq<MetricOutcome>, current: int32, minReplicas: int32, maxReplicas: int32)
    returns (e: Election)
    ensures Unsupported in outcomes ==> e == NotSupported
    ensures Unsupported !in outcomes ==>
      var peak := Peak(outcomes, current);
      e == Elected(Clamp(peak, minReplicas, maxReplicas), if peak > current then FirstWanting(outcomes, peak) else 0)
    // Starting from the current count and only ever raising it, an election scales down exactly when the current
    // count exceeds the maximum, whatever the metrics ask for.
    ensures e.Elected? && minReplicas <= maxReplicas ==> (e.replicas < current <==> maxReplicas < current)
  {
    hide Leading, FirstWanting;
    var desired: int32, index := current, 0;
    NobodyLeads(current);
    for i := 0 to |outcomes|
      invariant Leading(outcomes[..i], current, desired, index)
    {
      assert outcomes[..i + 1] == outcomes[..i] + [outcomes[i]];
      match outcomes[i] {
        case Wants(replicas) =>
          LeadingNext(outcomes[..i], outcomes[i], current, desired, index);
          if desired < replicas {
            desired, index := replicas, i;
          }
        case Failed =>
          LeadingNext(outcomes[..i], outcomes[i], current, desired, index);
        case Unsupported =>
          return NotSupported;
      }
    }
    assert outcomes[..|outcomes|] == outcomes;
    LeadingIsFirst(outcomes, current, desired, index);
    if desired > maxReplicas {
      desired := maxReplicas;
    } else if desired < minReplicas {
      desired := minReplicas;
    }
    e := Elected(desired, index);
  }

  lemma PeakIsUnique(a: seq<MetricOutcome>, b: seq<MetricOutcome>, current: int32)
    requires forall o :: o in a <==> o in b
    ensures Peak(a, current) == Peak(b, current)
  {
    var v, w := Peak(a, current), Peak(b, current);
    if v != current {
      assert Wants(v) in b;
    }
    if w != current {
      assert Wants(w) in a;
    }
  }

  /** The elected count does not depend on the order of the metrics. */
  lemma OrderDoesNotMatter(a: seq<MetricOutcome>, b: seq<MetricOutcome>, current: int32)
    requires multiset(a) == multiset(b)
    ensures Peak(a, current) == Peak(b, current)
  {
    forall o
      ensures o in a <==> o in b
    {
      assert o in multiset(a) <==> o in multiset(b);
    }
    PeakIsUnique(a, b, current);
  }
}
