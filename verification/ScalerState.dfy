/**
 * The scaler as it runs: the package-level logs, updated in place by loops, proved call by call to be
 * the run that `ScaleRuns` describes.
 */
module ScalerState {
  import opened ScalingRules
  import opened SlotLogs
  import opened BehaviorProcessor
  import opened ScaleRuns

  /** `Crashed` is the nil dereference on a missing rule set after the API has already accepted the count. */
  datatype Outcome = Scaled(replicas: int) | UpdateFailed | Crashed

  function OutcomeOf(c: Call, final: int): Outcome {
    if !c.updated then UpdateFailed
    else if (if final > c.current then c.behavior.up.Some? else c.behavior.down.Some?) then Scaled(final)
    else Crashed
  }

  lemma IncompleteSendsDesired(l: Logs, c: Call)
    ensures !c.behavior.Complete() ==> Final(l, c) == c.desired
  {
  }

  lemma RunAppends(calls: seq<Call>, c: Call)
    ensures FinalOf(calls + [c], |calls|) == Final(Run(calls).logs, c)
    ensures Run(calls + [c]).logs == NextLogs(Run(calls).logs, c)
  {
    hide Final, Recommended, NextLogs, NextHistory;
    assert (calls + [c])[..|calls|] == calls;
  }

  method ReplicasChanged(periodSeconds: int, events: seq<Event>, now: int) returns (replicas: int)
    ensures replicas == WindowSum(events, Cutoff(now, periodSeconds))
  {
    var cutoff := Cutoff(now, periodSeconds);
    replicas := 0;
    for i := 0 to |events|
      invariant replicas == WindowSum(events[..i], cutoff)
    {
      assert events[..i + 1][..i] == events[..i];
      if events[i].time > cutoff {
        replicas := replicas + events[i].change;
      }
    }
    assert events[..|events|] == events;
  }

  method LongestPolicyPeriod(rules: Rules) returns (longest: int)
    ensures longest == LongestPeriod(rules.policies)
  {
    longest := 0;
    for i := 0 to |rules.policies|
      invariant longest == LongestPeriod(rules.policies[..i])
    {
      assert rules.policies[..i + 1][..i] == rules.policies[..i];
      if rules.policies[i].period > longest {
        longest := rules.policies[i].period;
      }
    }
    assert rules.policies[..|rules.policies|] == rules.policies;
  }

  method ScaleUpLimit(current: int32, events: seq<Event>, rules: Rules, now: int) returns (limit: int)
    ensures limit == UpLimit(current, events, rules, now)
    ensures current <= limit
    ensures forall m: int32 :: m > current ==> (m <= limit <==> Within(true, rules, m, current, events, now))
  {
    forall m: int32 {
      LimitsAreExact(current, events, rules, now, m);
    }
    if rules.select == Disabled {
      return current;
    }
    var least := rules.select == MinChange;
    limit := if least then MAX_INT32 else MIN_INT32;
    for i := 0 to |rules.policies|
      invariant limit == Pick(least, rules.policies[..i], true, current, events, now)
    {
      assert rules.policies[..i + 1][..i] == rules.policies[..i];
      var policy := rules.policies[i];
      var added := ReplicasChanged(policy.period, events, now);
      var start := current - added;
      var proposed;
      match policy.kind {
        case Pods => proposed := start + policy.value;
        case Percent => proposed := CeilDiv(start * (100 + policy.value), 100);
      }
      limit := if least then Min(limit, proposed) else Max(limit, proposed);
    }
    assert rules.policies[..|rules.policies|] == rules.policies;
    if limit < current {
      limit := current;
    }
  }

  method ScaleDownLimit(current: int32, events: seq<Event>, rules: Rules, now: int) returns (limit: int)
    ensures limit == DownLimit(current, events, rules, now)
    ensures limit <= current
    ensures forall m: int32 :: m < current ==> (m >= limit <==> Within(false, rules, m, current, events, now))
  {
    forall m: int32 {
      LimitsAreExact(current, events, rules, now, m);
    }
    if rules.select == Disabled {
      return current;
    }
    var least := rules.select != MinChange;
    limit := if least then MAX_INT32 else MIN_INT32;
    for i := 0 to |rules.policies|
      invariant limit == Pick(least, rules.policies[..i], false, current, events, now)
    {
      assert rules.policies[..i + 1][..i] == rules.policies[..i];
      var policy := rules.policies[i];
      var removed := ReplicasChanged(policy.period, events, now);
      var start := current + removed;
      var proposed;
      match policy.kind {
        case Pods => proposed := start - policy.value;
        case Percent => proposed := CeilDiv(start * (100 - policy.value), 100);
      }
      limit := if least then Min(limit, proposed) else Max(limit, proposed);
    }
    assert rules.policies[..|rules.policies|] == rules.policies;
    if limit > current {
      limit := current;
    }
  }

  class ScalerLogs {
    var recommendationRecords: seq<Record>
    var scaleUpEvents: seq<Event>
    var scaleDownEvents: seq<Event>

    /** Every scaling call made so far. */
    ghost var calls: seq<Call>

    ghost function Kept(): Logs
      reads this
    {
      Logs(recommendationRecords, scaleUpEvents, scaleDownEvents)
    }

    /** The logs are exactly what the calls made so far leave behind. */
    ghost predicate Valid()
      reads this
    {
      Kept() == Run(calls).logs
    }

    constructor ()
      ensures Valid() && calls == []
    {
      recommendationRecords, scaleUpEvents, scaleDownEvents := [], [], [];
      calls := [];
    }

    /** The least recommendation of the scale-up window for a scale-up, and the greatest of the scale-down window for a
        scale-down, which then goes on record. */
    method Stabilize(up: Rules, down: Rules, desired: int32, current: int32, now: int) returns (recommendation: int)
      modifies this`recommendationRecords
      ensures recommendation == Stabilized(old(recommendationRecords), up, down, desired, current, now)
      ensures desired >= current ==>
        IsExtremum(recommendation, old(recommendationRecords), now - up.window * SECOND, true, desired)
      ensures desired < current ==>
        IsExtremum(recommendation, old(recommendationRecords), now - down.window * SECOND, false, desired)
      ensures recommendationRecords
           == PutRecord(
                old(recommendationRecords), Cutoff(now, Max(up.window, down.window)), Record(recommendation, now))
    {
      recommendation := desired;
      var oldSample := -1;
      var delay := if desired >= current then up.window else down.window;
      var cutoff := Cutoff(now, delay);
      var obsolete := Cutoff(now, Max(up.window, down.window));
      for i := 0 to |recommendationRecords|
        invariant recommendation == Best(recommendationRecords[..i], cutoff, desired >= current, desired)
        invariant oldSample == LastStale(recommendationRecords[..i], obsolete)
        invariant recommendationRecords == old(recommendationRecords)
      {
        var rec := recommendationRecords[i];
        assert recommendationRecords[..i + 1][..i] == recommendationRecords[..i];
        if rec.time > cutoff {
          recommendation :=
            if desired >= current then Min(rec.desired, recommendation) else Max(rec.desired, recommendation);
        }
        if rec.time < obsolete {
          oldSample := i;
        }
      }
      assert recommendationRecords[..|recommendationRecords|] == recommendationRecords;
      BestIsExtremum(recommendationRecords, cutoff, desired >= current, desired);
      if oldSample >= 0 {
        recommendationRecords := recommendationRecords[oldSample := Record(recommendation, now)];
      } else {
        recommendationRecords := recommendationRecords + [Record(recommendation, now)];
      }
    }

    method LimitRate(stabilized: int, current: int32, up: Rules, down: Rules, now: int) returns (replicas: int)
      ensures replicas == Limited(stabilized, current, scaleUpEvents, scaleDownEvents, up, down, now)
    {
      if stabilized > current {
        var limit := ScaleUpLimit(current, scaleUpEvents, up, now);
        replicas := if stabilized > limit then limit else stabilized;
      } else if stabilized < current {
        var limit := ScaleDownLimit(current, scaleDownEvents, down, now);
        replicas := if stabilized < limit then limit else stabilized;
      } else {
        replicas := stabilized;
      }
    }

    method Revise(up: Rules, down: Rules, desired: int32, current: int32, now: int) returns (replicas: int)
      modifies this`recommendationRecords
      ensures var stabilized := Stabilized(old(recommendationRecords), up, down, desired, current, now);
        && replicas == Limited(stabilized, current, scaleUpEvents, scaleDownEvents, up, down, now)
        && recommendationRecords
             == PutRecord(
                  old(recommendationRecords), Cutoff(now, Max(up.window, down.window)), Record(stabilized, now))
    {
      var stabilized := Stabilize(up, down, desired, current, now);
      replicas := LimitRate(stabilized, current, up, down, now);
    }

    method MarkScaleUpEventsOutdated(longest: int, now: int)
      modifies this`scaleUpEvents
      ensures scaleUpEvents == Marked(old(scaleUpEvents), Cutoff(now, longest))
    {
      var cutoff := Cutoff(now, longest);
      for i := 0 to |scaleUpEvents|
        invariant |scaleUpEvents| == |old(scaleUpEvents)|
        invariant forall k :: 0 <= k < |scaleUpEvents| ==>
          scaleUpEvents[k] == if k < i then Marked(old(scaleUpEvents), cutoff)[k] else old(scaleUpEvents)[k]
      {
        if scaleUpEvents[i].time < cutoff {
          scaleUpEvents := scaleUpEvents[i := scaleUpEvents[i].(outdated := true)];
        }
      }
    }

    method MarkScaleDownEventsOutdated(longest: int, now: int)
      modifies this`scaleDownEvents
      ensures scaleDownEvents == Marked(old(scaleDownEvents), Cutoff(now, longest))
    {
      var cutoff := Cutoff(now, longest);
      for i := 0 to |scaleDownEvents|
        invariant |scaleDownEvents| == |old(scaleDownEvents)|
        invariant forall k :: 0 <= k < |scaleDownEvents| ==>
          scaleDownEvents[k] == if k < i then Marked(old(scaleDownEvents), cutoff)[k] else old(scaleDownEvents)[k]
      {
        if scaleDownEvents[i].time < cutoff {
          scaleDownEvents := scaleDownEvents[i := scaleDownEvents[i].(outdated := true)];
        }
      }
    }

    /** Stores a change in the log of its direction; fails when the rules of that direction are missing. */
    method StoreScaleEvent(behavior: Behavior, pre: int, replicas: int, now: int) returns (stored: bool)
      modifies this`scaleUpEvents, this`scaleDownEvents
      ensures stored == if replicas > pre then behavior.up.Some? else behavior.down.Some?
      ensures scaleUpEvents
           == if stored && replicas > pre
              then PutEvent(
                old(scaleUpEvents), Cutoff(now, LongestPeriod(behavior.up.value.policies)), replicas - pre, now)
              else old(scaleUpEvents)
      ensures scaleDownEvents
           == if stored && replicas <= pre
              then PutEvent(
                old(scaleDownEvents), Cutoff(now, LongestPeriod(behavior.down.value.policies)), pre - replicas, now)
              else old(scaleDownEvents)
    {
      var oldSample := -1;
      if replicas > pre {
        if behavior.up.None? {
          return false;
        }
        var longest := LongestPolicyPeriod(behavior.up.value);
        MarkScaleUpEventsOutdated(longest, now);
        var marked := scaleUpEvents;
        for i := 0 to |marked|
          invariant oldSample == LastOutdated(marked[..i])
        {
          assert marked[..i + 1][..i] == marked[..i];
          if marked[i].outdated {
            oldSample := i;
          }
        }
        assert marked[..|marked|] == marked;
        var event := Event(replicas - pre, now, false);
        if oldSample >= 0 {
          scaleUpEvents := scaleUpEvents[oldSample := event];
        } else {
          scaleUpEvents := scaleUpEvents + [event];
        }
      } else {
        if behavior.down.None? {
          return false;
        }
        var longest := LongestPolicyPeriod(behavior.down.value);
        MarkScaleDownEventsOutdated(longest, now);
        var marked := scaleDownEvents;
        for i := 0 to |marked|
          invariant oldSample == LastOutdated(marked[..i])
        {
          assert marked[..i + 1][..i] == marked[..i];
          if marked[i].outdated {
            oldSample := i;
          }
        }
        assert marked[..|marked|] == marked;
        var event := Event(pre - replicas, now, false);
        if oldSample >= 0 {
          scaleDownEvents := scaleDownEvents[oldSample := event];
        } else {
          scaleDownEvents := scaleDownEvents + [event];
        }
      }
      stored := true;
    }

    /** The count that a call sends. */
    method Decide(c: Call) returns (final: int)
      modifies this`recommendationRecords
      ensures final == Final(old(Kept()), c)
      ensures recommendationRecords == NextRecords(old(recommendationRecords), c, Recommended(old(Kept()), c))
    {
      if c.behavior.up.Some? && c.behavior.down.Some? {
        final := Revise(c.behavior.up.value, c.behavior.down.value, c.desired, c.current, c.now);
      } else {
        final := c.desired;
      }
    }

    /** Sends the count and, when the API accepts it, stores the change. */
    method Send(c: Call, final: int) returns (outcome: Outcome)
      modifies this`scaleUpEvents, this`scaleDownEvents
      ensures scaleUpEvents == NextUps(old(scaleUpEvents), c, final)
      ensures scaleDownEvents == NextDowns(old(scaleDownEvents), c, final)
      ensures outcome == OutcomeOf(c, final)
    {
      if !c.updated {
        return UpdateFailed;
      }
      var stored := StoreScaleEvent(c.behavior, c.current, final, c.now);
      outcome := if stored then Scaled(final) else Crashed;
    }

    /** One scaling call.  `accepted` is the API's answer to the update of the scale.  The count sent is the desired one
        when a side of the behaviour is missing; a count that is reported is the one that was sent. */
    method ExecScale(desired: int32, current: int32, behavior: Behavior, now: int, accepted: bool)
      returns (outcome: Outcome)
      requires Valid()
      modifies this
      ensures Valid()
      ensures calls == old(calls) + [Call(behavior, desired, current, now, accepted)]
      ensures var sent := FinalOf(calls, |old(calls)|);
        && (!behavior.Complete() ==> sent == desired)
        && outcome ==
             if !accepted then UpdateFailed
             else if sent > current && behavior.up.None? then Crashed
             else if sent <= current && behavior.down.None? then Crashed
             else Scaled(sent)
    {
      hide Run, Final, FinalOf, Recommended, NextRecords, NextUps, NextDowns;
      var c := Call(behavior, desired, current, now, accepted);
      IncompleteSendsDesired(Kept(), c);
      var final := Decide(c);
      outcome := Send(c, final);
      calls := calls + [c];
      RunAppends(old(calls), c);
    }
  }
}
