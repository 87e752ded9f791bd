/**
 * What policies of every kind let through, in plain numbers: the most that one period can do to the count in runs in
 * which only this scaler writes it, and exactly what a single policy makes of one call.
 */
module PeriodGuarantees {
  import opened IntArithmetic
  import opened ScalingRules
  import opened SlotLogs
  import opened BehaviorProcessor
  import opened ScaleRuns
  import opened CallHistory
  import opened ControlledRuns
  import opened RunGuarantees

  lemma NextNotNegative(h: Logs, c: Call, recommended: int, final: int)
    requires NoNegativeChange(h.ups) && NoNegativeChange(h.downs)
    ensures NoNegativeChange(NextHistory(h, c, recommended, final).ups)
    ensures NoNegativeChange(NextHistory(h, c, recommended, final).downs)
  {
  }

  lemma {:induction false} HistoryNotNegative(calls: seq<Call>)
    ensures NoNegativeChange(Run(calls).history.ups) && NoNegativeChange(Run(calls).history.downs)
  {
    hide Final, Recommended, NextLogs, NextHistory;
    if calls != [] {
      var before, c := calls[..|calls| - 1], calls[|calls| - 1];
      HistoryNotNegative(before);
      var s := Run(before);
      NextNotNegative(s.history, c, Recommended(s.logs, c), Final(s.logs, c));
    }
  }

  lemma {:induction false} SumNotNegative(events: seq<Event>, cutoff: int)
    requires NoNegativeChange(events)
    ensures 0 <= WindowSum(events, cutoff)
  {
    if events != [] {
      SumNotNegative(events[..|events| - 1], cutoff);
    }
  }

  lemma NextRecordsMove(h: Logs, c: Call, recommended: int, final: int, cutoff: int)
    requires c.behavior.Complete() && c.now > cutoff
    ensures var next, after := NextHistory(h, c, recommended, final), if c.updated then final else c.current;
      && after - c.current <= WindowSum(next.ups, cutoff) - WindowSum(h.ups, cutoff)
      && c.current - after <= WindowSum(next.downs, cutoff) - WindowSum(h.downs, cutoff)
  {
    WindowSumAppend(h.ups, Event(final - c.current, c.now, false), cutoff);
    WindowSumAppend(h.downs, Event(c.current - final, c.now, false), cutoff);
  }

  /** The calls from `j` on came after `cutoff`, so the window sums at call `i` cover what has moved since. */
  lemma {:induction false} MovesAreInWindow(calls: seq<Call>, j: nat, i: nat, cutoff: int)
    requires ControlledFrom(calls, j) && j <= i < |calls|
    requires forall k :: j <= k < i ==> calls[k].behavior.Complete()
    requires forall k :: j <= k < i ==> calls[k].now > cutoff
    ensures calls[i].current - calls[j].current <= WindowSum(Run(calls[..i]).history.ups, cutoff)
    ensures calls[j].current - calls[i].current <= WindowSum(Run(calls[..i]).history.downs, cutoff)
    decreases i
  {
    hide Final, Recommended, Run, NextLogs, NextHistory;
    if i == j {
      HistoryNotNegative(calls[..i]);
      SumNotNegative(Run(calls[..i]).history.ups, cutoff);
      SumNotNegative(Run(calls[..i]).history.downs, cutoff);
    } else {
      var k := i - 1;
      MovesAreInWindow(calls, j, k, cutoff);
      assert calls[k + 1].current == After(calls, k);
      RunStep(calls, k);
      NextRecordsMove(
        Run(calls[..k]).history, calls[k], RecommendationOf(calls, k), FinalOf(calls, k), cutoff);
    }
  }

  /** A policy that allows more, or at least no less, from a higher count. */
  predicate Monotone(p: Policy, up: bool) {
    p.kind == Percent ==> if up then -100 <= p.value else p.value <= 100
  }

  /** What is permitted from a nearer start is permitted from one further on. */
  lemma PermitsMonotone(up: bool, p: Policy, a: int, b: int, n: int)
    requires Monotone(p, up) && Permits(up, p, a, n) && if up then a <= b else b <= a
    ensures Permits(up, p, b, n)
  {
    if p.kind == Percent {
      if up {
        MulMonotone(a, b, 100 + p.value);
      } else {
        MulMonotone(b, a, 100 - p.value);
      }
    }
  }

  /** The calls from `j` up to `i` fall into one period of `p`. */
  ghost predicate OnePeriod(calls: seq<Call>, p: Policy, j: nat, i: nat) {
    j <= i < |calls| && forall k :: j <= k < i ==> calls[k].now > Cutoff(calls[i].now, p.period)
  }

  /** Each of these calls enforces `p`; others may have any behaviour. */
  ghost predicate EnforcedIn(calls: seq<Call>, p: Policy, up: bool, j: nat, i: nat)
    requires i < |calls|
  {
    forall k :: j <= k <= i ==> Enforces(calls[k], p, up)
  }

  lemma OnePeriodPrefix(calls: seq<Call>, p: Policy, j: nat, i: nat)
    requires TimesNeverFall(calls) && OnePeriod(calls, p, j, i) && j < i
    ensures OnePeriod(calls, p, j, i - 1)
  {
    assert calls[i - 1].now <= calls[i].now;
  }

  lemma ChangeFromPeriodStart(calls: seq<Call>, p: Policy, up: bool, j: nat, i: nat)
    requires Covered(calls) && ControlledFrom(calls, j) && Monotone(p, up)
    requires OnePeriod(calls, p, j, i) && EnforcedIn(calls, p, up, j, i)
    ensures up && FinalOf(calls, i) > calls[i].current ==> Permits(up, p, calls[j].current, FinalOf(calls, i))
    ensures !up && FinalOf(calls, i) < calls[i].current ==> Permits(up, p, calls[j].current, FinalOf(calls, i))
  {
    hide Run, FinalOf, Covered, ControlledFrom, Permits, MovedSince;
    var c, n, cutoff := calls[i], FinalOf(calls, i), calls[i].now - p.period * SECOND;
    assert Enforces(c, p, up);
    ChangeWithinPolicies(calls, i);
    MovesAreInWindow(calls, j, i, cutoff);
    WindowSumIsMoved(calls, i, up, cutoff);
    if n != c.current && up == (n > c.current) {
      assert Permits(up, p, PeriodBase(calls, i, up, p), n);
      PermitsMonotone(up, p, PeriodBase(calls, i, up, p), calls[j].current, n);
    }
  }

  /** Whatever goes on within one period of a policy in force under "Min", the count never gets beyond what the policy
      allows from the count that the period started with: `value` pods more, or `value` percent more, where only a
      fraction of a pod rounds up. */
  lemma {:induction false} GrowthGuarantee(calls: seq<Call>, p: Policy, j: nat, i: nat)
    requires Covered(calls) && ControlledFrom(calls, j) && TimesNeverFall(calls)
    requires Monotone(p, true) && OnePeriod(calls, p, j, i) && EnforcedIn(calls, p, true, j, i)
    ensures var start, after := calls[j].current, After(calls, i);
      && (p.kind == Pods ==> after <= start || after - start <= p.value)
      && (p.kind == Percent ==> after <= start || (after - 1) * 100 < start * (100 + p.value))
    decreases i
  {
    hide FinalOf, Covered, TimesNeverFall;
    ChangeFromPeriodStart(calls, p, true, j, i);
    if j < i {
      var k := i - 1;
      OnePeriodPrefix(calls, p, j, i);
      GrowthGuarantee(calls, p, j, k);
      assert calls[k + 1].current == After(calls, k);
    }
  }

  /** Dually it never gets below what a scale-down policy allows. */
  lemma {:induction false} ShrinkGuarantee(calls: seq<Call>, p: Policy, j: nat, i: nat)
    requires Covered(calls) && ControlledFrom(calls, j) && TimesNeverFall(calls)
    requires Monotone(p, false) && OnePeriod(calls, p, j, i) && EnforcedIn(calls, p, false, j, i)
    ensures var start, after := calls[j].current, After(calls, i);
      && (p.kind == Pods ==> after >= start || start - after <= p.value)
      && (p.kind == Percent ==> after >= start || after * 100 >= start * (100 - p.value))
    decreases i
  {
    hide FinalOf, Covered, TimesNeverFall;
    ChangeFromPeriodStart(calls, p, false, j, i);
    if j < i {
      var k := i - 1;
      OnePeriodPrefix(calls, p, j, i);
      ShrinkGuarantee(calls, p, j, k);
      assert calls[k + 1].current == After(calls, k);
    }
  }

  // ---------- One policy ----------

  lemma RecommendationIsInt32(calls: seq<Call>, i: nat)
    requires i < |calls|
    ensures MIN_INT32 <= RecommendationOf(calls, i) <= MAX_INT32
  {
    RecordsStayInRange(calls[..i], MIN_INT32, MAX_INT32);
    NextInRange(Run(calls[..i]).logs, calls[i], MIN_INT32, MAX_INT32);
  }

  /** With a single policy the selector does not matter, unless it is "Disabled". */
  lemma OnePolicyDecides(calls: seq<Call>, i: nat, up: bool, p: Policy, n: int)
    requires i < |calls| && calls[i].behavior.Complete()
    requires RulesOf(calls[i].behavior, up).select != Disabled && RulesOf(calls[i].behavior, up).policies == [p]
    ensures MayChangeTo(calls, i, up, n) <==> Permits(up, p, PeriodBase(calls, i, up, p), n)
  {
    assert p in RulesOf(calls[i].behavior, up).policies;
  }

  /** Exactly what one scale-up policy lets through, whatever its period has seen: the recommendation, held back to
      `value` pods more than the period's base, or to the least count that is not below the base plus `value`
      percent; and never less than the current count. */
  lemma OneUpPolicyExactly(calls: seq<Call>, i: nat, p: Policy)
    requires i < |calls| && calls[i].behavior.Complete() && Covered(calls)
    requires calls[i].behavior.up.value.select != Disabled && calls[i].behavior.up.value.policies == [p]
    requires RecommendationOf(calls, i) >= calls[i].current
    ensures var c, n, s := calls[i], FinalOf(calls, i), RecommendationOf(calls, i);
      var base := c.current - MovedSince(calls, i, true, c.now - p.period * SECOND);
      && c.current <= n <= s
      && (p.kind == Pods && n > c.current ==> n <= base + p.value)
      && (p.kind == Pods && n < s ==> n >= base + p.value)
      && (p.kind == Percent && n > c.current ==> (n - 1) * 100 < base * (100 + p.value))
      && (p.kind == Percent && n < s ==> n * 100 >= base * (100 + p.value))
  {
    hide RecommendationOf, FinalOf, Covered, MovedSince, MayChangeTo;
    var n, s := FinalOf(calls, i), RecommendationOf(calls, i);
    RecommendationIsInt32(calls, i);
    ChangeWithinPolicies(calls, i);
    OnePolicyDecides(calls, i, true, p, n);
    if n < s {
      var next: int32 := n + 1;
      OnePolicyDecides(calls, i, true, p, next);
      assert !MayChangeTo(calls, i, true, next);
    }
  }

  /** Exactly what one scale-down policy lets through. */
  lemma OneDownPolicyExactly(calls: seq<Call>, i: nat, p: Policy)
    requires i < |calls| && calls[i].behavior.Complete() && Covered(calls)
    requires calls[i].behavior.down.value.select != Disabled && calls[i].behavior.down.value.policies == [p]
    requires RecommendationOf(calls, i) <= calls[i].current
    ensures var c, n, s := calls[i], FinalOf(calls, i), RecommendationOf(calls, i);
      var base := c.current + MovedSince(calls, i, false, c.now - p.period * SECOND);
      && s <= n <= c.current
      && (p.kind == Pods && n < c.current ==> n >= base - p.value)
      && (p.kind == Pods && n > s ==> n <= base - p.value)
      && (p.kind == Percent && n < c.current ==> n * 100 >= base * (100 - p.value))
      && (p.kind == Percent && n > s ==> (n - 1) * 100 < base * (100 - p.value))
  {
    hide RecommendationOf, FinalOf, Covered, MovedSince, MayChangeTo;
    var n, s := FinalOf(calls, i), RecommendationOf(calls, i);
    RecommendationIsInt32(calls, i);
    ChangeWithinPolicies(calls, i);
    OnePolicyDecides(calls, i, false, p, n);
    if n > s {
      var next: int32 := n - 1;
      OnePolicyDecides(calls, i, false, p, next);
      assert !MayChangeTo(calls, i, false, next);
    }
  }
}
