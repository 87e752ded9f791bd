/** What whole runs of the scaler guarantee, read off the full history although only the lossy logs are kept. */
module RunGuarantees {
  import opened ScalingRules
  import opened SlotLogs
  import opened BehaviorProcessor
  import opened ScaleRuns
  import opened CallHistory

  // ---------- Stabilisation ----------

  /** Call `i` recommended inside the stabilisation window of call `j`. */
  ghost predicate InWindow(calls: seq<Call>, i: int, j: int)
    requires 0 <= i < j < |calls|
    requires calls[j].behavior.Complete()
  {
    var c := calls[j];
    var window := if c.desired >= c.current then c.behavior.up.value.window else c.behavior.down.value.window;
    calls[i].behavior.Complete() && calls[i].now > c.now - window * SECOND
  }

  /** A scale-up recommends exactly the least, and a scale-down exactly the greatest, of the desired count and
      everything recommended inside its window, although old records are overwritten. */
  lemma StabilizationRefinesHistory(calls: seq<Call>, j: nat)
    requires j < |calls| && calls[j].behavior.Complete()
    requires Covered(calls)
    ensures var s, c := RecommendationOf(calls, j), calls[j];
      && (s == c.desired || exists i :: 0 <= i < j && InWindow(calls, i, j) && s == RecommendationOf(calls, i))
      && (if c.ScalesUp() then s <= c.desired else s >= c.desired)
      && (forall i :: 0 <= i < j && InWindow(calls, i, j) ==>
            if c.ScalesUp() then s <= RecommendationOf(calls, i) else s >= RecommendationOf(calls, i))
  {
    var before, c := calls[..j], calls[j];
    var records, s := Run(before).history.records, RecommendationOf(calls, j);
    CallsDecideFromHistory(before, c);
    BestIsExtremum(records, c.WindowStart(), c.ScalesUp(), c.desired);
    forall i | 0 <= i < j
      ensures RecommendationOf(calls, i) == RecommendationOf(before, i)
    {
      assert calls[..i] == before[..i];
    }
    forall i | 0 <= i < j && InWindow(calls, i, j)
      ensures if c.ScalesUp() then s <= RecommendationOf(calls, i) else s >= RecommendationOf(calls, i)
    {
      var r := Record(RecommendationOf(before, i), before[i].now);
      HistoryHoldsRecommendations(before, r);
      assert r in records;
    }
    if s != c.desired {
      var r :| r in records && r.time > c.WindowStart() && r.desired == s;
      HistoryHoldsRecommendations(before, r);
      var i :| 0 <= i < |before| && before[i].behavior.Complete()
        && r == Record(RecommendationOf(before, i), before[i].now);
      assert InWindow(calls, i, j);
    }
  }

  /** Scale-up: exactly the least of the desired count and of everything recommended since the start of the scale-up
      window.  Times are in nanoseconds. */
  lemma ScaleUpTakesLeast(calls: seq<Call>, j: nat)
    requires j < |calls| && calls[j].behavior.Complete() && calls[j].desired >= calls[j].current
    requires Covered(calls)
    ensures var s, c := RecommendationOf(calls, j), calls[j];
      var start := c.now - c.behavior.up.value.window * 1_000_000_000;
      && s <= c.desired
      && (forall i :: 0 <= i < j && calls[i].behavior.Complete() && calls[i].now > start ==>
            s <= RecommendationOf(calls, i))
      && (s == c.desired
          || exists i :: 0 <= i < j && calls[i].behavior.Complete() && calls[i].now > start
               && s == RecommendationOf(calls, i))
  {
    hide RecommendationOf, Covered;
    StabilizationRefinesHistory(calls, j);
    forall i | 0 <= i < j && calls[i].behavior.Complete()
      ensures InWindow(calls, i, j) <==> calls[i].now > calls[j].now - calls[j].behavior.up.value.window * 1_000_000_000
    {
    }
  }

  /** Scale-down: exactly the greatest, over the scale-down window. */
  lemma ScaleDownTakesGreatest(calls: seq<Call>, j: nat)
    requires j < |calls| && calls[j].behavior.Complete() && calls[j].desired < calls[j].current
    requires Covered(calls)
    ensures var s, c := RecommendationOf(calls, j), calls[j];
      var start := c.now - c.behavior.down.value.window * 1_000_000_000;
      && s >= c.desired
      && (forall i :: 0 <= i < j && calls[i].behavior.Complete() && calls[i].now > start ==>
            s >= RecommendationOf(calls, i))
      && (s == c.desired
          || exists i :: 0 <= i < j && calls[i].behavior.Complete() && calls[i].now > start
               && s == RecommendationOf(calls, i))
  {
    hide RecommendationOf, Covered;
    StabilizationRefinesHistory(calls, j);
    forall i | 0 <= i < j && calls[i].behavior.Complete()
      ensures InWindow(calls, i, j)
        <==> calls[i].now > calls[j].now - calls[j].behavior.down.value.window * 1_000_000_000
    {
    }
  }

  /** A chain of scaling calls in one direction, each made inside the window of the previous one. */
  ghost predicate Chain(calls: seq<Call>, chain: seq<nat>, up: bool) {
    && (forall k :: 0 <= k < |chain| ==>
          chain[k] < |calls| && calls[chain[k]].behavior.Complete() && calls[chain[k]].ScalesUp() == up)
    && (forall k :: 0 <= k < |chain| - 1 ==>
          chain[k] < chain[k + 1] && InWindow(calls, chain[k], chain[k + 1]))
  }

  /** Along such a chain scale-up recommendations never rise and scale-down recommendations never fall,
      whatever was desired and whatever other calls came in between. */
  lemma {:induction false} RecommendationsStick(calls: seq<Call>, chain: seq<nat>, up: bool)
    requires Covered(calls) && Chain(calls, chain, up) && chain != []
    ensures var first, last := RecommendationOf(calls, chain[0]), RecommendationOf(calls, chain[|chain| - 1]);
      if up then last <= first else last >= first
  {
    if |chain| > 1 {
      var shorter := chain[..|chain| - 1];
      assert forall k :: 0 <= k < |shorter| ==> shorter[k] == chain[k];
      RecommendationsStick(calls, shorter, up);
      StabilizationRefinesHistory(calls, chain[|chain| - 1]);
      assert InWindow(calls, chain[|chain| - 2], chain[|chain| - 1]);
    }
  }

  // ---------- Rate ----------

  ghost predicate NoNegativeChange(events: seq<Event>) {
    forall k :: 0 <= k < |events| ==> 0 <= events[k].change
  }

  lemma {:induction false} ChangedInAtMostWindowSum(events: seq<Event>, from: int, to: int, cutoff: int)
    requires NoNegativeChange(events) && cutoff <= from
    ensures ChangedIn(events, from, to) <= WindowSum(events, cutoff)
  {
    if events != [] {
      ChangedInAtMostWindowSum(events[..|events| - 1], from, to, cutoff);
    }
  }

  /** Every real change in (from, to] fits, with what its period had already seen, into the value of `p`. */
  ghost predicate Respects(events: seq<Event>, p: Policy, from: int, to: int) {
    forall k :: 0 <= k < |events| && events[k].change > 0 && from < events[k].time <= to ==>
      events[k].change + WindowSum(events[..k], Cutoff(events[k].time, p.period)) <= p.value
  }

  lemma {:induction false} RespectsBoundsWindows(events: seq<Event>, p: Policy, from: int, to: int)
    requires NoNegativeChange(events) && Respects(events, p, from, to)
    requires to - from <= p.period * SECOND
    ensures ChangedIn(events, from, to) <= Max(0, p.value)
  {
    if events != [] {
      var before, last := events[..|events| - 1], events[|events| - 1];
      assert forall k :: 0 <= k < |before| ==> events[..k] == before[..k];
      RespectsBoundsWindows(before, p, from, to);
      if from < last.time <= to && last.change > 0 {
        ChangedInAtMostWindowSum(before, from, to, Cutoff(last.time, p.period));
      }
    }
  }

  lemma RespectsAppend(events: seq<Event>, e: Event, p: Policy, from: int, to: int)
    requires Respects(events, p, from, to)
    requires e.change > 0 && from < e.time <= to ==>
      e.change + WindowSum(events, Cutoff(e.time, p.period)) <= p.value
    ensures Respects(events + [e], p, from, to)
  {
    var after := events + [e];
    forall k | 0 <= k < |after| && after[k].change > 0 && from < after[k].time <= to
      ensures after[k].change + WindowSum(after[..k], Cutoff(after[k].time, p.period)) <= p.value
    {
      if k < |events| {
        assert after[..k] == events[..k];
      } else {
        assert after[..k] == events;
      }
    }
  }

  /** Call `c` enforces policy `p` in direction `up` under "Min". */
  ghost predicate Enforces(c: Call, p: Policy, up: bool) {
    c.behavior.Complete()
    && var rules := RulesOf(c.behavior, up);
       rules.select == MinChange && p in rules.policies
  }

  /** `p` is a Pods policy that every call in (from, to] enforces; calls outside may have any behaviour. */
  ghost predicate InForce(calls: seq<Call>, p: Policy, up: bool, from: int, to: int) {
    p.kind == Pods && forall c <- calls :: from < c.now <= to ==> Enforces(c, p, up)
  }

  lemma ChangeRespects(h: Logs, c: Call, p: Policy)
    requires c.behavior.Complete() && p.kind == Pods
    ensures var up, n := c.behavior.up.value, Final(h, c);
      up.select == MinChange && p in up.policies && n > c.current ==>
        n - c.current + WindowSum(h.ups, Cutoff(c.now, p.period)) <= p.value
    ensures var down, n := c.behavior.down.value, Final(h, c);
      down.select == MinChange && p in down.policies && n < c.current ==>
        c.current - n + WindowSum(h.downs, Cutoff(c.now, p.period)) <= p.value
  {
    var up, down, n := c.behavior.up.value, c.behavior.down.value, Final(h, c);
    LimitedStaysWithin(Recommended(h, c), c.current, h.ups, h.downs, up, down, c.now);
    if up.select == MinChange && p in up.policies && n > c.current {
      assert Permits(true, p, PeriodStart(true, p, c.current, h.ups, c.now), n);
    }
    if down.select == MinChange && p in down.policies && n < c.current {
      assert Permits(false, p, PeriodStart(false, p, c.current, h.downs, c.now), n);
    }
  }

  lemma NextUpsRespect(h: Logs, c: Call, p: Policy, recommended: int, final: int, from: int, to: int)
    requires final > c.current && from < c.now <= to ==>
      final - c.current + WindowSum(h.ups, Cutoff(c.now, p.period)) <= p.value
    requires NoNegativeChange(h.ups) && Respects(h.ups, p, from, to)
    ensures NoNegativeChange(NextHistory(h, c, recommended, final).ups)
    ensures Respects(NextHistory(h, c, recommended, final).ups, p, from, to)
  {
    hide WindowSum, Respects;
    if StoresUp(c, final) {
      RespectsAppend(h.ups, Event(final - c.current, c.now, false), p, from, to);
    }
  }

  lemma {:induction false} UpsRespect(calls: seq<Call>, p: Policy, from: int, to: int)
    requires Covered(calls) && InForce(calls, p, true, from, to)
    ensures NoNegativeChange(Run(calls).history.ups) && Respects(Run(calls).history.ups, p, from, to)
  {
    hide Final, Recommended, NextLogs, NextHistory, Covers;
    if calls != [] {
      hide Respects;
      var before, c := calls[..|calls| - 1], calls[|calls| - 1];
      assert c in calls;
      UpsRespect(before, p, from, to);
      CallsDecideFromHistory(before, c);
      var h, final := Run(before).history, FinalOf(calls, |before|);
      if from < c.now <= to {
        ChangeRespects(h, c, p);
      }
      NextUpsRespect(h, c, p, RecommendationOf(calls, |before|), final, from, to);
    }
  }

  lemma NextDownsRespect(h: Logs, c: Call, p: Policy, recommended: int, final: int, from: int, to: int)
    requires final < c.current && from < c.now <= to ==>
      c.current - final + WindowSum(h.downs, Cutoff(c.now, p.period)) <= p.value
    requires NoNegativeChange(h.downs) && Respects(h.downs, p, from, to)
    ensures NoNegativeChange(NextHistory(h, c, recommended, final).downs)
    ensures Respects(NextHistory(h, c, recommended, final).downs, p, from, to)
  {
    hide WindowSum, Respects;
    if StoresDown(c, final) {
      RespectsAppend(h.downs, Event(c.current - final, c.now, false), p, from, to);
    }
  }

  lemma {:induction false} DownsRespect(calls: seq<Call>, p: Policy, from: int, to: int)
    requires Covered(calls) && InForce(calls, p, false, from, to)
    ensures NoNegativeChange(Run(calls).history.downs) && Respects(Run(calls).history.downs, p, from, to)
  {
    hide Final, Recommended, NextLogs, NextHistory, Covers;
    if calls != [] {
      hide Respects;
      var before, c := calls[..|calls| - 1], calls[|calls| - 1];
      assert c in calls;
      DownsRespect(before, p, from, to);
      CallsDecideFromHistory(before, c);
      var h, final := Run(before).history, FinalOf(calls, |before|);
      if from < c.now <= to {
        ChangeRespects(h, c, p);
      }
      NextDownsRespect(h, c, p, RecommendationOf(calls, |before|), final, from, to);
    }
  }

  /** The rate guarantee: in every half-open stretch of time no longer than the period of a policy that is in force
      throughout, all the scale-ups (or all the scale-downs) together move at most `p.value` replicas. */
  lemma RateGuarantee(calls: seq<Call>, p: Policy, up: bool, from: int, to: int)
    requires Covered(calls) && InForce(calls, p, up, from, to)
    requires to - from <= p.period * SECOND
    ensures MovedIn(calls, |calls|, up, from, to) <= Max(0, p.value)
  {
    hide Run, Covered, InForce, Respects, NoNegativeChange;
    ChangedInIsMoved(calls, |calls|, up, from, to);
    assert calls[..|calls|] == calls;
    if up {
      UpsRespect(calls, p, from, to);
    } else {
      DownsRespect(calls, p, from, to);
    }
    RespectsBoundsWindows(EventsOf(Run(calls).history, up), p, from, to);
  }

  /** The count from which call `i` may move on under policy `p`: the current one, with what the period has already
      moved taken back. */
  ghost function PeriodBase(calls: seq<Call>, i: nat, up: bool, p: Policy): int
    requires i < |calls|
  {
    var moved := MovedSince(calls, i, up, calls[i].now - p.period * SECOND);
    if up then calls[i].current - moved else calls[i].current + moved
  }

  /** Call `i` may change the count to `n`: under "Min" if every policy permits it, otherwise if some policy does. */
  ghost predicate MayChangeTo(calls: seq<Call>, i: nat, up: bool, n: int)
    requires i < |calls| && calls[i].behavior.Complete()
  {
    var rules := RulesOf(calls[i].behavior, up);
    match rules.select
    case Disabled => false
    case MinChange => forall p <- rules.policies :: Permits(up, p, PeriodBase(calls, i, up, p), n)
    case MaxChange => exists p <- rules.policies :: Permits(up, p, PeriodBase(calls, i, up, p), n)
  }

  lemma MayChangeIsWithin(calls: seq<Call>, i: nat, up: bool, n: int)
    requires i < |calls| && calls[i].behavior.Complete()
    ensures var c, events := calls[i], EventsOf(Run(calls[..i]).history, up);
      MayChangeTo(calls, i, up, n) <==> Within(up, RulesOf(c.behavior, up), n, c.current, events, c.now)
  {
    hide Run, Permits, MovedSince;
    var c, events := calls[i], EventsOf(Run(calls[..i]).history, up);
    forall p <- RulesOf(c.behavior, up).policies
      ensures PeriodBase(calls, i, up, p) == PeriodStart(up, p, c.current, events, c.now)
    {
      WindowSumIsMoved(calls, i, up, Cutoff(c.now, p.period));
    }
  }

  /** Whatever the selector and the kinds of policy, each single change keeps within every policy (under "Min"), or
      within some policy (otherwise), and is the furthest one up to the recommendation that does: the count sent is
      exactly the int32 count nearest to the recommendation that the rules allow, and the current one if they allow
      none. */
  lemma ChangeWithinPolicies(calls: seq<Call>, i: nat)
    requires i < |calls| && calls[i].behavior.Complete() && Covered(calls)
    ensures var c, n, s := calls[i], FinalOf(calls, i), RecommendationOf(calls, i);
      && (if s >= c.current then c.current <= n <= s else s <= n <= c.current)
      && (n > c.current ==> MayChangeTo(calls, i, true, n))
      && (n < c.current ==> MayChangeTo(calls, i, false, n))
      && (forall m: int32 :: c.current < m <= s && MayChangeTo(calls, i, true, m) ==> m <= n)
      && (forall m: int32 :: s <= m < c.current && MayChangeTo(calls, i, false, m) ==> n <= m)
  {
    hide Run, MayChangeTo, Within, Recommended, Covered;
    var c, h, n := calls[i], Run(calls[..i]).history, FinalOf(calls, i);
    var up, down, s := c.behavior.up.value, c.behavior.down.value, RecommendationOf(calls, i);
    CoveredPrefix(calls, i);
    CallsDecideFromHistory(calls[..i], c);
    LimitedStaysWithin(s, c.current, h.ups, h.downs, up, down, c.now);
    MayChangeIsWithin(calls, i, true, n);
    MayChangeIsWithin(calls, i, false, n);
    forall m: int32
      ensures c.current < m <= s && MayChangeTo(calls, i, true, m) ==> m <= n
      ensures s <= m < c.current && MayChangeTo(calls, i, false, m) ==> n <= m
    {
      MayChangeIsWithin(calls, i, true, m);
      MayChangeIsWithin(calls, i, false, m);
      LimitedIsFurthest(s, c.current, h.ups, h.downs, up, down, c.now, m);
    }
  }

  lemma CoveredPrefix(calls: seq<Call>, i: nat)
    requires i < |calls| && Covered(calls)
    ensures forall k :: 0 <= k < i ==> Covers(calls[..i][k], calls[i])
  {
  }
}
