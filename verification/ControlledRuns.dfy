/** Runs in which only this scaler writes the count: every call finds the count that the last one left. */
module ControlledRuns {
  import opened IntArithmetic
  import opened ScalingRules
  import opened SlotLogs
  import opened BehaviorProcessor
  import opened ScaleRuns

  lemma PrefixDecides(calls: seq<Call>, k: nat, i: nat)
    requires i < k <= |calls|
    ensures FinalOf(calls[..k], i) == FinalOf(calls, i)
    ensures RecommendationOf(calls[..k], i) == RecommendationOf(calls, i)
  {
    assert calls[..k][..i] == calls[..i];
  }

  lemma RunStep(calls: seq<Call>, i: nat)
    requires i < |calls|
    ensures Run(calls[..i + 1]).logs == NextLogs(Run(calls[..i]).logs, calls[i])
    ensures Run(calls[..i + 1]).history
         == NextHistory(Run(calls[..i]).history, calls[i], RecommendationOf(calls, i), FinalOf(calls, i))
  {
    hide Final, Recommended, NextLogs, NextHistory;
    assert calls[..i + 1][..i] == calls[..i];
  }

  /** The count in force after call `i`. */
  function After(calls: seq<Call>, i: nat): int
    requires i < |calls|
  {
    if calls[i].updated then FinalOf(calls, i) else calls[i].current
  }

  ghost predicate Controlled(calls: seq<Call>) {
    ControlledFrom(calls, 0)
  }

  /** From call `k` on nobody else writes the count. */
  ghost predicate ControlledFrom(calls: seq<Call>, k: nat) {
    forall i :: k <= i < |calls| - 1 ==> calls[i + 1].current == After(calls, i)
  }

  // ---------- Range ----------

  ghost predicate RecordsIn(records: seq<Record>, lo: int, hi: int) {
    forall r <- records :: lo <= r.desired <= hi
  }

  lemma NextInRange(l: Logs, c: Call, lo: int, hi: int)
    requires RecordsIn(l.records, lo, hi) && lo <= c.desired <= hi
    ensures RecordsIn(NextLogs(l, c).records, lo, hi)
    ensures lo <= Recommended(l, c) <= hi
    ensures lo <= c.current <= hi ==> lo <= Final(l, c) <= hi
  {
    if c.behavior.Complete() {
      BestIsExtremum(l.records, c.WindowStart(), c.ScalesUp(), c.desired);
      var recorded := Record(Recommended(l, c), c.now);
      forall r <- PutRecord(l.records, c.RecordHorizon(), recorded)
        ensures lo <= r.desired <= hi
      {
        PutRecordSources(l.records, c.RecordHorizon(), recorded, r);
      }
    }
  }

  /** Exactly which recommendations stay within bounds that the desired count keeps: those that find no lower count
      (for a scale-down, no higher one) in their window than the bounds allow. */
  lemma RecommendationInRangeExactly(l: Logs, c: Call, lo: int, hi: int)
    requires c.behavior.Complete() && lo <= c.desired <= hi
    ensures lo <= Recommended(l, c) <= hi <==>
      forall r <- l.records :: r.time > c.WindowStart() ==> if c.ScalesUp() then lo <= r.desired else r.desired <= hi
  {
    BestIsExtremum(l.records, c.WindowStart(), c.ScalesUp(), c.desired);
  }

  lemma {:induction false} RecordsStayInRange(calls: seq<Call>, lo: int, hi: int)
    requires forall c <- calls :: lo <= c.desired <= hi
    ensures RecordsIn(Run(calls).logs.records, lo, hi)
  {
    hide Final, Recommended, NextLogs, NextHistory;
    if calls != [] {
      var before := calls[..|calls| - 1];
      RecordsStayInRange(before, lo, hi);
      NextInRange(Run(before).logs, calls[|before|], lo, hi);
    }
  }

  /** Range safety: once the records and a current count lie in [lo, hi], and while the desired counts do, as the
      election makes them, every count this scaler recommends or sends from then on lies there too, even when
      stabilisation turns a scale-up into a scale-down, and whatever came before. */
  lemma {:induction false} RunStaysInRange(calls: seq<Call>, lo: int, hi: int, k: nat, i: nat)
    requires ControlledFrom(calls, k) && k <= i < |calls|
    requires RecordsIn(Run(calls[..k]).logs.records, lo, hi) && lo <= calls[k].current <= hi
    requires forall j :: k <= j < |calls| ==> lo <= calls[j].desired <= hi
    ensures lo <= RecommendationOf(calls, i) <= hi
    ensures lo <= FinalOf(calls, i) <= hi && lo <= calls[i].current <= hi
    ensures RecordsIn(Run(calls[..i + 1]).logs.records, lo, hi)
  {
    hide Final, Recommended, Run, NextLogs, NextHistory;
    if i > k {
      RunStaysInRange(calls, lo, hi, k, i - 1);
      assert calls[i - 1 + 1].current == After(calls, i - 1);
    }
    NextInRange(Run(calls[..i]).logs, calls[i], lo, hi);
    RunStep(calls, i);
  }

  // ---------- Conservation ----------

  function Total(events: seq<Event>): int {
    if events == [] then 0 else Total(events[..|events| - 1]) + events[|events| - 1].change
  }

  lemma TotalAppend(events: seq<Event>, e: Event)
    ensures Total(events + [e]) == Total(events) + e.change
  {
    assert (events + [e])[..|events|] == events;
  }

  /** What the event log misses of one call: a count that was sent while the rules of its direction are missing. */
  function Unrecorded(c: Call, final: int): int {
    if c.updated && (if final > c.current then c.behavior.up.None? else c.behavior.down.None?) then final - c.current
    else 0
  }

  lemma NextConserves(h: Logs, c: Call, recommended: int, final: int)
    ensures var next := NextHistory(h, c, recommended, final);
      Total(next.ups) - Total(next.downs) + Unrecorded(c, final)
        == Total(h.ups) - Total(h.downs) + (if c.updated then final - c.current else 0)
  {
    TotalAppend(h.ups, Event(final - c.current, c.now, false));
    TotalAppend(h.downs, Event(c.current - final, c.now, false));
  }

  /** What the event logs miss of the first `n` calls.  Such a call crashes the process, and the next one starts from
      empty logs; so within one process only the last call can lose its change. */
  function Lost(calls: seq<Call>, n: nat): int
    requires n <= |calls|
  {
    if n == 0 then 0 else Lost(calls, n - 1) + Unrecorded(calls[n - 1], FinalOf(calls, n - 1))
  }

  /** Conservation: the count is the initial one plus all recorded ups minus all recorded downs, and failed updates
      record nothing.  What breaks it are only the calls whose change was accepted while the rules of its direction
      were missing, and by exactly their changes. */
  lemma {:induction false} ReplicasAreConserved(calls: seq<Call>, i: nat)
    requires Controlled(calls) && i < |calls|
    ensures var h := Run(calls[..i + 1]).history;
      After(calls, i) == calls[0].current + Total(h.ups) - Total(h.downs) + Lost(calls, i + 1)
    decreases i, 1
  {
    hide Final, Recommended, NextLogs, NextHistory, Unrecorded;
    ConservedBefore(calls, i);
    RunStep(calls, i);
    NextConserves(Run(calls[..i]).history, calls[i], RecommendationOf(calls, i), FinalOf(calls, i));
  }

  /** The same, before call `i`. */
  lemma {:induction false} ConservedBefore(calls: seq<Call>, i: nat)
    requires Controlled(calls) && i < |calls|
    ensures var h := Run(calls[..i]).history;
      calls[i].current == calls[0].current + Total(h.ups) - Total(h.downs) + Lost(calls, i)
    decreases i, 0
  {
    if i > 0 {
      var k := i - 1;
      ReplicasAreConserved(calls, k);
      assert calls[k + 1].current == After(calls, k);
    } else {
      assert calls[..0] == [];
    }
  }

  /** No call loses its change while both sides of the behaviour are set. */
  lemma {:induction false} CompleteRulesLoseNothing(calls: seq<Call>, n: nat)
    requires n <= |calls|
    requires forall c <- calls :: c.updated ==> c.behavior.Complete()
    ensures Lost(calls, n) == 0
  {
    if n > 0 {
      CompleteRulesLoseNothing(calls, n - 1);
      assert calls[n - 1] in calls;
    }
  }

  // ---------- Progress ----------

  /** From call `k` on every call wants `desired`, is accepted, and finds the same behaviour, whose only scale-up policy
      lets `step` pods through per period; these calls come at least one period apart. */
  ghost predicate Climbs(calls: seq<Call>, k: nat, desired: int32, b: Behavior, step: int, period: int) {
    && SinglePolicy(b, step, period)
    && (forall i :: k <= i < |calls| ==>
          calls[i].desired == desired && calls[i].behavior == b && calls[i].updated)
    && (forall i :: k <= i < |calls| - 1 ==> calls[i].now <= Cutoff(calls[i + 1].now, Max(0, period)))
  }

  ghost predicate SinglePolicy(b: Behavior, step: int, period: int) {
    b.Complete() && b.up.value.select != Disabled && b.up.value.policies == [Policy(Pods, step, period)]
  }

  ghost predicate NoneLower(records: seq<Record>, cutoff: int, desired: int) {
    forall r <- records :: r.time > cutoff ==> r.desired >= desired
  }

  /** What the logs must look like for call `c` to climb freely: no lower recommendation in its window, and no scale-up
      in its period. */
  ghost predicate Settled(l: Logs, c: Call, period: int)
    requires c.behavior.Complete()
  {
    && NoneLower(l.records, Cutoff(c.now, c.behavior.up.value.window), c.desired)
    && (forall e <- l.ups :: e.time <= Cutoff(c.now, period))
  }

  lemma {:induction false} NothingAfter(events: seq<Event>, cutoff: int)
    requires forall e <- events :: e.time <= cutoff
    ensures WindowSum(events, cutoff) == 0
  {
    if events != [] {
      assert events[|events| - 1] in events;
      NothingAfter(events[..|events| - 1], cutoff);
    }
  }

  /** One policy lets through what its period has left. */
  lemma SinglePolicyFinal(l: Logs, c: Call, step: int, period: int, moved: int)
    requires SinglePolicy(c.behavior, step, period) && c.current <= c.desired
    requires NoneLower(l.records, Cutoff(c.now, c.behavior.up.value.window), c.desired)
    requires WindowSum(l.ups, Cutoff(c.now, period)) == moved <= step
    ensures Recommended(l, c) == c.desired
    ensures Final(l, c) == Min(c.desired, c.current + step - moved)
  {
    var p, up := Policy(Pods, step, period), c.behavior.up.value;
    BestIsExtremum(l.records, c.WindowStart(), true, c.desired);
    PickBounds(up.select == MinChange, up.policies, true, c.current, l.ups, c.now);
    assert p in up.policies;
    assert Proposal(true, p, c.current, l.ups, c.now) == c.current - moved + step;
  }

  lemma PutEventSources(events: seq<Event>, horizon: int, change: int, now: int, latest: int)
    requires now <= latest && forall e <- events :: e.time <= latest
    ensures forall e <- PutEvent(events, horizon, change, now) :: e.time <= latest
  {
    var after := PutEvent(events, horizon, change, now);
    forall e <- after
      ensures e.time <= latest
    {
      var k :| 0 <= k < |after| && after[k] == e;
      assert k < |events| ==> events[k] in events;
    }
  }

  /** A climbing call leaves the logs ready for the next one. */
  lemma StaysSettled(l: Logs, c: Call, d: Call, step: int, period: int)
    requires SinglePolicy(c.behavior, step, period) && d.behavior == c.behavior && d.desired == c.desired
    requires Settled(l, c, period) && Recommended(l, c) == c.desired
    requires c.now <= Cutoff(d.now, Max(0, period))
    ensures Settled(NextLogs(l, c), d, period)
  {
    hide Final, Recommended, PutEvent, PutRecord;
    var recorded := Record(c.desired, c.now);
    forall r <- PutRecord(l.records, c.RecordHorizon(), recorded) | r.time > Cutoff(d.now, d.behavior.up.value.window)
      ensures r.desired >= d.desired
    {
      PutRecordSources(l.records, c.RecordHorizon(), recorded, r);
    }
    PutEventSources(l.ups, c.UpHorizon(), Final(l, c) - c.current, c.now, Cutoff(d.now, period));
  }

  /** `start` raised `n` times by `step`, but no further than `desired`. */
  function Climbed(start: int, desired: int, step: int, n: nat): int {
    if n == 0 then start else Min(desired, Climbed(start, desired, step, n - 1) + step)
  }

  lemma {:induction false} ClimbedIsLinear(start: int, desired: int, step: int, n: nat)
    requires 1 <= step && start <= desired
    ensures Climbed(start, desired, step, n) == Min(desired, start + n * step)
  {
    if n > 0 {
      ClimbedIsLinear(start, desired, step, n - 1);
      MulNext(n - 1, step);
    }
  }

  lemma ClimbedExactly(start: int, desired: int, step: int, n: nat)
    requires 1 <= step && start <= desired
    ensures Climbed(start, desired, step, n) == desired <==> CeilDiv(desired - start, step) <= n
  {
    ClimbedIsLinear(start, desired, step, n);
    CeilDivReaches(desired - start, step, n);
  }

  /** The state that call `i` of such a run starts from. */
  ghost predicate ReadyToClimb(calls: seq<Call>, k: nat, desired: int, step: int, period: int, i: nat)
    requires k <= i < |calls| && calls[i].behavior.Complete()
  {
    && calls[i].current == Climbed(calls[k].current, desired, step, i - k) <= desired
    && Settled(Run(calls[..i]).logs, calls[i], period)
  }

  lemma CallClimbs(calls: seq<Call>, k: nat, desired: int32, b: Behavior, step: int, period: int, i: nat)
    requires k <= i < |calls| && 1 <= step
    requires Climbs(calls, k, desired, b, step, period)
    requires ReadyToClimb(calls, k, desired, step, period, i)
    ensures RecommendationOf(calls, i) == desired
    ensures After(calls, i) == Climbed(calls[k].current, desired, step, i + 1 - k) <= desired
  {
    hide Final, Recommended, Run;
    var l := Run(calls[..i]).logs;
    NothingAfter(l.ups, Cutoff(calls[i].now, period));
    SinglePolicyFinal(l, calls[i], step, period, 0);
  }

  lemma {:induction false} ClimbReaches(
    calls: seq<Call>, k: nat, desired: int32, b: Behavior, step: int, period: int, i: nat)
    requires ControlledFrom(calls, k) && k <= i < |calls| && 1 <= step
    requires Climbs(calls, k, desired, b, step, period) && calls[k].current <= desired
    requires Settled(Run(calls[..k]).logs, calls[k], period)
    ensures ReadyToClimb(calls, k, desired, step, period, i)
  {
    hide Final, Recommended, Run, NextLogs, NextHistory, Settled;
    if i > k {
      var j := i - 1;
      ClimbReaches(calls, k, desired, b, step, period, j);
      CallClimbs(calls, k, desired, b, step, period, j);
      RunStep(calls, j);
      assert calls[j + 1].current == After(calls, j);
      assert calls[j].now <= Cutoff(calls[j + 1].now, Max(0, period));
      StaysSettled(Run(calls[..j]).logs, calls[j], calls[i], step, period);
    }
  }

  /** Progress: whatever happened before call `k`, if no lower recommendation is left in its window and no scale-up in
      its period, such a run reaches the desired count with call number ceil((desired - count) / step) from there, and
      not before; until then every call comes nearer. */
  lemma ClimbTakesExactly(calls: seq<Call>, k: nat, desired: int32, b: Behavior, step: int, period: int, i: nat)
    requires ControlledFrom(calls, k) && k <= i < |calls| && 1 <= step
    requires Climbs(calls, k, desired, b, step, period) && calls[k].current <= desired
    requires Settled(Run(calls[..k]).logs, calls[k], period)
    ensures After(calls, i) == desired <==> CeilDiv(desired - calls[k].current, step) <= i + 1 - k
    ensures calls[i].current < desired ==> desired - After(calls, i) < desired - calls[i].current
  {
    hide Run, After, Settled;
    ClimbReaches(calls, k, desired, b, step, period, i);
    CallClimbs(calls, k, desired, b, step, period, i);
    ClimbedExactly(calls[k].current, desired, step, i + 1 - k);
  }
}
