/**
 * Editing the behaviour of a running scaler: exactly which edits make the logs forget something that is
 * needed again.
 */
module BehaviorEdits {
  import opened Options
  import opened ScalingRules
  import opened SlotLogs
  import opened BehaviorProcessor
  import opened ScaleRuns
  import opened ControlledRuns

  /** The last call decides from the kept logs as it would from the full history. */
  ghost predicate LastDecidesFromHistory(calls: seq<Call>)
    requires calls != []
  {
    var last := |calls| - 1;
    var h := Run(calls[..last]).history;
    RecommendationOf(calls, last) == Recommended(h, calls[last]) && FinalOf(calls, last) == Final(h, calls[last])
  }

  /** The behaviour stays as it is up to the last call, and is edited before that one. */
  ghost predicate EditedBeforeLast(calls: seq<Call>) {
    && calls != [] && TimesNeverFall(calls) && (forall c <- calls :: c.behavior.Complete())
    && SameBehavior(calls[..|calls| - 1])
  }

  lemma CoveredDecides(calls: seq<Call>)
    requires calls != [] && Covered(calls)
    ensures LastDecidesFromHistory(calls)
  {
    hide Final, Recommended, Run, Covers;
    var before := calls[..|calls| - 1];
    assert forall i :: 0 <= i < |before| ==> before[i] == calls[i];
    CallsDecideFromHistory(before, calls[|before|]);
  }

  lemma NarrowingEditIsSafe(calls: seq<Call>)
    requires EditedBeforeLast(calls)
    requires forall i :: 0 <= i < |calls| - 1 ==> NoWider(calls[i].behavior, calls[|calls| - 1].behavior)
    ensures LastDecidesFromHistory(calls)
  {
    hide Final, Recommended, Run, Covers, NoWider;
    var before, last := calls[..|calls| - 1], calls[|calls| - 1];
    forall i | 0 <= i < |before|
      ensures Covers(before[i], last)
    {
      assert before[i] == calls[i] && calls[i].now <= calls[|calls| - 1].now;
      NoWiderIsCovered(before[i], last);
    }
    CallsDecideFromHistory(before, last);
  }

  // ---------- Editing a period ----------

  /** The edit changes the longest period of direction `up` from `p` to `q`, with any other change of that direction's
      policies. */
  ghost predicate EditsPeriod(calls: seq<Call>, p: int, q: int, up: bool) {
    && EditedBeforeLast(calls)
    && (forall i :: 0 <= i < |calls| - 1 ==>
          PeriodChanges(calls[i].behavior, calls[|calls| - 1].behavior, p, q, up))
  }

  predicate PeriodChanges(b: Behavior, d: Behavior, p: int, q: int, up: bool)
    requires b.Complete() && d.Complete()
  {
    && RulesOf(b, !up) == RulesOf(d, !up) && RulesOf(b, up).window == RulesOf(d, up).window
    && LongestPeriod(RulesOf(b, up).policies) == p && LongestPeriod(RulesOf(d, up).policies) == q
  }

  function Paced(up: bool, step: int, period: int): Behavior {
    var paced, idle := Rules(0, MinChange, [Policy(Pods, step, period)]), Rules(0, MinChange, []);
    if up then Behavior(Some(paced), Some(idle)) else Behavior(Some(idle), Some(paced))
  }

  /** Counts between 1 and 9, climbing from 1 or falling from 9. */
  function Count(up: bool, n: int): int {
    if up then n else 10 - n
  }

  function Kept(l: Logs, up: bool): seq<Event> {
    if up then l.ups else l.downs
  }

  lemma LongestOfOne(p: Policy)
    requires 0 <= p.period
    ensures LongestPeriod([p]) == p.period
  {
    assert [p][..0] == [];
  }

  /** Three changes: one, the next just over `p` seconds later, and one right after the edit. */
  function Hasty(p: nat, q: nat, up: bool): seq<Call> {
    [
      Call(Paced(up, 1, p), Count(up, 9), Count(up, 1), 0, true),
      Call(Paced(up, 1, p), Count(up, 9), Count(up, 2), p * SECOND + 1, true),
      Call(Paced(up, 2, q), Count(up, 9), Count(up, 3), p * SECOND + 2, true)
    ]
  }

  /** One policy, of either direction, lets through what its period has left. */
  lemma PacedFinal(l: Logs, c: Call, up: bool, step: int, period: int, n: int, moved: int)
    requires c.behavior == Paced(up, step, period) && 1 <= n <= 9
    requires c.desired == Count(up, 9) && c.current == Count(up, n)
    requires RecordsIn(l.records, c.desired, c.desired)
    requires WindowSum(Kept(l, up), Cutoff(c.now, period)) == moved <= step
    ensures Recommended(l, c) == c.desired
    ensures Final(l, c) == Count(up, Min(9, n + step - moved))
  {
    var p, rules := Policy(Pods, step, period), RulesOf(c.behavior, up);
    BestIsExtremum(l.records, c.WindowStart(), c.ScalesUp(), c.desired);
    PickBounds(up, rules.policies, up, c.current, Kept(l, up), c.now);
    assert p in rules.policies;
    assert Proposal(up, p, c.current, Kept(l, up), c.now) == Count(up, n + step - moved);
  }

  lemma SumOfOne(e: Event, cutoff: int)
    ensures WindowSum([e], cutoff) == Weight(e, cutoff)
  {
    assert [] + [e] == [e];
    WindowSumAppend([], e, cutoff);
  }

  lemma HastyFirst(p: nat, q: nat, up: bool)
    ensures var calls, s := Hasty(p, q, up), Run(Hasty(p, q, up)[..1]);
      && FinalOf(calls, 0) == Count(up, 2)
      && Kept(s.logs, up) == [Event(1, 0, false)] == Kept(s.history, up)
      && s.logs.records == [Record(Count(up, 9), 0)] == s.history.records
  {
    var calls := Hasty(p, q, up);
    assert calls[..0] == [];
    PacedFinal(EMPTY, calls[0], up, 1, p, 1, 0);
    RunStep(calls, 0);
  }

  lemma ReusesTheOneSlot(e: Event, horizon: int, change: int, now: int)
    requires e.time < horizon
    ensures PutEvent([e], horizon, change, now) == [Event(change, now, false)]
  {
    var marked := Marked([e], horizon);
    assert marked[0].outdated && LastOutdated(marked) == 0;
  }

  lemma SecondCallOfHasty(p: nat, up: bool, l: Logs, c: Call)
    requires Kept(l, up) == [Event(1, 0, false)] && l.records == [Record(Count(up, 9), 0)]
    requires c == Call(Paced(up, 1, p), Count(up, 9), Count(up, 2), p * SECOND + 1, true)
    ensures Recommended(l, c) == Count(up, 9) && Final(l, c) == Count(up, 3)
    ensures Kept(NextLogs(l, c), up) == [Event(1, p * SECOND + 1, false)]
  {
    SumOfOne(Event(1, 0, false), Cutoff(c.now, p));
    PacedFinal(l, c, up, 1, p, 2, 0);
    hide Final, Recommended, PutEvent, NextRecords;
    LongestOfOne(Policy(Pods, 1, p));
    ReusesTheOneSlot(Event(1, 0, false), if up then c.UpHorizon() else c.DownHorizon(), 1, c.now);
  }

  lemma HastySecond(p: nat, q: nat, up: bool)
    ensures var calls, s := Hasty(p, q, up), Run(Hasty(p, q, up)[..2]);
      && FinalOf(calls, 1) == Count(up, 3)
      && Kept(s.logs, up) == [Event(1, p * SECOND + 1, false)]
      && Kept(s.history, up) == [Event(1, 0, false), Event(1, p * SECOND + 1, false)]
      && s.history.records == [Record(Count(up, 9), 0), Record(Count(up, 9), p * SECOND + 1)]
  {
    hide Final, Recommended, Run, NextLogs;
    var calls := Hasty(p, q, up);
    HastyFirst(p, q, up);
    SecondCallOfHasty(p, up, Run(calls[..1]).logs, calls[1]);
    RunStep(calls, 1);
  }

  lemma HastySums(p: nat, q: nat)
    requires p < q
    ensures var cutoff, e, f := Cutoff(p * SECOND + 2, q), Event(1, 0, false), Event(1, p * SECOND + 1, false);
      WindowSum([f], cutoff) == 1 && WindowSum([e, f], cutoff) == 2
  {
    var cutoff, e, f := Cutoff(p * SECOND + 2, q), Event(1, 0, false), Event(1, p * SECOND + 1, false);
    SumOfOne(f, cutoff);
    SumOfOne(e, cutoff);
    WindowSumAppend([e], f, cutoff);
    assert [e] + [f] == [e, f];
  }

  lemma HastyThird(p: nat, q: nat, up: bool)
    requires p < q
    ensures var calls := Hasty(p, q, up);
      FinalOf(calls, 2) == Count(up, 4) && Final(Run(calls[..2]).history, calls[2]) == Count(up, 3)
  {
    hide Final, Recommended, Run, WindowSum;
    var calls := Hasty(p, q, up);
    HastySecond(p, q, up);
    HastySums(p, q);
    RecordsStayInRange(calls[..2], Count(up, 9), Count(up, 9));
    PacedFinal(Run(calls[..2]).logs, calls[2], up, 2, q, 3, 1);
    PacedFinal(Run(calls[..2]).history, calls[2], up, 2, q, 3, 2);
  }

  /** Lengthening a policy period by any edit is not covered: in this run of accepted changes the first event is gone
      when the longer period asks for it, and one replica more gets through than the policy allows. */
  lemma LongerPeriodMissesEvents(p: nat, q: nat, up: bool)
    requires p < q
    ensures var calls := Hasty(p, q, up);
      && Controlled(calls) && EditsPeriod(calls, p, q, up) && !Covered(calls)
      && FinalOf(calls, 2) == Count(up, 4) && Final(Run(calls[..2]).history, calls[2]) == Count(up, 3)
  {
    hide Final, Run, FinalOf, Covered;
    var calls := Hasty(p, q, up);
    HastyFirst(p, q, up);
    HastySecond(p, q, up);
    HastyThird(p, q, up);
    LongestOfOne(Policy(Pods, 1, p));
    LongestOfOne(Policy(Pods, 2, q));
    assert After(calls, 0) == Count(up, 2) && After(calls, 1) == Count(up, 3);
    if Covered(calls) {
      CoveredDecides(calls);
    }
  }

  /** Changing the longest period of either direction from `p` to `q` never loses an event that is needed again, in any
      run, exactly when it does not lengthen the period. */
  lemma PeriodEditIsSafeExactly(p: nat, q: nat, up: bool)
    ensures (forall calls :: EditsPeriod(calls, p, q, up) ==> LastDecidesFromHistory(calls)) <==> q <= p
  {
    if q <= p {
      forall calls | EditsPeriod(calls, p, q, up)
        ensures LastDecidesFromHistory(calls)
      {
        NarrowingEditIsSafe(calls);
      }
    } else {
      LongerPeriodMissesEvents(p, q, up);
      assert !LastDecidesFromHistory(Hasty(p, q, up));
    }
  }

  // ---------- Editing a stabilisation window ----------

  /** The edit changes the longer stabilisation window from `v` to `w`, and nothing but windows. */
  ghost predicate EditsWindow(calls: seq<Call>, v: int, w: int) {
    && EditedBeforeLast(calls)
    && (forall i :: 0 <= i < |calls| - 1 ==>
          WindowChanges(calls[i].behavior, calls[|calls| - 1].behavior, v, w))
  }

  predicate WindowChanges(b: Behavior, d: Behavior, v: int, w: int)
    requires b.Complete() && d.Complete()
  {
    && b.up.value.(window := 0) == d.up.value.(window := 0)
    && b.down.value.(window := 0) == d.down.value.(window := 0)
    && Max(b.up.value.window, b.down.value.window) == v && Max(d.up.value.window, d.down.value.window) == w
  }

  function Patient(window: int): Behavior {
    Behavior(Some(Rules(window, MinChange, [])), Some(Rules(0, MinChange, [])))
  }

  /** A wish for one replica, then for nine just over `v` seconds later, and again right after the edit. */
  function Hopeful(v: nat, w: nat): seq<Call> {
    [
      Call(Patient(v), 1, 1, 0, true),
      Call(Patient(v), 9, 1, v * SECOND + 1, true),
      Call(Patient(w), 9, 9, v * SECOND + 2, true)
    ]
  }

  /** Without policies a call sends what it recommends. */
  lemma UnlimitedFinal(l: Logs, c: Call, window: int, recommended: int32)
    requires c.behavior == Patient(window) && Recommended(l, c) == recommended
    ensures Final(l, c) == recommended
  {
  }

  lemma HopefulFirst(v: nat, w: nat)
    ensures var calls, s := Hopeful(v, w), Run(Hopeful(v, w)[..1]);
      && FinalOf(calls, 0) == 1 && s.logs.records == [Record(1, 0)] == s.history.records
  {
    var calls := Hopeful(v, w);
    assert calls[..0] == [];
    UnlimitedFinal(EMPTY, calls[0], v, 1);
    RunStep(calls, 0);
  }

  lemma SecondCallOfHopeful(v: nat, l: Logs, c: Call)
    requires l.records == [Record(1, 0)] && c == Call(Patient(v), 9, 1, v * SECOND + 1, true)
    ensures Recommended(l, c) == 9 && Final(l, c) == 9
    ensures NextLogs(l, c).records == [Record(9, v * SECOND + 1)]
  {
    hide Best, NextUps, NextDowns;
    BestIsExtremum(l.records, c.WindowStart(), true, 9);
    UnlimitedFinal(l, c, v, 9);
    assert LastStale([Record(1, 0)], c.RecordHorizon()) == 0;
  }

  lemma HopefulSecond(v: nat, w: nat)
    ensures var calls, s := Hopeful(v, w), Run(Hopeful(v, w)[..2]);
      && FinalOf(calls, 1) == 9 && s.logs.records == [Record(9, v * SECOND + 1)]
      && s.history.records == [Record(1, 0), Record(9, v * SECOND + 1)]
  {
    hide Final, Recommended, Run, NextLogs;
    var calls := Hopeful(v, w);
    HopefulFirst(v, w);
    SecondCallOfHopeful(v, Run(calls[..1]).logs, calls[1]);
    RunStep(calls, 1);
  }

  lemma ThirdCallOfHopeful(v: nat, w: nat, kept: Logs, full: Logs, c: Call)
    requires v < w && c == Call(Patient(w), 9, 9, v * SECOND + 2, true)
    requires kept.records == [Record(9, v * SECOND + 1)]
    requires full.records == [Record(1, 0), Record(9, v * SECOND + 1)]
    ensures Final(kept, c) == 9 && Final(full, c) == 1
  {
    hide Best, Final;
    BestIsExtremum(kept.records, c.WindowStart(), true, 9);
    BestIsExtremum(full.records, c.WindowStart(), true, 9);
    assert full.records[0] in full.records;
    UnlimitedFinal(kept, c, w, 9);
    UnlimitedFinal(full, c, w, 1);
  }

  lemma HopefulThird(v: nat, w: nat)
    requires v < w
    ensures var calls := Hopeful(v, w);
      FinalOf(calls, 2) == 9 && Final(Run(calls[..2]).history, calls[2]) == 1
  {
    hide Final, Run;
    var calls := Hopeful(v, w);
    HopefulSecond(v, w);
    ThirdCallOfHopeful(v, w, Run(calls[..2]).logs, Run(calls[..2]).history, calls[2]);
  }

  /** Widening the longer window by any edit: in this run the low recommendation is gone when the wider window asks for
      it, and the count stays at nine where the window asks for one. */
  lemma WiderWindowMissesRecords(v: nat, w: nat)
    requires v < w
    ensures var calls := Hopeful(v, w);
      && Controlled(calls) && EditsWindow(calls, v, w) && !Covered(calls)
      && FinalOf(calls, 2) == 9 && Final(Run(calls[..2]).history, calls[2]) == 1
  {
    hide Final, Run, FinalOf, Covered;
    var calls := Hopeful(v, w);
    HopefulFirst(v, w);
    HopefulSecond(v, w);
    HopefulThird(v, w);
    assert After(calls, 0) == 1 && After(calls, 1) == 9;
    if Covered(calls) {
      CoveredDecides(calls);
    }
  }

  /** Changing the longer stabilisation window from `v` to `w` never loses a record that is needed again, in any run,
      exactly when it does not widen the window. */
  lemma WindowEditIsSafeExactly(v: nat, w: nat)
    ensures (forall calls :: EditsWindow(calls, v, w) ==> LastDecidesFromHistory(calls)) <==> w <= v
  {
    if w <= v {
      forall calls | EditsWindow(calls, v, w)
        ensures LastDecidesFromHistory(calls)
      {
        NarrowingEditIsSafe(calls);
      }
    } else {
      WiderWindowMissesRecords(v, w);
      assert !LastDecidesFromHistory(Hopeful(v, w));
    }
  }
}
