/**
 * Runs of the scaler: any number of scaling calls at any counts and times, with API updates that
 * may fail.  Beside the logs that the scaler keeps, a run carries the full history that it does not.
 */
module ScaleRuns {
  import opened ScalingRules
  import opened SlotLogs
  import opened BehaviorProcessor

  datatype Logs = Logs(records: seq<Record>, ups: seq<Event>, downs: seq<Event>)

  /** One scaling call; `updated` says whether the API accepted the new count. */
  datatype Call = Call(behavior: Behavior, desired: int32, current: int32, now: int, updated: bool) {
    predicate ScalesUp() {
      desired >= current
    }

    function RecordHorizon(): int
      requires behavior.Complete()
    {
      Cutoff(now, Max(behavior.up.value.window, behavior.down.value.window))
    }

    function UpHorizon(): int
      requires behavior.up.Some?
    {
      Cutoff(now, LongestPeriod(behavior.up.value.policies))
    }

    function DownHorizon(): int
      requires behavior.down.Some?
    {
      Cutoff(now, LongestPeriod(behavior.down.value.policies))
    }

    /** Where the stabilisation window of this call starts. */
    function WindowStart(): int
      requires behavior.Complete()
    {
      Cutoff(now, StabilizationWindow(behavior.up.value, behavior.down.value, desired, current))
    }
  }

  function Recommended(l: Logs, c: Call): int {
    if c.behavior.Complete() then
      Stabilized(l.records, c.behavior.up.value, c.behavior.down.value, c.desired, c.current, c.now)
    else c.desired
  }

  // Repaired: the code sends the unrevised count (AsWritten.SentUnrevised).
  /** The count that a call sends to the API. */
  function Final(l: Logs, c: Call): int {
    if c.behavior.Complete() then
      Limited(Recommended(l, c), c.current, l.ups, l.downs, c.behavior.up.value, c.behavior.down.value, c.now)
    else c.desired
  }

  predicate StoresUp(c: Call, final: int) {
    c.updated && final > c.current && c.behavior.up.Some?
  }

  predicate StoresDown(c: Call, final: int) {
    c.updated && final <= c.current && c.behavior.down.Some?
  }

  function NextRecords(records: seq<Record>, c: Call, recommended: int): seq<Record> {
    if c.behavior.Complete() then PutRecord(records, c.RecordHorizon(), Record(recommended, c.now)) else records
  }

  function NextUps(events: seq<Event>, c: Call, final: int): seq<Event> {
    if StoresUp(c, final) then PutEvent(events, c.UpHorizon(), final - c.current, c.now) else events
  }

  function NextDowns(events: seq<Event>, c: Call, final: int): seq<Event> {
    if StoresDown(c, final) then PutEvent(events, c.DownHorizon(), c.current - final, c.now) else events
  }

  /** The kept logs after a call. */
  function NextLogs(l: Logs, c: Call): Logs {
    var final := Final(l, c);
    Logs(NextRecords(l.records, c, Recommended(l, c)), NextUps(l.ups, c, final), NextDowns(l.downs, c, final))
  }

  /** The full history after a call that recommended `recommended` and sent `final`. */
  function NextHistory(h: Logs, c: Call, recommended: int, final: int): Logs {
    Logs(
      if c.behavior.Complete() then h.records + [Record(recommended, c.now)] else h.records,
      if StoresUp(c, final) then h.ups + [Event(final - c.current, c.now, false)] else h.ups,
      if StoresDown(c, final) then h.downs + [Event(c.current - final, c.now, false)] else h.downs)
  }

  datatype State = State(logs: Logs, history: Logs)

  const EMPTY: Logs := Logs([], [], [])

  function NextState(s: State, c: Call): State {
    State(NextLogs(s.logs, c), NextHistory(s.history, c, Recommended(s.logs, c), Final(s.logs, c)))
  }

  function Run(calls: seq<Call>): State {
    if calls == [] then State(EMPTY, EMPTY)
    else NextState(Run(calls[..|calls| - 1]), calls[|calls| - 1])
  }

  /** What call `i` of a run recommended, and sent. */
  function RecommendationOf(calls: seq<Call>, i: nat): int
    requires i < |calls|
  {
    Recommended(Run(calls[..i]).logs, calls[i])
  }

  function FinalOf(calls: seq<Call>, i: nat): int
    requires i < |calls|
  {
    Final(Run(calls[..i]).logs, calls[i])
  }

  /** The scaler that never forgets: every decision is made from complete logs. */
  function RunUnbounded(calls: seq<Call>): Logs {
    if calls == [] then EMPTY
    else
      var h := RunUnbounded(calls[..|calls| - 1]);
      var c := calls[|calls| - 1];
      NextHistory(h, c, Recommended(h, c), Final(h, c))
  }

  // ---------- The kept logs agree with the full history ----------

  lemma {:induction false} RecordsRefineHistory(calls: seq<Call>, h: int, r: Record)
    requires forall c <- calls :: c.behavior.Complete() ==> c.RecordHorizon() <= h
    requires r.time >= h
    ensures r in Run(calls).logs.records <==> r in Run(calls).history.records
  {
    if calls != [] {
      var before, c := calls[..|calls| - 1], calls[|calls| - 1];
      RecordsRefineHistory(before, h, r);
      if c.behavior.Complete() {
        var recorded := Record(RecommendationOf(calls, |before|), c.now);
        PutRecordKeepsRecent(Run(before).logs.records, c.RecordHorizon(), recorded, r);
      }
    }
  }

  lemma NextUpsAgree(s: State, c: Call, h: int)
    requires AgreeFrom(s.logs.ups, s.history.ups, h)
    requires c.behavior.up.Some? ==> c.UpHorizon() <= h
    ensures var next := NextState(s, c);
      AgreeFrom(next.logs.ups, next.history.ups, h)
  {
    hide Final, Recommended, PutEvent, PutRecord, AgreeFrom, Marked;
    var final := Final(s.logs, c);
    if StoresUp(c, final) {
      PutEventAgrees(s.logs.ups, s.history.ups, c.UpHorizon(), final - c.current, c.now, h);
    }
  }

  lemma NextDownsAgree(s: State, c: Call, h: int)
    requires AgreeFrom(s.logs.downs, s.history.downs, h)
    requires c.behavior.down.Some? ==> c.DownHorizon() <= h
    ensures var next := NextState(s, c);
      AgreeFrom(next.logs.downs, next.history.downs, h)
  {
    hide Final, Recommended, PutEvent, PutRecord, AgreeFrom, Marked;
    var final := Final(s.logs, c);
    if StoresDown(c, final) {
      PutEventAgrees(s.logs.downs, s.history.downs, c.DownHorizon(), c.current - final, c.now, h);
    }
  }

  lemma {:induction false} UpsRefineHistory(calls: seq<Call>, h: int)
    requires forall c <- calls :: c.behavior.up.Some? ==> c.UpHorizon() <= h
    ensures AgreeFrom(Run(calls).logs.ups, Run(calls).history.ups, h)
  {
    if calls == [] {
      assert AgreeFrom([], [], h);
    } else {
      hide NextState, AgreeFrom;
      UpsRefineHistory(calls[..|calls| - 1], h);
      NextUpsAgree(Run(calls[..|calls| - 1]), calls[|calls| - 1], h);
    }
  }

  lemma {:induction false} DownsRefineHistory(calls: seq<Call>, h: int)
    requires forall c <- calls :: c.behavior.down.Some? ==> c.DownHorizon() <= h
    ensures AgreeFrom(Run(calls).logs.downs, Run(calls).history.downs, h)
  {
    if calls == [] {
      assert AgreeFrom([], [], h);
    } else {
      hide NextState, AgreeFrom;
      DownsRefineHistory(calls[..|calls| - 1], h);
      NextDownsAgree(Run(calls[..|calls| - 1]), calls[|calls| - 1], h);
    }
  }

  /** Call `d` looks back no further than call `c`, made before it, kept entries for. */
  ghost predicate Covers(c: Call, d: Call) {
    d.behavior.Complete() ==>
      && (c.behavior.Complete() ==> c.RecordHorizon() <= d.WindowStart())
      && (c.behavior.up.Some? ==> forall p <- d.behavior.up.value.policies :: c.UpHorizon() <= Cutoff(d.now, p.period))
      && (c.behavior.down.Some? ==>
            forall p <- d.behavior.down.value.policies :: c.DownHorizon() <= Cutoff(d.now, p.period))
  }

  ghost predicate Covered(calls: seq<Call>) {
    forall i, j :: 0 <= i < j < |calls| ==> Covers(calls[i], calls[j])
  }

  ghost predicate TimesNeverFall(calls: seq<Call>) {
    forall i, j :: 0 <= i < j < |calls| ==> calls[i].now <= calls[j].now
  }

  ghost predicate SameBehavior(calls: seq<Call>) {
    forall i, j :: 0 <= i < j < |calls| ==> calls[i].behavior == calls[j].behavior
  }

  /** Behaviour `d` looks back no further than `b` does. */
  predicate NoWider(b: Behavior, d: Behavior) {
    && (b.Complete() && d.Complete() ==>
          Max(d.up.value.window, d.down.value.window) <= Max(b.up.value.window, b.down.value.window))
    && (b.up.Some? && d.up.Some? ==> LongestPeriod(d.up.value.policies) <= LongestPeriod(b.up.value.policies))
    && (b.down.Some? && d.down.Some? ==> LongestPeriod(d.down.value.policies) <= LongestPeriod(b.down.value.policies))
  }

  lemma NoWiderIsCovered(c: Call, d: Call)
    requires c.now <= d.now && NoWider(c.behavior, d.behavior)
    ensures Covers(c, d)
  {
    if d.behavior.Complete() {
      var up, down := d.behavior.up.value, d.behavior.down.value;
      assert StabilizationWindow(up, down, d.desired, d.current) <= Max(up.window, down.window);
    }
  }

  /** While edits only shrink what the behaviour looks back on, and the clock does not run back, nothing that is needed
      gets lost. */
  lemma NarrowingBehaviorIsCovered(calls: seq<Call>)
    requires TimesNeverFall(calls)
    requires forall i, j :: 0 <= i < j < |calls| ==> NoWider(calls[i].behavior, calls[j].behavior)
    ensures Covered(calls)
  {
    forall i, j | 0 <= i < j < |calls|
      ensures Covers(calls[i], calls[j])
    {
      assert calls[i].now <= calls[j].now;
      NoWiderIsCovered(calls[i], calls[j]);
    }
  }

  lemma FixedBehaviorIsCovered(calls: seq<Call>)
    requires TimesNeverFall(calls) && SameBehavior(calls)
    ensures Covered(calls)
  {
    forall i, j | 0 <= i < j < |calls|
      ensures NoWider(calls[i].behavior, calls[j].behavior)
    {
      assert calls[i].behavior == calls[j].behavior;
    }
    NarrowingBehaviorIsCovered(calls);
  }

  lemma CallsDecideFromHistory(calls: seq<Call>, c: Call)
    requires forall i :: 0 <= i < |calls| ==> Covers(calls[i], c)
    ensures Recommended(Run(calls).logs, c) == Recommended(Run(calls).history, c)
    ensures Final(Run(calls).logs, c) == Final(Run(calls).history, c)
  {
    hide Run, Best, Pick, WindowSum, LongestPeriod;
    if c.behavior.Complete() {
      var s, up, down := Run(calls), c.behavior.up.value, c.behavior.down.value;
      forall r: Record | r.time > c.WindowStart()
        ensures r in s.logs.records <==> r in s.history.records
      {
        RecordsRefineHistory(calls, c.WindowStart(), r);
      }
      SameRecentSameBest(s.logs.records, s.history.records, c.WindowStart(), c.ScalesUp(), c.desired);
      forall p <- up.policies
        ensures WindowSum(s.logs.ups, Cutoff(c.now, p.period)) == WindowSum(s.history.ups, Cutoff(c.now, p.period))
      {
        UpsRefineHistory(calls, Cutoff(c.now, p.period));
      }
      SameSumsSamePick(up.select == MinChange, up.policies, true, c.current, s.logs.ups, s.history.ups, c.now);
      forall p <- down.policies
        ensures WindowSum(s.logs.downs, Cutoff(c.now, p.period)) == WindowSum(s.history.downs, Cutoff(c.now, p.period))
      {
        DownsRefineHistory(calls, Cutoff(c.now, p.period));
      }
      SameSumsSamePick(
        down.select != MinChange, down.policies, false, c.current, s.logs.downs, s.history.downs, c.now);
    }
  }

  /** The scaler with the lossy logs behaves, call by call, as the scaler that never forgets. */
  lemma {:induction false} LossyRunRefinesUnboundedRun(calls: seq<Call>)
    requires Covered(calls)
    ensures Run(calls).history == RunUnbounded(calls)
    ensures forall i :: 0 <= i < |calls| ==>
      && RecommendationOf(calls, i) == Recommended(RunUnbounded(calls[..i]), calls[i])
      && FinalOf(calls, i) == Final(RunUnbounded(calls[..i]), calls[i])
  {
    hide Final, Recommended, NextLogs, NextHistory, Covers;
    if calls != [] {
      var before := calls[..|calls| - 1];
      LossyRunRefinesUnboundedRun(before);
      CallsDecideFromHistory(before, calls[|before|]);
      forall i | 0 <= i < |before|
        ensures RecommendationOf(calls, i) == Recommended(RunUnbounded(calls[..i]), calls[i])
        ensures FinalOf(calls, i) == Final(RunUnbounded(calls[..i]), calls[i])
      {
        assert calls[..i] == before[..i];
        assert RecommendationOf(before, i) == Recommended(RunUnbounded(before[..i]), before[i]);
        assert FinalOf(before, i) == Final(RunUnbounded(before[..i]), before[i]);
      }
    }
  }

  /** Under a fixed behaviour an overwritten event is never needed again: at every later time, every period
      up to the longest one sums to the same in the kept log as in the full history. */
  lemma KeptEventsSumLikeHistory(calls: seq<Call>, b: Behavior, now: int, period: int)
    requires forall c <- calls :: c.behavior == b && c.now <= now
    ensures b.up.Some? && period <= LongestPeriod(b.up.value.policies) ==>
      WindowSum(Run(calls).logs.ups, Cutoff(now, period)) == WindowSum(Run(calls).history.ups, Cutoff(now, period))
    ensures b.down.Some? && period <= LongestPeriod(b.down.value.policies) ==>
      WindowSum(Run(calls).logs.downs, Cutoff(now, period)) == WindowSum(Run(calls).history.downs, Cutoff(now, period))
  {
    if b.up.Some? && period <= LongestPeriod(b.up.value.policies) {
      UpsRefineHistory(calls, Cutoff(now, period));
    }
    if b.down.Some? && period <= LongestPeriod(b.down.value.policies) {
      DownsRefineHistory(calls, Cutoff(now, period));
    }
  }
}
