/** The full history of a run read call by call: what each call recommended, and how many replicas it moved. */
module CallHistory {
  import opened SlotLogs
  import opened ScaleRuns
  import opened ControlledRuns

  lemma {:induction false} HistoryHoldsRecommendations(calls: seq<Call>, r: Record)
    ensures r in Run(calls).history.records <==>
      exists i :: 0 <= i < |calls| && calls[i].behavior.Complete()
        && r == Record(RecommendationOf(calls, i), calls[i].now)
  {
    hide Final, Recommended, NextLogs, StoresUp, StoresDown;
    if calls != [] {
      var before, last := calls[..|calls| - 1], |calls| - 1;
      HistoryHoldsRecommendations(before, r);
      forall i | 0 <= i < last
        ensures RecommendationOf(calls, i) == RecommendationOf(before, i)
      {
        assert calls[..i] == before[..i];
      }
      assert RecommendationOf(calls, last) == Recommended(Run(before).logs, calls[last]);
      if r in Run(before).history.records {
        var i :| 0 <= i < |before| && before[i].behavior.Complete()
          && r == Record(RecommendationOf(before, i), before[i].now);
        assert r == Record(RecommendationOf(calls, i), calls[i].now);
      }
    }
  }

  /** Call `i` was accepted and has rules for the direction that it took; a call that changes nothing counts as a
      scale-down. */
  ghost predicate Recorded(calls: seq<Call>, i: nat, up: bool)
    requires i < |calls|
  {
    var c := calls[i];
    && c.updated
    && (if up then FinalOf(calls, i) > c.current && c.behavior.up.Some?
        else FinalOf(calls, i) <= c.current && c.behavior.down.Some?)
  }

  /** The replicas that call `i` moved in one direction, as far as they were recorded. */
  ghost function Moved(calls: seq<Call>, i: nat, up: bool): int
    requires i < |calls|
  {
    if !Recorded(calls, i, up) then 0
    else if up then FinalOf(calls, i) - calls[i].current else calls[i].current - FinalOf(calls, i)
  }

  ghost function EventsOf(h: Logs, up: bool): seq<Event> {
    if up then h.ups else h.downs
  }

  /** The replicas that the first `n` calls moved after time `from`. */
  ghost function MovedSince(calls: seq<Call>, n: nat, up: bool, from: int): int
    requires n <= |calls|
  {
    if n == 0 then 0
    else MovedSince(calls, n - 1, up, from) + (if calls[n - 1].now > from then Moved(calls, n - 1, up) else 0)
  }

  /** The replicas that all calls moved in the half-open stretch (from, to]. */
  ghost function MovedIn(calls: seq<Call>, n: nat, up: bool, from: int, to: int): int
    requires n <= |calls|
  {
    if n == 0 then 0
    else
      MovedIn(calls, n - 1, up, from, to) + (if from < calls[n - 1].now <= to then Moved(calls, n - 1, up) else 0)
  }

  /** The replicas changed by events in (from, to]. */
  function ChangedIn(events: seq<Event>, from: int, to: int): int {
    if events == [] then 0
    else
      var last := events[|events| - 1];
      ChangedIn(events[..|events| - 1], from, to) + (if from < last.time <= to then last.change else 0)
  }

  lemma ChangedInAppend(events: seq<Event>, e: Event, from: int, to: int)
    ensures ChangedIn(events + [e], from, to)
         == ChangedIn(events, from, to) + (if from < e.time <= to then e.change else 0)
  {
    assert (events + [e])[..|events|] == events;
  }

  lemma NextEvents(calls: seq<Call>, i: nat, up: bool)
    requires i < |calls|
    ensures var before, after := EventsOf(Run(calls[..i]).history, up), EventsOf(Run(calls[..i + 1]).history, up);
      after == if Recorded(calls, i, up) then before + [Event(Moved(calls, i, up), calls[i].now, false)] else before
  {
    hide Final, Recommended, NextLogs;
    RunStep(calls, i);
  }

  lemma NoEventsYet(calls: seq<Call>, up: bool)
    ensures EventsOf(Run(calls[..0]).history, up) == []
  {
    assert calls[..0] == [];
  }

  /** The events of the first `n` calls are their recorded changes, each under the time of its call. */
  lemma {:induction false} HistoryHoldsChanges(calls: seq<Call>, n: nat, up: bool, e: Event)
    requires n <= |calls|
    ensures e in EventsOf(Run(calls[..n]).history, up) <==>
      exists i :: 0 <= i < n && Recorded(calls, i, up) && e == Event(Moved(calls, i, up), calls[i].now, false)
  {
    hide Run, Recorded, EventsOf;
    if n == 0 {
      NoEventsYet(calls, up);
    } else {
      HistoryHoldsChanges(calls, n - 1, up, e);
      NextEvents(calls, n - 1, up);
    }
  }

  /** The sums that a policy looks at are sums over calls. */
  lemma {:induction false} WindowSumIsMoved(calls: seq<Call>, n: nat, up: bool, from: int)
    requires n <= |calls|
    ensures WindowSum(EventsOf(Run(calls[..n]).history, up), from) == MovedSince(calls, n, up, from)
  {
    hide Run, Recorded, EventsOf;
    if n == 0 {
      NoEventsYet(calls, up);
    } else {
      WindowSumIsMoved(calls, n - 1, up, from);
      NextEvents(calls, n - 1, up);
      WindowSumAppend(
        EventsOf(Run(calls[..n - 1]).history, up), Event(Moved(calls, n - 1, up), calls[n - 1].now, false), from);
    }
  }

  lemma {:induction false} ChangedInIsMoved(calls: seq<Call>, n: nat, up: bool, from: int, to: int)
    requires n <= |calls|
    ensures ChangedIn(EventsOf(Run(calls[..n]).history, up), from, to) == MovedIn(calls, n, up, from, to)
  {
    hide Run, Recorded, EventsOf;
    if n == 0 {
      NoEventsYet(calls, up);
    } else {
      ChangedInIsMoved(calls, n - 1, up, from, to);
      NextEvents(calls, n - 1, up);
      ChangedInAppend(
        EventsOf(Run(calls[..n - 1]).history, up), Event(Moved(calls, n - 1, up), calls[n - 1].now, false), from, to);
    }
  }
}
