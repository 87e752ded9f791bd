/**
 * The two logs of the scaler.  A new entry takes the place of the last expired entry, and is
 * appended only when no entry has expired, so entries are lost and are not kept in time order.
 */
module SlotLogs {

  datatype Record = Record(desired: int, time: int)

  datatype Event = Event(change: int, time: int, outdated: bool)

  // ---------- Recommendation records ----------

  /** The index of the last record older than `horizon`, or -1. */
  function LastStale(records: seq<Record>, horizon: int): (i: int)
    ensures -1 <= i < |records|
    ensures i >= 0 ==> records[i].time < horizon
    ensures forall k :: i < k < |records| ==> records[k].time >= horizon
  {
    if records == [] then -1
    else if records[|records| - 1].time < horizon then |records| - 1
    else LastStale(records[..|records| - 1], horizon)
  }

  /** The log after `r` is recorded. */
  function PutRecord(records: seq<Record>, horizon: int, r: Record): seq<Record> {
    var i := LastStale(records, horizon);
    if i >= 0 then records[i := r] else records + [r]
  }

  /** Reusing a slot loses only records older than the horizon. */
  lemma PutRecordKeepsRecent(records: seq<Record>, horizon: int, r: Record, x: Record)
    requires x.time >= horizon
    ensures x in PutRecord(records, horizon, r) <==> x in records || x == r
  {
    var i := LastStale(records, horizon);
    if i >= 0 {
      var after := records[i := r];
      if x in records {
        var k :| 0 <= k < |records| && records[k] == x;
        assert after[k] == x;
      }
      assert after[i] == r;
      if x in after {
        var k :| 0 <= k < |after| && after[k] == x;
      }
    }
  }

  /** Nothing but `r` enters the log. */
  lemma PutRecordSources(records: seq<Record>, horizon: int, r: Record, x: Record)
    requires x in PutRecord(records, horizon, r)
    ensures x in records || x == r
  {
    var after := PutRecord(records, horizon, r);
    var k :| 0 <= k < |after| && after[k] == x;
  }

  // ---------- Scale events ----------

  /** The replicas changed by the events after `cutoff`. */
  function WindowSum(events: seq<Event>, cutoff: int): int {
    if events == [] then 0
    else
      var last := events[|events| - 1];
      WindowSum(events[..|events| - 1], cutoff) + (if last.time > cutoff then last.change else 0)
  }

  /** Every event older than `horizon` is flagged; flags are never taken back. */
  function Marked(events: seq<Event>, horizon: int): (marked: seq<Event>)
    ensures |marked| == |events|
    ensures forall k :: 0 <= k < |events| ==>
      marked[k] == events[k].(outdated := events[k].outdated || events[k].time < horizon)
  {
    seq(|events|, k requires 0 <= k < |events| =>
      events[k].(outdated := events[k].outdated || events[k].time < horizon))
  }

  /** The index of the last flagged event, or -1. */
  function LastOutdated(events: seq<Event>): (i: int)
    ensures -1 <= i < |events|
    ensures i >= 0 ==> events[i].outdated
    ensures forall k :: i < k < |events| ==> !events[k].outdated
  {
    if events == [] then -1
    else if events[|events| - 1].outdated then |events| - 1
    else LastOutdated(events[..|events| - 1])
  }

  /** The log after an event is stored. */
  function PutEvent(events: seq<Event>, horizon: int, change: int, now: int): seq<Event> {
    var marked := Marked(events, horizon);
    var i := LastOutdated(marked);
    var e := Event(change, now, false);
    if i >= 0 then marked[i := e] else marked + [e]
  }

  function Weight(e: Event, cutoff: int): int {
    if e.time > cutoff then e.change else 0
  }

  lemma WindowSumAppend(events: seq<Event>, e: Event, cutoff: int)
    ensures WindowSum(events + [e], cutoff) == WindowSum(events, cutoff) + Weight(e, cutoff)
  {
    assert (events + [e])[..|events|] == events;
  }

  lemma {:induction false} WindowSumUpdate(events: seq<Event>, i: nat, e: Event, cutoff: int)
    requires i < |events|
    ensures WindowSum(events[i := e], cutoff)
         == WindowSum(events, cutoff) - Weight(events[i], cutoff) + Weight(e, cutoff)
  {
    var last := |events| - 1;
    if i == last {
      assert events[i := e][..last] == events[..last];
    } else {
      assert events[i := e][..last] == events[..last][i := e];
      WindowSumUpdate(events[..last], i, e, cutoff);
    }
  }

  lemma {:induction false} WindowSumMarked(events: seq<Event>, horizon: int, cutoff: int)
    ensures WindowSum(Marked(events, horizon), cutoff) == WindowSum(events, cutoff)
  {
    if events != [] {
      var last := |events| - 1;
      assert Marked(events, horizon)[..last] == Marked(events[..last], horizon);
      WindowSumMarked(events[..last], horizon, cutoff);
    }
  }

  /** Every flag in the log is on an event older than `h`. */
  ghost predicate FlagsBelow(events: seq<Event>, h: int) {
    forall k :: 0 <= k < |events| && events[k].outdated ==> events[k].time < h
  }

  /** The kept log has every window sum of the full one, for windows starting at or after `h`. */
  ghost predicate AgreeFrom(kept: seq<Event>, full: seq<Event>, h: int) {
    && FlagsBelow(kept, h)
    && (forall cut :: h <= cut ==> WindowSum(kept, cut) == WindowSum(full, cut))
  }

  /** Reusing a slot costs no window that starts at or after the horizon. */
  lemma PutEventAgrees(kept: seq<Event>, full: seq<Event>, horizon: int, change: int, now: int, h: int)
    requires AgreeFrom(kept, full, h) && horizon <= h
    ensures AgreeFrom(PutEvent(kept, horizon, change, now), full + [Event(change, now, false)], h)
  {
    var marked := Marked(kept, horizon);
    var i := LastOutdated(marked);
    var e := Event(change, now, false);
    forall cut | h <= cut
      ensures WindowSum(PutEvent(kept, horizon, change, now), cut) == WindowSum(full + [e], cut)
    {
      WindowSumMarked(kept, horizon, cut);
      WindowSumAppend(full, e, cut);
      if i >= 0 {
        WindowSumUpdate(marked, i, e, cut);
      } else {
        WindowSumAppend(marked, e, cut);
      }
    }
  }

  // ---------- What both logs do to the times they hold ----------

  function EventTimes(events: seq<Event>): seq<int> {
    seq(|events|, k requires 0 <= k < |events| => events[k].time)
  }

  function RecordTimes(records: seq<Record>): seq<int> {
    seq(|records|, k requires 0 <= k < |records| => records[k].time)
  }

  /** `now` takes the place of entry `i`, or comes last when there is none. */
  function PutTime(times: seq<int>, i: int, now: int): seq<int>
    requires -1 <= i < |times|
  {
    if i >= 0 then times[i := now] else times + [now]
  }

  /** A new slot is taken only when every entry is younger than the horizon. */
  lemma PutEventTimes(events: seq<Event>, horizon: int, change: int, now: int)
    ensures var i := LastOutdated(Marked(events, horizon));
      && EventTimes(PutEvent(events, horizon, change, now)) == PutTime(EventTimes(events), i, now)
      && (i < 0 ==> forall k :: 0 <= k < |events| ==> EventTimes(events)[k] >= horizon)
  {
  }

  lemma PutRecordTimes(records: seq<Record>, horizon: int, r: Record)
    ensures var i := LastStale(records, horizon);
      && RecordTimes(PutRecord(records, horizon, r)) == PutTime(RecordTimes(records), i, r.time)
      && (i < 0 ==> forall k :: 0 <= k < |records| ==> RecordTimes(records)[k] >= horizon)
  {
  }
}
