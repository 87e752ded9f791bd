/** How much the three logs can grow: reuse of expired slots keeps each within its busiest window. */
module LogSpace {
  import opened IntArithmetic
  import opened ScalingRules
  import opened SlotLogs
  import opened ScaleRuns

  /** The number of times not before `from`. */
  function CountSince(times: seq<int>, from: int): nat {
    if times == [] then 0
    else CountSince(times[..|times| - 1], from) + (if times[|times| - 1] >= from then 1 else 0)
  }

  /** The number of times in the closed window [from, to]. */
  function CountIn(times: seq<int>, from: int, to: int): nat {
    if times == [] then 0
    else CountIn(times[..|times| - 1], from, to) + (if from <= times[|times| - 1] <= to then 1 else 0)
  }

  lemma {:induction false} CountSinceUpdate(times: seq<int>, i: nat, now: int, from: int)
    requires i < |times|
    ensures CountSince(times[i := now], from) + (if times[i] >= from then 1 else 0)
         == CountSince(times, from) + (if now >= from then 1 else 0)
  {
    var last := |times| - 1;
    if i == last {
      assert times[i := now][..last] == times[..last];
    } else {
      assert times[i := now][..last] == times[..last][i := now];
      CountSinceUpdate(times[..last], i, now, from);
    }
  }

  lemma {:induction false} CountSinceAll(times: seq<int>, from: int)
    requires forall k :: 0 <= k < |times| ==> times[k] >= from
    ensures CountSince(times, from) == |times|
  {
    if times != [] {
      CountSinceAll(times[..|times| - 1], from);
    }
  }

  ghost predicate NoneAfter(times: seq<int>, now: int) {
    forall k :: 0 <= k < |times| ==> times[k] <= now
  }

  lemma {:induction false} CountInIsCountSince(times: seq<int>, from: int, to: int)
    requires NoneAfter(times, to)
    ensures CountIn(times, from, to) == CountSince(times, from)
  {
    if times != [] {
      CountInIsCountSince(times[..|times| - 1], from, to);
    }
  }

  /** The kept log needs no more slots than some closed window of `length` has entries. */
  ghost predicate FitsWindow(kept: seq<int>, full: seq<int>, length: int) {
    kept == [] || exists from, to :: to - from == length && |kept| <= CountIn(full, from, to)
  }

  /** However far one looks back, the kept log holds no more entries than the history. */
  ghost predicate NoMoreSince(kept: seq<int>, full: seq<int>) {
    forall from :: CountSince(kept, from) <= CountSince(full, from)
  }

  /** A log and its history, under one retention time, up to time `now`. */
  ghost predicate Tracks(kept: seq<int>, full: seq<int>, length: int, now: int) {
    NoMoreSince(kept, full) && NoneAfter(full, now) && FitsWindow(kept, full, length)
  }

  lemma PutCounts(kept: seq<int>, full: seq<int>, i: int, now: int)
    requires NoMoreSince(kept, full) && -1 <= i < |kept|
    ensures NoMoreSince(PutTime(kept, i, now), full + [now])
  {
    forall from
      ensures CountSince(PutTime(kept, i, now), from) <= CountSince(full + [now], from)
    {
      assert (full + [now])[..|full|] == full;
      if i >= 0 {
        CountSinceUpdate(kept, i, now, from);
      } else {
        assert (kept + [now])[..|kept|] == kept;
      }
    }
  }

  lemma PutFits(kept: seq<int>, full: seq<int>, length: nat, now: int, i: int)
    requires Tracks(kept, full, length, now) && -1 <= i < |kept|
    requires i < 0 ==> forall k :: 0 <= k < |kept| ==> kept[k] >= now - length
    ensures FitsWindow(PutTime(kept, i, now), full + [now], length)
  {
    var after, history := PutTime(kept, i, now), full + [now];
    assert history[..|full|] == full;
    if i < 0 {
      // Nothing had expired, so every kept entry lies in the closed window that ends now.
      CountSinceAll(kept, now - length);
      CountInIsCountSince(full, now - length, now);
      assert |after| <= CountIn(history, now - length, now);
    } else {
      var from, to :| to - from == length && |kept| <= CountIn(full, from, to);
      assert |after| <= CountIn(history, from, to);
    }
  }

  lemma TracksPut(kept: seq<int>, full: seq<int>, length: nat, now: int, i: int)
    requires Tracks(kept, full, length, now) && -1 <= i < |kept|
    requires i < 0 ==> forall k :: 0 <= k < |kept| ==> kept[k] >= now - length
    ensures Tracks(PutTime(kept, i, now), full + [now], length, now)
  {
    PutFits(kept, full, length, now, i);
    PutCounts(kept, full, i, now);
  }

  lemma TracksLater(kept: seq<int>, full: seq<int>, length: int, now: int, later: int)
    requires Tracks(kept, full, length, now) && now <= later
    ensures Tracks(kept, full, length, later)
  {
  }

  lemma TracksPutEvent(kept: seq<Event>, full: seq<Event>, length: nat, now: int, change: int)
    requires Tracks(EventTimes(kept), EventTimes(full), length, now)
    ensures Tracks(
      EventTimes(PutEvent(kept, now - length, change, now)), EventTimes(full + [Event(change, now, false)]),
      length, now)
  {
    hide Tracks;
    PutEventTimes(kept, now - length, change, now);
    assert EventTimes(full + [Event(change, now, false)]) == EventTimes(full) + [now];
    TracksPut(EventTimes(kept), EventTimes(full), length, now, LastOutdated(Marked(kept, now - length)));
  }

  lemma TracksPutRecord(kept: seq<Record>, full: seq<Record>, length: nat, r: Record)
    requires Tracks(RecordTimes(kept), RecordTimes(full), length, r.time)
    ensures Tracks(RecordTimes(PutRecord(kept, r.time - length, r)), RecordTimes(full + [r]), length, r.time)
  {
    hide Tracks;
    PutRecordTimes(kept, r.time - length, r);
    assert RecordTimes(full + [r]) == RecordTimes(full) + [r.time];
    TracksPut(RecordTimes(kept), RecordTimes(full), length, r.time, LastStale(kept, r.time - length));
  }

  /** How long each log retains its entries, in seconds: the longer stabilisation window, and the longest policy
      periods.  They are the same for every call. */
  datatype Retention = Retention(records: nat, ups: nat, downs: nat)

  ghost predicate Retains(c: Call, keep: Retention) {
    && (c.behavior.Complete() ==> Max(c.behavior.up.value.window, c.behavior.down.value.window) == keep.records)
    && (c.behavior.up.Some? ==> LongestPeriod(c.behavior.up.value.policies) == keep.ups)
    && (c.behavior.down.Some? ==> LongestPeriod(c.behavior.down.value.policies) == keep.downs)
  }

  ghost predicate AllTrack(kept: Logs, full: Logs, keep: Retention, now: int) {
    && Tracks(RecordTimes(kept.records), RecordTimes(full.records), keep.records * SECOND, now)
    && Tracks(EventTimes(kept.ups), EventTimes(full.ups), keep.ups * SECOND, now)
    && Tracks(EventTimes(kept.downs), EventTimes(full.downs), keep.downs * SECOND, now)
  }

  lemma NextTracks(l: Logs, h: Logs, c: Call, keep: Retention)
    requires Retains(c, keep) && AllTrack(l, h, keep, c.now)
    ensures AllTrack(NextLogs(l, c), NextHistory(h, c, Recommended(l, c), Final(l, c)), keep, c.now)
  {
    hide Tracks, PutEvent, PutRecord, Final, Recommended;
    var recommended, final := Recommended(l, c), Final(l, c);
    if c.behavior.Complete() {
      TracksPutRecord(l.records, h.records, keep.records * SECOND, Record(recommended, c.now));
    }
    if StoresUp(c, final) {
      TracksPutEvent(l.ups, h.ups, keep.ups * SECOND, c.now, final - c.current);
    }
    if StoresDown(c, final) {
      TracksPutEvent(l.downs, h.downs, keep.downs * SECOND, c.now, c.current - final);
    }
  }

  lemma AllTrackLater(kept: Logs, full: Logs, keep: Retention, now: int, later: int)
    requires AllTrack(kept, full, keep, now) && now <= later
    ensures AllTrack(kept, full, keep, later)
  {
    hide Tracks;
    TracksLater(RecordTimes(kept.records), RecordTimes(full.records), keep.records * SECOND, now, later);
    TracksLater(EventTimes(kept.ups), EventTimes(full.ups), keep.ups * SECOND, now, later);
    TracksLater(EventTimes(kept.downs), EventTimes(full.downs), keep.downs * SECOND, now, later);
  }

  lemma NothingTracks(keep: Retention, now: int)
    ensures AllTrack(EMPTY, EMPTY, keep, now)
  {
  }

  lemma LastCallIsLatest(calls: seq<Call>)
    requires TimesNeverFall(calls) && calls != []
    ensures forall c <- calls :: c.now <= calls[|calls| - 1].now
  {
  }

  lemma {:induction false} RunTracks(calls: seq<Call>, keep: Retention, now: int)
    requires TimesNeverFall(calls) && (forall c <- calls :: c.now <= now && Retains(c, keep))
    ensures AllTrack(Run(calls).logs, Run(calls).history, keep, now)
  {
    hide AllTrack, Final, Recommended, NextLogs, NextHistory, Retains;
    if calls == [] {
      NothingTracks(keep, now);
    } else {
      var before, c := calls[..|calls| - 1], calls[|calls| - 1];
      assert c in calls;
      LastCallIsLatest(calls);
      RunTracks(before, keep, c.now);
      NextTracks(Run(before).logs, Run(before).history, c, keep);
      AllTrackLater(Run(calls).logs, Run(calls).history, keep, c.now, now);
    }
  }

  /** The logs are never longer than the busiest closed window of their retention time. */
  lemma LogsFitWindow(calls: seq<Call>, keep: Retention)
    requires TimesNeverFall(calls) && forall c <- calls :: Retains(c, keep)
    ensures var kept, full := Run(calls).logs, Run(calls).history;
      && FitsWindow(RecordTimes(kept.records), RecordTimes(full.records), keep.records * SECOND)
      && FitsWindow(EventTimes(kept.ups), EventTimes(full.ups), keep.ups * SECOND)
      && FitsWindow(EventTimes(kept.downs), EventTimes(full.downs), keep.downs * SECOND)
  {
    hide FitsWindow;
    if calls != [] {
      LastCallIsLatest(calls);
      RunTracks(calls, keep, calls[|calls| - 1].now);
    } else {
      RunTracks(calls, keep, 0);
    }
  }

  // ---------- Entries that come at a distance ----------

  ghost predicate SpacedBy(times: seq<int>, gap: int) {
    forall k :: 0 <= k < |times| - 1 ==> times[k] + gap <= times[k + 1]
  }

  lemma {:induction false} SpacedTimesAreFew(times: seq<int>, gap: int, from: int, to: int)
    requires gap > 0 && SpacedBy(times, gap)
    ensures CountIn(times, from, to) > 0 ==> (CountIn(times, from, to) - 1) * gap <= to - from
  {
    if times != [] {
      var before, last := times[..|times| - 1], times[|times| - 1];
      SpacedTimesAreFew(before, gap, from, to);
      if from <= last <= to && CountIn(before, from, to) > 0 {
        var end := last - gap;
        SpacedTimesEndEarly(before, gap, end);
        CountInIsCountSince(before, from, to);
        CountInIsCountSince(before, from, end);
        SpacedTimesAreFew(before, gap, from, end);
        MulNext(CountIn(before, from, end) - 1, gap);
      }
    }
  }

  lemma {:induction false} SpacedTimesEndEarly(times: seq<int>, gap: int, end: int)
    requires gap > 0 && SpacedBy(times, gap)
    requires times != [] ==> times[|times| - 1] <= end
    ensures NoneAfter(times, end)
  {
    if times != [] {
      SpacedTimesEndEarly(times[..|times| - 1], gap, end);
    }
  }

  lemma GapsFit(n: int, gap: int, length: int)
    requires gap > 0 && n * gap <= length
    ensures n <= length / gap
  {
    MulNext(length / gap, gap);
    MulCancel(n, length / gap + 1, gap);
  }

  lemma SpacedFit(kept: seq<int>, full: seq<int>, length: nat, gap: int)
    requires gap > 0 && FitsWindow(kept, full, length)
    ensures SpacedBy(full, gap) ==> |kept| <= length / gap + 1
  {
    if kept != [] && SpacedBy(full, gap) {
      var from, to :| to - from == length && |kept| <= CountIn(full, from, to);
      SpacedTimesAreFew(full, gap, from, to);
      GapsFit(CountIn(full, from, to) - 1, gap, length);
    }
  }

  /** With entries at least `gap` apart a log needs at most one slot more than the gaps that fit its retention time. */
  lemma SpacedLogsAreShort(calls: seq<Call>, keep: Retention, gap: int)
    requires TimesNeverFall(calls) && (forall c <- calls :: Retains(c, keep)) && gap > 0
    ensures var kept, full := Run(calls).logs, Run(calls).history;
      && (SpacedBy(RecordTimes(full.records), gap) ==> |kept.records| <= keep.records * SECOND / gap + 1)
      && (SpacedBy(EventTimes(full.ups), gap) ==> |kept.ups| <= keep.ups * SECOND / gap + 1)
      && (SpacedBy(EventTimes(full.downs), gap) ==> |kept.downs| <= keep.downs * SECOND / gap + 1)
  {
    hide FitsWindow, SpacedBy, Run;
    var kept, full := Run(calls).logs, Run(calls).history;
    LogsFitWindow(calls, keep);
    SpacedFit(RecordTimes(kept.records), RecordTimes(full.records), keep.records * SECOND, gap);
    SpacedFit(EventTimes(kept.ups), EventTimes(full.ups), keep.ups * SECOND, gap);
    SpacedFit(EventTimes(kept.downs), EventTimes(full.downs), keep.downs * SECOND, gap);
  }
}
