/** The scaling results kept in the status of a Houmao: the current one and the five before it. */
module StatusHistory {

  datatype ScaleResult = ScaleResult(time: int, currentReplicas: int, desiredReplicas: int, metricIndex: int)

  datatype History = History(originReplicas: int, current: ScaleResult, last5: seq<ScaleResult>)

  /** One status update: its result, the count found before scaling, and the API's answer. */
  datatype Update = Update(result: ScaleResult, found: int, accepted: bool)

  function Next(h: History, u: Update): History
    requires |h.last5| == 5
  {
    if u.accepted then
      History(
        if u.found != 0 && h.originReplicas == 0 then u.found else h.originReplicas,
        u.result,
        h.last5[1..] + [h.current])
    else h
  }

  function AfterUpdates(h: History, updates: seq<Update>): (after: History)
    requires |h.last5| == 5
    ensures |after.last5| == 5
  {
    if updates == [] then h
    else Next(AfterUpdates(h, updates[..|updates| - 1]), updates[|updates| - 1])
  }

  /** Everything that was ever current, oldest first, after the five results that the history began with. */
  function Results(h: History, updates: seq<Update>): seq<ScaleResult> {
    if updates == [] then h.last5 + [h.current]
    else
      Results(h, updates[..|updates| - 1])
      + (if updates[|updates| - 1].accepted then [updates[|updates| - 1].result] else [])
  }

  /** The current result is the last accepted one, and the five kept are the five before it, oldest first. */
  lemma {:induction false} KeepsTheFiveBefore(h: History, updates: seq<Update>)
    requires |h.last5| == 5
    ensures var all := Results(h, updates);
      && |all| >= 6
      && AfterUpdates(h, updates).current == all[|all| - 1]
      && AfterUpdates(h, updates).last5 == all[|all| - 6..|all| - 1]
  {
    if updates != [] {
      KeepsTheFiveBefore(h, updates[..|updates| - 1]);
    }
  }

  /** The first accepted non-zero count found. */
  function FirstFound(updates: seq<Update>): int {
    if updates == [] then 0
    else if updates[0].accepted && updates[0].found != 0 then updates[0].found
    else FirstFound(updates[1..])
  }

  lemma AfterConcat(h: History, a: seq<Update>, b: seq<Update>)
    requires |h.last5| == 5
    ensures AfterUpdates(h, a + b) == AfterUpdates(AfterUpdates(h, a), b)
    decreases |b|
  {
    if b == [] {
      assert a + b == a;
    } else {
      assert (a + b)[..|a + b| - 1] == a + b[..|b| - 1];
      AfterConcat(h, a, b[..|b| - 1]);
    }
  }

  /** The original count is the first non-zero one that an accepted update found, and from then on never changes. */
  lemma {:induction false} OriginIsFirstFound(h: History, updates: seq<Update>)
    requires |h.last5| == 5
    ensures AfterUpdates(h, updates).originReplicas
         == if h.originReplicas != 0 then h.originReplicas else FirstFound(updates)
    decreases |updates|
  {
    if updates != [] {
      assert updates == [updates[0]] + updates[1..];
      AfterConcat(h, [updates[0]], updates[1..]);
      assert [updates[0]][..0] == [];
      OriginIsFirstFound(AfterUpdates(h, [updates[0]]), updates[1..]);
    }
  }

  /** Moves every entry one place to the front and puts `newest` last. */
  method ShiftIn(a: array<ScaleResult>, newest: ScaleResult)
    requires a.Length > 0
    modifies a
    ensures a[..] == old(a[..])[1..] + [newest]
  {
    for i := 0 to a.Length - 1
      invariant forall k :: 0 <= k < i ==> a[k] == old(a[k + 1])
      invariant forall k :: i <= k < a.Length ==> a[k] == old(a[k])
    {
      a[i] := a[i + 1];
    }
    a[a.Length - 1] := newest;
  }

  class StatusRecord {
    var originReplicas: int
    var current: ScaleResult
    var last5: array<ScaleResult>

    ghost predicate Valid()
      reads this
    {
      last5.Length == 5
    }

    ghost function Contents(): History
      reads this, last5
      requires Valid()
    {
      History(originReplicas, current, last5[..])
    }

    /** Works on a copy of the record, and keeps it only when the API accepts it. */
    method UpdateStatus(result: ScaleResult, found: int, accepted: bool)
      requires Valid()
      modifies this
      ensures Valid() && Contents() == Next(old(Contents()), Update(result, found, accepted))
    {
      var copy := new ScaleResult[5](i requires 0 <= i < 5 reads this, last5 requires last5.Length == 5 => last5[i]);
      assert copy[..] == last5[..];
      ShiftIn(copy, current);
      var origin := if found != 0 && originReplicas == 0 then found else originReplicas;
      if accepted {
        originReplicas, current, last5 := origin, result, copy;
      }
    }
  }
}
