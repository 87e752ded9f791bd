/** Whole rounds of the scaler: elect a count, revise and send it, record the result. */
module ScalingRounds {
  import opened Options
  import opened ScalingRules
  import opened MetricElection
  import opened ScaleRuns
  import opened ControlledRuns
  import opened RunGuarantees
  import opened ScalerState
  import opened StatusHistory

  /** What one round finds: the replicas asked for (`spec`) and running (`running`), the metrics' proposals, and how
      the API will answer the update of the scale and the status patch. */
  datatype Round = Round(
    behavior: Behavior, lo: int32, hi: int32, spec: int32, running: int32, outcomes: seq<MetricOutcome>,
    now: int, accepted: bool, patched: bool)

  /** The count that a round wants. */
  function Wanted(r: Round): (w: int32)
  {
    var peak := Peak(r.outcomes, r.running);
    Clamp(peak, r.lo, r.hi)
  }

  /** The scaling call that a round makes, if any. */
  function CallOf(r: Round): Option<Call> {
    if Unsupported in r.outcomes || Wanted(r) == r.spec then None
    else Some(Call(r.behavior, Wanted(r), r.spec, r.now, r.accepted))
  }

  function CallsOf(rounds: seq<Round>): seq<Call> {
    if rounds == [] then []
    else
      var last := rounds[|rounds| - 1];
      CallsOf(rounds[..|rounds| - 1]) + (if CallOf(last).Some? then [CallOf(last).value] else [])
  }

  /** One round.  A failed update is recorded in the status too, as a wish for no replicas. */
  method DetectAndScale(r: Round, logs: ScalerLogs, status: StatusRecord)
    requires logs.Valid() && status.Valid()
    modifies logs, status
    ensures logs.Valid() && status.Valid()
    ensures logs.calls == old(logs.calls) + (if CallOf(r).Some? then [CallOf(r).value] else [])
    ensures status.Contents() ==
      if CallOf(r).None? then old(status.Contents())
      else
        var peak := Peak(r.outcomes, r.running);
        var index := if peak > r.running then FirstWanting(r.outcomes, peak) else 0;
        var sent := FinalOf(logs.calls, |old(logs.calls)|);
        if r.accepted && (if sent > r.spec then r.behavior.up.None? else r.behavior.down.None?)
        then old(status.Contents())
        else
          var reported := if r.accepted then sent else 0;
          Next(old(status.Contents()), Update(ScaleResult(r.now, r.spec, reported, index), r.spec, r.patched))
  {
    var election := Elect(r.outcomes, r.running, r.lo, r.hi);
    if election.NotSupported? {
      return;
    }
    if election.replicas == r.spec {
      return;
    }
    assert election.replicas == Wanted(r);
    var outcome := logs.ExecScale(election.replicas, r.spec, r.behavior, r.now, r.accepted);
    match outcome {
      case Scaled(n) =>
        status.UpdateStatus(ScaleResult(r.now, r.spec, n, election.index), r.spec, r.patched);
      case UpdateFailed =>
        status.UpdateStatus(ScaleResult(r.now, r.spec, 0, election.index), r.spec, r.patched);
      case Crashed =>
    }
  }

  /** The count in force after a round, when the rounds before it were `before`. */
  function SpecAfter(before: seq<Round>, r: Round): int {
    match CallOf(r)
    case None => r.spec
    case Some(c) => if c.updated then Final(Run(CallsOf(before)).logs, c) else r.spec
  }

  // ---------- What one round does to the count ----------

  /** Without a complete behaviour the elected count is sent as it is: the greatest of the running count and the
      metrics' proposals, within the bounds. */
  lemma UnruledRoundSendsElected(before: seq<Round>, r: Round)
    requires !r.behavior.Complete() && r.accepted && Unsupported !in r.outcomes
    ensures SpecAfter(before, r) == Clamp(Peak(r.outcomes, r.running), r.lo, r.hi)
  {
  }

  /** A round that finds an unsupported metric, or elects the count that is asked for already, does nothing at all: no
      call is made and nothing goes on record, so no stabilisation can turn it into a change. */
  lemma SettledRoundDoesNothing(before: seq<Round>, r: Round)
    requires Unsupported in r.outcomes || Clamp(Peak(r.outcomes, r.running), r.lo, r.hi) == r.spec
    ensures SpecAfter(before, r) == r.spec && CallsOf(before + [r]) == CallsOf(before)
  {
    assert (before + [r])[..|before|] == before;
  }

  /** Every other round makes one call, which wants the elected count. */
  lemma OtherRoundsCall(before: seq<Round>, r: Round)
    requires Unsupported !in r.outcomes && Clamp(Peak(r.outcomes, r.running), r.lo, r.hi) != r.spec
    ensures var calls, n := CallsOf(before + [r]), |CallsOf(before)|;
      && calls[..n] == CallsOf(before) && |calls| == n + 1
      && calls[n].desired == Clamp(Peak(r.outcomes, r.running), r.lo, r.hi) && calls[n].current == r.spec
      && SpecAfter(before, r) == if r.accepted then FinalOf(calls, n) else r.spec
  {
    assert (before + [r])[..|before|] == before;
  }

  /** Only this scaler writes the count. */
  ghost predicate SoleWriter(rounds: seq<Round>) {
    SoleWriterFrom(rounds, 0)
  }

  ghost predicate SoleWriterFrom(rounds: seq<Round>, k: nat) {
    forall i :: k <= i < |rounds| - 1 ==> rounds[i + 1].spec == SpecAfter(rounds[..i], rounds[i])
  }

  /** The count before the next round. */
  function SpecNow(rounds: seq<Round>): int
    requires rounds != []
  {
    SpecAfter(rounds[..|rounds| - 1], rounds[|rounds| - 1])
  }

  lemma SoleWriterPrefix(rounds: seq<Round>, k: nat)
    requires SoleWriterFrom(rounds, k) && k < |rounds| - 1
    ensures SoleWriterFrom(rounds[..|rounds| - 1], k)
    ensures rounds[|rounds| - 1].spec == SpecNow(rounds[..|rounds| - 1])
  {
    var before := rounds[..|rounds| - 1];
    assert forall i :: 0 <= i < |before| ==> before[..i] == rounds[..i];
    var i := |rounds| - 2;
    assert rounds[i + 1].spec == SpecAfter(rounds[..i], rounds[i]);
    assert before[..|before| - 1] == rounds[..i];
  }

  lemma ControlledAppend(calls: seq<Call>, c: Call)
    requires Controlled(calls) && (calls != [] ==> c.current == After(calls, |calls| - 1))
    ensures Controlled(calls + [c])
    ensures After(calls + [c], |calls|) == if c.updated then Final(Run(calls).logs, c) else c.current
  {
    hide Final, Run;
    var after := calls + [c];
    assert after[..|calls|] == calls;
    forall i | 0 <= i < |after| - 1
      ensures after[i + 1].current == After(after, i)
    {
      AfterPrefix(calls, c, i);
    }
  }

  lemma AfterPrefix(calls: seq<Call>, c: Call, i: nat)
    requires i < |calls|
    ensures After(calls + [c], i) == After(calls, i)
  {
    assert (calls + [c])[..|calls|] == calls;
    PrefixDecides(calls + [c], |calls|, i);
  }

  /** A round that finds the count of the last call continues a controlled run. */
  lemma RoundExtendsRun(before: seq<Round>, r: Round)
    requires Controlled(CallsOf(before))
    requires CallsOf(before) != [] ==> r.spec == After(CallsOf(before), |CallsOf(before)| - 1)
    ensures var calls := CallsOf(before + [r]);
      && Controlled(calls)
      && (if CallOf(r).None? then calls == CallsOf(before) && SpecAfter(before, r) == r.spec
          else calls == CallsOf(before) + [CallOf(r).value] && SpecAfter(before, r) == After(calls, |calls| - 1))
  {
    hide Final, Run, Wanted, Controlled, After;
    assert (before + [r])[..|before|] == before;
    if CallOf(r).Some? {
      ControlledAppend(CallsOf(before), CallOf(r).value);
    } else {
      assert CallsOf(before + [r]) == CallsOf(before);
    }
  }

  lemma NoRoundsNoCalls()
    ensures CallsOf([]) == [] && Controlled([])
  {
  }

  /** The calls of such rounds form a controlled run that starts from the first count. */
  lemma {:induction false} RoundsAreControlled(rounds: seq<Round>)
    requires SoleWriter(rounds) && rounds != []
    ensures var calls := CallsOf(rounds);
      && Controlled(calls)
      && (calls == [] ==> SpecNow(rounds) == rounds[0].spec)
      && (calls != [] ==> calls[0].current == rounds[0].spec && SpecNow(rounds) == After(calls, |calls| - 1))
  {
    hide CallsOf, SpecAfter, Controlled, After;
    var before, r := rounds[..|rounds| - 1], rounds[|rounds| - 1];
    assert before + [r] == rounds;
    if before != [] {
      SoleWriterPrefix(rounds, 0);
      RoundsAreControlled(before);
    } else {
      NoRoundsNoCalls();
    }
    RoundExtendsRun(before, r);
  }

  lemma RoundInRange(before: seq<Round>, r: Round, lo: int32, hi: int32)
    requires r.lo == lo && r.hi == hi && lo <= hi && lo <= r.spec <= hi
    requires RecordsIn(Run(CallsOf(before)).logs.records, lo, hi)
    ensures lo <= SpecAfter(before, r) <= hi && RecordsIn(Run(CallsOf(before + [r])).logs.records, lo, hi)
  {
    assert (before + [r])[..|before|] == before;
    if CallOf(r).Some? {
      var c := CallOf(r).value;
      NextInRange(Run(CallsOf(before)).logs, c, lo, hi);
      assert (CallsOf(before) + [c])[..|CallsOf(before)|] == CallsOf(before);
    } else {
      assert CallsOf(before + [r]) == CallsOf(before);
    }
  }

  /** Range safety of the whole scaler: from any round `k` on, while the bounds are lo <= hi and nobody else writes the
      count, the count stays in [lo, hi] if it and all recommendations on record are there, whatever bounds came
      before. */
  lemma {:induction false} RoundsComeToStayInRange(rounds: seq<Round>, k: nat, lo: int32, hi: int32)
    requires SoleWriterFrom(rounds, k) && k < |rounds| && lo <= hi
    requires forall j :: k <= j < |rounds| ==> rounds[j].lo == lo && rounds[j].hi == hi
    requires RecordsIn(Run(CallsOf(rounds[..k])).logs.records, lo, hi) && lo <= rounds[k].spec <= hi
    ensures lo <= SpecNow(rounds) <= hi && RecordsIn(Run(CallsOf(rounds)).logs.records, lo, hi)
  {
    hide Run, SpecAfter, RecordsIn, CallsOf;
    var before, r := rounds[..|rounds| - 1], rounds[|rounds| - 1];
    if k < |before| {
      SoleWriterPrefix(rounds, k);
      assert before[..k] == rounds[..k];
      RoundsComeToStayInRange(before, k, lo, hi);
    }
    RoundInRange(before, r, lo, hi);
    assert before + [r] == rounds;
  }

  /** With fixed bounds lo <= hi the count never leaves [lo, hi] once inside, at whatever round it gets there. */
  lemma RoundsStayInRange(rounds: seq<Round>, k: nat, lo: int32, hi: int32)
    requires SoleWriterFrom(rounds, k) && k < |rounds| && lo <= hi
    requires forall r <- rounds :: r.lo == lo && r.hi == hi
    requires lo <= rounds[k].spec <= hi
    ensures lo <= SpecNow(rounds) <= hi
  {
    CallsComeFromRounds(rounds[..k]);
    forall c <- CallsOf(rounds[..k])
      ensures lo <= c.desired <= hi
    {
      var r :| r in rounds[..k] && CallOf(r) == Some(c);
      assert r in rounds;
    }
    RecordsStayInRange(CallsOf(rounds[..k]), lo, hi);
    RoundsComeToStayInRange(rounds, k, lo, hi);
  }

  lemma {:induction false} CallsComeFromRounds(rounds: seq<Round>)
    ensures forall c <- CallsOf(rounds) :: exists r <- rounds :: CallOf(r) == Some(c)
  {
    if rounds != [] {
      var before, last := rounds[..|rounds| - 1], rounds[|rounds| - 1];
      CallsComeFromRounds(before);
      assert rounds == before + [last];
      forall c <- CallsOf(rounds)
        ensures exists r <- rounds :: CallOf(r) == Some(c)
      {
        if c in CallsOf(before) {
          var r :| r in before && CallOf(r) == Some(c);
          assert r in rounds;
        } else {
          assert last in rounds;
        }
      }
    }
  }

  ghost predicate OnlyScaleUps(calls: seq<Call>) {
    && TimesNeverFall(calls) && SameBehavior(calls)
    && (forall i :: 0 <= i < |calls| ==> calls[i].ScalesUp())
  }

  /** What lies in the window of a call lay in the window of an earlier one. */
  lemma WindowsNest(calls: seq<Call>, j: nat, k: nat, i: nat)
    requires OnlyScaleUps(calls) && j < k < i < |calls| && calls[i].behavior.Complete() && InWindow(calls, j, i)
    ensures calls[k].behavior.Complete() && InWindow(calls, j, k)
  {
    assert calls[k].behavior == calls[i].behavior && calls[k].now <= calls[i].now;
    assert calls[k].ScalesUp() && calls[i].ScalesUp();
  }

  lemma ScaleUpStaysBelow(calls: seq<Call>, j: nat, k: nat)
    requires Covered(calls) && j < k < |calls| && calls[k].behavior.Complete() && calls[k].ScalesUp()
    requires InWindow(calls, j, k)
    ensures RecommendationOf(calls, k) <= RecommendationOf(calls, j)
  {
    StabilizationRefinesHistory(calls, k);
  }

  /** What a scale-up call finds in its window, call `k` between recommended no more than. */
  lemma BetweenIsNoHigher(calls: seq<Call>, j: nat, k: nat, i: nat)
    requires Covered(calls) && OnlyScaleUps(calls)
    requires j <= k < i < |calls| && calls[i].behavior.Complete() && InWindow(calls, j, i)
    ensures RecommendationOf(calls, k) <= RecommendationOf(calls, j)
  {
    if j < k {
      WindowsNest(calls, j, k, i);
      assert calls[k].ScalesUp() by {
        assert OnlyScaleUps(calls);
      }
      ScaleUpStaysBelow(calls, j, k);
    }
  }

  /** Either a call gets what it wants, or it repeats an earlier recommendation, which is no lower than the last one. */
  lemma ScaleUpRecommends(calls: seq<Call>, i: nat)
    requires Covered(calls) && OnlyScaleUps(calls) && i < |calls|
    ensures || RecommendationOf(calls, i) == calls[i].desired
            || (i > 0 && RecommendationOf(calls, i - 1) <= RecommendationOf(calls, i))
  {
    if calls[i].behavior.Complete() && RecommendationOf(calls, i) != calls[i].desired {
      var j := RepeatedRecommendation(calls, i);
      BetweenIsNoHigher(calls, j, i - 1, i);
    }
  }

  lemma RepeatedRecommendation(calls: seq<Call>, i: nat) returns (j: nat)
    requires Covered(calls) && i < |calls|
    requires calls[i].behavior.Complete() && RecommendationOf(calls, i) != calls[i].desired
    ensures j < i && InWindow(calls, j, i) && RecommendationOf(calls, i) == RecommendationOf(calls, j)
  {
    StabilizationRefinesHistory(calls, i);
    j :| 0 <= j < i && InWindow(calls, j, i) && RecommendationOf(calls, i) == RecommendationOf(calls, j);
  }

  /** In a controlled run of scale-up calls under one behaviour, stabilisation never turns a call around. */
  lemma {:induction false} ScaleUpsNeverFall(calls: seq<Call>, i: nat)
    requires Controlled(calls) && OnlyScaleUps(calls) && i < |calls|
    ensures calls[i].current <= FinalOf(calls, i) <= RecommendationOf(calls, i)
  {
    assert calls[i].ScalesUp();
    FixedBehaviorIsCovered(calls);
    ScaleUpRecommends(calls, i);
    if i > 0 {
      ScaleUpsNeverFall(calls, i - 1);
      var k := i - 1;
      assert calls[k + 1].current == After(calls, k);
    }
  }

  lemma {:induction false} CallsKeepOrder(rounds: seq<Round>)
    requires forall i, j :: 0 <= i < j < |rounds| ==>
      rounds[i].now <= rounds[j].now && rounds[i].behavior == rounds[j].behavior
    ensures TimesNeverFall(CallsOf(rounds)) && SameBehavior(CallsOf(rounds))
  {
    if rounds != [] {
      var before, last := rounds[..|rounds| - 1], rounds[|rounds| - 1];
      CallsKeepOrder(before);
      CallsComeFromRounds(before);
      forall c <- CallsOf(before)
        ensures c.now <= last.now && c.behavior == last.behavior
      {
        var r :| r in before && CallOf(r) == Some(c);
        var i :| 0 <= i < |before| && before[i] == r;
        assert rounds[i].now <= rounds[|before|].now;
      }
    }
  }

  /** The scaler as a whole never scales down.  Each election starts from the running replicas and only raises them; so
      while no scale-up is still being carried out (as many replicas run as are asked for) and the count is within its
      maximum, no sequence of metrics ever lowers it, under any fixed behaviour. */
  lemma RoundsNeverScaleDown(rounds: seq<Round>)
    requires SoleWriter(rounds) && rounds != []
    requires forall r <- rounds :: r.spec <= r.running && r.spec <= r.hi && r.lo <= r.hi
    requires forall i, j :: 0 <= i < j < |rounds| ==>
      rounds[i].now <= rounds[j].now && rounds[i].behavior == rounds[j].behavior
    ensures rounds[|rounds| - 1].spec <= SpecNow(rounds)
  {
    var before, r := rounds[..|rounds| - 1], rounds[|rounds| - 1];
    RoundsAreControlled(rounds);
    CallsKeepOrder(rounds);
    CallsComeFromRounds(rounds);
    var calls := CallsOf(rounds);
    forall c <- calls
      ensures c.ScalesUp()
    {
      var q :| q in rounds && CallOf(q) == Some(c);
      assert q.running <= Peak(q.outcomes, q.running);
    }
    if CallOf(r).Some? {
      ScaleUpsNeverFall(calls, |calls| - 1);
    }
  }
}
