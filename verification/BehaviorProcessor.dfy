/**
 * The revision of a desired count: stabilised against recent recommendations, then limited by
 * the replicas already changed in each policy's period.
 */
module BehaviorProcessor {
  import opened ScalingRules
  import opened SlotLogs

  // ---------- Stabilisation ----------

  /** The least (or greatest) of `seed` and the recommendations made after `cutoff`. */
  function Best(records: seq<Record>, cutoff: int, least: bool, seed: int): int {
    if records == [] then seed
    else
      var last := records[|records| - 1];
      var rest := Best(records[..|records| - 1], cutoff, least, seed);
      if last.time > cutoff then
        if least then Min(last.desired, rest) else Max(last.desired, rest)
      else rest
  }

  function StabilizationWindow(up: Rules, down: Rules, desired: int, current: int): int {
    if desired >= current then up.window else down.window
  }

  function Stabilized(records: seq<Record>, up: Rules, down: Rules, desired: int, current: int, now: int): int {
    Best(records, Cutoff(now, StabilizationWindow(up, down, desired, current)), desired >= current, desired)
  }

  /** What a stabilised count means: the least or greatest of `seed` and what `records` holds after `cutoff`. */
  ghost predicate IsExtremum(b: int, records: seq<Record>, cutoff: int, least: bool, seed: int) {
    && (b == seed || exists r <- records :: r.time > cutoff && r.desired == b)
    && (if least then b <= seed else b >= seed)
    && (forall r <- records :: r.time > cutoff ==> if least then b <= r.desired else b >= r.desired)
  }

  lemma {:induction false} BestIsExtremum(records: seq<Record>, cutoff: int, least: bool, seed: int)
    ensures IsExtremum(Best(records, cutoff, least, seed), records, cutoff, least, seed)
  {
    if records != [] {
      var last := |records| - 1;
      BestIsExtremum(records[..last], cutoff, least, seed);
      assert records == records[..last] + [records[last]];
      assert records[last] in records;
    }
  }

  /** Two logs with the same records after the cutoff stabilise to the same count. */
  lemma SameRecentSameBest(a: seq<Record>, b: seq<Record>, cutoff: int, least: bool, seed: int)
    requires forall r: Record :: r.time > cutoff ==> (r in a <==> r in b)
    ensures Best(a, cutoff, least, seed) == Best(b, cutoff, least, seed)
  {
    BestIsExtremum(a, cutoff, least, seed);
    BestIsExtremum(b, cutoff, least, seed);
  }

  // ---------- Rate limits ----------

  /** The count a policy allows, from the count its period started with. */
  function Allowed(up: bool, p: Policy, start: int): int {
    match p.kind
    case Pods => if up then start + p.value else start - p.value
    case Percent => CeilDiv(start * (if up then 100 + p.value else 100 - p.value), 100)
  }

  /** The count that the period of `p` started with, as the event log tells it. */
  function PeriodStart(up: bool, p: Policy, current: int, events: seq<Event>, now: int): int {
    var moved := WindowSum(events, Cutoff(now, p.period));
    if up then current - moved else current + moved
  }

  function Proposal(up: bool, p: Policy, current: int, events: seq<Event>, now: int): int {
    Allowed(up, p, PeriodStart(up, p, current, events, now))
  }

  /** The least (or greatest) proposal; without policies, the end of the int32 range. */
  function Pick(least: bool, policies: seq<Policy>, up: bool, current: int, events: seq<Event>, now: int): int {
    if policies == [] then
      if least then MAX_INT32 else MIN_INT32
    else
      var last := |policies| - 1;
      var rest := Pick(least, policies[..last], up, current, events, now);
      var proposal := Proposal(up, policies[last], current, events, now);
      if least then Min(rest, proposal) else Max(rest, proposal)
  }

  // Repaired: selectors, seeds, the rules of a scale-down and its formulas (AsWritten.UpLimitAsWritten,
  // AsWritten.DownLimitAsWritten).
  /** "Min" asks for the smallest change: the least limit upwards, the greatest downwards. */
  function UpLimit(current: int, events: seq<Event>, rules: Rules, now: int): int {
    if rules.select == Disabled then current
    else Max(current, Pick(rules.select == MinChange, rules.policies, true, current, events, now))
  }

  function DownLimit(current: int, events: seq<Event>, rules: Rules, now: int): int {
    if rules.select == Disabled then current
    else Min(current, Pick(rules.select != MinChange, rules.policies, false, current, events, now))
  }

  // Repaired: the comparison of the desired count with itself (AsWritten.ConvertAsWritten), and the event log, which is
  // that of the direction after stabilisation (AsWritten.DirectionFlips).
  /** The limiter never reverses a change, never enlarges it, and leaves an unchanged count alone. */
  function Limited(
    stabilized: int, current: int, ups: seq<Event>, downs: seq<Event>, up: Rules, down: Rules, now: int): (n: int)
    ensures Min(current, stabilized) <= n <= Max(current, stabilized)
  {
    if stabilized > current then Min(stabilized, UpLimit(current, ups, up, now))
    else if stabilized < current then Max(stabilized, DownLimit(current, downs, down, now))
    else stabilized
  }

  lemma {:induction false} PickBounds(
    least: bool, policies: seq<Policy>, up: bool, current: int, events: seq<Event>, now: int)
    ensures var pick := Pick(least, policies, up, current, events, now);
      && (forall p <- policies :: if least then pick <= Proposal(up, p, current, events, now)
                                  else Proposal(up, p, current, events, now) <= pick)
      && (if least then pick <= MAX_INT32 else pick >= MIN_INT32)
      && (pick == (if least then MAX_INT32 else MIN_INT32)
          || exists p <- policies :: pick == Proposal(up, p, current, events, now))
  {
    if policies != [] {
      var last := |policies| - 1;
      PickBounds(least, policies[..last], up, current, events, now);
      assert policies == policies[..last] + [policies[last]];
      assert policies[last] in policies;
    }
  }

  /** From `start` replicas policy `p` lets the count go to `n` within its period: by `value` pods, or by `value`
      percent, where a fraction of a pod rounds up. */
  predicate Permits(up: bool, p: Policy, start: int, n: int) {
    match p.kind
    case Pods => if up then n - start <= p.value else start - n <= p.value
    case Percent => if up then (n - 1) * 100 < start * (100 + p.value) else n * 100 >= start * (100 - p.value)
  }

  lemma PermitsExactly(up: bool, p: Policy, start: int, n: int)
    ensures Permits(up, p, start, n) <==> if up then n <= Allowed(up, p, start) else n >= Allowed(up, p, start)
  {
    if p.kind == Percent {
      CeilDivReaches(start * (100 + p.value), 100, n - 1);
      CeilDivReaches(start * (100 - p.value), 100, n);
    }
  }

  /** A change to `n` respects every policy of the rules under "Min", and some policy otherwise. */
  ghost predicate Within(up: bool, rules: Rules, n: int, current: int, events: seq<Event>, now: int) {
    match rules.select
    case Disabled => false
    case MinChange => forall p <- rules.policies :: Permits(up, p, PeriodStart(up, p, current, events, now), n)
    case MaxChange => exists p <- rules.policies :: Permits(up, p, PeriodStart(up, p, current, events, now), n)
  }

  /** The same in terms of the proposals. */
  lemma WithinProposals(up: bool, rules: Rules, n: int, current: int, events: seq<Event>, now: int)
    ensures Within(up, rules, n, current, events, now) <==>
      match rules.select
      case Disabled => false
      case MinChange =>
        forall p <- rules.policies ::
          if up then n <= Proposal(up, p, current, events, now) else n >= Proposal(up, p, current, events, now)
      case MaxChange =>
        exists p <- rules.policies ::
          if up then n <= Proposal(up, p, current, events, now) else n >= Proposal(up, p, current, events, now)
  {
    hide Permits, Allowed;
    forall p <- rules.policies
      ensures Permits(up, p, PeriodStart(up, p, current, events, now), n) <==>
        if up then n <= Proposal(up, p, current, events, now) else n >= Proposal(up, p, current, events, now)
    {
      PermitsExactly(up, p, PeriodStart(up, p, current, events, now), n);
    }
  }

  lemma LimitedStaysWithin(
    stabilized: int, current: int32, ups: seq<Event>, downs: seq<Event>, up: Rules, down: Rules, now: int)
    ensures var n := Limited(stabilized, current, ups, downs, up, down, now);
      && (n > current ==> Within(true, up, n, current, ups, now))
      && (n < current ==> Within(false, down, n, current, downs, now))
  {
    hide Within, Proposal;
    var n := Limited(stabilized, current, ups, downs, up, down, now);
    WithinProposals(true, up, n, current, ups, now);
    WithinProposals(false, down, n, current, downs, now);
    PickBounds(up.select == MinChange, up.policies, true, current, ups, now);
    PickBounds(down.select != MinChange, down.policies, false, current, downs, now);
  }

  /** The limiter holds back no more than it must: its count is the furthest one, up to the stabilised count, that the
      rules allow. */
  lemma LimitedIsFurthest(
    stabilized: int, current: int, ups: seq<Event>, downs: seq<Event>, up: Rules, down: Rules, now: int, m: int32)
    ensures var n := Limited(stabilized, current, ups, downs, up, down, now);
      && (current < m <= stabilized && Within(true, up, m, current, ups, now) ==> m <= n)
      && (stabilized <= m < current && Within(false, down, m, current, downs, now) ==> n <= m)
  {
    hide Within, Proposal;
    WithinProposals(true, up, m, current, ups, now);
    WithinProposals(false, down, m, current, downs, now);
    PickBounds(up.select == MinChange, up.policies, true, current, ups, now);
    PickBounds(down.select != MinChange, down.policies, false, current, downs, now);
  }

  /** A limit says exactly how far the rules allow the count to go. */
  lemma LimitsAreExact(current: int32, events: seq<Event>, rules: Rules, now: int, m: int32)
    ensures DownLimit(current, events, rules, now) <= current <= UpLimit(current, events, rules, now)
    ensures m > current ==>
      (m <= UpLimit(current, events, rules, now) <==> Within(true, rules, m, current, events, now))
    ensures m < current ==>
      (m >= DownLimit(current, events, rules, now) <==> Within(false, rules, m, current, events, now))
  {
    hide Within, Proposal;
    WithinProposals(true, rules, m, current, events, now);
    WithinProposals(false, rules, m, current, events, now);
    PickBounds(rules.select == MinChange, rules.policies, true, current, events, now);
    PickBounds(rules.select != MinChange, rules.policies, false, current, events, now);
  }

  /** Only the window sums of the policies' own periods matter to the limiter. */
  lemma {:induction false} SameSumsSamePick(
    least: bool, policies: seq<Policy>, up: bool, current: int, a: seq<Event>, b: seq<Event>, now: int)
    requires forall p <- policies :: WindowSum(a, Cutoff(now, p.period)) == WindowSum(b, Cutoff(now, p.period))
    ensures Pick(least, policies, up, current, a, now) == Pick(least, policies, up, current, b, now)
  {
    if policies != [] {
      SameSumsSamePick(least, policies[..|policies| - 1], up, current, a, b, now);
    }
  }
}
