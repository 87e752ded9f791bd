/** The behaviour part of a Houmao spec, and the small arithmetic the scaler applies to it. */
module ScalingRules {
  import opened IntArithmetic
  import opened Options

  /** Times are nanoseconds, as in Go's `time.Time`; windows and periods are given in seconds. */
  const SECOND: int := 1_000_000_000

  const MAX_INT32: int := 0x7fff_ffff
  const MIN_INT32: int := -0x8000_0000

  type int32 = n: int | MIN_INT32 <= n <= MAX_INT32

  datatype PolicyKind = Pods | Percent

  datatype Policy = Policy(kind: PolicyKind, value: int, period: int)

  /** `MaxChange` stands for every selector that is neither "Disabled" nor "Min". */
  datatype Select = Disabled | MinChange | MaxChange

  datatype Rules = Rules(window: int, select: Select, policies: seq<Policy>)

  /** Either side may be missing from a Houmao spec. */
  datatype Behavior = Behavior(up: Option<Rules>, down: Option<Rules>) {
    predicate Complete() {
      up.Some? && down.Some?
    }
  }

  function RulesOf(b: Behavior, up: bool): Rules
    requires b.Complete()
  {
    if up then b.up.value else b.down.value
  }

  function Cutoff(now: int, seconds: int): int {
    now - seconds * SECOND
  }

  // Repaired: the code's max returns the smaller value (AsWritten.MaxAsWritten).
  function Max(a: int, b: int): int {
    if a <= b then b else a
  }

  function Min(a: int, b: int): int {
    if a <= b then a else b
  }

  /** The least integer not below a / b. */
  function CeilDiv(a: int, b: int): (c: int)
    requires 0 < b
    ensures (c - 1) * b < a <= c * b
  {
    CeilDivBounds(a, b);
    -((-a) / b)
  }

  lemma CeilDivBounds(a: int, b: int)
    requires 0 < b
    ensures var c := -((-a) / b);
      (c - 1) * b < a <= c * b
  {
    var q := (-a) / b;
    DivBounds(-a, b);
    MulNegate(q, b);
    MulNegate(q + 1, b);
  }

  lemma CeilDivReaches(a: int, b: int, n: int)
    requires 0 < b
    ensures a <= n * b <==> CeilDiv(a, b) <= n
  {
    MulBetween(a, b, CeilDiv(a, b), n);
  }

  lemma CeilDivMonotone(a: int, b: int, k: int)
    requires a <= b && 0 < k
    ensures CeilDiv(a, k) <= CeilDiv(b, k)
  {
    CeilDivReaches(a, k, CeilDiv(b, k));
  }

  /** The longest period of a list of policies, and 0 for an empty list. */
  function LongestPeriod(policies: seq<Policy>): (longest: int)
    ensures 0 <= longest
    ensures forall p <- policies :: p.period <= longest
    ensures longest == 0 || exists p <- policies :: p.period == longest
  {
    if policies == [] then 0
    else
      var last := |policies| - 1;
      var rest := LongestPeriod(policies[..last]);
      assert policies == policies[..last] + [policies[last]];
      if policies[last].period > rest then policies[last].period else rest
  }
}
