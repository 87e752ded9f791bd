/** Metrics maps, their totals, and the integer averages and counts computed from them. */
module PodMetrics {
  import opened IntArithmetic
  import opened ScalingRules

  datatype PodMetric = PodMetric(value: int, time: int, window: int)

  type Metrics = map<string, PodMetric>

  /** Go's integer division by a positive divisor: towards zero. */
  function Quotient(a: int, b: int): int
    requires 0 < b
  {
    if 0 <= a then a / b else -((-a) / b)
  }

  ghost function Total(m: Metrics): int {
    if m == map[] then 0
    else
      var name :| name in m;
      m[name].value + Total(m - {name})
  }

  lemma {:induction false} TotalRemove(m: Metrics, name: string)
    requires name in m
    ensures Total(m) == m[name].value + Total(m - {name})
    decreases |m|
  {
    var picked :| picked in m && Total(m) == m[picked].value + Total(m - {picked});
    if picked != name {
      TotalRemove(m - {picked}, name);
      TotalRemove(m - {name}, picked);
      assert m - {picked} - {name} == m - {name} - {picked};
    }
  }

  /** The integer average. */
  ghost function Average(m: Metrics): int
    requires m != map[]
  {
    Quotient(Total(m), |m|)
  }

  /** Only the values count. */
  lemma {:induction false} SameValuesSameTotal(a: Metrics, b: Metrics)
    requires a.Keys == b.Keys && forall name <- a :: a[name].value == b[name].value
    ensures Total(a) == Total(b)
    decreases |a|
  {
    if a != map[] {
      var name :| name in a;
      TotalRemove(a, name);
      TotalRemove(b, name);
      SameValuesSameTotal(a - {name}, b - {name});
    } else {
      assert b == map[];
    }
  }

  lemma {:induction false} TotalLiesWithin(m: Metrics, lo: int, hi: int)
    requires forall name <- m :: lo <= m[name].value <= hi
    ensures |m| * lo <= Total(m) <= |m| * hi
    decreases |m|
  {
    if m != map[] {
      var name :| name in m;
      TotalRemove(m, name);
      var rest := m - {name};
      assert rest.Keys == m.Keys - {name};
      TotalLiesWithin(rest, lo, hi);
      MulNext(|rest|, lo);
      MulNext(|rest|, hi);
    }
  }

  /** The entries of `m` together with one of value `v` for every name. */
  function Filled(m: Metrics, names: set<string>, v: int): Metrics {
    m + map name | name in names :: PodMetric(v, 0, 0)
  }

  lemma FilledNothing(m: Metrics, v: int)
    ensures Filled(m, {}, v) == m
  {
  }

  lemma FilledInsert(m: Metrics, names: set<string>, name: string, v: int)
    ensures Filled(m, names, v)[name := PodMetric(v, 0, 0)] == Filled(m, names + {name}, v)
  {
  }

  lemma FilledStep(m: Metrics, names: set<string>, name: string, v: int)
    requires names !! m.Keys && name in names
    ensures Filled(m, names, v) - {name} == Filled(m, names - {name}, v)
    ensures Total(Filled(m, names, v)) == v + Total(Filled(m, names - {name}, v))
    ensures |names| == |names - {name}| + 1
  {
    var filled := Filled(m, names, v);
    assert filled - {name} == Filled(m, names - {name}, v);
    TotalRemove(filled, name);
  }

  lemma FilledSize(m: Metrics, names: set<string>, v: int)
    requires names !! m.Keys
    ensures |Filled(m, names, v)| == |m| + |names|
  {
    assert Filled(m, names, v).Keys == m.Keys + names;
  }

  lemma {:induction false} FilledTotal(m: Metrics, names: set<string>, v: int)
    requires names !! m.Keys
    ensures Total(Filled(m, names, v)) == Total(m) + |names| * v
    decreases |names|
  {
    if names == {} {
      FilledNothing(m, v);
    } else {
      var name :| name in names;
      FilledStep(m, names, name, v);
      FilledTotal(m, names - {name}, v);
      MulNext(|names - {name}|, v);
    }
  }

  // ---------- Averages and counts ----------

  /** `u` is total / n with its fraction cut off. */
  predicate IsTruncated(u: int, total: int, n: int) {
    if 0 <= total then 0 <= u && u * n <= total < (u + 1) * n else u <= 0 && (u - 1) * n < total <= u * n
  }

  lemma QuotientBounds(total: int, n: int)
    requires 0 < n
    ensures IsTruncated(Quotient(total, n), total, n)
  {
    if 0 <= total {
      DivBounds(total, n);
      DivNotNegative(total, n);
    } else {
      var q := (-total) / n;
      DivBounds(-total, n);
      DivNotNegative(-total, n);
      MulNegate(q, n);
      MulNegate(q + 1, n);
    }
  }

  lemma QuotientBelow(total: int, n: int, target: int)
    requires 0 < n && 0 < target
    ensures Quotient(total, n) < target <==> total < n * target
  {
    QuotientBounds(total, n);
    BelowByBounds(total, n, target, Quotient(total, n));
  }

  lemma BelowByBounds(total: int, n: int, target: int, u: int)
    requires 0 < n && 0 < target
    requires if 0 <= total then u * n <= total < (u + 1) * n else u <= 0
    ensures u < target <==> total < target * n
  {
    if u < target {
      MulMonotone(u + 1, target, n);
      MulMonotone(0, target, n);
    } else {
      MulMonotone(target, u, n);
    }
  }

  lemma AtLeastByBounds(total: int, n: int, bound: int, u: int)
    requires 0 < n && bound * n <= total && (0 <= total || bound <= 0)
    requires if 0 <= total then total < (u + 1) * n else (u - 1) * n < total <= u * n
    ensures bound <= u
  {
    if 0 <= total {
      MulCancel(bound, u + 1, n);
    } else if u < bound {
      MulMonotone(u + 1, bound, n);
      MulNext(u, n);
    }
  }

  lemma QuotientAtLeast(total: int, n: int, bound: int)
    requires 0 < n && bound * n <= total && (0 <= total || bound <= 0)
    ensures bound <= Quotient(total, n)
  {
    QuotientBounds(total, n);
    AtLeastByBounds(total, n, bound, Quotient(total, n));
  }

  lemma FillOfPositiveTotal(total: int, n: int, missing: nat, target: int)
    requires 0 < n && 0 < target && 0 <= total && Quotient(total, n) < target
    ensures Quotient(total, n) <= Quotient(total + missing * target, n + missing)
  {
    QuotientBounds(total, n);
    var u := Quotient(total, n);
    MulMonotone(u, target, missing);
    MulMonotone(0, target, missing);
    MulSplit(u, n, missing);
    QuotientAtLeast(total + missing * target, n + missing, u);
  }

  lemma NegativeByBounds(total: int, n: int, missing: nat, extra: nat, u: int, w: int)
    requires 0 < n && total + extra < 0 && u <= 0
    requires (u - 1) * n < total && total + extra <= w * (n + missing)
    ensures u <= w
  {
    MulMonotone(u - 1, 0, missing);
    MulSplit(u - 1, n, missing);
    MulCancel(u - 1, w, n + missing);
  }

  lemma FillOfNegativeTotal(total: int, n: int, missing: nat, target: int)
    requires 0 < n && 0 < target && total < 0
    ensures Quotient(total, n) <= Quotient(total + missing * target, n + missing)
  {
    MulMonotone(0, target, missing);
    var extra := missing * target;
    QuotientBounds(total, n);
    QuotientBounds(total + extra, n + missing);
    if total + extra < 0 {
      NegativeByBounds(total, n, missing, extra, Quotient(total, n), Quotient(total + extra, n + missing));
    }
  }

  /** Below target, counting missing pods as running exactly at the target leaves the average below the target and
      never lowers it. */
  lemma FillWithTargetStaysBelow(total: int, n: int, missing: nat, target: int)
    requires 0 < n && 0 < target && Quotient(total, n) < target
    ensures Quotient(total, n) <= Quotient(total + missing * target, n + missing) < target
  {
    QuotientBelow(total, n, target);
    assert (n + missing) * target == n * target + missing * target;
    QuotientBelow(total + missing * target, n + missing, target);
    if 0 <= total {
      FillOfPositiveTotal(total, n, missing, target);
    } else {
      FillOfNegativeTotal(total, n, missing, target);
    }
  }

  /** At or above target, counting missing or unready pods as idle never raises the average. */
  lemma FillWithZeroNeverRaises(total: int, n: int, idle: nat, target: int)
    requires 0 < n && 0 < target && Quotient(total, n) >= target
    ensures 0 <= Quotient(total, n + idle) <= Quotient(total, n)
  {
    QuotientBounds(total, n);
    QuotientBounds(total, n + idle);
    LowerByBounds(total, n, idle, Quotient(total, n), Quotient(total, n + idle));
  }

  lemma LowerByBounds(total: int, n: int, idle: nat, u: int, w: int)
    requires 0 < n && 0 <= total && 0 <= w
    requires total < (u + 1) * n && w * (n + idle) <= total
    ensures w <= u
  {
    MulSplit(w, n, idle);
    MulMonotone(0, w, idle);
    MulCancel(w, u + 1, n);
  }

  /** The average lies between the least and the greatest value, and so is the value itself when all are alike. */
  lemma AverageLiesWithin(m: Metrics, lo: int, hi: int)
    requires m != map[] && forall name <- m :: lo <= m[name].value <= hi
    ensures lo <= Average(m) <= hi
  {
    TotalLiesWithin(m, lo, hi);
    QuotientBounds(Total(m), |m|);
    QuotientWithin(Total(m), |m|, lo, hi, Quotient(Total(m), |m|));
  }

  lemma QuotientWithin(total: int, n: int, lo: int, hi: int, u: int)
    requires 0 < n && n * lo <= total <= n * hi
    requires IsTruncated(u, total, n)
    ensures lo <= u <= hi
  {
    if 0 <= total {
      MulCancel(lo, u + 1, n);
      if hi < u {
        MulMonotone(hi + 1, u, n);
      }
    } else {
      MulCancel(u - 1, hi, n);
      if u < lo {
        MulMonotone(u + 1, lo, n);
      }
    }
  }

  /** The count asked for by an average load of `utilization` on `n` entries: the least one that covers it. */
  function CountFor(utilization: int, n: int, target: int): (count: int)
    requires 0 < target
    ensures (count - 1) * target < utilization * n <= count * target
  {
    CeilDiv(utilization * n, target)
  }

  /** One replica fewer would be overloaded, and what the count leaves uncovered is less than one unit per entry:
      the error of the integer average. */
  lemma CountIsSufficientAndMinimal(total: int, n: int, target: int)
    requires 0 < n && 0 < target
    ensures var r := CountFor(Quotient(total, n), n, target);
      && total - r * target < n
      && (0 <= total ==> (r - 1) * target < total)
  {
    QuotientBounds(total, n);
    MulNext(Quotient(total, n), n);
  }

  // ---------- The loops ----------

  /** The integer average of a metrics map. */
  method MetricUtilization(metrics: Metrics) returns (utilization: int)
    requires metrics != map[]
    ensures utilization == Average(metrics)
  {
    var total, rest := 0, metrics;
    while rest != map[]
      invariant total + Total(rest) == Total(metrics)
      decreases |rest|
    {
      var name :| name in rest;
      TotalRemove(rest, name);
      total := total + rest[name].value;
      rest := rest - {name};
    }
    utilization := Quotient(total, |metrics|);
  }

  method DeleteAll(metrics: Metrics, names: set<string>) returns (left: Metrics)
    ensures left == metrics - names
  {
    left := metrics;
    var todo := names;
    while todo != {}
      invariant todo <= names
      invariant left == metrics - (names - todo)
      decreases |todo|
    {
      var name :| name in todo;
      left := left - {name};
      todo := todo - {name};
    }
  }

  method FillAll(metrics: Metrics, names: set<string>, v: int) returns (filled: Metrics)
    ensures filled == Filled(metrics, names, v)
  {
    filled := metrics;
    var todo := names;
    while todo != {}
      invariant todo <= names
      invariant filled == Filled(metrics, names - todo, v)
      decreases |todo|
    {
      var name :| name in todo;
      FilledInsert(metrics, names - todo, name, v);
      assert names - (todo - {name}) == names - todo + {name};
      filled := filled[name := PodMetric(v, 0, 0)];
      todo := todo - {name};
    }
  }
}
