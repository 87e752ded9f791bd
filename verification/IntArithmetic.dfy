/** Small facts about products, kept apart so that the proofs that need them stay linear. */
module IntArithmetic {

  lemma MulMonotone(a: int, b: int, k: int)
    requires a <= b && 0 <= k
    ensures a * k <= b * k
  {
  }

  lemma MulCancel(a: int, b: int, k: int)
    requires a * k < b * k && 0 < k
    ensures a < b
  {
    if b <= a {
      MulMonotone(b, a, k);
    }
  }

  lemma DivBounds(a: int, b: int)
    requires 0 < b
    ensures (a / b) * b <= a < (a / b + 1) * b
  {
    assert a == b * (a / b) + a % b;
    MulNext(a / b, b);
  }

  lemma DivNotNegative(a: int, b: int)
    requires 0 < b && 0 <= a
    ensures 0 <= a / b
  {
  }

  /** A number between two neighbouring multiples of `k` tells where `n` multiples lie. */
  lemma MulBetween(a: int, k: int, least: int, n: int)
    requires 0 < k && (least - 1) * k < a <= least * k
    ensures a <= n * k <==> least <= n
  {
    if least <= n {
      MulMonotone(least, n, k);
    } else {
      MulMonotone(n, least - 1, k);
    }
  }

  lemma MulNegate(a: int, k: int)
    ensures (-a) * k == -(a * k)
  {
  }

  lemma MulNext(a: int, k: int)
    ensures (a + 1) * k == a * k + k
  {
  }

  lemma MulSplit(a: int, m: int, n: int)
    ensures a * (m + n) == a * m + a * n
  {
  }
}
