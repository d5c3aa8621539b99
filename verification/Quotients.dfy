/** Division of natural numbers: rounding up, even shares, order. */
module Quotients {
  lemma {:induction false} GapAtLeast(a: int, b: int, k: nat)
    requires a < b
    ensures a * k + k <= b * k
    decreases b - a
  {
    if b == a + 1 {
      NextMultiple(a, k);
    } else {
      GapAtLeast(a, b - 1, k);
      NextMultiple(b - 1, k);
    }
  }

  lemma NextMultiple(a: int, k: nat)
    ensures (a + 1) * k == a * k + k
  {}

  lemma SameQuotient(a: int, r: int, b: int, s: int, k: nat)
    requires a * k + r == b * k + s && 0 <= r < k && 0 <= s < k
    ensures a == b
  {
    if a < b { GapAtLeast(a, b, k); }
    if b < a { GapAtLeast(b, a, k); }
  }

  lemma DivideMonotone(a: nat, b: nat, k: nat)
    requires k >= 1 && a <= b
    ensures a / k <= b / k
  {
    var qa, qb := a / k, b / k;
    assert a == qa * k + a % k && b == qb * k + b % k;
    if qb < qa { GapAtLeast(qb, qa, k); }
  }

  lemma ExactShare(n: nat, k: nat)
    requires k >= 1
    ensures n * k / k == n
  {
    var q, r := n * k / k, n * k % k;
    assert n * k == q * k + r;
    SameQuotient(n, 0, q, r, k);
  }

  /** n / k rounded up: the length of each of k equal parts that together hold n. */
  function CeilDiv(n: nat, k: nat): nat
    requires k >= 1
  {
    (n + k - 1) / k
  }

  lemma CeilDivCovers(n: nat, k: nat)
    requires k >= 1
    ensures n <= k * CeilDiv(n, k) < n + k
  {
    var q, r := (n + k - 1) / k, (n + k - 1) % k;
    assert n + k - 1 == q * k + r;
    assert q * k == k * q;
  }

  lemma CeilDivExact(m: nat, k: nat)
    requires k >= 1
    ensures CeilDiv(k * m, k) == m
  {
    var q, r := (k * m + k - 1) / k, (k * m + k - 1) % k;
    assert k * m + k - 1 == q * k + r;
    assert m * k + (k - 1) == q * k + r;
    SameQuotient(m, k - 1, q, r, k);
  }
}
