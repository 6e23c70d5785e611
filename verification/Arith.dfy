/** Division, as the other modules use it. */
module Arith {
  lemma MulAtLeast(d: int, k: int)
    requires d >= 1 && k >= 0
    ensures d * k >= k
  {
  }

  lemma Distribute(a: int, b: int, k: int)
    ensures (a - b) * k == a * k - b * k
  {
  }

  /** Quotient and remainder are unique. */
  lemma UniqueCut(k: int, q: int, r: int, q': int, r': int)
    requires 0 <= r < k && 0 <= r' < k && q * k + r == q' * k + r'
    ensures q == q' && r == r'
  {
    Distribute(q, q', k);
    if q > q' {
      MulAtLeast(q - q', k);
    } else if q < q' {
      Distribute(q', q, k);
      MulAtLeast(q' - q, k);
    }
  }

  lemma Cut(x: int, k: int, q: int, r: int)
    requires 0 <= r < k && x == q * k + r
    ensures x / k == q && x % k == r
  {
    assert x == x / k * k + x % k;
    UniqueCut(k, q, r, x / k, x % k);
  }

  lemma ModSmall(x: int, k: int)
    requires 0 <= x < k
    ensures x % k == x
  {
    Cut(x, k, 0, x);
  }

  lemma DivFacts(n: nat, p: nat)
    requires p > 0
    ensures 0 <= n / p && 0 <= n % p < p && n == n / p * p + n % p
  {
  }
}
