/** Quotient and remainder facts for variable divisors, proved once. */
module Division {

  lemma AtLeastOnce(a: int, k: int)
    requires a >= 1 && k > 0
    ensures a * k >= k
  {
  }

  lemma Unique(k: int, q: int, r: int, a: int, b: int)
    requires 0 <= r < k && 0 <= b < k && q * k + r == a * k + b
    ensures q == a && r == b
  {
    assert (a - q) * k == r - b && (q - a) * k == b - r;
    if a > q {
      AtLeastOnce(a - q, k);
    } else if a < q {
      AtLeastOnce(q - a, k);
    }
  }

  lemma DivMod(x: int, k: int)
    requires k > 0
    ensures x == (x / k) * k + x % k && 0 <= x % k < k
  {
  }

  /** A decomposition determines quotient and remainder. */
  lemma Decompose(x: int, k: int, q: int, r: int)
    requires 0 <= r < k && x == q * k + r
    ensures x / k == q && x % k == r
  {
    DivMod(x, k);
    Unique(k, q, r, x / k, x % k);
  }

  lemma RemainderOfSum(x: int, y: int, k: int)
    requires k > 0 && x % k == 0 && 0 <= y < k
    ensures (x + y) % k == y
  {
    DivMod(x, k);
    Decompose(x + y, k, x / k, y);
  }

  lemma MultipleHasNoRemainder(q: int, k: int)
    requires k > 0
    ensures (q * k) % k == 0
  {
    Decompose(q * k, k, q, 0);
  }
}
