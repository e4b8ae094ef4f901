/** Division facts the packed words and the bin indices need. */
module Arithmetic {

  lemma AtLeastOnce(k: nat, n: nat)
    requires n >= 1
    ensures k * n >= k
  {
    assert k * n == k + k * (n - 1);
  }

  /** Quotient and remainder are unique. */
  lemma Quotient(x: nat, k: nat, q: nat, r: nat)
    requires k > 0 && r < k && x == k * q + r
    ensures x / k == q && x % k == r
  {
    var d, e := x / k, x % k;
    assert x == k * d + e;
    if q > d {
      assert k * q == k * d + k * (q - d);
      AtLeastOnce(k, q - d);
    } else if q < d {
      assert k * d == k * q + k * (d - q);
      AtLeastOnce(k, d - q);
    }
  }
}
