/** Facts about products, quotients and remainders of variables, one at a time. */
module Products {
  lemma Assoc(x: int, y: int, z: int)
    ensures (x * y) * z == x * (y * z)
  {
  }

  /** Consecutive multiples of d lie d apart. */
  lemma Gap(d: nat, q: int, k: int)
    requires q < k
    ensures d * q + d <= d * k
  {
    assert d * k == d * q + d + d * (k - q - 1);
    Positive(d, k - q - 1);
  }

  lemma Positive(x: nat, y: nat)
    ensures x * y >= 0
  {
  }

  lemma Grows(d: nat, q: int, k: int)
    requires q <= k
    ensures d * q <= d * k
  {
  }

  /** Quotient and remainder are unique. */
  lemma Remainder(d: nat, k: int, r: nat)
    requires r < d && d * k + r >= 0
    ensures (d * k + r) % d == r && (d * k + r) / d == k
  {
    var n := d * k + r;
    var q, s := n / d, n % d;
    assert n == d * q + s;
    if q < k {
      Gap(d, q, k);
    } else if k < q {
      Gap(d, k, q);
    }
  }

  lemma QuotientBounds(x: nat, r: nat)
    requires r > 0
    ensures r * (x / r) <= x < r * (x / r) + r
    ensures 0 <= x / r <= x
  {
    var q, s := x / r, x % r;
    assert x == r * q + s;
    if q < 0 {
      Gap(r, q, 0);
    } else if q > 0 {
      Grows(q, 1, r);
    }
  }

  lemma SmallRemainder(k: nat, p: nat)
    requires k < p
    ensures k % p == k
  {
  }

  lemma WrappedRemainder(k: nat, p: nat)
    requires p > 0
    ensures (k + p) % p == k % p
  {
    var q, r := k / p, k % p;
    assert k + p == p * (q + 1) + r;
    Remainder(p, q + 1, r);
  }
}
