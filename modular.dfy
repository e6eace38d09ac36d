/** Facts about Dafny's `%` with a positive modulus (which agrees with
    Python's `%` there), used to prove the field laws. */
module Modular {

  /** Any decomposition x == q*p + r with 0 <= r < p yields the quotient
      and the remainder. */
  lemma ModUnique(x: int, p: int, q: int, r: int)
    requires p > 0 && x == q * p + r && 0 <= r < p
    ensures x % p == r && x / p == q
  {
    var q0, r0 := x / p, x % p;
    assert q0 * p + r0 == q * p + r;
    if q0 < q {
      assert (q - q0) * p == q * p - q0 * p;
      MulAtLeast(q - q0, p);
    } else if q0 > q {
      assert (q0 - q) * p == q0 * p - q * p;
      MulAtLeast(q0 - q, p);
    }
  }

  lemma MulAtLeast(k: int, p: int)
    requires k >= 1 && p > 0
    ensures k * p >= p
  {
    if k > 1 {
      MulAtLeast(k - 1, p);
      assert k * p == (k - 1) * p + p;
    }
  }

  /** Adding a multiple of the modulus does not change the remainder. */
  lemma ModAddMultiple(x: int, k: int, p: int)
    requires p > 0
    ensures (x + k * p) % p == x % p
  {
    var q := x / p;
    assert x + k * p == (q + k) * p + x % p;
    ModUnique(x + k * p, p, q + k, x % p);
  }

  lemma ModOfMod(x: int, p: int)
    requires p > 0
    ensures (x % p) % p == x % p
  {
    ModUnique(x % p, p, 0, x % p);
  }

  lemma ModAddLeft(x: int, y: int, p: int)
    requires p > 0
    ensures (x % p + y) % p == (x + y) % p
  {
    var q := x / p;
    assert x + y == (x % p + y) + q * p;
    ModAddMultiple(x % p + y, q, p);
  }

  lemma ModAddRight(x: int, y: int, p: int)
    requires p > 0
    ensures (x + y % p) % p == (x + y) % p
  {
    ModAddLeft(y, x, p);
  }

  lemma ModMulLeft(x: int, y: int, p: int)
    requires p > 0
    ensures ((x % p) * y) % p == (x * y) % p
  {
    var q := x / p;
    assert x == q * p + x % p;
    assert x * y == (x % p) * y + (q * y) * p;
    ModAddMultiple((x % p) * y, q * y, p);
  }

  lemma ModMulRight(x: int, y: int, p: int)
    requires p > 0
    ensures (x * (y % p)) % p == (x * y) % p
  {
    ModMulLeft(y, x, p);
  }

  /** Two integers with the same remainder differ by a multiple of p. */
  lemma ModEqualDiff(x: int, y: int, p: int)
    requires p > 0 && x % p == y % p
    ensures (x - y) % p == 0
  {
    assert x == (x / p) * p + x % p;
    assert y == (y / p) * p + y % p;
    assert x - y == (x / p - y / p) * p;
    ModUnique(x - y, p, x / p - y / p, 0);
  }

  /** A multiple of p has remainder zero. */
  lemma ModMultiple(k: int, p: int)
    requires p > 0
    ensures (k * p) % p == 0
  {
    ModUnique(k * p, p, k, 0);
  }
}
