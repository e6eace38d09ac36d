/** The prime field of `src/field.py`: elements are integers kept reduced
    into [0, p), and every `BaseField` operation returns a fresh reduced
    value. The modulus `p` is a parameter (the source's `BaseField(p)`). */
module Field {
  import opened Errors
  import opened Modular

  predicate Divides(d: int, n: int)
  {
    d != 0 && n % d == 0
  }

  /** Primality, needed only where inverse facts are stated. */
  predicate IsPrime(p: int)
  {
    p > 1 && forall d :: 1 < d < p ==> !Divides(d, p)
  }

  /** `BaseField.__call__`: an integer reduced into the field. */
  function Lift(p: nat, n: int): (r: nat)
    requires p > 1
    ensures r < p && (r - n) % p == 0
  {
    ModOfMod(n, p);
    ModEqualDiff(n % p, n, p);
    n % p
  }

  function Zero(): nat { 0 }

  function One(): nat { 1 }

  /** `BaseFieldElement.is_zero` compares the raw value with 0. */
  predicate IsZero(v: nat) { v == 0 }

  /** `BaseField.add`. */
  function Add(p: nat, a: nat, b: nat): (r: nat)
    requires p > 1
    ensures r < p && (r - (a + b)) % p == 0
  {
    ModOfMod(a + b, p);
    ModEqualDiff((a + b) % p, a + b, p);
    (a + b) % p
  }

  /** `BaseField.subtract`, which adds p before reducing. */
  function Sub(p: nat, a: nat, b: nat): (r: nat)
    requires p > 1
    ensures r < p && (r - (a - b)) % p == 0
  {
    ModOfMod(p + a - b, p);
    ModEqualDiff((p + a - b) % p, p + a - b, p);
    ModAddMultiple(a - b, 1, p);
    ModEqualDiff((p + a - b) % p, a - b, p);
    (p + a - b) % p
  }

  /** `BaseField.negate`. */
  function Neg(p: nat, a: nat): (r: nat)
    requires p > 1
    ensures r < p && (r + a) % p == 0
  {
    ModAddLeft(p - a, a, p);
    ModMultiple(1, p);
    (p - a) % p
  }

  /** `BaseField.multiply`. */
  function Mul(p: nat, a: nat, b: nat): (r: nat)
    requires p > 1
    ensures r < p && (r - a * b) % p == 0
  {
    ModOfMod(a * b, p);
    ModEqualDiff((a * b) % p, a * b, p);
    (a * b) % p
  }

  /** Extended Euclid on the integers: (g, s, t) with s*a + t*b == g, where
      g is a common divisor of a and b (their gcd). */
  function XGcdInt(a: nat, b: nat): (r: (nat, int, int))
    ensures r.1 * a + r.2 * b == r.0
    ensures a > 0 || b > 0 ==> r.0 > 0
    ensures r.0 > 0 ==> Divides(r.0, a) && Divides(r.0, b)
    decreases b
  {
    if b == 0 then
      SelfDivides(a);
      (a, 1, 0)
    else
      var rest := XGcdInt(b, a % b);
      XGcdStep(a, b, rest.0, rest.1, rest.2);
      (rest.0, rest.2, rest.1 - (a / b) * rest.2)
  }

  /** One Euclid step: Bezout coefficients and common divisors of
      (b, a % b) carry over to (a, b). */
  lemma XGcdStep(a: nat, b: nat, g: nat, s: int, t: int)
    requires b > 0 && s * b + t * (a % b) == g
    requires g > 0 ==> Divides(g, b) && Divides(g, a % b)
    ensures t * a + (s - (a / b) * t) * b == g
    ensures g > 0 ==> Divides(g, a) && Divides(g, b)
  {
    var q := a / b;
    assert a == q * b + a % b;
    assert t * a == t * (q * b) + t * (a % b);
    assert (s - q * t) * b == s * b - t * (q * b);
    if g > 0 {
      DividesCombination(g, b, a % b, q);
    }
  }

  lemma SelfDivides(a: nat)
    ensures a > 0 ==> Divides(a, a) && Divides(a, 0)
  {
    if a > 0 {
      ModMultiple(1, a);
    }
  }

  /** A common divisor of b and r divides q*b + r. */
  lemma DividesCombination(g: nat, b: int, r: int, q: int)
    requires g > 0 && Divides(g, b) && Divides(g, r)
    ensures Divides(g, q * b + r)
  {
    var kb, kr := b / g, r / g;
    assert b == kb * g;
    assert r == kr * g;
    assert q * b + r == (q * kb + kr) * g;
    ModMultiple(q * kb + kr, g);
  }

  /** A positive divisor of a positive number is at most that number. */
  lemma DivisorAtMost(d: nat, n: nat)
    requires d > 0 && n > 0 && Divides(d, n)
    ensures d <= n
  {
    assert n == (n / d) * d;
    assert n / d != 0;
    MulAtLeast(n / d, d);
  }

  /** `BaseField.inverse`: the source calls `pow(v, -1, p)`, which fails when
      v has no inverse modulo p; here a verified extended Euclid. */
  function Inverse(p: nat, v: nat): (r: Option<nat>)
    requires p > 1
    ensures r.Some? ==> r.value < p && Mul(p, v, r.value) == 1
    ensures r.None? ==> forall w: nat :: Mul(p, v, w) != 1
    ensures IsPrime(p) && v % p != 0 ==> r.Some?
  {
    var e := XGcdInt(v, p);
    var g, s := e.0, e.1;
    if g == 1 then
      InverseCorrect(p, v, s, e.2);
      Some(s % p)
    else
      NoInverse(p, v, g);
      PrimeGcd(p, v, g);
      None
  }

  lemma InverseCorrect(p: nat, v: nat, s: int, t: int)
    requires p > 1 && s * v + t * p == 1
    ensures Mul(p, v, s % p) == 1
  {
    var r := s % p;
    assert Cong(p, r, s) by {
      ModOfMod(s, p);
      ModEqualDiff(s % p, s, p);
    }
    CMul(p, v, r, v, s);
    assert v * s - 1 == (-t) * p;
    ModMultiple(-t, p);
    assert Cong(p, v * s, 1);
    CongTrans(p, Mul(p, v, r), v * s, 1);
    CongEq(p, Mul(p, v, r), 1);
  }

  lemma NoInverse(p: nat, v: nat, g: nat)
    requires p > 1 && g > 0 && g != 1 && Divides(g, v) && Divides(g, p)
    ensures forall w: nat :: Mul(p, v, w) != 1
  {
    forall w: nat ensures Mul(p, v, w) != 1 {
      if Mul(p, v, w) == 1 {
        var m := (v * w) / p;
        assert v * w == m * p + 1;
        var kv, kp := v / g, p / g;
        assert v == kv * g && p == kp * g;
        assert 1 == (kv * w - m * kp) * g;
        OneHasNoProperDivisor(g, kv * w - m * kp);
      }
    }
  }

  lemma OneHasNoProperDivisor(g: int, k: int)
    requires g > 1
    ensures g * k != 1
  {
    if k >= 1 {
      MulAtLeast(k, g);
      assert k * g >= g;
    } else {
      assert g * k <= 0;
    }
  }

  lemma PrimeGcd(p: nat, v: nat, g: nat)
    requires p > 1 && g > 0 && Divides(g, v) && Divides(g, p)
    ensures IsPrime(p) && v % p != 0 ==> g == 1
  {
    DivisorAtMost(g, p);
  }

  /** `BaseField.divide`: raises on the zero divisor, else multiplies by the
      inverse. */
  function Div(p: nat, a: nat, b: nat): (r: Result<nat>)
    requires p > 1
    ensures r == Err(DivisionByZero) <==> b == 0
    ensures r.Ok? ==> r.value < p && Mul(p, r.value, b) == a % p
    ensures r.Err? && b != 0 ==> r == Err(NotInvertible)
    ensures IsPrime(p) && 0 < b < p ==> r.Ok?
  {
    if IsZero(b) then Err(DivisionByZero)
    else
      match Inverse(p, b)
      case None => Err(NotInvertible)
      case Some(i) =>
        DivCorrect(p, a, b, i);
        Ok(Mul(p, a, i))
  }

  lemma DivCorrect(p: nat, a: nat, b: nat, i: nat)
    requires p > 1 && Mul(p, b, i) == 1
    ensures Mul(p, Mul(p, a, i), b) == a % p
  {
    calc {
      Mul(p, Mul(p, a, i), b);
      ((a * i) % p * b) % p;
      { ModMulLeft(a * i, b, p); }
      (a * i * b) % p;
      { assert a * i * b == a * (b * i); }
      (a * (b * i)) % p;
      { ModMulRight(a, b * i, p); }
      (a * ((b * i) % p)) % p;
    }
  }

  // ---------------------------------------------------------------------
  // Field laws on reduced elements

  lemma AddComm(p: nat, a: nat, b: nat)
    requires p > 1
    ensures Add(p, a, b) == Add(p, b, a)
  {
  }

  lemma AddAssoc(p: nat, a: nat, b: nat, c: nat)
    requires p > 1
    ensures Add(p, Add(p, a, b), c) == Add(p, a, Add(p, b, c))
  {
    ModAddLeft(a + b, c, p);
    ModAddRight(a, b + c, p);
  }

  lemma AddZero(p: nat, a: nat)
    requires p > 1 && a < p
    ensures Add(p, a, 0) == a && Add(p, 0, a) == a
  {
    ModUnique(a, p, 0, a);
  }

  lemma MulComm(p: nat, a: nat, b: nat)
    requires p > 1
    ensures Mul(p, a, b) == Mul(p, b, a)
  {
    assert a * b == b * a;
  }

  lemma MulAssoc(p: nat, a: nat, b: nat, c: nat)
    requires p > 1
    ensures Mul(p, Mul(p, a, b), c) == Mul(p, a, Mul(p, b, c))
  {
    ModMulLeft(a * b, c, p);
    ModMulRight(a, b * c, p);
    assert a * b * c == a * (b * c);
  }

  lemma MulOne(p: nat, a: nat)
    requires p > 1 && a < p
    ensures Mul(p, a, 1) == a && Mul(p, 1, a) == a
  {
    ModUnique(a, p, 0, a);
  }

  lemma MulZero(p: nat, a: nat)
    requires p > 1
    ensures Mul(p, a, 0) == 0 && Mul(p, 0, a) == 0
  {
  }

  /** Multiplication distributes over addition. */
  lemma Distrib(p: nat, a: nat, b: nat, c: nat)
    requires p > 1
    ensures Mul(p, a, Add(p, b, c)) == Add(p, Mul(p, a, b), Mul(p, a, c))
  {
    ModMulRight(a, b + c, p);
    ModAddLeft(a * b, (a * c) % p, p);
    ModAddRight(a * b, a * c, p);
    assert a * (b + c) == a * b + a * c;
  }

  lemma DistribRight(p: nat, a: nat, b: nat, c: nat)
    requires p > 1
    ensures Mul(p, Add(p, a, b), c) == Add(p, Mul(p, a, c), Mul(p, b, c))
  {
    MulComm(p, Add(p, a, b), c);
    Distrib(p, c, a, b);
    MulComm(p, c, a);
    MulComm(p, c, b);
  }

  lemma AddNeg(p: nat, a: nat)
    requires p > 1 && a < p
    ensures Add(p, a, Neg(p, a)) == 0 && Add(p, Neg(p, a), a) == 0
  {
    ModAddRight(a, p - a, p);
    ModMultiple(1, p);
  }

  lemma SubIsAddNeg(p: nat, a: nat, b: nat)
    requires p > 1 && b < p
    ensures Sub(p, a, b) == Add(p, a, Neg(p, b))
  {
    CSub(p, a, b, a, b);
    CNeg(p, b, b);
    CAdd(p, a, Neg(p, b), a, -(b as int));
    CongSame(p, Sub(p, a, b), Add(p, a, Neg(p, b)), a - b);
  }

  lemma NegZero(p: nat)
    requires p > 1
    ensures Neg(p, 0) == 0
  {
    ModMultiple(1, p);
  }

  lemma NegInvolution(p: nat, a: nat)
    requires p > 1 && a < p
    ensures Neg(p, Neg(p, a)) == a
  {
    if a == 0 {
      NegZero(p);
    } else {
      ModUnique(p - a, p, 0, p - a);
      ModUnique(a, p, 0, a);
    }
  }

  lemma NegMul(p: nat, a: nat, b: nat)
    requires p > 1 && a < p
    ensures Mul(p, Neg(p, a), b) == Neg(p, Mul(p, a, b))
  {
    ModMulLeft(p - a, b, p);
    assert (p - a) * b == b * p - a * b;
    ModAddMultiple(-(a * b), b, p);
    var m := a * b;
    assert p - m % p == (-m) + (m / p + 1) * p;
    ModAddMultiple(-m, m / p + 1, p);
  }

  // ---------------------------------------------------------------------
  // Properties stated for the `BaseField` operations

  /** Subtracting then adding b gives back a; a plus its negation is zero. */
  lemma SubAddRoundTrip(p: nat, a: nat, b: nat)
    requires p > 1 && a < p && b < p
    ensures Add(p, Sub(p, a, b), b) == a
    ensures Add(p, Neg(p, a), a) == 0
  {
    SubIsAddNeg(p, a, b);
    AddAssoc(p, a, Neg(p, b), b);
    AddNeg(p, b);
    AddZero(p, a);
    AddNeg(p, a);
  }

  /** `==` compares raw values, which on reduced elements is congruence. */
  lemma EqualityIsCongruence(p: nat, a: nat, b: nat)
    requires p > 1 && a < p && b < p
    ensures a == b <==> (a - b) % p == 0
  {
    if (a - b) % p == 0 {
      if a > b {
        ModUnique(a - b, p, 0, a - b);
      } else if a < b {
        ModUnique(a - b, p, -1, p + a - b);
      }
    }
  }

  /** For a prime modulus every non-zero element has an inverse. */
  lemma InverseOfNonZero(p: nat, x: nat)
    requires IsPrime(p) && 0 < x < p
    ensures Inverse(p, x).Some? && Mul(p, x, Inverse(p, x).value) == 1
  {
    ModUnique(x, p, 0, x);
  }

  /** No zero divisors modulo a prime. */
  lemma NoZeroDivisors(p: nat, a: nat, b: nat)
    requires IsPrime(p) && a < p && b < p
    ensures Mul(p, a, b) == 0 <==> a == 0 || b == 0
  {
    MulZero(p, b);
    if a != 0 && Mul(p, a, b) == 0 {
      CancelFactor(p, a, b);
    }
  }

  lemma CancelFactor(p: nat, a: nat, b: nat)
    requires IsPrime(p) && 0 < a < p && b < p && Mul(p, a, b) == 0
    ensures b == 0
  {
    InverseOfNonZero(p, a);
    var i := Inverse(p, a).value;
    MulOne(p, b);
    MulComm(p, a, i);
    MulAssoc(p, i, a, b);
    MulZero(p, i);
    assert b == Mul(p, Mul(p, i, a), b);
  }

  // ---------------------------------------------------------------------
  // Exponentiation (`__xor__` and `__pow__`)

  /** x^n by repeated field multiplication. */
  function FPow(p: nat, x: nat, n: nat): (r: nat)
    requires p > 1
    ensures r < p
  {
    if n == 0 then One() else Mul(p, FPow(p, x, n - 1), x)
  }

  function IntPow(x: int, n: nat): int
  {
    if n == 0 then 1 else IntPow(x, n - 1) * x
  }

  /** The field power is the integer power reduced modulo p. */
  lemma {:induction false} FPowIsIntPowMod(p: nat, x: nat, n: nat)
    requires p > 1
    ensures FPow(p, x, n) == IntPow(x, n) % p
  {
    if n == 0 {
      ModUnique(1, p, 0, 1);
    } else {
      FPowIsIntPowMod(p, x, n - 1);
      ModMulLeft(IntPow(x, n - 1), x, p);
    }
  }

  lemma {:induction false} FPowAdd(p: nat, x: nat, m: nat, n: nat)
    requires p > 1
    ensures FPow(p, x, m + n) == Mul(p, FPow(p, x, m), FPow(p, x, n))
  {
    if n == 0 {
      MulOne(p, FPow(p, x, m));
    } else {
      FPowAdd(p, x, m, n - 1);
      MulAssoc(p, FPow(p, x, m), FPow(p, x, n - 1), x);
    }
  }

  /** `e >> i`. */
  function Shr(e: nat, i: nat): nat
  {
    if i == 0 then e else Shr(e / 2, i - 1)
  }

  /** `(1 << i) & e != 0`: bit i of e. */
  predicate Bit(e: nat, i: nat)
  {
    Shr(e, i) % 2 == 1
  }

  /** `len(bin(e)[2:])`, the number of binary digits of e (1 for e == 0). */
  function BinLen(e: nat): (n: nat)
    ensures n >= 1
  {
    if e < 2 then 1 else 1 + BinLen(e / 2)
  }

  lemma {:induction false} ShrStep(e: nat, i: nat)
    ensures Shr(e, i + 1) == Shr(e, i) / 2
  {
    if i > 0 {
      ShrStep(e / 2, i - 1);
    }
  }

  lemma {:induction false} ShrBinLen(e: nat)
    ensures Shr(e, BinLen(e)) == 0
  {
    if e >= 2 {
      ShrBinLen(e / 2);
    }
  }

  /** `BaseFieldElement.__xor__` and `__pow__` (the latter also accepts a
      field element as exponent and then uses its value): MSB-first
      square-and-multiply over the binary digits of e. */
  method Exp(p: nat, v: nat, e: nat) returns (acc: nat)
    requires p > 1 && v < p
    ensures acc == FPow(p, v, e)
    ensures acc == IntPow(v, e) % p
    ensures e == 0 ==> acc == One()
  {
    acc := One();
    var val := v;
    ShrBinLen(e);
    for i := BinLen(e) downto 0
      invariant acc == FPow(p, v, Shr(e, i))
    {
      ShrStep(e, i);
      FPowAdd(p, v, Shr(e, i + 1), Shr(e, i + 1));
      acc := Mul(p, acc, acc);
      if Bit(e, i) {
        acc := Mul(p, acc, val);
      }
    }
    FPowIsIntPowMod(p, v, e);
  }

  // ---------------------------------------------------------------------
  // has_order_po2

  /** `a & b` on non-negative integers. */
  function BitAnd(a: nat, b: nat): nat
  {
    if a == 0 || b == 0 then 0 else 2 * BitAnd(a / 2, b / 2) + (a % 2) * (b % 2)
  }

  predicate IsPowerOfTwo(n: nat)
  {
    n == 1 || (n > 1 && n % 2 == 0 && IsPowerOfTwo(n / 2))
  }

  lemma {:induction false} BitAndSelf(a: nat)
    ensures BitAnd(a, a) == a
  {
    if a > 0 {
      BitAndSelf(a / 2);
    }
  }

  /** The source's test `order & (order - 1) == 0` accepts exactly zero and
      the powers of two. (For a negative order, `order & (order - 1)` is
      negative in two's complement, so the test fails.) */
  lemma {:induction false} PowerOfTwoTest(n: nat)
    requires n >= 1
    ensures BitAnd(n, n - 1) == 0 <==> IsPowerOfTwo(n)
  {
    if n % 2 == 0 {
      assert (n - 1) / 2 == n / 2 - 1 && (n - 1) % 2 == 1;
      PowerOfTwoTest(n / 2);
    } else if n > 1 {
      assert (n - 1) / 2 == n / 2 && (n - 1) % 2 == 0;
      BitAndSelf(n / 2);
    }
  }

  predicate PassesPo2Assertion(order: int)
  {
    order == 0 || (order > 0 && BitAnd(order, order - 1) == 0)
  }

  /** `BaseFieldElement.has_order_po2`. */
  method HasOrderPo2(p: nat, v: nat, order: int) returns (r: Result<bool>)
    requires p > 1 && v < p
    ensures r.Err? <==> !(order == 0 || (order > 0 && IsPowerOfTwo(order)))
    ensures r.Ok? ==>
      (r.value <==> (v == One() && order == 1)
                    || (FPow(p, v, order) == One() && FPow(p, v, order / 2) != One()))
    ensures order == 1 ==> r == Ok(v == One())
  {
    if order > 0 {
      PowerOfTwoTest(order);
    }
    if !PassesPo2Assertion(order) {
      return Err(NotPowerOfTwo);
    }
    if v == One() && order == 1 {
      return Ok(true);
    }
    var full := Exp(p, v, order);
    var ok := full == One();
    if ok {
      var half := Exp(p, v, order / 2);
      ok := !(half == One());
    }
    MulOne(p, v);
    return Ok(ok);
  }

  // ---------------------------------------------------------------------
  // Congruence bookkeeping for ring identities: every operation's result
  // is congruent to the integer expression it stands for.

  predicate Cong(p: nat, x: int, y: int)
  {
    p > 1 && (x - y) % p == 0
  }

  lemma MultipleSum(p: nat, x: int, y: int)
    requires p > 1 && x % p == 0 && y % p == 0
    ensures (x + y) % p == 0 && (x - y) % p == 0
  {
    var qx, qy := x / p, y / p;
    assert x == qx * p && y == qy * p;
    SplitProduct(qx, qy, p);
    ModUnique(x + y, p, qx + qy, 0);
    ModUnique(x - y, p, qx - qy, 0);
  }

  /** (a ± b) * c == a * c ± b * c. */
  lemma SplitProduct(a: int, b: int, c: int)
    ensures (a + b) * c == a * c + b * c && (a - b) * c == a * c - b * c
  {
  }

  lemma MultipleProduct(p: nat, x: int, y: int)
    requires p > 1 && x % p == 0
    ensures (x * y) % p == 0
  {
    ModMulLeft(x, y, p);
  }

  lemma CongRefl(p: nat, x: int)
    requires p > 1
    ensures Cong(p, x, x)
  {
  }

  lemma CongTrans(p: nat, x: int, y: int, z: int)
    requires Cong(p, x, y) && Cong(p, y, z)
    ensures Cong(p, x, z)
  {
    MultipleSum(p, x - y, y - z);
  }

  /** Two reduced values that are congruent are equal. */
  lemma CongEq(p: nat, x: nat, y: nat)
    requires x < p && y < p && Cong(p, x, y)
    ensures x == y
  {
    EqualityIsCongruence(p, x, y);
  }

  /** Two reduced values congruent to the same integer are equal. */
  lemma CongSame(p: nat, u: nat, v: nat, x: int)
    requires u < p && v < p && Cong(p, u, x) && Cong(p, v, x)
    ensures u == v
  {
    MultipleSum(p, u - x, v - x);
    assert (u - x) - (v - x) == u - v;
    EqualityIsCongruence(p, u, v);
  }

  lemma CAdd(p: nat, a: nat, b: nat, x: int, y: int)
    requires Cong(p, a, x) && Cong(p, b, y)
    ensures Cong(p, Add(p, a, b), x + y)
  {
    MultipleSum(p, a - x, b - y);
    MultipleSum(p, Add(p, a, b) - (a + b), (a - x) + (b - y));
  }

  lemma CSub(p: nat, a: nat, b: nat, x: int, y: int)
    requires Cong(p, a, x) && Cong(p, b, y)
    ensures Cong(p, Sub(p, a, b), x - y)
  {
    MultipleSum(p, a - x, b - y);
    MultipleSum(p, Sub(p, a, b) - (a - b), (a - x) - (b - y));
  }

  lemma CNeg(p: nat, a: nat, x: int)
    requires Cong(p, a, x)
    ensures Cong(p, Neg(p, a), -x)
  {
    MultipleSum(p, Neg(p, a) + a, a - x);
  }

  lemma CMul(p: nat, a: nat, b: nat, x: int, y: int)
    requires Cong(p, a, x) && Cong(p, b, y)
    ensures Cong(p, Mul(p, a, b), x * y)
  {
    MultipleProduct(p, a - x, b);
    MultipleProduct(p, b - y, x);
    assert a * b - x * y == (a - x) * b + (b - y) * x;
    MultipleSum(p, (a - x) * b, (b - y) * x);
    MultipleSum(p, Mul(p, a, b) - a * b, a * b - x * y);
  }

  /** Regrouping a sum of four terms. */
  lemma AddSwap(p: nat, a: nat, b: nat, c: nat, d: nat)
    requires p > 1
    ensures Add(p, Add(p, a, b), Add(p, c, d)) == Add(p, Add(p, a, c), Add(p, b, d))
  {
    CAdd(p, a, b, a, b);
    CAdd(p, c, d, c, d);
    CAdd(p, Add(p, a, b), Add(p, c, d), a + b, c + d);
    CAdd(p, a, c, a, c);
    CAdd(p, b, d, b, d);
    CAdd(p, Add(p, a, c), Add(p, b, d), a + c, b + d);
    assert a + c + (b + d) == a + b + (c + d);
    CongSame(p, Add(p, Add(p, a, b), Add(p, c, d)), Add(p, Add(p, a, c), Add(p, b, d)),
             a + b + (c + d));
  }

  lemma NegAdd(p: nat, a: nat, b: nat)
    requires p > 1
    ensures Neg(p, Add(p, a, b)) == Add(p, Neg(p, a), Neg(p, b))
  {
    CAdd(p, a, b, a, b);
    CNeg(p, Add(p, a, b), a + b);
    CNeg(p, a, a);
    CNeg(p, b, b);
    CAdd(p, Neg(p, a), Neg(p, b), -(a as int), -(b as int));
    CongSame(p, Neg(p, Add(p, a, b)), Add(p, Neg(p, a), Neg(p, b)), -(a + b));
  }

  lemma MulNegRight(p: nat, a: nat, b: nat)
    requires p > 1
    ensures Mul(p, a, Neg(p, b)) == Neg(p, Mul(p, a, b))
  {
    CNeg(p, b, b);
    CMul(p, a, Neg(p, b), a, -(b as int));
    CMul(p, a, b, a, b);
    CNeg(p, Mul(p, a, b), a * b);
    assert a * -(b as int) == -(a * b);
    CongSame(p, Mul(p, a, Neg(p, b)), Neg(p, Mul(p, a, b)), -(a * b));
  }

  /** (k + 1) * x == x + k * x: the step behind `i * c` in the derivative. */
  lemma MulSucc(p: nat, k: nat, x: nat)
    requires p > 1 && x < p
    ensures Mul(p, k + 1, x) == Add(p, x, Mul(p, k, x))
  {
    CMul(p, k + 1, x, k + 1, x);
    CMul(p, k, x, k, x);
    CAdd(p, x, Mul(p, k, x), x, k * x);
    assert (k + 1) * x == x + k * x;
    CongSame(p, Mul(p, k + 1, x), Add(p, x, Mul(p, k, x)), x + k * x);
  }

  /** (a + m) + (r - m) == a + r. */
  lemma AddSubCancel(p: nat, a: nat, m: nat, r: nat)
    requires p > 1 && a < p && m < p && r < p
    ensures Add(p, Add(p, a, m), Sub(p, r, m)) == Add(p, a, r)
  {
    CAdd(p, a, m, a, m);
    CSub(p, r, m, r, m);
    CAdd(p, Add(p, a, m), Sub(p, r, m), a + m, r - m);
    CAdd(p, a, r, a, r);
    CongSame(p, Add(p, Add(p, a, m), Sub(p, r, m)), Add(p, a, r), a + r);
  }

  /** (a - c) + (b - d) == (a + b) - (c + d). */
  lemma SubAddSub(p: nat, a: nat, b: nat, c: nat, d: nat)
    requires p > 1 && a < p && b < p && c < p && d < p
    ensures Add(p, Sub(p, a, c), Sub(p, b, d)) == Sub(p, Add(p, a, b), Add(p, c, d))
  {
    CSub(p, a, c, a, c);
    CSub(p, b, d, b, d);
    CAdd(p, Sub(p, a, c), Sub(p, b, d), a - c, b - d);
    CAdd(p, a, b, a, b);
    CAdd(p, c, d, c, d);
    CSub(p, Add(p, a, b), Add(p, c, d), a + b, c + d);
    CongSame(p, Add(p, Sub(p, a, c), Sub(p, b, d)), Sub(p, Add(p, a, b), Add(p, c, d)), (a + b) - (c + d));
  }

  /** (c + r) - c == r. */
  lemma AddSubLeft(p: nat, c: nat, r: nat)
    requires p > 1 && c < p && r < p
    ensures Sub(p, Add(p, c, r), c) == r
  {
    CAdd(p, c, r, c, r);
    CSub(p, Add(p, c, r), c, c + r, c);
    CongSame(p, Sub(p, Add(p, c, r), c), r, r);
  }

  lemma SubSelfZero(p: nat, a: nat)
    requires p > 1 && a < p
    ensures Sub(p, a, a) == 0
  {
    CSub(p, a, a, a, a);
    CongSame(p, Sub(p, a, a), 0, 0);
  }

  /** Two field elements are equal exactly when their difference is zero. */
  lemma SubZeroIff(p: nat, a: nat, b: nat)
    requires p > 1 && a < p && b < p
    ensures Sub(p, a, b) == 0 <==> a == b
  {
    ModAddMultiple(a - b, 1, p);
    assert p + a - b == (a - b) + 1 * p;
    EqualityIsCongruence(p, a, b);
  }

  /** A non-zero factor cancels over a prime field. */
  lemma MulCancel(p: nat, w: nat, v: nat, d: nat)
    requires IsPrime(p) && w < p && v < p && 0 < d < p && Mul(p, w, d) == Mul(p, v, d)
    ensures w == v
  {
    CMul(p, w, d, w, d);
    CMul(p, v, d, v, d);
    CSub(p, Mul(p, w, d), Mul(p, v, d), w * d, v * d);
    SubSelfZero(p, Mul(p, w, d));
    CSub(p, w, v, w, v);
    CMul(p, Sub(p, w, v), d, w - v, d);
    assert (w - v) * d == w * d - v * d;
    CongSame(p, Mul(p, Sub(p, w, v), d), 0, w * d - v * d);
    NoZeroDivisors(p, Sub(p, w, v), d);
    SubZeroIff(p, w, v);
  }

  /** (a * b) * (c * d) == (a * c) * (b * d). */
  lemma MulSwap(p: nat, a: nat, b: nat, c: nat, d: nat)
    requires p > 1
    ensures Mul(p, Mul(p, a, b), Mul(p, c, d)) == Mul(p, Mul(p, a, c), Mul(p, b, d))
  {
    CMul(p, a, b, a, b);
    CMul(p, c, d, c, d);
    CMul(p, Mul(p, a, b), Mul(p, c, d), a * b, c * d);
    CMul(p, a, c, a, c);
    CMul(p, b, d, b, d);
    CMul(p, Mul(p, a, c), Mul(p, b, d), a * c, b * d);
    SwapProduct(a, b, c, d);
    CongSame(p, Mul(p, Mul(p, a, b), Mul(p, c, d)), Mul(p, Mul(p, a, c), Mul(p, b, d)), a * b * (c * d));
  }

  lemma SwapProduct(a: int, b: int, c: int, d: int)
    ensures a * c * (b * d) == a * b * (c * d)
  {
  }

  /** Lifting -n gives the negation of lifting n. */
  lemma LiftNeg(p: nat, n: int)
    requires p > 1
    ensures Lift(p, -n) == Neg(p, Lift(p, n))
  {
    CNeg(p, Lift(p, n), n);
    CongSame(p, Lift(p, -n), Neg(p, Lift(p, n)), -n);
  }
}
