/** Evaluation of polynomials at a field element, the formal derivative and
    powers: the specifications behind `Polynomial.evaluate`,
    `Polynomial.derivative` and `Polynomial.__xor__`, with evaluation
    shown to be a ring homomorphism and the derivative to obey the product
    rule at every point. */
module PolyEval {
  import opened Field
  import opened PolySpec

  /** Horner's rule over the positions i .. n-1. */
  function HornerFrom(p: nat, a: Poly, z: nat, i: nat, n: nat): (r: nat)
    requires p > 1
    ensures r < p
    decreases n - i
  {
    if i >= n then 0 else Add(p, Coef(a, i), Mul(p, z, HornerFrom(p, a, z, i + 1, n)))
  }

  /** The value of the polynomial at z. */
  function Eval(p: nat, a: Poly, z: nat): (r: nat)
    requires p > 1
    ensures r < p
  {
    HornerFrom(p, a, z, 0, |a|)
  }

  /** c_0 + c_1 z + ... + c_(n-1) z^(n-1), summed lowest term first. */
  function PowerSum(p: nat, a: Poly, z: nat, n: nat): (r: nat)
    requires p > 1
    ensures r < p
  {
    if n == 0 then 0 else Add(p, PowerSum(p, a, z, n - 1), Mul(p, Coef(a, n - 1), FPow(p, z, n - 1)))
  }

  // ---------------------------------------------------------------------
  // Horner's rule does not see trailing zeros

  lemma {:induction false} HornerZero(p: nat, a: Poly, z: nat, i: nat, n: nat)
    requires p > 1
    requires forall j :: i <= j ==> Coef(a, j) == 0
    ensures HornerFrom(p, a, z, i, n) == 0
    decreases n - i
  {
    if i < n {
      HornerZero(p, a, z, i + 1, n);
      MulZero(p, z);
      AddZero(p, 0);
    }
  }

  lemma {:induction false} HornerPad(p: nat, a: Poly, z: nat, i: nat, n: nat)
    requires p > 1 && i <= |a| <= n
    ensures HornerFrom(p, a, z, i, n) == HornerFrom(p, a, z, i, |a|)
    decreases |a| - i
  {
    if i == |a| {
      HornerZero(p, a, z, i, n);
    } else {
      HornerPad(p, a, z, i + 1, n);
    }
  }

  lemma {:induction false} HornerCong(p: nat, a: Poly, b: Poly, z: nat, i: nat, n: nat)
    requires p > 1 && PolyEq(a, b)
    ensures HornerFrom(p, a, z, i, n) == HornerFrom(p, b, z, i, n)
    decreases n - i
  {
    if i < n {
      HornerCong(p, a, b, z, i + 1, n);
      assert Coef(a, i) == Coef(b, i);
    }
  }

  /** Equal polynomials take equal values. */
  lemma EvalCong(p: nat, a: Poly, b: Poly, z: nat)
    requires p > 1 && PolyEq(a, b)
    ensures Eval(p, a, z) == Eval(p, b, z)
  {
    var n := Max(|a|, |b|);
    HornerPad(p, a, z, 0, n);
    HornerPad(p, b, z, 0, n);
    HornerCong(p, a, b, z, 0, n);
  }

  // ---------------------------------------------------------------------
  // Linearity

  lemma {:induction false} HornerLinear(p: nat, a1: Poly, a2: Poly, a3: Poly, z: nat, i: nat, n: nat)
    requires p > 1
    requires forall j :: Coef(a3, j) == Add(p, Coef(a1, j), Coef(a2, j))
    ensures HornerFrom(p, a3, z, i, n) == Add(p, HornerFrom(p, a1, z, i, n), HornerFrom(p, a2, z, i, n))
    decreases n - i
  {
    if i >= n {
      AddZero(p, 0);
    } else {
      HornerLinear(p, a1, a2, a3, z, i + 1, n);
      var h1, h2 := HornerFrom(p, a1, z, i + 1, n), HornerFrom(p, a2, z, i + 1, n);
      Distrib(p, z, h1, h2);
      AddSwap(p, Coef(a1, i), Coef(a2, i), Mul(p, z, h1), Mul(p, z, h2));
    }
  }

  /** Evaluation is additive on coefficient-wise sums. */
  lemma EvalLinear(p: nat, a1: Poly, a2: Poly, a3: Poly, z: nat)
    requires p > 1
    requires forall j :: Coef(a3, j) == Add(p, Coef(a1, j), Coef(a2, j))
    ensures Eval(p, a3, z) == Add(p, Eval(p, a1, z), Eval(p, a2, z))
  {
    var n := Max(Max(|a1|, |a2|), |a3|);
    HornerPad(p, a1, z, 0, n);
    HornerPad(p, a2, z, 0, n);
    HornerPad(p, a3, z, 0, n);
    HornerLinear(p, a1, a2, a3, z, 0, n);
  }

  lemma {:induction false} HornerNeg(p: nat, a1: Poly, a2: Poly, z: nat, i: nat, n: nat)
    requires p > 1
    requires forall j :: Coef(a2, j) == Neg(p, Coef(a1, j))
    ensures HornerFrom(p, a2, z, i, n) == Neg(p, HornerFrom(p, a1, z, i, n))
    decreases n - i
  {
    if i >= n {
      NegZero(p);
    } else {
      HornerNeg(p, a1, a2, z, i + 1, n);
      MulNegRight(p, z, HornerFrom(p, a1, z, i + 1, n));
      NegAdd(p, Coef(a1, i), Mul(p, z, HornerFrom(p, a1, z, i + 1, n)));
    }
  }

  lemma {:induction false} HornerScale(p: nat, a: Poly, c: nat, s: Poly, z: nat, i: nat, n: nat)
    requires p > 1
    requires forall j :: Coef(s, j) == Mul(p, Coef(a, j), c)
    ensures HornerFrom(p, s, z, i, n) == Mul(p, HornerFrom(p, a, z, i, n), c)
    decreases n - i
  {
    if i >= n {
      MulZero(p, c);
    } else {
      HornerScale(p, a, c, s, z, i + 1, n);
      var h := HornerFrom(p, a, z, i + 1, n);
      MulAssoc(p, z, h, c);
      DistribRight(p, Coef(a, i), Mul(p, z, h), c);
    }
  }

  lemma {:induction false} HornerShift(p: nat, a: Poly, u: Poly, z: nat, i: nat, n: nat)
    requires p > 1
    requires forall j :: 0 <= j ==> Coef(a, j + 1) == Coef(u, j)
    ensures HornerFrom(p, a, z, i + 1, n + 1) == HornerFrom(p, u, z, i, n)
    decreases n - i
  {
    if i < n {
      HornerShift(p, a, u, z, i + 1, n);
      assert Coef(a, i + 1) == Coef(u, i);
    }
  }

  // ---------------------------------------------------------------------
  // Evaluation is a ring homomorphism

  /** Horner's step: a(z) == a_0 + z * a[1..](z). */
  lemma EvalFront(p: nat, a: Poly, z: nat)
    requires p > 1 && |a| >= 1
    ensures Eval(p, a, z) == Add(p, a[0], Mul(p, z, Eval(p, a[1..], z)))
  {
    TailCoef(a);
    HornerShift(p, a, a[1..], z, 0, |a| - 1);
  }

  lemma EvalEmpty(p: nat, z: nat)
    requires p > 1
    ensures Eval(p, [], z) == 0
  {
  }

  /** A constant polynomial evaluates to its constant. */
  lemma EvalConst(p: nat, c: nat, z: nat)
    requires p > 1 && c < p
    ensures Eval(p, [c], z) == c
  {
    assert HornerFrom(p, [c], z, 1, 1) == 0;
    assert Coef([c], 0) == c;
    MulZero(p, z);
    AddZero(p, c);
  }

  /** The polynomial x evaluates to the point. */
  lemma EvalX(p: nat, z: nat)
    requires p > 1 && z < p
    ensures Eval(p, [0, 1], z) == z
  {
    assert [0, 1][1..] == [1];
    EvalFront(p, [0, 1], z);
    EvalConst(p, 1, z);
    MulOne(p, z);
    AddZero(p, z);
  }

  lemma EvalShift(p: nat, u: Poly, z: nat)
    requires p > 1
    ensures Eval(p, Shift(u), z) == Mul(p, z, Eval(p, u, z))
  {
    assert Shift(u)[1..] == u;
    EvalFront(p, Shift(u), z);
    AddZero(p, Mul(p, z, Eval(p, u, z)));
  }

  lemma EvalScale(p: nat, a: Poly, c: nat, z: nat)
    requires p > 1
    ensures Eval(p, Scale(p, a, c), z) == Mul(p, Eval(p, a, z), c)
  {
    HornerScale(p, a, c, Scale(p, a, c), z, 0, |a|);
  }

  lemma EvalAdd(p: nat, a: Poly, b: Poly, z: nat)
    requires p > 1 && Valid(p, a) && Valid(p, b)
    ensures Eval(p, PolyAdd(p, a, b), z) == Add(p, Eval(p, a, z), Eval(p, b, z))
  {
    EvalLinear(p, a, b, PolyAdd(p, a, b), z);
  }

  lemma EvalNeg(p: nat, a: Poly, z: nat)
    requires p > 1
    ensures Eval(p, PolyNeg(p, a), z) == Neg(p, Eval(p, a, z))
  {
    HornerNeg(p, a, PolyNeg(p, a), z, 0, |a|);
  }

  lemma EvalSub(p: nat, a: Poly, b: Poly, z: nat)
    requires p > 1 && Valid(p, a) && Valid(p, b)
    ensures Eval(p, PolySub(p, a, b), z) == Sub(p, Eval(p, a, z), Eval(p, b, z))
  {
    EvalAdd(p, a, PolyNeg(p, b), z);
    EvalNeg(p, b, z);
    SubIsAddNeg(p, Eval(p, a, z), Eval(p, b, z));
  }

  /** The value of a product is the product of the values. */
  lemma {:induction false} EvalMul(p: nat, a: Poly, b: Poly, z: nat)
    requires p > 1
    ensures Eval(p, PolyMul(p, a, b), z) == Mul(p, Eval(p, a, z), Eval(p, b, z))
    decreases |a|
  {
    if |a| == 0 {
      MulZero(p, Eval(p, b, z));
    } else {
      var a1 := a[1..];
      var a1b := PolyMul(p, a1, b);
      var e1, eb := Eval(p, a1, z), Eval(p, b, z);
      MulFront(p, a, b);
      EvalLinear(p, Scale(p, b, a[0]), Shift(a1b), PolyMul(p, a, b), z);
      EvalScale(p, b, a[0], z);
      EvalShift(p, a1b, z);
      EvalMul(p, a1, b, z);
      EvalFront(p, a, z);
      DistribRight(p, a[0], Mul(p, z, e1), eb);
      MulComm(p, a[0], eb);
      MulAssoc(p, z, e1, eb);
    }
  }

  /** `evaluate`'s power sum is Horner's rule. */
  lemma {:induction false} PowerSumHorner(p: nat, a: Poly, z: nat, i: nat, n: nat)
    requires p > 1 && i <= n
    ensures PowerSum(p, a, z, n)
            == Add(p, PowerSum(p, a, z, i), Mul(p, FPow(p, z, i), HornerFrom(p, a, z, i, n)))
    decreases n - i
  {
    if i == n {
      MulZero(p, FPow(p, z, i));
      AddZero(p, PowerSum(p, a, z, n));
    } else {
      PowerSumHorner(p, a, z, i + 1, n);
      var zi, c, h := FPow(p, z, i), Coef(a, i), HornerFrom(p, a, z, i + 1, n);
      Distrib(p, zi, c, Mul(p, z, h));
      MulAssoc(p, zi, z, h);
      MulComm(p, zi, c);
      AddAssoc(p, PowerSum(p, a, z, i), Mul(p, c, zi), Mul(p, FPow(p, z, i + 1), h));
    }
  }

  lemma EvalIsPowerSum(p: nat, a: Poly, z: nat)
    requires p > 1
    ensures Eval(p, a, z) == PowerSum(p, a, z, |a|)
  {
    PowerSumHorner(p, a, z, 0, |a|);
    MulOne(p, Eval(p, a, z));
    AddZero(p, Eval(p, a, z));
  }

  // ---------------------------------------------------------------------
  // The derivative

  lemma MulZeroRight(p: nat)
    requires p > 1
    ensures forall n: nat :: Mul(p, n, 0) == 0
  {
  }

  /** The coefficient of x^k in the derivative: (k+1) * c_(k+1). */
  function DCoef(p: nat, a: Poly, k: int): (r: nat)
    requires p > 1
    ensures r < p
    ensures k < 0 ==> r == 0
  {
    if k < 0 then 0 else Mul(p, k + 1, Coef(a, k + 1))
  }

  /** `Polynomial.derivative`: a polynomial of degree 0 gives [0];
      otherwise the list of the field products i * c_i for i >= 1. */
  function Derivative(p: nat, a: Poly): (r: Poly)
    requires p > 1
    ensures Valid(p, r)
    ensures forall k :: 0 <= k ==> Coef(r, k) == Mul(p, k + 1, Coef(a, k + 1))
  {
    MulZeroRight(p);
    DegCoef(a);
    if Deg(a) == 0 then [0]
    else seq(if |a| == 0 then 0 else |a| - 1, i => DCoef(p, a, i))
  }

  /** The value of the derivative at z. */
  function EvalD(p: nat, a: Poly, z: nat): (r: nat)
    requires p > 1
    ensures r < p
  {
    Eval(p, Derivative(p, a), z)
  }

  lemma DerivCong(p: nat, a: Poly, b: Poly, z: nat)
    requires p > 1 && PolyEq(a, b)
    ensures EvalD(p, a, z) == EvalD(p, b, z)
  {
    forall k
      ensures Coef(Derivative(p, a), k) == Coef(Derivative(p, b), k)
    {
      assert Coef(a, k + 1) == Coef(b, k + 1);
    }
    EvalCong(p, Derivative(p, a), Derivative(p, b), z);
  }

  lemma EvalDLinear(p: nat, a1: Poly, a2: Poly, a3: Poly, z: nat)
    requires p > 1
    requires forall j :: Coef(a3, j) == Add(p, Coef(a1, j), Coef(a2, j))
    ensures EvalD(p, a3, z) == Add(p, EvalD(p, a1, z), EvalD(p, a2, z))
  {
    var d1, d2, d3 := Derivative(p, a1), Derivative(p, a2), Derivative(p, a3);
    forall k
      ensures Coef(d3, k) == Add(p, Coef(d1, k), Coef(d2, k))
    {
      if k < 0 {
        AddZero(p, 0);
      } else {
        Distrib(p, k + 1, Coef(a1, k + 1), Coef(a2, k + 1));
      }
    }
    EvalLinear(p, d1, d2, d3, z);
  }

  lemma EvalDScale(p: nat, a: Poly, c: nat, z: nat)
    requires p > 1
    ensures EvalD(p, Scale(p, a, c), z) == Mul(p, EvalD(p, a, z), c)
  {
    var d, ds := Derivative(p, a), Derivative(p, Scale(p, a, c));
    forall k
      ensures Coef(ds, k) == Mul(p, Coef(d, k), c)
    {
      if k < 0 {
        MulZero(p, c);
      } else {
        MulAssoc(p, k + 1, Coef(a, k + 1), c);
      }
    }
    HornerScale(p, d, c, ds, z, 0, Max(|d|, |ds|));
    HornerPad(p, d, z, 0, Max(|d|, |ds|));
    HornerPad(p, ds, z, 0, Max(|d|, |ds|));
  }

  /** (x*u)' == u + x*u'. */
  lemma EvalDShift(p: nat, u: Poly, z: nat)
    requires p > 1 && Valid(p, u)
    ensures EvalD(p, Shift(u), z) == Add(p, Eval(p, u, z), Mul(p, z, EvalD(p, u, z)))
  {
    var du, dsu := Derivative(p, u), Derivative(p, Shift(u));
    forall k
      ensures Coef(dsu, k) == Add(p, Coef(u, k), Coef(Shift(du), k))
    {
      if k < 0 {
        AddZero(p, 0);
      } else {
        assert Coef(Shift(u), k + 1) == Coef(u, k);
        MulSucc(p, k, Coef(u, k));
        MulZero(p, Coef(u, k));
      }
    }
    EvalLinear(p, u, Shift(du), dsu, z);
    EvalShift(p, du, z);
  }

  /** A constant has derivative zero everywhere. */
  lemma EvalDConst(p: nat, a: Poly, z: nat)
    requires p > 1 && |a| <= 1
    ensures EvalD(p, a, z) == 0
  {
    MulZeroRight(p);
    HornerZero(p, Derivative(p, a), z, 0, |Derivative(p, a)|);
  }

  /** The ring identity behind the product rule. */
  lemma ProductRuleAlgebra(p: nat, a0: nat, e1: nat, d1: nat, b: nat, g: nat, z: nat)
    requires p > 1
    ensures Add(p, Mul(p, g, a0), Add(p, Mul(p, e1, b), Mul(p, z, Add(p, Mul(p, d1, b), Mul(p, e1, g)))))
            == Add(p, Mul(p, Add(p, e1, Mul(p, z, d1)), b), Mul(p, Add(p, a0, Mul(p, z, e1)), g))
  {
    var ga0, e1b := Mul(p, g, a0), Mul(p, e1, b);
    var x, y := Mul(p, z, Mul(p, d1, b)), Mul(p, z, Mul(p, e1, g));
    Distrib(p, z, Mul(p, d1, b), Mul(p, e1, g));
    DistribRight(p, e1, Mul(p, z, d1), b);
    DistribRight(p, a0, Mul(p, z, e1), g);
    MulAssoc(p, z, d1, b);
    MulAssoc(p, z, e1, g);
    MulComm(p, a0, g);
    AddSwap(p, e1b, x, ga0, y);
    AddComm(p, e1b, ga0);
    AddAssoc(p, e1b, ga0, Add(p, x, y));
    AddAssoc(p, ga0, e1b, Add(p, x, y));
  }

  /** a' == x' * a[1..] + x * a[1..]', as a == a_0 + x * a[1..]. */
  lemma EvalDFront(p: nat, a: Poly, z: nat)
    requires p > 1 && Valid(p, a) && |a| >= 1
    ensures EvalD(p, a, z) == Add(p, Eval(p, a[1..], z), Mul(p, z, EvalD(p, a[1..], z)))
  {
    var a1 := a[1..];
    forall j
      ensures Coef(a, j) == Add(p, Coef([a[0]], j), Coef(Shift(a1), j))
    {
      if j == 0 {
        AddZero(p, a[0]);
      } else {
        AddZero(p, Coef(a, j));
      }
    }
    EvalDLinear(p, [a[0]], Shift(a1), a, z);
    EvalDConst(p, [a[0]], z);
    EvalDShift(p, a1, z);
    AddZero(p, Add(p, Eval(p, a1, z), Mul(p, z, EvalD(p, a1, z))));
  }

  /** (a*b)' == (a_0 * b)' + (x * (a[1..] * b))'. */
  lemma EvalDMulFront(p: nat, a: Poly, b: Poly, z: nat)
    requires p > 1 && Valid(p, a) && Valid(p, b) && |a| >= 1
    ensures EvalD(p, PolyMul(p, a, b), z)
            == Add(p, Mul(p, EvalD(p, b, z), a[0]),
                   Add(p, Eval(p, PolyMul(p, a[1..], b), z), Mul(p, z, EvalD(p, PolyMul(p, a[1..], b), z))))
  {
    var a1b := PolyMul(p, a[1..], b);
    MulFront(p, a, b);
    EvalDLinear(p, Scale(p, b, a[0]), Shift(a1b), PolyMul(p, a, b), z);
    EvalDScale(p, b, a[0], z);
    EvalDShift(p, a1b, z);
  }

  /** The product rule, at every point: (a*b)' == a'*b + a*b'. */
  lemma {:induction false} ProductRule(p: nat, a: Poly, b: Poly, z: nat)
    requires p > 1 && Valid(p, a) && Valid(p, b)
    ensures EvalD(p, PolyMul(p, a, b), z)
            == Add(p, Mul(p, EvalD(p, a, z), Eval(p, b, z)), Mul(p, Eval(p, a, z), EvalD(p, b, z)))
    decreases |a|
  {
    if |a| == 0 {
      EvalDConst(p, PolyMul(p, a, b), z);
      EvalDConst(p, a, z);
      MulZero(p, Eval(p, b, z));
      MulZero(p, EvalD(p, b, z));
      AddZero(p, 0);
    } else {
      var a1 := a[1..];
      EvalDMulFront(p, a, b, z);
      EvalMul(p, a1, b, z);
      ProductRule(p, a1, b, z);
      EvalDFront(p, a, z);
      EvalFront(p, a, z);
      ProductRuleAlgebra(p, a[0], Eval(p, a1, z), EvalD(p, a1, z), Eval(p, b, z), EvalD(p, b, z), z);
    }
  }

  // ---------------------------------------------------------------------
  // Powers

  /** a^n as repeated multiplication, a^0 == [1]. */
  function PolyPow(p: nat, a: Poly, n: nat): (r: Poly)
    requires p > 1
    ensures Valid(p, r)
  {
    if n == 0 then [1] else PolyMul(p, PolyPow(p, a, n - 1), a)
  }

  lemma {:induction false} PolyPowAdd(p: nat, a: Poly, m: nat, n: nat)
    requires p > 1
    ensures PolyEq(PolyPow(p, a, m + n), PolyMul(p, PolyPow(p, a, m), PolyPow(p, a, n)))
  {
    if n == 0 {
      MulUnit(p, PolyPow(p, a, m));
    } else {
      PolyPowAdd(p, a, m, n - 1);
      MulCong(p, PolyPow(p, a, m + n - 1), PolyMul(p, PolyPow(p, a, m), PolyPow(p, a, n - 1)), a, a);
      MulAssocPoly(p, PolyPow(p, a, m), PolyPow(p, a, n - 1), a);
    }
  }

  /** The value of a^n is the n-th power of the value. */
  lemma {:induction false} EvalPow(p: nat, a: Poly, n: nat, z: nat)
    requires p > 1
    ensures Eval(p, PolyPow(p, a, n), z) == FPow(p, Eval(p, a, z), n)
  {
    if n == 0 {
      EvalConst(p, 1, z);
    } else {
      EvalPow(p, a, n - 1, z);
      EvalMul(p, PolyPow(p, a, n - 1), a, z);
    }
  }
}
