/** Roots of polynomials: synthetic division by x - d, and the fact that
    over a prime field a non-zero polynomial of degree below n cannot vanish
    at n distinct points. This makes the interpolants of `lagrange_interpolation`
    unique, which is what `test_colinearity` relies on. */
module PolyRoots {
  import opened Field
  import opened PolySpec
  import opened PolyEval

  /** No entry occurs twice. */
  predicate Distinct(s: seq<nat>)
  {
    forall i, j :: 0 <= i < j < |s| ==> s[i] != s[j]
  }

  /** The quotient of a by x - d (synthetic division, from the top). */
  function SynDiv(p: nat, a: Poly, d: nat): (q: Poly)
    requires p > 1
    ensures Valid(p, q)
    ensures |q| == if |a| == 0 then 0 else |a| - 1
  {
    if |a| <= 1 then [] else [Eval(p, a[1..], d)] + SynDiv(p, a[1..], d)
  }

  /** The division identity at every point: a(z) == (z - d) * q(z) + a(d). */
  lemma {:induction false} SynDivEval(p: nat, a: Poly, d: nat, z: nat)
    requires p > 1 && Valid(p, a) && d < p && z < p
    ensures Eval(p, a, z) == Add(p, Mul(p, Sub(p, z, d), Eval(p, SynDiv(p, a, d), z)), Eval(p, a, d))
  {
    var s := Sub(p, z, d);
    if |a| == 0 {
      EvalEmpty(p, z);
      EvalEmpty(p, d);
      MulZero(p, s);
      AddZero(p, 0);
    } else if |a| == 1 {
      assert a == [a[0]];
      EvalConst(p, a[0], z);
      EvalConst(p, a[0], d);
      EvalEmpty(p, z);
      MulZero(p, s);
      AddZero(p, a[0]);
    } else {
      var u := a[1..];
      var qu := SynDiv(p, u, d);
      var q := SynDiv(p, a, d);
      SynDivEval(p, u, d, z);
      EvalFront(p, a, z);
      EvalFront(p, a, d);
      assert q[1..] == qu;
      EvalFront(p, q, z);
      SynDivAlgebra(p, a[0], z, d, Eval(p, qu, z), Eval(p, u, d));
    }
  }

  /** a0 + z * ((z - d) * Q + U) == (z - d) * (U + z * Q) + (a0 + d * U). */
  lemma SynDivAlgebra(p: nat, a0: nat, z: nat, d: nat, Q: nat, U: nat)
    requires p > 1
    ensures Add(p, a0, Mul(p, z, Add(p, Mul(p, Sub(p, z, d), Q), U)))
            == Add(p, Mul(p, Sub(p, z, d), Add(p, U, Mul(p, z, Q))), Add(p, a0, Mul(p, d, U)))
  {
    var s := Sub(p, z, d);
    var uz := Add(p, Mul(p, s, Q), U);
    var qz := Add(p, U, Mul(p, z, Q));
    var ad := Add(p, a0, Mul(p, d, U));
    CSub(p, z, d, z, d);
    CMul(p, s, Q, z - d, Q);
    CAdd(p, Mul(p, s, Q), U, (z - d) * Q, U);
    CMul(p, z, uz, z, (z - d) * Q + U);
    CAdd(p, a0, Mul(p, z, uz), a0, z * ((z - d) * Q + U));
    CMul(p, z, Q, z, Q);
    CAdd(p, U, Mul(p, z, Q), U, z * Q);
    CMul(p, s, qz, z - d, U + z * Q);
    CMul(p, d, U, d, U);
    CAdd(p, a0, Mul(p, d, U), a0, d * U);
    CAdd(p, Mul(p, s, qz), ad, (z - d) * (U + z * Q), a0 + d * U);
    SynDivIdentity(a0, z, d, Q, U);
    CongSame(p, Add(p, a0, Mul(p, z, uz)), Add(p, Mul(p, s, qz), ad), a0 + z * ((z - d) * Q + U));
  }

  lemma SynDivIdentity(a0: int, z: int, d: int, Q: int, U: int)
    ensures (z - d) * (U + z * Q) + (a0 + d * U) == a0 + z * ((z - d) * Q + U)
  {
    assert (z - d) * (U + z * Q) == z * U - d * U + (z - d) * (z * Q);
    assert (z - d) * (z * Q) == z * ((z - d) * Q);
  }

  /** The division identity on coefficients: a_k == r_k - d * q_k, where
      r_0 is the remainder a(d) and r_k == q_(k-1) above it. */
  lemma {:induction false} SynDivCoef(p: nat, a: Poly, d: nat, k: int)
    requires p > 1 && Valid(p, a) && d < p
    ensures Coef(a, k) == Sub(p, if k == 0 then Eval(p, a, d) else Coef(SynDiv(p, a, d), k - 1),
                                 Mul(p, d, Coef(SynDiv(p, a, d), k)))
  {
    var q := SynDiv(p, a, d);
    MulZero(p, d);
    SubSelfZero(p, 0);
    if k < 0 {
    } else if |a| == 0 {
      EvalEmpty(p, d);
    } else if |a| == 1 {
      if k == 0 {
        assert a == [a[0]];
        EvalConst(p, a[0], d);
        AddZero(p, a[0]);
        AddSubLeft(p, 0, a[0]);
      }
    } else {
      var u := a[1..];
      var qu := SynDiv(p, u, d);
      if k == 0 {
        EvalFront(p, a, d);
        var m := Mul(p, d, Eval(p, u, d));
        AddComm(p, a[0], m);
        AddSubLeft(p, m, a[0]);
      } else {
        SynDivCoef(p, u, d, k - 1);
        assert Coef(a, k) == Coef(u, k - 1);
        assert Coef(q, k) == Coef(qu, k - 1);
        assert Coef(q, k - 1) == if k - 1 == 0 then Eval(p, u, d) else Coef(qu, k - 2);
      }
    }
  }

  /** Where a vanishes away from d, the quotient by x - d vanishes. */
  lemma QuotientVanishes(p: nat, a: Poly, d: nat, z: nat)
    requires IsPrime(p) && Valid(p, a) && d < p && z < p && z != d
    requires Eval(p, a, d) == 0 && Eval(p, a, z) == 0
    ensures Eval(p, SynDiv(p, a, d), z) == 0
  {
    var q := SynDiv(p, a, d);
    SynDivEval(p, a, d, z);
    AddZero(p, Mul(p, Sub(p, z, d), Eval(p, q, z)));
    NoZeroDivisors(p, Sub(p, z, d), Eval(p, q, z));
    SubZeroIff(p, z, d);
  }

  /** A root d with a zero quotient leaves a zero polynomial. */
  lemma ZeroQuotient(p: nat, a: Poly, d: nat)
    requires p > 1 && Valid(p, a) && d < p && Eval(p, a, d) == 0 && Deg(SynDiv(p, a, d)) == -1
    ensures Deg(a) == -1
  {
    var q := SynDiv(p, a, d);
    DegCoef(q);
    MulZero(p, d);
    SubSelfZero(p, 0);
    forall k | 0 <= k < |a|
      ensures a[k] == 0
    {
      SynDivCoef(p, a, d, k);
    }
  }

  /** The core of the root bound, on the length of the list. */
  lemma {:induction false} VanishingShortIsZero(p: nat, a: Poly, ds: seq<nat>)
    requires IsPrime(p) && Valid(p, a) && Valid(p, ds) && Distinct(ds) && |a| <= |ds|
    requires forall k :: 0 <= k < |ds| ==> Eval(p, a, ds[k]) == 0
    ensures Deg(a) == -1
    decreases |a|
  {
    if |a| > 0 {
      var n := |ds| - 1;
      var d := ds[n];
      var q := SynDiv(p, a, d);
      var front := ds[..n];
      forall k | 0 <= k < n
        ensures Eval(p, q, front[k]) == 0
      {
        QuotientVanishes(p, a, d, ds[k]);
      }
      VanishingShortIsZero(p, q, front);
      ZeroQuotient(p, a, d);
    }
  }

  /** Over a prime field, a polynomial of degree below n that vanishes at
      n distinct points is the zero polynomial. */
  lemma VanishingIsZero(p: nat, a: Poly, ds: seq<nat>)
    requires IsPrime(p) && Valid(p, a) && Valid(p, ds) && Distinct(ds) && Deg(a) < |ds|
    requires forall k :: 0 <= k < |ds| ==> Eval(p, a, ds[k]) == 0
    ensures Deg(a) == -1
  {
    var t := Trim(a);
    DegCoef(a);
    assert PolyEq(t, a);
    forall k | 0 <= k < |ds|
      ensures Eval(p, t, ds[k]) == 0
    {
      EvalCong(p, t, a, ds[k]);
    }
    VanishingShortIsZero(p, t, ds);
    DegCong(t, a);
  }

  /** Interpolation is unique: over a prime field, two polynomials of degree
      below n that agree at n distinct points are equal. */
  lemma InterpolantUnique(p: nat, a: Poly, b: Poly, ds: seq<nat>)
    requires IsPrime(p) && Valid(p, a) && Valid(p, b) && Valid(p, ds) && Distinct(ds)
    requires Deg(a) < |ds| && Deg(b) < |ds|
    requires forall k :: 0 <= k < |ds| ==> Eval(p, a, ds[k]) == Eval(p, b, ds[k])
    ensures PolyEq(a, b)
  {
    var c := PolySub(p, a, b);
    DegCoef(a);
    DegCoef(b);
    SubSelfZero(p, 0);
    DegBelow(c, |ds|);
    forall k | 0 <= k < |ds|
      ensures Eval(p, c, ds[k]) == 0
    {
      EvalSub(p, a, b, ds[k]);
      SubSelfZero(p, Eval(p, b, ds[k]));
    }
    VanishingIsZero(p, c, ds);
    DegCoef(c);
    CoefValid(p, a);
    CoefValid(p, b);
    forall k
      ensures Coef(a, k) == Coef(b, k)
    {
      SubZeroIff(p, Coef(a, k), Coef(b, k));
    }
  }
}
