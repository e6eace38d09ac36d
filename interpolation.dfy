/** Interpolation and vanishing polynomials: `lagrange_interpolation`,
    `hermite_interpolation`, `zerofier_domain` and `test_colinearity`.
    A domain is a list of field elements (every entry below p). */
module Interpolation {
  import opened Errors
  import opened Modular
  import opened Field
  import opened PolySpec
  import opened PolyEval
  import opened PolyRoots
  import opened Polynomial

  /** The point i differs from every other point of the domain. */
  predicate Isolated(s: seq<nat>, i: nat)
    requires i < |s|
  {
    forall j :: 0 <= j < |s| && j != i ==> s[j] != s[i]
  }

  lemma DistinctIsolated(s: seq<nat>)
    ensures Distinct(s) <==> forall i :: 0 <= i < |s| ==> Isolated(s, i)
  {
    if forall i :: 0 <= i < |s| ==> Isolated(s, i) {
      forall i, j | 0 <= i < j < |s|
        ensures s[i] != s[j]
      {
        assert Isolated(s, j);
      }
    }
  }

  // ---------------------------------------------------------------------
  // The linear factor x - d

  /** x - d evaluates to z - d. */
  lemma EvalLinearFactor(p: nat, d: nat, z: nat)
    requires p > 1 && d < p && z < p
    ensures Eval(p, PolySub(p, [0, 1], [d]), z) == Sub(p, z, d)
  {
    EvalSub(p, [0, 1], [d], z);
    EvalX(p, z);
    EvalConst(p, d, z);
  }

  /** The coefficients of a * (x - d): a shifted up, minus d times a. */
  lemma FactorCoef(p: nat, a: Poly, d: nat, k: int)
    requires p > 1 && Valid(p, a) && d < p
    ensures Coef(PolyMul(p, a, PolySub(p, [0, 1], [d])), k) == Add(p, Coef(a, k - 1), Mul(p, Coef(a, k), Neg(p, d)))
  {
    var f := PolySub(p, [0, 1], [d]);
    MonoValid(p, 1, 1);
    MonoValid(p, 0, Neg(p, d));
    var g := PolyAdd(p, Mono(1, 1), Mono(0, Neg(p, d)));
    forall j
      ensures Coef(f, j) == Coef(g, j)
    {
      NegZero(p);
      SubIsAddNeg(p, Coef([0, 1], j), Coef([d], j));
      AddZero(p, Neg(p, d));
      AddZero(p, 1);
      AddZero(p, 0);
    }
    ConvFromCong(p, a, a, f, g, k, 0);
    ConvFromLinearRight(p, a, Mono(1, 1), Mono(0, Neg(p, d)), g, k, 0);
    ConvMonoRight(p, a, 1, 1, k);
    ConvMonoRight(p, a, 0, Neg(p, d), k);
    CoefValid(p, a);
    MulOne(p, Coef(a, k - 1));
  }

  /** Multiplying a monic polynomial of degree m by x - d gives a monic
      polynomial of degree m + 1. */
  lemma FactorMonic(p: nat, a: Poly, d: nat)
    requires p > 1 && Valid(p, a) && d < p && Deg(a) >= 0 && a[Deg(a)] == 1
    ensures Deg(PolyMul(p, a, PolySub(p, [0, 1], [d]))) == Deg(a) + 1
    ensures PolyMul(p, a, PolySub(p, [0, 1], [d]))[Deg(a) + 1] == 1
  {
    var m := Deg(a);
    var b := PolyMul(p, a, PolySub(p, [0, 1], [d]));
    DegCoef(a);
    MulZero(p, Neg(p, d));
    forall k | k >= m + 2
      ensures Coef(b, k) == 0
    {
      FactorCoef(p, a, d, k);
      AddZero(p, 0);
    }
    DegBelow(b, m + 2);
    FactorCoef(p, a, d, m + 1);
    AddZero(p, 1);
    assert Coef(b, m + 1) == 1;
  }

  /** `prod * (X - [d]) * [c]`, grouped as the Lagrange loop groups it. */
  lemma EvalFactorLeft(p: nat, a: Poly, d: nat, c: nat, z: nat)
    requires p > 1 && Valid(p, a) && d < p && c < p && z < p
    ensures Eval(p, PolyMul(p, PolyMul(p, a, PolySub(p, [0, 1], [d])), [c]), z)
            == Mul(p, Mul(p, Eval(p, a, z), Sub(p, z, d)), c)
  {
    var t := PolyMul(p, a, PolySub(p, [0, 1], [d]));
    EvalMul(p, t, [c], z);
    EvalConst(p, c, z);
    EvalMul(p, a, PolySub(p, [0, 1], [d]), z);
    EvalLinearFactor(p, d, z);
  }

  /** `l * ((X - [d]) * [c])`, grouped as the Hermite loop groups it. */
  lemma EvalFactorRight(p: nat, a: Poly, d: nat, c: nat, z: nat)
    requires p > 1 && Valid(p, a) && d < p && c < p && z < p
    ensures Eval(p, PolyMul(p, a, PolyMul(p, PolySub(p, [0, 1], [d]), [c])), z)
            == Mul(p, Mul(p, Eval(p, a, z), Sub(p, z, d)), c)
  {
    var f := PolySub(p, [0, 1], [d]);
    EvalMul(p, a, PolyMul(p, f, [c]), z);
    EvalMul(p, f, [c], z);
    EvalConst(p, c, z);
    EvalLinearFactor(p, d, z);
    MulAssoc(p, Eval(p, a, z), Sub(p, z, d), c);
  }

  // ---------------------------------------------------------------------
  // The basis loop shared by both interpolations

  /** What one factor (x - d_j) / (d_i - d_j) does at the points: the value
      at d_i is kept, the value at d_j becomes zero, zeros stay zeros. */
  lemma BasisRound(p: nat, domain: seq<nat>, i: nat, j: nat, v: nat, c: nat, before: nat -> nat, after: nat -> nat)
    requires p > 1 && Valid(p, domain) && i < |domain| && j < |domain| && i != j && c < p && v < p
    requires Mul(p, Sub(p, domain[i], domain[j]), c) == 1
    requires forall z: nat :: z < p ==> before(z) < p
    requires forall z: nat :: z < p ==> after(z) == Mul(p, Mul(p, before(z), Sub(p, z, domain[j])), c)
    requires before(domain[i]) == v
    ensures after(domain[i]) == v
    ensures after(domain[j]) == 0
    ensures forall k :: 0 <= k < |domain| && before(domain[k]) == 0 ==> after(domain[k]) == 0
  {
    MulAssoc(p, v, Sub(p, domain[i], domain[j]), c);
    MulOne(p, v);
    SubSelfZero(p, domain[j]);
    MulZero(p, before(domain[j]));
    MulZero(p, c);
    forall k | 0 <= k < |domain| && before(domain[k]) == 0
      ensures after(domain[k]) == 0
    {
      MulZero(p, Sub(p, domain[k], domain[j]));
    }
  }

  /** A factor is only formed when the difference of the two points is
      invertible, which needs the points to be different. */
  lemma InvertibleDifference(p: nat, a: nat, b: nat)
    requires p > 1 && a < p && b < p
    ensures Inverse(p, Sub(p, a, b)).Some? ==> a != b
    ensures IsPrime(p) && a != b ==> Inverse(p, Sub(p, a, b)).Some?
  {
    SubZeroIff(p, a, b);
    var s := Sub(p, a, b);
    if Inverse(p, s).Some? {
      MulZero(p, Inverse(p, s).value);
    }
    ModUnique(s, p, 0, s);
  }

  // ---------------------------------------------------------------------
  // Lagrange interpolation

  /** The inner loop of `lagrange_interpolation` for the point i: the value
      at the point times, for every other j, (x - d_j) and then
      1 / (d_i - d_j). */
  method LagrangeTerm(p: nat, domain: seq<nat>, value: nat, i: nat) returns (r: Result<Poly>)
    requires p > 1 && Valid(p, domain) && value < p && i < |domain|
    ensures r.Err? ==> r.error == NotInvertible
    ensures r.Ok? ==> Isolated(domain, i)
    ensures IsPrime(p) && Isolated(domain, i) ==> r.Ok?
    ensures r.Ok? ==> Valid(p, r.value) && |r.value| <= |domain|
    ensures r.Ok? ==> Eval(p, r.value, domain[i]) == value
    ensures r.Ok? ==> forall k :: 0 <= k < |domain| && k != i ==> Eval(p, r.value, domain[k]) == 0
  {
    var x: Poly := [Zero(), One()];
    var prod: Poly := [value];
    EvalConst(p, value, domain[i]);
    var j := 0;
    while j < |domain|
      invariant 0 <= j <= |domain|
      invariant Valid(p, prod) && |prod| <= if j <= i then 1 + j else j
      invariant Eval(p, prod, domain[i]) == value
      invariant forall k :: 0 <= k < j && k != i ==> Eval(p, prod, domain[k]) == 0
      invariant forall k :: 0 <= k < j && k != i ==> domain[k] != domain[i]
    {
      if j != i {
        var diff := Sub(p, domain[i], domain[j]);
        var inv := Inverse(p, diff);
        InvertibleDifference(p, domain[i], domain[j]);
        if inv.None? {
          return Err(NotInvertible);
        }
        var factor := SubPoly(p, x, [domain[j]]);
        var t := MulPoly(p, prod, factor);
        var next := MulPoly(p, t, [inv.value]);
        forall z: nat | z < p
          ensures Eval(p, next, z) == Mul(p, Mul(p, Eval(p, prod, z), Sub(p, z, domain[j])), inv.value)
        {
          EvalFactorLeft(p, prod, domain[j], inv.value, z);
        }
        BasisRound(p, domain, i, j, value, inv.value, z => Eval(p, prod, z), z => Eval(p, next, z));
        prod := next;
      }
      j := j + 1;
    }
    return Ok(prod);
  }

  /** `lagrange_interpolation`: the sum over the points of their Lagrange
      terms. The two assertions of the source become errors; a repeated
      point makes an inverse fail. */
  method Lagrange(p: nat, domain: seq<nat>, values: seq<nat>) returns (r: Result<Poly>)
    requires p > 1 && Valid(p, domain) && Valid(p, values)
    ensures r == Err(LengthMismatch) <==> |domain| != |values|
    ensures r == Err(EmptyInput) <==> |domain| == |values| == 0
    ensures r.Err? && |domain| == |values| > 0 ==> r.error == NotInvertible
    ensures r.Ok? ==> Distinct(domain)
    ensures IsPrime(p) && |domain| == |values| > 0 && Distinct(domain) ==> r.Ok?
    ensures r.Ok? ==> Valid(p, r.value) && Deg(r.value) < |domain|
    ensures r.Ok? ==> forall k :: 0 <= k < |domain| ==> Eval(p, r.value, domain[k]) == values[k]
  {
    if |domain| != |values| {
      return Err(LengthMismatch);
    }
    if |domain| == 0 {
      return Err(EmptyInput);
    }
    DistinctIsolated(domain);
    var acc: Poly := [];
    var i := 0;
    while i < |domain|
      invariant 0 <= i <= |domain|
      invariant Valid(p, acc) && |acc| <= |domain|
      invariant forall k :: 0 <= k < i ==> Eval(p, acc, domain[k]) == values[k]
      invariant forall k :: i <= k < |domain| ==> Eval(p, acc, domain[k]) == 0
      invariant forall k :: 0 <= k < i ==> Isolated(domain, k)
    {
      var term := LagrangeTerm(p, domain, values[i], i);
      if term.Err? {
        return Err(term.error);
      }
      var next := AddPoly(p, acc, term.value);
      forall k | 0 <= k < |domain|
        ensures Eval(p, next, domain[k]) == if k < i then values[k] else if k == i then values[i] else 0
      {
        EvalAdd(p, acc, term.value, domain[k]);
        AddZero(p, values[k]);
      }
      acc := next;
      i := i + 1;
    }
    return Ok(acc);
  }

  // ---------------------------------------------------------------------
  // The vanishing polynomial of a domain

  /** The product of (z - d) over the domain, in domain order. */
  function ZeroProduct(p: nat, domain: seq<nat>, z: nat): (r: nat)
    requires p > 1
    ensures r < p
  {
    if |domain| == 0 then 1 else Mul(p, ZeroProduct(p, domain[..|domain| - 1], z), Sub(p, z, domain[|domain| - 1]))
  }

  /** Over a prime field the product vanishes exactly on the domain. */
  lemma {:induction false} ZeroProductRoots(p: nat, domain: seq<nat>, z: nat)
    requires IsPrime(p) && Valid(p, domain) && z < p
    ensures ZeroProduct(p, domain, z) == 0 <==> z in domain
  {
    if |domain| > 0 {
      var n := |domain| - 1;
      var front := domain[..n];
      ZeroProductRoots(p, front, z);
      NoZeroDivisors(p, ZeroProduct(p, front, z), Sub(p, z, domain[n]));
      SubZeroIff(p, z, domain[n]);
      assert domain == front + [domain[n]];
    }
  }

  /** `zerofier_domain`: the product of (x - d) over the domain, in
      order. Reading `domain[0].field` fails on an empty domain. */
  method Zerofier(p: nat, domain: seq<nat>) returns (r: Result<Poly>)
    requires p > 1 && Valid(p, domain)
    ensures r == Err(EmptyInput) <==> |domain| == 0
    ensures r.Ok? ==> Valid(p, r.value)
    ensures r.Ok? ==> Deg(r.value) == |domain| && r.value[|domain|] == One()
    ensures r.Ok? ==> forall z: nat :: z < p ==> Eval(p, r.value, z) == ZeroProduct(p, domain, z)
    ensures r.Ok? ==> forall k :: 0 <= k < |domain| ==> Eval(p, r.value, domain[k]) == 0
  {
    if |domain| == 0 {
      return Err(EmptyInput);
    }
    var x: Poly := [Zero(), One()];
    var acc: Poly := [One()];
    forall z: nat | z < p
      ensures Eval(p, acc, z) == ZeroProduct(p, domain[..0], z)
    {
      EvalConst(p, 1, z);
    }
    var i := 0;
    while i < |domain|
      invariant 0 <= i <= |domain|
      invariant Valid(p, acc) && Deg(acc) == i && acc[i] == 1
      invariant forall z: nat :: z < p ==> Eval(p, acc, z) == ZeroProduct(p, domain[..i], z)
    {
      var factor := SubPoly(p, x, [domain[i]]);
      var next := MulPoly(p, acc, factor);
      FactorMonic(p, acc, domain[i]);
      assert domain[..i + 1][..i] == domain[..i];
      forall z: nat | z < p
        ensures Eval(p, next, z) == ZeroProduct(p, domain[..i + 1], z)
      {
        EvalMul(p, acc, factor, z);
        EvalLinearFactor(p, domain[i], z);
      }
      acc := next;
      i := i + 1;
    }
    assert domain[..i] == domain;
    forall k | 0 <= k < |domain|
      ensures Eval(p, acc, domain[k]) == 0
    {
      ZeroProductVanishes(p, domain, k);
    }
    return Ok(acc);
  }

  /** The product has a zero factor at every point of the domain, in any
      field. */
  lemma {:induction false} ZeroProductVanishes(p: nat, domain: seq<nat>, k: nat)
    requires p > 1 && Valid(p, domain) && k < |domain|
    ensures ZeroProduct(p, domain, domain[k]) == 0
  {
    var n := |domain| - 1;
    var front := domain[..n];
    if k == n {
      SubSelfZero(p, domain[n]);
      MulZero(p, ZeroProduct(p, front, domain[k]));
    } else {
      assert front[k] == domain[k];
      ZeroProductVanishes(p, front, k);
      MulZero(p, Sub(p, domain[k], domain[n]));
    }
  }

  // ---------------------------------------------------------------------
  // Hermite interpolation

  /** The basis loop of `hermite_interpolation` for the point i: starting
      from 1, multiply by ((x - d_j) * 1 / (d_i - d_j)) for every other j. */
  method HermiteBasis(p: nat, points: seq<nat>, i: nat) returns (r: Result<Poly>)
    requires p > 1 && Valid(p, points) && i < |points|
    ensures r.Err? ==> r.error == NotInvertible
    ensures r.Ok? ==> Isolated(points, i)
    ensures IsPrime(p) && Isolated(points, i) ==> r.Ok?
    ensures r.Ok? ==> Valid(p, r.value) && |r.value| <= |points|
    ensures r.Ok? ==> Eval(p, r.value, points[i]) == 1
    ensures r.Ok? ==> forall k :: 0 <= k < |points| && k != i ==> Eval(p, r.value, points[k]) == 0
  {
    var x: Poly := [Zero(), One()];
    var l: Poly := [One()];
    EvalConst(p, 1, points[i]);
    var j := 0;
    while j < |points|
      invariant 0 <= j <= |points|
      invariant Valid(p, l) && |l| <= if j <= i then 1 + j else j
      invariant Eval(p, l, points[i]) == 1
      invariant forall k :: 0 <= k < j && k != i ==> Eval(p, l, points[k]) == 0
      invariant forall k :: 0 <= k < j && k != i ==> points[k] != points[i]
    {
      if j != i {
        var diff := Sub(p, points[i], points[j]);
        var inv := Inverse(p, diff);
        InvertibleDifference(p, points[i], points[j]);
        if inv.None? {
          return Err(NotInvertible);
        }
        var factor := SubPoly(p, x, [points[j]]);
        var scaled := MulPoly(p, factor, [inv.value]);
        var next := MulPoly(p, l, scaled);
        forall z: nat | z < p
          ensures Eval(p, next, z) == Mul(p, Mul(p, Eval(p, l, z), Sub(p, z, points[j])), inv.value)
        {
          EvalFactorRight(p, l, points[j], inv.value, z);
        }
        BasisRound(p, points, i, j, 1, inv.value, z => Eval(p, l, z), z => Eval(p, next, z));
        l := next;
      }
      j := j + 1;
    }
    return Ok(l);
  }

  /** The derivative of x - d is 1 everywhere. */
  lemma EvalDLinearFactor(p: nat, d: nat, z: nat)
    requires p > 1 && d < p
    ensures EvalD(p, PolySub(p, [0, 1], [d]), z) == 1
  {
    var f := PolySub(p, [0, 1], [d]);
    ModUnique(p + 1, p, 1, 1);
    ModUnique(p, p, 1, 0);
    ModUnique(1, p, 0, 1);
    forall k
      ensures Coef(Derivative(p, f), k) == Coef([1], k)
    {
      if k >= 1 {
        MulZero(p, k + 1);
      }
    }
    EvalCong(p, Derivative(p, f), [1], z);
    EvalConst(p, 1, z);
  }

  /** The correction polynomial v + (x - d) * c: value v at d, derivative c. */
  lemma HermiteCorrection(p: nat, v: nat, d: nat, c: nat, z: nat)
    requires p > 1 && v < p && d < p && c < p && z < p
    ensures Valid(p, [v]) && Valid(p, PolyMul(p, PolySub(p, [0, 1], [d]), [c]))
    ensures Eval(p, PolyAdd(p, [v], PolyMul(p, PolySub(p, [0, 1], [d]), [c])), z)
            == Add(p, v, Mul(p, Sub(p, z, d), c))
    ensures EvalD(p, PolyAdd(p, [v], PolyMul(p, PolySub(p, [0, 1], [d]), [c])), z) == c
  {
    var f := PolySub(p, [0, 1], [d]);
    var g := PolyMul(p, f, [c]);
    EvalAdd(p, [v], g, z);
    EvalConst(p, v, z);
    EvalMul(p, f, [c], z);
    EvalConst(p, c, z);
    EvalLinearFactor(p, d, z);
    EvalDLinear(p, [v], g, PolyAdd(p, [v], g), z);
    EvalDConst(p, [v], z);
    ProductRule(p, f, [c], z);
    EvalDLinearFactor(p, d, z);
    EvalDConst(p, [c], z);
    MulOne(p, c);
    MulZero(p, Eval(p, f, z));
    AddZero(p, c);
  }

  /** The correction polynomial v + (x - d) * c of a Hermite term. */
  function Correction(p: nat, v: nat, d: nat, c: nat): (r: Poly)
    requires p > 1 && v < p && d < p && c < p
    ensures Valid(p, r) && |r| <= 2
    ensures forall z: nat :: z < p ==> Eval(p, r, z) == Add(p, v, Mul(p, Sub(p, z, d), c)) && EvalD(p, r, z) == c
  {
    forall z: nat | z < p
      ensures Eval(p, PolyAdd(p, [v], PolyMul(p, PolySub(p, [0, 1], [d]), [c])), z) == Add(p, v, Mul(p, Sub(p, z, d), c))
      ensures EvalD(p, PolyAdd(p, [v], PolyMul(p, PolySub(p, [0, 1], [d]), [c])), z) == c
    {
      HermiteCorrection(p, v, d, c, z);
    }
    PolyAdd(p, [v], PolyMul(p, PolySub(p, [0, 1], [d]), [c]))
  }

  /** The Hermite term of the point d: q * (v + (x - d) * (v' - q'(d) * v))
      with q = l * l. */
  function HermiteTermPoly(p: nat, l: Poly, d: nat, v: nat, dv: nat): (r: Poly)
    requires p > 1 && Valid(p, l) && d < p && v < p && dv < p
    ensures Valid(p, r) && |r| <= 2 * |l|
  {
    var q := PolyMul(p, l, l);
    PolyMul(p, q, Correction(p, v, d, Sub(p, dv, Mul(p, EvalD(p, q, d), v))))
  }

  /** The value and the derivative of a Hermite term at z, in terms of the
      value a and the derivative b of l at z. */
  lemma HermiteTermAt(p: nat, l: Poly, d: nat, v: nat, dv: nat, z: nat)
    requires p > 1 && Valid(p, l) && d < p && v < p && dv < p && z < p
    ensures var a, b := Eval(p, l, z), EvalD(p, l, z);
            var q := PolyMul(p, l, l);
            var c := Sub(p, dv, Mul(p, EvalD(p, q, d), v));
            var w := Add(p, v, Mul(p, Sub(p, z, d), c));
            && EvalD(p, q, z) == Add(p, Mul(p, b, a), Mul(p, a, b))
            && Eval(p, HermiteTermPoly(p, l, d, v, dv), z) == Mul(p, Mul(p, a, a), w)
            && EvalD(p, HermiteTermPoly(p, l, d, v, dv), z) == Add(p, Mul(p, Add(p, Mul(p, b, a), Mul(p, a, b)), w), Mul(p, Mul(p, a, a), c))
  {
    var q := PolyMul(p, l, l);
    var c := Sub(p, dv, Mul(p, EvalD(p, q, d), v));
    var pi := Correction(p, v, d, c);
    EvalMul(p, q, pi, z);
    ProductRule(p, q, pi, z);
    EvalMul(p, l, l, z);
    ProductRule(p, l, l, z);
  }

  /** At its own point a term has value v and derivative v'. */
  lemma HermiteAtNode(p: nat, b: nat, v: nat, dv: nat)
    requires p > 1 && b < p && v < p && dv < p
    ensures var e := Add(p, Mul(p, b, 1), Mul(p, 1, b));
            var c := Sub(p, dv, Mul(p, e, v));
            var w := Add(p, v, Mul(p, Sub(p, 0, 0), c));
            Mul(p, Mul(p, 1, 1), w) == v && Add(p, Mul(p, e, w), Mul(p, Mul(p, 1, 1), c)) == dv
  {
    var e := Add(p, Mul(p, b, 1), Mul(p, 1, b));
    var c := Sub(p, dv, Mul(p, e, v));
    ModUnique(p, p, 1, 0);
    assert Sub(p, 0, 0) == 0;
    MulZero(p, c);
    AddZero(p, v);
    MulOne(p, 1);
    MulOne(p, v);
    MulOne(p, c);
    SubAddRoundTrip(p, dv, Mul(p, e, v));
    AddComm(p, Mul(p, e, v), c);
  }

  /** At any other point (where l vanishes) a term has value and
      derivative 0. */
  lemma HermiteOffNode(p: nat, b: nat, w: nat, c: nat)
    requires p > 1
    ensures Mul(p, Mul(p, 0, 0), w) == 0
    ensures Add(p, Mul(p, Add(p, Mul(p, b, 0), Mul(p, 0, b)), w), Mul(p, Mul(p, 0, 0), c)) == 0
  {
    MulZero(p, b);
    AddZero(p, 0);
    MulZero(p, w);
    MulZero(p, c);
  }

  /** A term is v, v' at its own point and 0, 0 at the other points. */
  lemma HermiteTerm(p: nat, points: seq<nat>, i: nat, l: Poly, v: nat, dv: nat, k: nat)
    requires p > 1 && Valid(p, points) && i < |points| && k < |points| && Valid(p, l) && v < p && dv < p
    requires Eval(p, l, points[i]) == 1
    requires k != i ==> Eval(p, l, points[k]) == 0
    ensures Eval(p, HermiteTermPoly(p, l, points[i], v, dv), points[k]) == (if k == i then v else 0)
    ensures EvalD(p, HermiteTermPoly(p, l, points[i], v, dv), points[k]) == (if k == i then dv else 0)
  {
    var d := points[i];
    HermiteTermAt(p, l, d, v, dv, points[k]);
    if k == i {
      HermiteTermAt(p, l, d, v, dv, d);
      SubSelfZero(p, d);
      ModUnique(p, p, 1, 0);
      HermiteAtNode(p, EvalD(p, l, d), v, dv);
    } else {
      var q := PolyMul(p, l, l);
      var c := Sub(p, dv, Mul(p, EvalD(p, q, d), v));
      HermiteOffNode(p, EvalD(p, l, points[k]), Add(p, v, Mul(p, Sub(p, points[k], d), c)), c);
    }
  }

  /** Adding the term of point i to the sum keeps the loop's account of
      values and derivatives at every point. */
  lemma HermiteAccumulate(p: nat, points: seq<nat>, values: seq<nat>, derivatives: seq<nat>, i: nat, acc: Poly, l: Poly, next: Poly)
    requires p > 1 && Valid(p, points) && Valid(p, values) && Valid(p, derivatives)
    requires |values| == |points| && |derivatives| == |points| && i < |points|
    requires Valid(p, acc) && |acc| <= 2 * |points| && Valid(p, l) && |l| <= |points|
    requires Eval(p, l, points[i]) == 1
    requires forall k :: 0 <= k < |points| && k != i ==> Eval(p, l, points[k]) == 0
    requires forall k :: 0 <= k < i ==> Eval(p, acc, points[k]) == values[k] && EvalD(p, acc, points[k]) == derivatives[k]
    requires forall k :: i <= k < |points| ==> Eval(p, acc, points[k]) == 0 && EvalD(p, acc, points[k]) == 0
    requires next == PolyAdd(p, acc, HermiteTermPoly(p, l, points[i], values[i], derivatives[i]))
    ensures Valid(p, next) && |next| <= 2 * |points|
    ensures forall k :: 0 <= k < i + 1 ==> Eval(p, next, points[k]) == values[k] && EvalD(p, next, points[k]) == derivatives[k]
    ensures forall k :: i + 1 <= k < |points| ==> Eval(p, next, points[k]) == 0 && EvalD(p, next, points[k]) == 0
  {
    forall k | 0 <= k < |points|
      ensures Eval(p, next, points[k]) == (if k <= i then values[k] else 0)
      ensures EvalD(p, next, points[k]) == (if k <= i then derivatives[k] else 0)
    {
      AccumulateStep(p, points, values, derivatives, i, acc, l, k);
    }
  }

  /** One point of `HermiteAccumulate`: adding the i-th term sets the value
      and slope at node i and leaves them elsewhere. */
  lemma AccumulateStep(p: nat, points: seq<nat>, values: seq<nat>, derivatives: seq<nat>, i: nat, acc: Poly, l: Poly, k: nat)
    requires p > 1 && Valid(p, points) && Valid(p, values) && Valid(p, derivatives)
    requires |values| == |points| && |derivatives| == |points| && i < |points| && k < |points|
    requires Valid(p, acc) && Valid(p, l)
    requires Eval(p, l, points[i]) == 1 && (k != i ==> Eval(p, l, points[k]) == 0)
    requires Eval(p, acc, points[k]) == (if k < i then values[k] else 0)
    requires EvalD(p, acc, points[k]) == (if k < i then derivatives[k] else 0)
    ensures var next := PolyAdd(p, acc, HermiteTermPoly(p, l, points[i], values[i], derivatives[i]));
      Eval(p, next, points[k]) == (if k <= i then values[k] else 0)
      && EvalD(p, next, points[k]) == (if k <= i then derivatives[k] else 0)
  {
    var t := HermiteTermPoly(p, l, points[i], values[i], derivatives[i]);
    HermiteTerm(p, points, i, l, values[i], derivatives[i], k);
    AccumulateAt(p, acc, t, points[k]);
    AddZero(p, values[k]);
    AddZero(p, derivatives[k]);
    AddZero(p, 0);
  }

  /** Value and slope of a sum at one point. */
  lemma AccumulateAt(p: nat, acc: Poly, t: Poly, z: nat)
    requires p > 1 && Valid(p, acc) && Valid(p, t)
    ensures Eval(p, PolyAdd(p, acc, t), z) == Add(p, Eval(p, acc, z), Eval(p, t, z))
    ensures EvalD(p, PolyAdd(p, acc, t), z) == Add(p, EvalD(p, acc, z), EvalD(p, t, z))
  {
    EvalAdd(p, acc, t, z);
    EvalDLinear(p, acc, t, PolyAdd(p, acc, t), z);
  }

  /** `hermite_interpolation`: the sum over the points of
      q_i * (v_i + (x - d_i) * (v'_i - q_i'(d_i) * v_i)), with q_i the
      square of the Lagrange basis polynomial of d_i. The length assertion
      becomes an error, and `points[0]` fails on empty input. */
  method Hermite(p: nat, points: seq<nat>, values: seq<nat>, derivatives: seq<nat>) returns (r: Result<Poly>)
    requires p > 1 && Valid(p, points) && Valid(p, values) && Valid(p, derivatives)
    ensures r == Err(LengthMismatch) <==> |values| != |points| || |derivatives| != |points|
    ensures r == Err(EmptyInput) <==> |points| == |values| == |derivatives| == 0
    ensures r.Err? && |points| == |values| == |derivatives| > 0 ==> r.error == NotInvertible
    ensures r.Ok? ==> Distinct(points)
    ensures IsPrime(p) && |points| == |values| == |derivatives| > 0 && Distinct(points) ==> r.Ok?
    ensures r.Ok? ==> Valid(p, r.value) && Deg(r.value) < 2 * |points|
    ensures r.Ok? ==> forall k :: 0 <= k < |points| ==> Eval(p, r.value, points[k]) == values[k]
    ensures r.Ok? ==> forall k :: 0 <= k < |points| ==> EvalD(p, r.value, points[k]) == derivatives[k]
  {
    var n := |points|;
    if |values| != n || |derivatives| != n {
      return Err(LengthMismatch);
    }
    if n == 0 {
      return Err(EmptyInput);
    }
    r := HermiteSum(p, points, values, derivatives);
  }

  /** The body of the loop of `hermite_interpolation` after the basis:
      q = l^2, and q * (v + (x - d) * (v' - q'(d) * v)). */
  method HermiteTermOf(p: nat, l: Poly, d: nat, v: nat, dv: nat) returns (t: Poly)
    requires p > 1 && Valid(p, l) && d < p && v < p && dv < p
    ensures t == HermiteTermPoly(p, l, d, v, dv)
  {
    var x: Poly := [Zero(), One()];
    var q := MulPoly(p, l, l);
    var qPrime := Derivative(p, q);
    var slope := Evaluate(p, qPrime, d);
    var c := Sub(p, dv, Mul(p, slope, v));
    var factor := SubPoly(p, x, [d]);
    var g := MulPoly(p, factor, [c]);
    var pi := AddPoly(p, [v], g);
    t := MulPoly(p, q, pi);
    assert slope == EvalD(p, q, d);
    assert pi == Correction(p, v, d, c);
  }

  /** The loop of `hermite_interpolation`, from the accumulator [0]. */
  method HermiteSum(p: nat, points: seq<nat>, values: seq<nat>, derivatives: seq<nat>) returns (r: Result<Poly>)
    requires p > 1 && Valid(p, points) && Valid(p, values) && Valid(p, derivatives)
    requires |values| == |points| && |derivatives| == |points| && |points| > 0
    ensures r.Err? ==> r.error == NotInvertible
    ensures r.Ok? ==> Distinct(points)
    ensures IsPrime(p) && Distinct(points) ==> r.Ok?
    ensures r.Ok? ==> Valid(p, r.value) && Deg(r.value) < 2 * |points|
    ensures r.Ok? ==> forall k :: 0 <= k < |points| ==> Eval(p, r.value, points[k]) == values[k]
    ensures r.Ok? ==> forall k :: 0 <= k < |points| ==> EvalD(p, r.value, points[k]) == derivatives[k]
  {
    var n := |points|;
    DistinctIsolated(points);
    var acc: Poly := [Zero()];
    forall k | 0 <= k < n
      ensures Eval(p, acc, points[k]) == 0 && EvalD(p, acc, points[k]) == 0
    {
      EvalConst(p, 0, points[k]);
      EvalDConst(p, acc, points[k]);
    }
    var i := 0;
    while i < n
      invariant 0 <= i <= n
      invariant Valid(p, acc) && |acc| <= 2 * n
      invariant forall k :: 0 <= k < i ==> Eval(p, acc, points[k]) == values[k] && EvalD(p, acc, points[k]) == derivatives[k]
      invariant forall k :: i <= k < n ==> Eval(p, acc, points[k]) == 0 && EvalD(p, acc, points[k]) == 0
      invariant forall k :: 0 <= k < i ==> Isolated(points, k)
    {
      var basis := HermiteBasis(p, points, i);
      if basis.Err? {
        return Err(basis.error);
      }
      var l := basis.value;
      var t := HermiteTermOf(p, l, points[i], values[i], derivatives[i]);
      var next := AddPoly(p, acc, t);
      HermiteAccumulate(p, points, values, derivatives, i, acc, l, next);
      acc := next;
      i := i + 1;
    }
    return Ok(acc);
  }

  // ---------------------------------------------------------------------
  // Colinearity

  /** Every coordinate of every point is a field element. */
  predicate ValidPoints(p: nat, points: seq<(nat, nat)>)
  {
    forall k :: 0 <= k < |points| ==> points[k].0 < p && points[k].1 < p
  }

  function Xs(points: seq<(nat, nat)>): (r: seq<nat>)
    ensures |r| == |points| && forall k :: 0 <= k < |points| ==> r[k] == points[k].0
  {
    seq(|points|, k requires 0 <= k < |points| => points[k].0)
  }

  function Ys(points: seq<(nat, nat)>): (r: seq<nat>)
    ensures |r| == |points| && forall k :: 0 <= k < |points| ==> r[k] == points[k].1
  {
    seq(|points|, k requires 0 <= k < |points| => points[k].1)
  }

  /** The polynomial `line` has degree one and passes through every point. */
  ghost predicate LineThrough(p: nat, line: Poly, points: seq<(nat, nat)>)
    requires p > 1
  {
    Valid(p, line) && Deg(line) == 1 && forall k :: 0 <= k < |points| ==> Eval(p, line, points[k].0) == points[k].1
  }

  /** `test_colinearity`: interpolate through the points and ask whether the
      interpolant has degree exactly one. A true answer always means the
      points lie on a non-horizontal line; over a prime field with at least
      two (distinct) points the converse holds too, since the interpolant
      is unique. */
  method TestColinearity(p: nat, points: seq<(nat, nat)>) returns (r: Result<bool>)
    requires p > 1 && ValidPoints(p, points)
    ensures r == Err(EmptyInput) <==> |points| == 0
    ensures r.Err? && |points| > 0 ==> r.error == NotInvertible
    ensures r.Ok? ==> Distinct(Xs(points))
    ensures IsPrime(p) && |points| > 0 && Distinct(Xs(points)) ==> r.Ok?
    ensures r == Ok(true) ==> exists line: Poly :: LineThrough(p, line, points)
    ensures IsPrime(p) && |points| >= 2 && r.Ok? ==> (r.value <==> exists line: Poly :: LineThrough(p, line, points))
  {
    var domain := Xs(points);
    var values := Ys(points);
    var poly := Lagrange(p, domain, values);
    if poly.Err? {
      return Err(poly.error);
    }
    var d := Degree(poly.value);
    if d == 1 {
      assert LineThrough(p, poly.value, points);
    }
    if IsPrime(p) && |points| >= 2 {
      forall line: Poly | LineThrough(p, line, points)
        ensures Deg(poly.value) == 1
      {
        InterpolantUnique(p, poly.value, line, domain);
        DegCong(poly.value, line);
      }
    }
    return Ok(d == 1);
  }
}
