/** Elements of the function field of y^2 = x^3 + A*x + B, written
    f(x, y) = a(x) − y*b(x), their norm, evaluation and product, and the
    two divisor-witness routines: `test_witness` and the Mumford
    construction of a function vanishing at every point of multiplicity
    one. */
module FunctionField {
  import opened Errors
  import opened Modular
  import opened Field
  import opened PolySpec
  import opened PolyEval
  import opened Polynomial
  import opened Curve
  import Divisor

  /** f(x, y) = a(x) − y*b(x). */
  datatype FunctionFelt = FunctionFelt(a: Poly, b: Poly)

  predicate ValidFelt(p: nat, f: FunctionFelt)
  {
    Valid(p, f.a) && Valid(p, f.b)
  }

  /** The neutral element of multiplication, a = [1], b = [0]. */
  function Unit(): FunctionFelt
  {
    FunctionFelt([1], [0])
  }

  /** x^3 + A*x + B as the coefficient list [B, A, 0, 1]. */
  function CurvePoly(p: nat, a: nat, b: nat): (r: Poly)
    requires p > 1
    ensures Valid(p, r) && |r| == 4 && Deg(r) == 3
  {
    [b % p, a % p, 0, 1]
  }

  // ---------------------------------------------------------------------
  // Evaluation, norm and product

  /** `FunctionFelt.evaluate`: a(x) − y*b(x) at an affine point; the
      identity has no coordinates to evaluate at. */
  function Evaluate(p: nat, f: FunctionFelt, pt: Point): (r: Result<nat>)
    requires p > 1
    ensures r.Err? <==> pt.Identity?
    ensures r.Err? ==> r.error == IdentityCoordinate
    ensures r.Ok? ==> r.value < p
  {
    if pt.Identity? then Err(IdentityCoordinate)
    else Ok(Sub(p, Eval(p, f.a, pt.x), Mul(p, pt.y, Eval(p, f.b, pt.x))))
  }

  /** `FunctionFelt.norm`: a*a − (x^3 + A*x + B)*b*b. */
  function Norm(p: nat, a: nat, b: nat, f: FunctionFelt): (r: Poly)
    requires p > 1 && ValidFelt(p, f)
    ensures Valid(p, r)
  {
    PolySub(p, PolyMul(p, f.a, f.a), PolyMul(p, PolyMul(p, CurvePoly(p, a, b), f.b), f.b))
  }

  /** `FunctionFelt.__mul__`: y^2 is replaced by x^3 + A*x + B, so
      res_a = a*a' + (x^3 + A*x + B)*b*b' and res_b = a*b' + b*a'. */
  function Product(p: nat, a: nat, b: nat, f: FunctionFelt, g: FunctionFelt): (r: FunctionFelt)
    requires p > 1 && ValidFelt(p, f) && ValidFelt(p, g)
    ensures ValidFelt(p, r)
  {
    var resB := PolyAdd(p, PolyMul(p, f.a, g.b), PolyMul(p, f.b, g.a));
    var resA := PolyAdd(p, PolyMul(p, f.a, g.a), PolyMul(p, PolyMul(p, CurvePoly(p, a, b), f.b), g.b));
    FunctionFelt(resA, resB)
  }

  /** The starting value of `mumford_witness`'s product, a = [1], b = [0],
      is neutral on both sides: the product with it agrees with the other
      factor coefficient by coefficient. */
  lemma UnitNeutral(p: nat, a: nat, b: nat, g: FunctionFelt)
    requires p > 1 && ValidFelt(p, g)
    ensures ValidFelt(p, Unit())
    ensures PolyEq(Product(p, a, b, Unit(), g).a, g.a) && PolyEq(Product(p, a, b, Unit(), g).b, g.b)
    ensures PolyEq(Product(p, a, b, g, Unit()).a, g.a) && PolyEq(Product(p, a, b, g, Unit()).b, g.b)
  {
    var c := CurvePoly(p, a, b);
    MulUnit(p, g.a);
    MulUnit(p, g.b);
    MulUnit(p, c);
    ZeroTimes(p, PolyMul(p, c, [0]), g.b);
    TimesZero(p, PolyMul(p, c, g.b), [0]);
    AddRightZero(p, PolyMul(p, [1], g.a), PolyMul(p, PolyMul(p, c, [0]), g.b), g.a);
    AddRightZero(p, PolyMul(p, [1], g.b), PolyMul(p, [0], g.a), g.b);
    AddRightZero(p, PolyMul(p, g.a, [1]), PolyMul(p, PolyMul(p, c, g.b), [0]), g.a);
    AddLeftZero(p, PolyMul(p, g.a, [0]), PolyMul(p, g.b, [1]), g.b);
  }

  /** u + z with z of degree -1 agrees with whatever u agrees with. */
  lemma AddRightZero(p: nat, u: Poly, z: Poly, v: Poly)
    requires p > 1 && Valid(p, u) && Valid(p, z) && PolyEq(u, v) && Deg(z) == -1
    ensures PolyEq(PolyAdd(p, u, z), v)
  {
    DegCoef(z);
    forall k
      ensures Coef(PolyAdd(p, u, z), k) == Coef(v, k)
    {
      AddZero(p, Coef(u, k));
    }
  }

  /** z + u with z of degree -1 agrees with whatever u agrees with. */
  lemma AddLeftZero(p: nat, z: Poly, u: Poly, v: Poly)
    requires p > 1 && Valid(p, u) && Valid(p, z) && PolyEq(u, v) && Deg(z) == -1
    ensures PolyEq(PolyAdd(p, z, u), v)
  {
    DegCoef(z);
    forall k
      ensures Coef(PolyAdd(p, z, u), k) == Coef(v, k)
    {
      AddZero(p, Coef(u, k));
    }
  }

  // ---------------------------------------------------------------------
  // Integer bookkeeping

  lemma CongMod(p: nat, v: int)
    requires p > 1
    ensures Cong(p, v % p, v)
  {
    ModMultiple(-(v / p), p);
    assert v % p - v == (-(v / p)) * p;
  }

  lemma CurveIdentity(a: int, b: int, z: int)
    ensures b + z * (a + z * z) == z * z * z + a * z + b
  {
  }

  lemma ProductIdentity(a1: int, b1: int, a2: int, b2: int, y: int)
    ensures a1 * a2 + y * y * b1 * b2 - y * (a1 * b2 + b1 * a2) == (a1 - y * b1) * (a2 - y * b2)
  {
  }

  lemma NormIdentity(a: int, b: int, y: int)
    ensures a * a - y * y * b * b == (a - y * b) * (a - (-y) * b)
  {
  }

  /** Horner's rule on [B, A, 0, 1]: B + z*(A + z*z). */
  lemma CurvePolyHorner(p: nat, a: nat, b: nat, z: nat)
    requires p > 1 && z < p
    ensures Eval(p, CurvePoly(p, a, b), z) == Field.Add(p, b % p, Mul(p, z, Field.Add(p, a % p, Mul(p, z, z))))
  {
    var c := CurvePoly(p, a, b);
    EvalFront(p, c, z);
    assert c[1..] == [a % p, 0, 1];
    EvalFront(p, [a % p, 0, 1], z);
    assert [a % p, 0, 1][1..] == [0, 1];
    EvalX(p, z);
  }

  /** One more factor z on each side of a congruence for z^n. */
  lemma PowStepCong(p: nat, z: nat, n: nat, c: int)
    requires p > 1 && Cong(p, FPow(p, z, n), c)
    ensures Cong(p, FPow(p, z, n + 1), c * z)
  {
    CongRefl(p, z);
    CMul(p, FPow(p, z, n), z, c, z);
  }

  /** z^3 by repeated multiplication is congruent to z*z*z. */
  lemma CubeCong(p: nat, z: nat)
    requires p > 1
    ensures Cong(p, FPow(p, z, 3), z * z * z)
  {
    var iz: int := z;
    CongRefl(p, 1);
    PowStepCong(p, z, 0, 1);
    assert 1 * iz == iz;
    PowStepCong(p, z, 1, iz);
    PowStepCong(p, z, 2, iz * iz);
  }

  /** The curve polynomial at z is the right-hand side of the curve
      equation. */
  lemma CurvePolyEval(p: nat, a: nat, b: nat, z: nat)
    requires p > 1 && z < p
    ensures Eval(p, CurvePoly(p, a, b), z) == Field.Add(p, Field.Add(p, FPow(p, z, 3), Mul(p, a, z)), b % p)
  {
    CurvePolyHorner(p, a, b, z);
    var zz := Mul(p, z, z);
    var inner := Field.Add(p, a % p, zz);
    var lhs := Field.Add(p, b % p, Mul(p, z, inner));
    CongRefl(p, z);
    CongMod(p, a);
    CongMod(p, b);
    CMul(p, z, z, z, z);
    CAdd(p, a % p, zz, a, z * z);
    CMul(p, z, inner, z, a + z * z);
    CAdd(p, b % p, Mul(p, z, inner), b, z * (a + z * z));
    CubeCong(p, z);
    CongRefl(p, a);
    CMul(p, a, z, a, z);
    var p3 := FPow(p, z, 3);
    CAdd(p, p3, Mul(p, a, z), z * z * z, a * z);
    var sum := Field.Add(p, p3, Mul(p, a, z));
    CAdd(p, sum, b % p, z * z * z + a * z, b);
    CurveIdentity(a, b, z);
    CongSame(p, lhs, Field.Add(p, sum, b % p), z * z * z + a * z + b);
  }

  /** On the curve, y*y is the curve polynomial at x. */
  lemma SquareOnCurve(p: nat, a: nat, b: nat, pt: Point)
    requires p > 1 && pt.Affine? && ValidPoint(p, pt) && OnCurve(p, a, b, pt)
    ensures Eval(p, CurvePoly(p, a, b), pt.x) == Mul(p, pt.y, pt.y)
  {
    Square(p, pt.y);
    CurvePolyEval(p, a, b, pt.x);
  }

  lemma ProductAlgebra(p: nat, a1: nat, b1: nat, a2: nat, b2: nat, y: nat, e: nat)
    requires p > 1 && a1 < p && b1 < p && a2 < p && b2 < p && y < p && e == Mul(p, y, y)
    ensures Sub(p, Field.Add(p, Mul(p, a1, a2), Mul(p, Mul(p, e, b1), b2)),
                Mul(p, y, Field.Add(p, Mul(p, a1, b2), Mul(p, b1, a2))))
            == Mul(p, Sub(p, a1, Mul(p, y, b1)), Sub(p, a2, Mul(p, y, b2)))
  {
    CongRefl(p, a1);
    CongRefl(p, b1);
    CongRefl(p, a2);
    CongRefl(p, b2);
    CongRefl(p, y);
    CMul(p, y, y, y, y);
    CMul(p, e, b1, y * y, b1);
    CMul(p, Mul(p, e, b1), b2, y * y * b1, b2);
    CMul(p, a1, a2, a1, a2);
    CAdd(p, Mul(p, a1, a2), Mul(p, Mul(p, e, b1), b2), a1 * a2, y * y * b1 * b2);
    CMul(p, a1, b2, a1, b2);
    CMul(p, b1, a2, b1, a2);
    var m := Field.Add(p, Mul(p, a1, b2), Mul(p, b1, a2));
    CAdd(p, Mul(p, a1, b2), Mul(p, b1, a2), a1 * b2, b1 * a2);
    CMul(p, y, m, y, a1 * b2 + b1 * a2);
    var l := Field.Add(p, Mul(p, a1, a2), Mul(p, Mul(p, e, b1), b2));
    CSub(p, l, Mul(p, y, m), a1 * a2 + y * y * b1 * b2, y * (a1 * b2 + b1 * a2));
    CMul(p, y, b1, y, b1);
    CMul(p, y, b2, y, b2);
    CSub(p, a1, Mul(p, y, b1), a1, y * b1);
    CSub(p, a2, Mul(p, y, b2), a2, y * b2);
    CMul(p, Sub(p, a1, Mul(p, y, b1)), Sub(p, a2, Mul(p, y, b2)), a1 - y * b1, a2 - y * b2);
    ProductIdentity(a1, b1, a2, b2, y);
    CongSame(p, Sub(p, l, Mul(p, y, m)), Mul(p, Sub(p, a1, Mul(p, y, b1)), Sub(p, a2, Mul(p, y, b2))),
             (a1 - y * b1) * (a2 - y * b2));
  }

  lemma NormAlgebra(p: nat, a: nat, b: nat, y: nat, e: nat)
    requires p > 1 && a < p && b < p && y < p && e == Mul(p, y, y)
    ensures Sub(p, Mul(p, a, a), Mul(p, Mul(p, e, b), b))
            == Mul(p, Sub(p, a, Mul(p, y, b)), Sub(p, a, Mul(p, Neg(p, y), b)))
  {
    var iy: int := y;
    CongRefl(p, a);
    CongRefl(p, b);
    CongRefl(p, y);
    CMul(p, y, y, y, y);
    CMul(p, e, b, y * y, b);
    CMul(p, Mul(p, e, b), b, y * y * b, b);
    CMul(p, a, a, a, a);
    CSub(p, Mul(p, a, a), Mul(p, Mul(p, e, b), b), a * a, y * y * b * b);
    CNeg(p, y, iy);
    CMul(p, y, b, y, b);
    CMul(p, Neg(p, y), b, -iy, b);
    CSub(p, a, Mul(p, y, b), a, y * b);
    CSub(p, a, Mul(p, Neg(p, y), b), a, (-iy) * b);
    CMul(p, Sub(p, a, Mul(p, y, b)), Sub(p, a, Mul(p, Neg(p, y), b)), a - y * b, a - (-iy) * b);
    NormIdentity(a, b, iy);
    CongSame(p, Sub(p, Mul(p, a, a), Mul(p, Mul(p, e, b), b)),
             Mul(p, Sub(p, a, Mul(p, y, b)), Sub(p, a, Mul(p, Neg(p, y), b))),
             (a - iy * b) * (a - (-iy) * b));
  }

  // ---------------------------------------------------------------------
  // The stated properties of evaluation, norm and product

  /** Evaluation is multiplicative at every point of the curve: the
      substitution of y^2 in `__mul__` is exact there. */
  lemma EvaluateProduct(p: nat, a: nat, b: nat, f: FunctionFelt, g: FunctionFelt, pt: Point)
    requires p > 1 && ValidFelt(p, f) && ValidFelt(p, g)
    requires pt.Affine? && ValidPoint(p, pt) && OnCurve(p, a, b, pt)
    ensures Evaluate(p, Product(p, a, b, f, g), pt).value
            == Mul(p, Evaluate(p, f, pt).value, Evaluate(p, g, pt).value)
  {
    var x, y := pt.x, pt.y;
    var c := CurvePoly(p, a, b);
    var a1, b1, a2, b2 := Eval(p, f.a, x), Eval(p, f.b, x), Eval(p, g.a, x), Eval(p, g.b, x);
    var e := Eval(p, c, x);
    SquareOnCurve(p, a, b, pt);
    EvalMul(p, f.a, g.b, x);
    EvalMul(p, f.b, g.a, x);
    EvalAdd(p, PolyMul(p, f.a, g.b), PolyMul(p, f.b, g.a), x);
    EvalMul(p, f.a, g.a, x);
    EvalMul(p, c, f.b, x);
    EvalMul(p, PolyMul(p, c, f.b), g.b, x);
    EvalAdd(p, PolyMul(p, f.a, g.a), PolyMul(p, PolyMul(p, c, f.b), g.b), x);
    ProductAlgebra(p, a1, b1, a2, b2, y, e);
  }

  /** The norm at x is f(x, y) * f(x, −y) for a point (x, y) of the curve. */
  lemma NormIsProduct(p: nat, a: nat, b: nat, f: FunctionFelt, pt: Point)
    requires p > 1 && ValidFelt(p, f)
    requires pt.Affine? && ValidPoint(p, pt) && OnCurve(p, a, b, pt)
    ensures Eval(p, Norm(p, a, b, f), pt.x)
            == Mul(p, Evaluate(p, f, pt).value, Evaluate(p, f, Negate(p, pt)).value)
  {
    var x, y := pt.x, pt.y;
    var c := CurvePoly(p, a, b);
    var e := Eval(p, c, x);
    SquareOnCurve(p, a, b, pt);
    EvalMul(p, f.a, f.a, x);
    EvalMul(p, c, f.b, x);
    EvalMul(p, PolyMul(p, c, f.b), f.b, x);
    EvalSub(p, PolyMul(p, f.a, f.a), PolyMul(p, PolyMul(p, c, f.b), f.b), x);
    NormAlgebra(p, Eval(p, f.a, x), Eval(p, f.b, x), y, e);
  }

  /** The neutral element is one everywhere. */
  lemma EvaluateUnit(p: nat, pt: Point)
    requires p > 1 && pt.Affine?
    ensures Evaluate(p, Unit(), pt) == Ok(1)
  {
    EvalConst(p, 1, pt.x);
    EvalConst(p, 0, pt.x);
    MulZero(p, pt.y);
    ModUnique(p + 1, p, 1, 1);
  }

  /** A product vanishes wherever a factor does. */
  lemma ProductVanishes(p: nat, a: nat, b: nat, f: FunctionFelt, g: FunctionFelt, pt: Point)
    requires p > 1 && ValidFelt(p, f) && ValidFelt(p, g)
    requires pt.Affine? && ValidPoint(p, pt) && OnCurve(p, a, b, pt)
    requires Evaluate(p, f, pt) == Ok(0) || Evaluate(p, g, pt) == Ok(0)
    ensures Evaluate(p, Product(p, a, b, f, g), pt) == Ok(0)
  {
    EvaluateProduct(p, a, b, f, g, pt);
    MulZero(p, Evaluate(p, f, pt).value);
    MulZero(p, Evaluate(p, g, pt).value);
  }

  // ---------------------------------------------------------------------
  // test_witness

  /** An item `test_witness` accepts: the identity, or a point of
      non-negative multiplicity at which f vanishes. */
  predicate Accepted(p: nat, f: FunctionFelt, e: (Point, int))
    requires p > 1
  {
    e.0.Identity? || (e.1 >= 0 && Evaluate(p, f, e.0) == Ok(0))
  }

  /** Every item before position i is accepted. */
  predicate AcceptedBefore(p: nat, f: FunctionFelt, es: Divisor.Entries, i: int)
    requires p > 1 && i <= |es|
  {
    forall j :: 0 <= j < i ==> Accepted(p, f, es[j])
  }

  /** Item i is the first one rejected. */
  predicate RejectedAt(p: nat, f: FunctionFelt, es: Divisor.Entries, i: int)
    requires p > 1
  {
    0 <= i < |es| && AcceptedBefore(p, f, es, i) && !Accepted(p, f, es[i])
  }

  /** `test_witness`: the items in dictionary order; the identity is
      skipped, a negative multiplicity raises, the first point where f does
      not vanish gives False, and True once every item has passed. */
  method TestWitness(p: nat, f: FunctionFelt, d: Divisor.Divisor) returns (r: Result<bool>)
    requires p > 1
    ensures r == Ok(true) <==> AcceptedBefore(p, f, d.points, |d.points|)
    ensures r == Ok(false) <==> exists i :: RejectedAt(p, f, d.points, i) && d.points[i].1 >= 0
    ensures r.Err? <==> exists i :: RejectedAt(p, f, d.points, i) && d.points[i].1 < 0
    ensures r.Err? ==> r.error == NegativeMultiplicity
  {
    var es := d.points;
    var i := 0;
    while i < |es|
      invariant 0 <= i <= |es|
      invariant AcceptedBefore(p, f, es, i)
    {
      var (pt, m) := es[i];
      if pt.Identity? {
        i := i + 1;
        continue;
      }
      if m < 0 {
        FirstFailure(p, f, es, i);
        return Err(NegativeMultiplicity);
      }
      var v := Evaluate(p, f, pt);
      if v.value != 0 {
        FirstFailure(p, f, es, i);
        return Ok(false);
      }
      i := i + 1;
    }
    return Ok(true);
  }

  /** The first rejected item is the only one with every earlier item
      accepted. */
  lemma FirstFailure(p: nat, f: FunctionFelt, es: Divisor.Entries, i: int)
    requires p > 1 && RejectedAt(p, f, es, i)
    ensures forall k :: RejectedAt(p, f, es, k) ==> k == i
  {
  }

  // ---------------------------------------------------------------------
  // mumford_witness

  /** The factor for a point of multiplicity one: with
      (s, t, g) = xgcd(x − x_P, y_P), the element g − y*t. By Bezout,
      s*(x − x_P) + t*y_P == g, so it vanishes at P. */
  method PointFactor(p: nat, pt: Point) returns (r: Result<FunctionFelt>)
    requires p > 1 && pt.Affine? && ValidPoint(p, pt)
    ensures r.Ok? ==> ValidFelt(p, r.value) && Evaluate(p, r.value, pt) == Ok(0)
    ensures r.Err? ==> r.error == NotInvertible
    ensures IsPrime(p) ==> r.Ok?
  {
    var u := SubPoly(p, [0, 1], [pt.x]);
    var v := [pt.y];
    assert Coef(u, 1) == Sub(p, 1, 0);
    ModUnique(1, p, 0, 1);
    DegCoef(u);
    var g := XGcd(p, u, v);
    if g.Err? {
      return Err(g.error);
    }
    var (s, t, a) := g.value;
    FactorVanishes(p, pt, u, v, s, t, a);
    return Ok(FunctionFelt(a, t));
  }

  /** The Bezout relation evaluated at x_P. */
  lemma FactorVanishes(p: nat, pt: Point, u: Poly, v: Poly, s: Poly, t: Poly, g: Poly)
    requires p > 1 && pt.Affine? && ValidPoint(p, pt)
    requires u == PolySub(p, [0, 1], [pt.x]) && v == [pt.y]
    requires Valid(p, s) && Valid(p, t) && Valid(p, g)
    requires PolyEq(PolyAdd(p, PolyMul(p, s, u), PolyMul(p, t, v)), g)
    ensures Evaluate(p, FunctionFelt(g, t), pt) == Ok(0)
  {
    var x, y := pt.x, pt.y;
    EvalSub(p, [0, 1], [x], x);
    EvalX(p, x);
    EvalConst(p, x, x);
    SubSelfZero(p, x);
    EvalConst(p, y, x);
    EvalCong(p, PolyAdd(p, PolyMul(p, s, u), PolyMul(p, t, v)), g, x);
    EvalAdd(p, PolyMul(p, s, u), PolyMul(p, t, v), x);
    EvalMul(p, s, u, x);
    EvalMul(p, t, v, x);
    var tx := Eval(p, t, x);
    MulZero(p, Eval(p, s, x));
    AddZero(p, Mul(p, tx, y));
    MulComm(p, tx, y);
    SubSelfZero(p, Mul(p, y, tx));
  }

  /** An item `mumford_witness` can handle: the identity, or a point of
      multiplicity zero or one. */
  predicate Handled(e: (Point, int))
  {
    e.0.Identity? || 0 <= e.1 <= 1
  }

  predicate HandledBefore(es: Divisor.Entries, i: int)
    requires i <= |es|
  {
    forall j :: 0 <= j < i ==> Handled(es[j])
  }

  /** Item i is the first one that cannot be handled. */
  predicate RefusedAt(es: Divisor.Entries, i: int)
  {
    0 <= i < |es| && HandledBefore(es, i) && !Handled(es[i])
  }

  /** The error raised for an item it cannot handle. */
  function Refusal(e: (Point, int)): (r: Error)
  {
    if e.1 < 0 then NegativeMultiplicity else NotImplemented
  }

  /** A point of multiplicity one on the curve: the witness must vanish
      there. */
  predicate SimpleOnCurve(p: nat, a: nat, b: nat, e: (Point, int))
    requires p > 1
  {
    e.0.Affine? && e.1 == 1 && OnCurve(p, a, b, e.0)
  }

  /** No point of multiplicity one before position i. */
  predicate NoSimpleBefore(es: Divisor.Entries, i: int)
    requires i <= |es|
  {
    forall j :: 0 <= j < i ==> es[j].0.Identity? || es[j].1 != 1
  }

  /** Multiplying in the factor of item i keeps the witness vanishing at
      the earlier points and makes it vanish at item i. */
  lemma AppendFactor(p: nat, a: nat, b: nat, es: Divisor.Entries, i: int, res: FunctionFelt, factor: FunctionFelt)
    requires p > 1 && 0 <= i < |es| && es[i].0.Affine? && ValidPoint(p, es[i].0)
    requires forall j :: 0 <= j < |es| ==> ValidPoint(p, es[j].0)
    requires ValidFelt(p, res) && ValidFelt(p, factor) && Evaluate(p, factor, es[i].0) == Ok(0)
    requires forall j :: 0 <= j < i && SimpleOnCurve(p, a, b, es[j]) ==> Evaluate(p, res, es[j].0) == Ok(0)
    ensures forall j :: 0 <= j <= i && SimpleOnCurve(p, a, b, es[j])
              ==> Evaluate(p, Product(p, a, b, res, factor), es[j].0) == Ok(0)
  {
    forall j | 0 <= j <= i && SimpleOnCurve(p, a, b, es[j])
      ensures Evaluate(p, Product(p, a, b, res, factor), es[j].0) == Ok(0)
    {
      ProductVanishes(p, a, b, res, factor, es[j].0);
    }
  }

  /** `mumford_witness`: the product, in dictionary order, of the factor
      of every point of multiplicity one, starting from the neutral
      element. The identity and multiplicity zero are skipped; a negative
      multiplicity raises ValueError and a larger one NotImplementedError
      (Hensel lifting). `is_principal` is a parameter. */
  method MumfordWitness(p: nat, a: nat, b: nat, d: Divisor.Divisor, isPrincipal: bool)
    returns (r: Result<FunctionFelt>)
    requires p > 1 && forall i :: 0 <= i < |d.points| ==> ValidPoint(p, d.points[i].0)
    ensures !isPrincipal ==> r == Err(NotPrincipal)
    ensures r.Ok? ==> ValidFelt(p, r.value) && HandledBefore(d.points, |d.points|)
    ensures r.Ok? ==> forall i :: 0 <= i < |d.points| && SimpleOnCurve(p, a, b, d.points[i])
                        ==> Evaluate(p, r.value, d.points[i].0) == Ok(0)
    ensures r.Ok? && NoSimpleBefore(d.points, |d.points|) ==> r.value == Unit()
    ensures isPrincipal && IsPrime(p) ==> (r.Ok? <==> HandledBefore(d.points, |d.points|))
    ensures isPrincipal && IsPrime(p) ==> forall i :: RefusedAt(d.points, i) ==> r == Err(Refusal(d.points[i]))
    ensures r.Err? && r.error == NotInvertible ==> !IsPrime(p)
  {
    if !isPrincipal {
      return Err(NotPrincipal);
    }
    var es := d.points;
    var res := Unit();
    var i := 0;
    while i < |es|
      invariant 0 <= i <= |es|
      invariant ValidFelt(p, res) && HandledBefore(es, i)
      invariant forall j :: 0 <= j < i && SimpleOnCurve(p, a, b, es[j]) ==> Evaluate(p, res, es[j].0) == Ok(0)
      invariant NoSimpleBefore(es, i) ==> res == Unit()
    {
      var (pt, m) := es[i];
      if pt.Identity? {
        i := i + 1;
        continue;
      }
      if m < 0 {
        FirstRefusal(es, i);
        return Err(NegativeMultiplicity);
      }
      if m == 0 {
        i := i + 1;
        continue;
      }
      if m == 1 {
        var factor := PointFactor(p, pt);
        if factor.Err? {
          return Err(factor.error);
        }
        AppendFactor(p, a, b, es, i, res, factor.value);
        res := Product(p, a, b, res, factor.value);
        i := i + 1;
        continue;
      }
      FirstRefusal(es, i);
      return Err(NotImplemented);
    }
    NoRefusal(es);
    return Ok(res);
  }

  /** The first item that cannot be handled is the only one whose
      predecessors are all handled. */
  lemma FirstRefusal(es: Divisor.Entries, i: int)
    requires RefusedAt(es, i)
    ensures forall k :: RefusedAt(es, k) ==> k == i
  {
  }

  lemma NoRefusal(es: Divisor.Entries)
    requires HandledBefore(es, |es|)
    ensures forall k :: !RefusedAt(es, k)
  {
  }

  // ---------------------------------------------------------------------
  // The module's own check

  /** The check the module runs on a divisor of points of multiplicity
      one (plus the identity): `test_witness(mumford_witness(D), D)` is
      True. */
  method SimpleDivisorWitness(p: nat, a: nat, b: nat, d: Divisor.Divisor) returns (r: Result<bool>)
    requires IsPrime(p) && forall i :: 0 <= i < |d.points| ==> ValidPoint(p, d.points[i].0)
    requires forall i :: 0 <= i < |d.points| ==> d.points[i].0.Identity? || SimpleOnCurve(p, a, b, d.points[i])
    ensures r == Ok(true)
  {
    var f := MumfordWitness(p, a, b, d, true);
    assert f.Ok?;
    r := TestWitness(p, f.value, d);
    assert AcceptedBefore(p, f.value, d.points, |d.points|);
  }
}
