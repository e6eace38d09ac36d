/** `RationalFunction`: an unreduced pair of polynomials over the field.
    Products and sums cross-multiply and are never brought to lowest terms,
    so a common factor of numerator and denominator is kept, poles and all. */
module RationalFunction {
  import opened Errors
  import opened Modular
  import opened Field
  import opened PolySpec
  import opened PolyEval

  datatype RatFun = RatFun(num: Poly, den: Poly)

  /** The value of `evaluate`: a field element, or the pole sentinel `INF`. */
  datatype RValue = Finite(v: nat) | Inf

  /** The right operand of `*`, `+` and `-`: an `int`, a field element, a
      polynomial or another rational function. */
  datatype Operand = OfInt(i: int) | OfFelt(e: nat) | OfPoly(q: Poly) | OfRat(f: RatFun)

  predicate ValidRat(p: nat, f: RatFun)
  {
    Valid(p, f.num) && Valid(p, f.den)
  }

  predicate ValidOperand(p: nat, op: Operand)
  {
    match op
    case OfInt(_) => true
    case OfFelt(e) => e < p
    case OfPoly(q) => Valid(p, q)
    case OfRat(f) => ValidRat(p, f)
  }

  /** The operand as a rational function: anything that is not one already
      gets the denominator [1]. An `int` n becomes the constant n mod p:
      `Felt(n, Fp)` keeps n unreduced, but every use of it in `*` and `+`
      passes through a field multiplication, which reduces it. */
  function LiftOperand(p: nat, op: Operand): (r: RatFun)
    requires p > 1 && ValidOperand(p, op)
    ensures ValidRat(p, r)
    ensures !op.OfRat? ==> r.den == [One()]
    ensures op.OfRat? ==> r == op.f
  {
    match op
    case OfInt(i) => RatFun([Lift(p, i)], [One()])
    case OfFelt(e) => RatFun([e], [One()])
    case OfPoly(q) => RatFun(q, [One()])
    case OfRat(f) => f
  }

  /** `-other` as Python computes it before `+`: the integer, the field
      element, the polynomial or the rational function negated. */
  function NegOperand(p: nat, op: Operand): (r: Operand)
    requires p > 1 && ValidOperand(p, op)
    ensures ValidOperand(p, r)
    ensures op.OfRat? <==> r.OfRat?
    ensures LiftOperand(p, r).den == LiftOperand(p, op).den
  {
    match op
    case OfInt(i) => OfInt(-i)
    case OfFelt(e) => OfFelt(Neg(p, e))
    case OfPoly(q) => OfPoly(PolyNeg(p, q))
    case OfRat(f) => OfRat(Negation(p, f))
  }

  /** `RationalFunction.evaluate`: num(x) / den(x). A `ZeroDivisionError`
      (a zero denominator) is caught and gives `INF`; a non-invertible
      denominator (composite modulus) is not caught. */
  function Evaluate(p: nat, f: RatFun, x: nat): (r: Result<RValue>)
    requires p > 1 && ValidRat(p, f)
    ensures r == Ok(Inf) <==> Eval(p, f.den, x) == 0
    ensures r.Ok? && r.value.Finite? ==> r.value.v < p && Mul(p, r.value.v, Eval(p, f.den, x)) == Eval(p, f.num, x)
    ensures r.Err? ==> r.error == NotInvertible
    ensures IsPrime(p) ==> r.Ok?
  {
    ModUnique(Eval(p, f.num, x), p, 0, Eval(p, f.num, x));
    match Div(p, Eval(p, f.num, x), Eval(p, f.den, x))
    case Ok(v) => Ok(Finite(v))
    case Err(e) => if e == DivisionByZero then Ok(Inf) else Err(e)
  }

  /** x is a pole: the denominator vanishes there. */
  predicate Pole(p: nat, f: RatFun, x: nat)
    requires p > 1
  {
    Eval(p, f.den, x) == 0
  }

  /** Over a prime field a product of denominators vanishes exactly where
      one of them does: no pole is lost or gained. */
  lemma DenominatorRoots(p: nat, c: Poly, d: Poly)
    requires p > 1 && Valid(p, c) && Valid(p, d)
    ensures IsPrime(p) ==> forall x :: Eval(p, PolyMul(p, c, d), x) == 0 <==> Eval(p, c, x) == 0 || Eval(p, d, x) == 0
  {
    if IsPrime(p) {
      forall x
        ensures Eval(p, PolyMul(p, c, d), x) == 0 <==> Eval(p, c, x) == 0 || Eval(p, d, x) == 0
      {
        EvalMul(p, c, d, x);
        NoZeroDivisors(p, Eval(p, c, x), Eval(p, d, x));
      }
    }
  }

  /** `__mul__` (and `__rmul__`): numerators and denominators multiplied. */
  function Product(p: nat, f: RatFun, op: Operand): (r: RatFun)
    requires p > 1 && ValidRat(p, f) && ValidOperand(p, op)
    ensures ValidRat(p, r)
    ensures IsPrime(p) ==> forall x :: Pole(p, r, x) <==> Pole(p, f, x) || Pole(p, LiftOperand(p, op), x)
  {
    var g := LiftOperand(p, op);
    DenominatorRoots(p, f.den, g.den);
    RatFun(PolyMul(p, f.num, g.num), PolyMul(p, f.den, g.den))
  }

  /** `__add__` (and `__radd__`): cross-multiplied over the product of the
      denominators. */
  function Sum(p: nat, f: RatFun, op: Operand): (r: RatFun)
    requires p > 1 && ValidRat(p, f) && ValidOperand(p, op)
    ensures ValidRat(p, r)
    ensures IsPrime(p) ==> forall x :: Pole(p, r, x) <==> Pole(p, f, x) || Pole(p, LiftOperand(p, op), x)
  {
    var g := LiftOperand(p, op);
    DenominatorRoots(p, f.den, g.den);
    RatFun(PolyAdd(p, PolyMul(p, f.num, g.den), PolyMul(p, f.den, g.num)), PolyMul(p, f.den, g.den))
  }

  /** `__neg__`: only the numerator is negated. */
  function Negation(p: nat, f: RatFun): (r: RatFun)
    requires p > 1 && ValidRat(p, f)
    ensures ValidRat(p, r) && r.den == f.den
  {
    RatFun(PolyNeg(p, f.num), f.den)
  }

  /** `__sub__`: self + (-other). */
  function Difference(p: nat, f: RatFun, op: Operand): (r: RatFun)
    requires p > 1 && ValidRat(p, f) && ValidOperand(p, op)
    ensures ValidRat(p, r)
    ensures IsPrime(p) ==> forall x :: Pole(p, r, x) <==> Pole(p, f, x) || Pole(p, LiftOperand(p, op), x)
  {
    Sum(p, f, NegOperand(p, op))
  }

  /** `__rsub__`: other - self, computed as (-self) + other. */
  function ReverseDifference(p: nat, f: RatFun, op: Operand): (r: RatFun)
    requires p > 1 && ValidRat(p, f) && ValidOperand(p, op)
    ensures ValidRat(p, r)
    ensures IsPrime(p) ==> forall x :: Pole(p, r, x) <==> Pole(p, f, x) || Pole(p, LiftOperand(p, op), x)
  {
    Sum(p, Negation(p, f), op)
  }

  // ---------------------------------------------------------------------
  // Values at a point

  /** The value at a point where the denominator does not vanish, over a
      prime field: the unique v with v * den(x) == num(x). */
  function Value(p: nat, f: RatFun, x: nat): (v: nat)
    requires IsPrime(p) && ValidRat(p, f) && Eval(p, f.den, x) != 0
    ensures v < p && Mul(p, v, Eval(p, f.den, x)) == Eval(p, f.num, x)
    ensures Evaluate(p, f, x) == Ok(Finite(v))
  {
    Evaluate(p, f, x).value.v
  }

  /** Any w with w * den(x) == num(x) is the value. */
  lemma ValueUnique(p: nat, f: RatFun, x: nat, w: nat)
    requires IsPrime(p) && ValidRat(p, f) && Eval(p, f.den, x) != 0
    requires w < p && Mul(p, w, Eval(p, f.den, x)) == Eval(p, f.num, x)
    ensures Value(p, f, x) == w
  {
    MulCancel(p, Value(p, f, x), w, Eval(p, f.den, x));
  }

  /** The field element an operand that is not a rational function stands
      for at x. */
  function PlainValue(p: nat, op: Operand, x: nat): (r: nat)
    requires p > 1 && ValidOperand(p, op) && !op.OfRat?
    ensures r < p
  {
    match op
    case OfInt(i) => Lift(p, i)
    case OfFelt(e) => e
    case OfPoly(q) => Eval(p, q, x)
  }

  /** Lifting keeps the value: an int, field element or polynomial evaluates,
      as a rational function with denominator [1], to itself. */
  lemma LiftValue(p: nat, op: Operand, x: nat)
    requires IsPrime(p) && ValidOperand(p, op) && !op.OfRat?
    ensures Eval(p, LiftOperand(p, op).den, x) == 1
    ensures Value(p, LiftOperand(p, op), x) == PlainValue(p, op, x)
  {
    var g := LiftOperand(p, op);
    var c := PlainValue(p, op, x);
    EvalConst(p, 1, x);
    assert Eval(p, g.num, x) == c by {
      if !op.OfPoly? {
        EvalConst(p, c, x);
      }
    }
    MulOne(p, c);
    ValueUnique(p, g, x, c);
  }

  /** Negating the operand negates its value and keeps its denominator. */
  lemma NegOperandValue(p: nat, op: Operand, x: nat)
    requires IsPrime(p) && ValidOperand(p, op) && Eval(p, LiftOperand(p, op).den, x) != 0
    ensures Eval(p, LiftOperand(p, NegOperand(p, op)).den, x) == Eval(p, LiftOperand(p, op).den, x)
    ensures Value(p, LiftOperand(p, NegOperand(p, op)), x) == Neg(p, Value(p, LiftOperand(p, op), x))
  {
    if op.OfRat? {
      var f := op.f;
      EvalNeg(p, f.num, x);
      NegMul(p, Value(p, f, x), Eval(p, f.den, x));
      ValueUnique(p, Negation(p, f), x, Neg(p, Value(p, f, x)));
    } else {
      LiftValue(p, op, x);
      LiftValue(p, NegOperand(p, op), x);
      if op.OfInt? {
        LiftNeg(p, op.i);
      } else if op.OfPoly? {
        EvalNeg(p, op.q, x);
      }
    }
  }

  /** Where both denominators are non-zero (prime field), the product
      evaluates to the product of the values. */
  lemma EvaluateProduct(p: nat, f: RatFun, op: Operand, x: nat)
    requires IsPrime(p) && ValidRat(p, f) && ValidOperand(p, op)
    requires Eval(p, f.den, x) != 0 && Eval(p, LiftOperand(p, op).den, x) != 0
    ensures Evaluate(p, Product(p, f, op), x) == Ok(Finite(Mul(p, Value(p, f, x), Value(p, LiftOperand(p, op), x))))
  {
    var g := LiftOperand(p, op);
    var r := Product(p, f, op);
    var df, dg := Eval(p, f.den, x), Eval(p, g.den, x);
    EvalMul(p, f.num, g.num, x);
    EvalMul(p, f.den, g.den, x);
    NoZeroDivisors(p, df, dg);
    MulSwap(p, Value(p, f, x), Value(p, g, x), df, dg);
    ValueUnique(p, r, x, Mul(p, Value(p, f, x), Value(p, g, x)));
  }

  /** (vf + vg) * (df * dg) == (vf * df) * dg + df * (vg * dg). */
  lemma SumAlgebra(p: nat, vf: nat, df: nat, vg: nat, dg: nat)
    requires p > 1
    ensures Mul(p, Field.Add(p, vf, vg), Mul(p, df, dg))
            == Field.Add(p, Mul(p, Mul(p, vf, df), dg), Mul(p, df, Mul(p, vg, dg)))
  {
    CAdd(p, vf, vg, vf, vg);
    CMul(p, df, dg, df, dg);
    CMul(p, Field.Add(p, vf, vg), Mul(p, df, dg), vf + vg, df * dg);
    CMul(p, vf, df, vf, df);
    CMul(p, Mul(p, vf, df), dg, vf * df, dg);
    CMul(p, vg, dg, vg, dg);
    CMul(p, df, Mul(p, vg, dg), df, vg * dg);
    CAdd(p, Mul(p, Mul(p, vf, df), dg), Mul(p, df, Mul(p, vg, dg)), vf * df * dg, df * (vg * dg));
    assert (vf + vg) * (df * dg) == vf * df * dg + df * (vg * dg);
    CongSame(p, Mul(p, Field.Add(p, vf, vg), Mul(p, df, dg)),
             Field.Add(p, Mul(p, Mul(p, vf, df), dg), Mul(p, df, Mul(p, vg, dg))), (vf + vg) * (df * dg));
  }

  /** Where both denominators are non-zero (prime field), the sum evaluates
      to the sum of the values. */
  lemma EvaluateSum(p: nat, f: RatFun, op: Operand, x: nat)
    requires IsPrime(p) && ValidRat(p, f) && ValidOperand(p, op)
    requires Eval(p, f.den, x) != 0 && Eval(p, LiftOperand(p, op).den, x) != 0
    ensures Evaluate(p, Sum(p, f, op), x) == Ok(Finite(Field.Add(p, Value(p, f, x), Value(p, LiftOperand(p, op), x))))
  {
    var g := LiftOperand(p, op);
    var r := Sum(p, f, op);
    var df, dg := Eval(p, f.den, x), Eval(p, g.den, x);
    EvalAdd(p, PolyMul(p, f.num, g.den), PolyMul(p, f.den, g.num), x);
    EvalMul(p, f.num, g.den, x);
    EvalMul(p, f.den, g.num, x);
    EvalMul(p, f.den, g.den, x);
    NoZeroDivisors(p, df, dg);
    SumAlgebra(p, Value(p, f, x), df, Value(p, g, x), dg);
    ValueUnique(p, r, x, Field.Add(p, Value(p, f, x), Value(p, g, x)));
  }

  /** Negation keeps the poles and negates the value elsewhere. */
  lemma EvaluateNegation(p: nat, f: RatFun, x: nat)
    requires IsPrime(p) && ValidRat(p, f)
    ensures Eval(p, f.den, x) == 0 ==> Evaluate(p, Negation(p, f), x) == Ok(Inf)
    ensures Eval(p, f.den, x) != 0 ==> Evaluate(p, Negation(p, f), x) == Ok(Finite(Neg(p, Value(p, f, x))))
  {
    if Eval(p, f.den, x) != 0 {
      EvalNeg(p, f.num, x);
      NegMul(p, Value(p, f, x), Eval(p, f.den, x));
      ValueUnique(p, Negation(p, f), x, Neg(p, Value(p, f, x)));
    }
  }

  /** Where both denominators are non-zero (prime field), `f - other`
      evaluates to the difference of the values. */
  lemma EvaluateDifference(p: nat, f: RatFun, op: Operand, x: nat)
    requires IsPrime(p) && ValidRat(p, f) && ValidOperand(p, op)
    requires Eval(p, f.den, x) != 0 && Eval(p, LiftOperand(p, op).den, x) != 0
    ensures Evaluate(p, Difference(p, f, op), x) == Ok(Finite(Field.Sub(p, Value(p, f, x), Value(p, LiftOperand(p, op), x))))
  {
    NegOperandValue(p, op, x);
    EvaluateSum(p, f, NegOperand(p, op), x);
    SubIsAddNeg(p, Value(p, f, x), Value(p, LiftOperand(p, op), x));
  }

  /** Where both denominators are non-zero (prime field), `other - f`
      evaluates to the difference of the values. */
  lemma EvaluateReverseDifference(p: nat, f: RatFun, op: Operand, x: nat)
    requires IsPrime(p) && ValidRat(p, f) && ValidOperand(p, op)
    requires Eval(p, f.den, x) != 0 && Eval(p, LiftOperand(p, op).den, x) != 0
    ensures Evaluate(p, ReverseDifference(p, f, op), x) == Ok(Finite(Field.Sub(p, Value(p, LiftOperand(p, op), x), Value(p, f, x))))
  {
    var nf := Negation(p, f);
    EvaluateNegation(p, f, x);
    EvaluateSum(p, nf, op, x);
    ValueUnique(p, nf, x, Neg(p, Value(p, f, x)));
    AddComm(p, Neg(p, Value(p, f, x)), Value(p, LiftOperand(p, op), x));
    SubIsAddNeg(p, Value(p, LiftOperand(p, op), x), Value(p, f, x));
  }

  /** Nothing is cancelled: a pole of either operand is a pole of the
      product and of the sum, in any field. */
  lemma PolesKept(p: nat, f: RatFun, op: Operand, x: nat)
    requires p > 1 && ValidRat(p, f) && ValidOperand(p, op)
    requires Eval(p, f.den, x) == 0 || Eval(p, LiftOperand(p, op).den, x) == 0
    ensures Evaluate(p, Product(p, f, op), x) == Ok(Inf)
    ensures Evaluate(p, Sum(p, f, op), x) == Ok(Inf)
  {
    var g := LiftOperand(p, op);
    EvalMul(p, f.den, g.den, x);
    MulZero(p, Eval(p, f.den, x));
    MulZero(p, Eval(p, g.den, x));
  }

  /** With a lifted operand the denominator stays that of f (up to
      trailing zeros): the lifted denominator is [1]. */
  lemma LiftedDenominator(p: nat, f: RatFun, op: Operand)
    requires p > 1 && ValidRat(p, f) && ValidOperand(p, op) && !op.OfRat?
    ensures PolyEq(Product(p, f, op).den, f.den) && PolyEq(Sum(p, f, op).den, f.den)
  {
    assert Mono(0, 1) == [One()];
    forall k
      ensures Coef(PolyMul(p, f.den, [One()]), k) == Coef(f.den, k)
    {
      ConvMonoRight(p, f.den, 0, 1, k);
      CoefValid(p, f.den);
      MulOne(p, Coef(f.den, k));
    }
  }
}
