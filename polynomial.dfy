/** The loops of `src/polynomial.py`, each proved against the specification
    functions of `PolySpec` and `PolyEval`. A `Polynomial` object is its
    coefficient list; every operation returns a fresh list, as the source
    returns a fresh object. */
module Polynomial {
  import opened Errors
  import opened Modular
  import opened Field
  import opened PolySpec
  import opened PolyEval

  // ---------------------------------------------------------------------
  // degree, ==, is_zero

  /** `Polynomial.degree`: -1 for an empty or all-zero list, else the last
      index scanned that holds a non-zero coefficient. */
  method Degree(a: Poly) returns (d: int)
    ensures d == Deg(a)
    ensures d == -1 <==> forall i :: 0 <= i < |a| ==> a[i] == 0
    ensures d >= 0 ==> d < |a| && a[d] != 0 && forall i :: d < i < |a| ==> a[i] == 0
  {
    if |a| == 0 {
      return -1;
    }
    var allZero := true;
    for i := 0 to |a|
      invariant allZero <==> forall j :: 0 <= j < i ==> a[j] == 0
    {
      if a[i] != 0 {
        allZero := false;
      }
    }
    if allZero {
      DegUnique(a, -1);
      return -1;
    }
    var maxindex := 0;
    for i := 0 to |a|
      invariant 0 <= maxindex < |a|
      invariant (exists j :: 0 <= j < i && a[j] != 0) ==> a[maxindex] != 0
      invariant forall j :: maxindex < j < i ==> a[j] == 0
    {
      if a[i] != 0 {
        maxindex := i;
      }
    }
    DegUnique(a, maxindex);
    return maxindex;
  }

  lemma EqualDegrees(a: Poly, b: Poly)
    ensures PolyEq(a, b) ==> Deg(a) == Deg(b)
  {
    if PolyEq(a, b) {
      DegCong(a, b);
    }
  }

  /** `Polynomial.__eq__`: equal degrees, then the common prefix compared
      position by position. */
  method Equal(a: Poly, b: Poly) returns (r: bool)
    ensures r <==> PolyEq(a, b)
  {
    EqualDegrees(a, b);
    DegCoef(a);
    DegCoef(b);
    var da := Degree(a);
    var db := Degree(b);
    if da != db {
      return false;
    }
    if da == -1 {
      return true;
    }
    var m := if |a| < |b| then |a| else |b|;
    for i := 0 to m
      invariant forall j :: 0 <= j < i ==> a[j] == b[j]
    {
      if a[i] != b[i] {
        assert Coef(a, i) != Coef(b, i);
        return false;
      }
    }
    forall k
      ensures Coef(a, k) == Coef(b, k)
    {
      if 0 <= k < m {
        assert a[k] == b[k];
      }
    }
    return true;
  }

  /** `Polynomial.is_zero` (the second definition in the class, which is
      the one in effect): every coefficient is zero. */
  method IsZero(a: Poly) returns (r: bool)
    ensures r <==> Deg(a) == -1
  {
    if |a| == 0 {
      return true;
    }
    for i := 0 to |a|
      invariant forall j :: 0 <= j < i ==> a[j] == 0
    {
      if a[i] != 0 {
        return false;
      }
    }
    return true;
  }

  // ---------------------------------------------------------------------
  // +, -, *

  /** `Polynomial.__add__`: an operand of degree -1 is returned unchanged;
      otherwise both operands are accumulated into a zero buffer of the
      longer length. */
  method AddPoly(p: nat, a: Poly, b: Poly) returns (r: Poly)
    requires p > 1 && Valid(p, a) && Valid(p, b)
    ensures r == PolyAdd(p, a, b)
  {
    var da := Degree(a);
    if da == -1 {
      return b;
    }
    var db := Degree(b);
    if db == -1 {
      return a;
    }
    var n := Max(|a|, |b|);
    var coeffs := seq(n, i => Zero());
    for i := 0 to |a|
      invariant |coeffs| == n
      invariant forall k :: 0 <= k < n ==> coeffs[k] == Coef(a[..i], k)
    {
      AddZero(p, a[i]);
      coeffs := coeffs[i := Add(p, coeffs[i], a[i])];
    }
    assert a[..|a|] == a;
    AddStart(p, a, b, coeffs);
    for i := 0 to |b|
      invariant |coeffs| == n
      invariant forall k :: 0 <= k < n ==> coeffs[k] == Add(p, Coef(a, k), Coef(b[..i], k))
    {
      AddStep(p, a, b, i, coeffs);
      coeffs := coeffs[i := Add(p, coeffs[i], b[i])];
    }
    assert b[..|b|] == b;
    assert coeffs == PadAdd(p, a, b);
    return coeffs;
  }

  /** Before the second loop of `__add__` the buffer holds a. */
  lemma AddStart(p: nat, a: Poly, b: Poly, coeffs: seq<nat>)
    requires p > 1 && Valid(p, a)
    requires forall k :: 0 <= k < |coeffs| ==> coeffs[k] == Coef(a, k)
    ensures forall k :: 0 <= k < |coeffs| ==> coeffs[k] == Add(p, Coef(a, k), Coef(b[..0], k))
  {
    forall k | 0 <= k < |coeffs|
      ensures coeffs[k] == Add(p, Coef(a, k), Coef(b[..0], k))
    {
      CoefValid(p, a);
      AddZero(p, Coef(a, k));
    }
  }

  /** One round of the second loop of `__add__`: adding b_i at index i
      extends the sum by one coefficient of b. */
  lemma AddStep(p: nat, a: Poly, b: Poly, i: nat, coeffs: seq<nat>)
    requires p > 1 && Valid(p, a) && i < |b| && i < |coeffs|
    requires forall k :: 0 <= k < |coeffs| ==> coeffs[k] == Add(p, Coef(a, k), Coef(b[..i], k))
    ensures forall k :: 0 <= k < |coeffs| ==>
      coeffs[i := Add(p, coeffs[i], b[i])][k] == Add(p, Coef(a, k), Coef(b[..i + 1], k))
  {
    CoefValid(p, a);
    AddZero(p, Coef(a, i));
    forall k | 0 <= k < |coeffs|
      ensures coeffs[i := Add(p, coeffs[i], b[i])][k] == Add(p, Coef(a, k), Coef(b[..i + 1], k))
    {
      if k != i {
        assert Coef(b[..i + 1], k) == Coef(b[..i], k);
      }
    }
  }

  /** `Polynomial.__sub__`: the sum with the negation. */
  method SubPoly(p: nat, a: Poly, b: Poly) returns (r: Poly)
    requires p > 1 && Valid(p, a) && Valid(p, b)
    ensures r == PolySub(p, a, b)
  {
    r := AddPoly(p, a, PolyNeg(p, b));
  }

  /** Appending the coefficient a_i adds a_i * b_(k-i) to the k-th
      convolution term. */
  lemma ConvSnoc(p: nat, a: Poly, b: Poly, i: nat)
    requires p > 1 && Valid(p, a) && Valid(p, b) && i < |a|
    ensures forall k :: Conv(p, a[..i + 1], b, k) == Add(p, Conv(p, a[..i], b, k), Mul(p, a[i], Coef(b, k - i)))
  {
    forall j
      ensures Coef(a[..i + 1], j) == Add(p, Coef(a[..i], j), Coef(Mono(i, a[i]), j))
    {
      if j == i {
        AddZero(p, a[i]);
      } else {
        AddZero(p, Coef(a[..i], j));
      }
    }
    forall k
      ensures Conv(p, a[..i + 1], b, k) == Add(p, Conv(p, a[..i], b, k), Mul(p, a[i], Coef(b, k - i)))
    {
      ConvFromLinearLeft(p, a[..i], Mono(i, a[i]), a[..i + 1], b, k, 0);
      ConvMonoLeft(p, i, a[i], b, k);
    }
  }

  /** `Polynomial.__mul__`: schoolbook multiplication into a zero buffer of
      length |a| + |b| - 1, skipping zero coefficients of a. */
  method MulPoly(p: nat, a: Poly, b: Poly) returns (r: Poly)
    requires p > 1 && Valid(p, a) && Valid(p, b)
    ensures r == PolyMul(p, a, b)
  {
    if |a| == 0 || |b| == 0 {
      return [];
    }
    var n := |a| + |b| - 1;
    var buf := seq(n, k => Zero());
    ConvVanishes(p, a[..0], b);
    for i := 0 to |a|
      invariant |buf| == n
      invariant forall k :: 0 <= k < n ==> buf[k] == Conv(p, a[..i], b, k)
    {
      ConvSnoc(p, a, b, i);
      MulZero(p, a[i]);
      if a[i] != 0 {
        // the source skips zero coefficients of a
        for j := 0 to |b|
          invariant |buf| == n
          invariant forall k :: 0 <= k < n ==>
            buf[k] == if i <= k < i + j then Conv(p, a[..i + 1], b, k) else Conv(p, a[..i], b, k)
        {
          buf := buf[i + j := Add(p, buf[i + j], Mul(p, a[i], b[j]))];
        }
      }
      forall k | 0 <= k < n && !(i <= k < i + |b|)
        ensures Conv(p, a[..i + 1], b, k) == Conv(p, a[..i], b, k)
      {
        MulZero(p, a[i]);
        AddZero(p, Conv(p, a[..i], b, k));
      }
      forall k | 0 <= k < n && a[i] == 0
        ensures Conv(p, a[..i + 1], b, k) == Conv(p, a[..i], b, k)
      {
        AddZero(p, Conv(p, a[..i], b, k));
      }
    }
    assert a[..|a|] == a;
    return buf;
  }

  // ---------------------------------------------------------------------
  // evaluate, __xor__

  /** `Polynomial.evaluate`: the sum of c_i * x^i, with the power of the
      point kept in a running variable. */
  method Evaluate(p: nat, a: Poly, z: nat) returns (value: nat)
    requires p > 1
    ensures value == PowerSum(p, a, z, |a|)
    ensures value == Eval(p, a, z)
  {
    var xi := One();
    value := Zero();
    for i := 0 to |a|
      invariant value == PowerSum(p, a, z, i) && xi == FPow(p, z, i)
    {
      value := Add(p, value, Mul(p, a[i], xi));
      xi := Mul(p, xi, z);
    }
    EvalIsPowerSum(p, a, z);
  }

  /** `Polynomial.__xor__`: the zero polynomial gives [] (even for exponent
      0), exponent 0 gives [1], and otherwise MSB-first square-and-multiply
      over the binary digits of the exponent. */
  method Power(p: nat, a: Poly, e: nat) returns (r: Poly)
    requires p > 1 && Valid(p, a)
    ensures Valid(p, r)
    ensures Deg(a) == -1 ==> r == []
    ensures Deg(a) != -1 ==> PolyEq(r, PolyPow(p, a, e))
    ensures Deg(a) != -1 && e == 0 ==> r == [One()]
  {
    var zero := IsZero(a);
    if zero {
      return [];
    }
    if e == 0 {
      return [One()];
    }
    var acc := [One()];
    ShrBinLen(e);
    for i := BinLen(e) downto 0
      invariant Valid(p, acc) && PolyEq(acc, PolyPow(p, a, Shr(e, i)))
    {
      ShrStep(e, i);
      var s := Shr(e, i + 1);
      assert Shr(e, i) == s + s + (if Bit(e, i) then 1 else 0);
      SquareStep(p, a, acc, s);
      acc := MulPoly(p, acc, acc);
      if Bit(e, i) {
        MulCong(p, acc, PolyPow(p, a, s + s), a, a);
        acc := MulPoly(p, acc, a);
      }
    }
    return acc;
  }

  /** Squaring a^s gives a^(s+s). */
  lemma SquareStep(p: nat, a: Poly, acc: Poly, s: nat)
    requires p > 1 && PolyEq(acc, PolyPow(p, a, s))
    ensures PolyEq(PolyMul(p, acc, acc), PolyPow(p, a, s + s))
  {
    MulCong(p, acc, PolyPow(p, a, s), acc, PolyPow(p, a, s));
    PolyPowAdd(p, a, s, s);
  }

  // ---------------------------------------------------------------------
  // divide, /, //, %

  /** The k-th convolution term for a left factor w whose coefficients are
      those of u minus those of v. */
  lemma ConvSubLeft(p: nat, u: Poly, v: Poly, w: Poly, b: Poly, k: int)
    requires p > 1 && Valid(p, u) && Valid(p, v)
    requires forall j :: Coef(w, j) == Sub(p, Coef(u, j), Coef(v, j))
    ensures Conv(p, w, b, k) == Sub(p, Conv(p, u, b, k), Conv(p, v, b, k))
  {
    SubCoefs(p, u, v);
    ConvFromLinearLeft(p, u, PolyNeg(p, v), w, b, k, 0);
    ConvFromNegLeft(p, v, PolyNeg(p, v), b, k, 0);
    SubIsAddNeg(p, Conv(p, u, b, k), Conv(p, v, b, k));
  }

  lemma {:induction false} ConvFromNegRight(p: nat, a: Poly, b1: Poly, b2: Poly, k: int, i: nat)
    requires p > 1 && Valid(p, b1)
    requires forall j :: Coef(b2, j) == Neg(p, Coef(b1, j))
    ensures ConvFrom(p, a, b2, k, i) == Neg(p, ConvFrom(p, a, b1, k, i))
    decreases k + 1 - i
  {
    if i > k {
      NegZero(p);
    } else {
      ConvFromNegRight(p, a, b1, b2, k, i + 1);
      MulNegRight(p, Coef(a, i), Coef(b1, k - i));
      NegAdd(p, Mul(p, Coef(a, i), Coef(b1, k - i)), ConvFrom(p, a, b1, k, i + 1));
    }
  }

  /** The same for a right factor w whose coefficients are those of u
      minus those of v. */
  lemma ConvSubRight(p: nat, a: Poly, u: Poly, v: Poly, w: Poly, k: int)
    requires p > 1 && Valid(p, u) && Valid(p, v)
    requires forall j :: Coef(w, j) == Sub(p, Coef(u, j), Coef(v, j))
    ensures Conv(p, a, w, k) == Sub(p, Conv(p, a, u, k), Conv(p, a, v, k))
  {
    SubCoefs(p, u, v);
    ConvFromLinearRight(p, a, u, PolyNeg(p, v), w, k, 0);
    ConvFromNegRight(p, a, v, PolyNeg(p, v), k, 0);
    SubIsAddNeg(p, Conv(p, a, u, k), Conv(p, a, v, k));
  }

  /** An all-zero left factor gives a product of degree -1. */
  lemma ZeroTimes(p: nat, z: Poly, d: Poly)
    requires p > 1 && Deg(z) == -1
    ensures Deg(PolyMul(p, z, d)) == -1
  {
    DegCoef(z);
    forall j
      ensures Coef(z, j) == Coef([], j)
    {
    }
    forall k
      ensures Coef(PolyMul(p, z, d), k) == 0
    {
      ConvFromCong(p, z, [], d, d, k, 0);
      ConvFromVanishes(p, [], d, k, 0);
    }
    DegBelow(PolyMul(p, z, d), 0);
  }

  /** Past the left factor's degree the remaining terms of a convolution
      vanish. */
  lemma {:induction false} ConvFromPastLead(p: nat, a: Poly, b: Poly, k: int, i: nat)
    requires p > 1 && Deg(a) < i
    ensures ConvFrom(p, a, b, k, i) == 0
    decreases k + 1 - i
  {
    if i <= k {
      ConvFromPastLead(p, a, b, k, i + 1);
      DegCoef(a);
      MulZero(p, Coef(b, k - i));
      AddZero(p, 0);
    }
  }

  /** Above deg a + deg b every term of the convolution has a vanishing
      factor. */
  lemma {:induction false} ConvFromAboveDegrees(p: nat, a: Poly, b: Poly, k: int, i: nat)
    requires p > 1 && Deg(a) + Deg(b) < k
    ensures ConvFrom(p, a, b, k, i) == 0
    decreases k + 1 - i
  {
    if i <= k {
      ConvFromAboveDegrees(p, a, b, k, i + 1);
      DegCoef(a);
      DegCoef(b);
      assert Coef(a, i) == 0 || Coef(b, k - i) == 0;
      MulZero(p, Coef(a, i));
      MulZero(p, Coef(b, k - i));
      AddZero(p, 0);
    }
  }

  /** At index deg a + deg b only the product of the leading coefficients
      contributes to the convolution. */
  lemma {:induction false} ConvFromLead(p: nat, a: Poly, b: Poly, i: nat)
    requires p > 1 && Deg(a) >= 0 && Deg(b) >= 0 && i <= Deg(a)
    ensures ConvFrom(p, a, b, Deg(a) + Deg(b), i) == Mul(p, a[Deg(a)], b[Deg(b)])
    decreases Deg(a) - i
  {
    var k := Deg(a) + Deg(b);
    var lead := Mul(p, a[Deg(a)], b[Deg(b)]);
    if i == Deg(a) {
      ConvFromPastLead(p, a, b, k, i + 1);
      AddZero(p, lead);
    } else {
      ConvFromLead(p, a, b, i + 1);
      DegCoef(b);
      assert Coef(b, k - i) == 0;
      MulZero(p, Coef(a, i));
      AddZero(p, lead);
    }
  }

  /** Over a prime field the degree of a product of two non-zero
      polynomials is the sum of their degrees. */
  lemma MulDegree(p: nat, a: Poly, b: Poly)
    requires IsPrime(p) && Valid(p, a) && Valid(p, b) && Deg(a) >= 0 && Deg(b) >= 0
    ensures Deg(PolyMul(p, a, b)) == Deg(a) + Deg(b)
  {
    var m := PolyMul(p, a, b);
    ConvFromLead(p, a, b, 0);
    NoZeroDivisors(p, a[Deg(a)], b[Deg(b)]);
    assert Coef(m, Deg(a) + Deg(b)) != 0;
    forall k | Deg(a) + Deg(b) + 1 <= k
      ensures Coef(m, k) == 0
    {
      ConvFromAboveDegrees(p, a, b, k, 0);
    }
    DegBelow(m, Deg(a) + Deg(b) + 1);
    DegCoef(m);
  }

  /** Over a prime field, once n is a multiple q*d of d, any quotient and
      remainder quo*d + rem == n with deg rem < deg d have rem == 0: the
      difference (q - quo)*d equals rem, and a non-zero multiple of d has
      degree at least deg d. */
  lemma RemainderOfMultiple(p: nat, n: Poly, d: Poly, q: Poly, quo: Poly, rem: Poly)
    requires IsPrime(p) && Valid(p, d) && Valid(p, q) && Valid(p, quo) && Valid(p, rem)
    requires Deg(d) >= 0 && Deg(rem) < Deg(d)
    requires PolyEq(PolyMul(p, q, d), n) && PolyEq(PolyAdd(p, PolyMul(p, quo, d), rem), n)
    ensures Deg(rem) == -1
  {
    var e := PolySub(p, q, quo);
    forall k
      ensures Coef(PolyMul(p, e, d), k) == Coef(rem, k)
    {
      DifferenceCoef(p, n, d, q, quo, rem, k);
    }
    DegCong(PolyMul(p, e, d), rem);
    if Deg(e) >= 0 {
      MulDegree(p, e, d);
      assert false;
    } else {
      ZeroTimes(p, e, d);
    }
  }

  lemma DifferenceCoef(p: nat, n: Poly, d: Poly, q: Poly, quo: Poly, rem: Poly, k: int)
    requires p > 1 && Valid(p, q) && Valid(p, quo) && Valid(p, rem)
    requires PolyEq(PolyMul(p, q, d), n) && PolyEq(PolyAdd(p, PolyMul(p, quo, d), rem), n)
    ensures Coef(PolyMul(p, PolySub(p, q, quo), d), k) == Coef(rem, k)
  {
    var e := PolySub(p, q, quo);
    ConvSubLeft(p, q, quo, e, d, k);
    assert Coef(n, k) == Conv(p, q, d, k);
    assert Coef(n, k) == Add(p, Conv(p, quo, d, k), Coef(rem, k));
    CoefValid(p, rem);
    AddSubLeft(p, Conv(p, quo, d, k), Coef(rem, k));
  }

  /** d divides n: n is q*d for some polynomial q. */
  ghost predicate DividesPoly(p: nat, d: Poly, n: Poly)
    requires p > 1
  {
    exists q: Poly {:trigger PolyMul(p, q, d)} :: Valid(p, q) && PolyEq(PolyMul(p, q, d), n)
  }

  /** With a zero remainder the quotient alone rebuilds n, so d divides n. */
  lemma ExactQuotient(p: nat, n: Poly, d: Poly, quo: Poly, rem: Poly)
    requires p > 1 && Valid(p, quo) && Valid(p, rem) && Deg(rem) == -1
    requires PolyEq(PolyAdd(p, PolyMul(p, quo, d), rem), n)
    ensures PolyEq(PolyMul(p, quo, d), n) && DividesPoly(p, d, n)
  {
    var t := PolyMul(p, quo, d);
    DegCoef(rem);
    forall k
      ensures Coef(t, k) == Coef(n, k)
    {
      AddZero(p, Coef(t, k));
    }
  }

  /** The remainder of a multiple is zero, for every multiple. */
  lemma MultipleRemainder(p: nat, n: Poly, d: Poly, quo: Poly, rem: Poly)
    requires IsPrime(p) && Valid(p, d) && Valid(p, quo) && Valid(p, rem)
    requires Deg(d) >= 0 && Deg(rem) < Deg(d)
    requires PolyEq(PolyAdd(p, PolyMul(p, quo, d), rem), n)
    ensures DividesPoly(p, d, n) ==> Deg(rem) == -1
  {
    if DividesPoly(p, d, n) {
      var q: Poly :| Valid(p, q) && PolyEq(PolyMul(p, q, d), n);
      RemainderOfMultiple(p, n, d, q, quo, rem);
    }
  }

  /** One round of long division: subtracting c*x^s*d, where c*lc(d) ==
      lc(rem), lowers the degree of the remainder and, with c recorded at
      position s of the quotient, keeps quo*d + rem unchanged. */
  lemma DivideStep(p: nat, d: Poly, quo: Poly, rem: Poly, c: nat, s: nat)
    requires p > 1 && Valid(p, d) && Valid(p, quo) && Valid(p, rem) && c < p
    requires Deg(d) >= 0 && Deg(rem) >= Deg(d) && s == Deg(rem) - Deg(d)
    requires s < |quo| && quo[s] == 0
    requires Mul(p, c, d[Deg(d)]) == rem[Deg(rem)]
    ensures Deg(PolySub(p, rem, PolyMul(p, Mono(s, c), d))) < Deg(rem)
    ensures PolyEq(PolyAdd(p, PolyMul(p, quo[s := c], d), PolySub(p, rem, PolyMul(p, Mono(s, c), d))),
                   PolyAdd(p, PolyMul(p, quo, d), rem))
  {
    var t := PolyMul(p, Mono(s, c), d);
    var rem' := PolySub(p, rem, t);
    var quo' := quo[s := c];
    DegCoef(rem);
    DegCoef(d);
    forall k | k >= Deg(rem)
      ensures Coef(rem', k) == 0
    {
      ConvMonoLeft(p, s, c, d, k);
      if k == Deg(rem) {
        SubSelfZero(p, rem[Deg(rem)]);
      } else {
        MulZero(p, c);
        SubSelfZero(p, 0);
      }
    }
    DegBelow(rem', Deg(rem));
    forall j
      ensures Coef(quo', j) == Add(p, Coef(quo, j), Coef(Mono(s, c), j))
    {
      if j == s {
        AddZero(p, c);
      } else {
        AddZero(p, Coef(quo, j));
      }
    }
    forall k
      ensures Coef(PolyAdd(p, PolyMul(p, quo', d), rem'), k) == Coef(PolyAdd(p, PolyMul(p, quo, d), rem), k)
    {
      ConvFromLinearLeft(p, quo, Mono(s, c), quo', d, k, 0);
      AddSubCancel(p, Conv(p, quo, d, k), Conv(p, Mono(s, c), d, k), Coef(rem, k));
    }
  }

  predicate ZeroUpTo(q: Poly, m: int)
  {
    forall k :: 0 <= k < |q| && k <= m ==> q[k] == 0
  }

  lemma ZeroUpToUpdate(q: Poly, m: int, s: nat, c: nat)
    requires ZeroUpTo(q, s) && s < |q| && m < s
    ensures ZeroUpTo(q[s := c], m)
  {
  }

  /** quo*d + rem stands for n (the loop invariant of `Divide`, stated on
      trimmed lists). */
  predicate Rebuilds(p: nat, n: Poly, d: Poly, quo: Poly, rem: Poly)
    requires p > 1 && Valid(p, quo) && Valid(p, rem)
  {
    Trim(PolyAdd(p, PolyMul(p, quo, d), rem)) == Trim(n)
  }

  lemma DivideRound(p: nat, n: Poly, d: Poly, quo: Poly, rem: Poly, c: nat, quo': Poly, rem': Poly)
    requires p > 1 && Valid(p, d) && Valid(p, quo) && Valid(p, rem) && c < p
    requires Deg(d) >= 0 && Deg(rem) >= Deg(d) && Deg(rem) - Deg(d) < |quo|
    requires Mul(p, c, d[Deg(d)]) == rem[Deg(rem)]
    requires ZeroUpTo(quo, Deg(rem) - Deg(d)) && Rebuilds(p, n, d, quo, rem)
    requires quo' == quo[Deg(rem) - Deg(d) := c]
    requires rem' == PolySub(p, rem, PolyMul(p, Mono(Deg(rem) - Deg(d), c), d))
    ensures Valid(p, quo') && Valid(p, rem') && |quo'| == |quo|
    ensures Deg(rem') < Deg(rem)
    ensures ZeroUpTo(quo', Deg(rem') - Deg(d)) && Rebuilds(p, n, d, quo', rem')
  {
    var s := Deg(rem) - Deg(d);
    ValidUpdate(p, quo, s, c);
    DivideStep(p, d, quo, rem, c, s);
    TrimEq(PolyAdd(p, PolyMul(p, quo', d), rem'), PolyAdd(p, PolyMul(p, quo, d), rem));
    ZeroUpToUpdate(quo, Deg(rem') - Deg(d), s, c);
  }

  lemma DivideInit(p: nat, n: Poly, d: Poly, quo: Poly)
    requires p > 1 && Valid(p, n) && Valid(p, quo) && Deg(quo) == -1
    requires forall k :: 0 <= k < |quo| ==> quo[k] == 0
    ensures ZeroUpTo(quo, Deg(n)) && Rebuilds(p, n, d, quo, n)
  {
    ZeroTimes(p, quo, d);
  }

  lemma DivideDone(p: nat, n: Poly, d: Poly, quo: Poly, rem: Poly)
    requires p > 1 && Valid(p, quo) && Valid(p, rem) && Rebuilds(p, n, d, quo, rem)
    ensures PolyEq(PolyAdd(p, PolyMul(p, quo, d), rem), n)
  {
    TrimEq(PolyAdd(p, PolyMul(p, quo, d), rem), n);
  }

  /** `Polynomial.divide`: `None` (here `ZeroDivisor`) for a denominator of
      degree -1, `([], n)` when the numerator has the smaller degree, and
      otherwise schoolbook long division. */
  method Divide(p: nat, n: Poly, d: Poly) returns (r: Result<(Poly, Poly)>)
    requires p > 1 && Valid(p, n) && Valid(p, d)
    ensures r == Err(ZeroDivisor) <==> Deg(d) == -1
    ensures r.Err? && Deg(d) != -1 ==> r.error == NotInvertible
    ensures IsPrime(p) && Deg(d) != -1 ==> r.Ok?
    ensures Deg(d) != -1 && Deg(n) < Deg(d) ==> r == Ok(([], n))
    ensures r.Ok? ==> Valid(p, r.value.0) && Valid(p, r.value.1)
    ensures r.Ok? ==> PolyEq(PolyAdd(p, PolyMul(p, r.value.0, d), r.value.1), n)
    ensures r.Ok? ==> Deg(r.value.1) < Deg(d)
  {
    var dd := Degree(d);
    if dd == -1 {
      return Err(ZeroDivisor);
    }
    var dn := Degree(n);
    if dn < dd {
      ZeroTimes(p, [], d);
      return Ok(([], n));
    }
    r := LongDivision(p, n, d);
  }

  /** One round of the loop of `divide`: the leading coefficient of the
      remainder divided by that of the denominator becomes the quotient
      coefficient at the degree difference, and that multiple of the
      shifted denominator leaves the remainder. */
  method EliminateLead(p: nat, n: Poly, d: Poly, quo: Poly, rem: Poly) returns (r: Result<(Poly, Poly)>)
    requires p > 1 && Valid(p, d) && Valid(p, quo) && Valid(p, rem)
    requires 0 <= Deg(d) <= Deg(rem) && Deg(rem) - Deg(d) < |quo|
    requires ZeroUpTo(quo, Deg(rem) - Deg(d)) && Rebuilds(p, n, d, quo, rem)
    ensures r.Err? ==> r == Err(NotInvertible)
    ensures IsPrime(p) ==> r.Ok?
    ensures r.Ok? ==> Valid(p, r.value.0) && Valid(p, r.value.1) && |r.value.0| == |quo|
    ensures r.Ok? ==> Deg(r.value.1) < Deg(rem)
    ensures r.Ok? ==> ZeroUpTo(r.value.0, Deg(r.value.1) - Deg(d)) && Rebuilds(p, n, d, r.value.0, r.value.1)
  {
    var dd := Degree(d);
    var drem := Degree(rem);
    var coefficient := Div(p, rem[drem], d[dd]);
    if coefficient.Err? {
      return Err(coefficient.error);
    }
    var c := coefficient.value;
    var shift := drem - dd;
    MonoValid(p, shift, c);
    ModUnique(rem[drem], p, 0, rem[drem]);
    var subtractee := MulPoly(p, Mono(shift, c), d);
    var quo' := quo[shift := c];
    var rem' := SubPoly(p, rem, subtractee);
    DivideRound(p, n, d, quo, rem, c, quo', rem');
    return Ok((quo', rem'));
  }

  /** The loop of `divide`: at most deg n - deg d + 1 rounds, each removing
      the leading term of the remainder with the field quotient of the
      leading coefficients, stopping early once the remainder's degree is
      below the denominator's. A field division that fails (composite
      modulus) fails the call. */
  method LongDivision(p: nat, n: Poly, d: Poly) returns (r: Result<(Poly, Poly)>)
    requires p > 1 && Valid(p, n) && Valid(p, d) && 0 <= Deg(d) <= Deg(n)
    ensures r.Err? ==> r == Err(NotInvertible)
    ensures IsPrime(p) ==> r.Ok?
    ensures r.Ok? ==> Valid(p, r.value.0) && Valid(p, r.value.1)
    ensures r.Ok? ==> PolyEq(PolyAdd(p, PolyMul(p, r.value.0, d), r.value.1), n)
    ensures r.Ok? ==> Deg(r.value.1) < Deg(d)
  {
    var dd := Degree(d);
    var dn := Degree(n);
    var rem := n;
    var quo: Poly := seq(dn - dd + 1, i => Zero());
    DivideInit(p, n, d, quo);
    for i := 0 to dn - dd + 1
      invariant Valid(p, rem) && Valid(p, quo) && |quo| == dn - dd + 1
      invariant Deg(rem) <= dn - i
      invariant ZeroUpTo(quo, Deg(rem) - dd) && Rebuilds(p, n, d, quo, rem)
    {
      var drem := Degree(rem);
      if drem < dd {
        break;
      }
      var step := EliminateLead(p, n, d, quo, rem);
      if step.Err? {
        return Err(step.error);
      }
      quo, rem := step.value.0, step.value.1;
    }
    DivideDone(p, n, d, quo, rem);
    return Ok((quo, rem));
  }

  /** `Polynomial.__floordiv__`: the quotient of `divide`. A zero divisor
      makes the source fail unpacking `None`. */
  method FloorDiv(p: nat, n: Poly, d: Poly) returns (r: Result<Poly>)
    requires p > 1 && Valid(p, n) && Valid(p, d)
    ensures r == Err(ZeroDivisor) <==> Deg(d) == -1
    ensures r.Err? && Deg(d) != -1 ==> r.error == NotInvertible
    ensures IsPrime(p) && Deg(d) != -1 ==> r.Ok?
    ensures Deg(d) != -1 && Deg(n) < Deg(d) ==> r == Ok([])
    ensures r.Ok? ==> Valid(p, r.value) && Deg(PolySub(p, n, PolyMul(p, r.value, d))) < Deg(d)
  {
    var qr := Divide(p, n, d);
    if qr.Err? {
      return Err(qr.error);
    }
    var (quo, rem) := qr.value;
    var t := PolyMul(p, quo, d);
    forall k
      ensures Coef(PolySub(p, n, t), k) == Coef(rem, k)
    {
      AddSubLeft(p, Coef(t, k), Coef(rem, k));
    }
    DegCong(PolySub(p, n, t), rem);
    return Ok(quo);
  }

  /** `Polynomial.__mod__`: the remainder of `divide`. */
  method Mod(p: nat, n: Poly, d: Poly) returns (r: Result<Poly>)
    requires p > 1 && Valid(p, n) && Valid(p, d)
    ensures r == Err(ZeroDivisor) <==> Deg(d) == -1
    ensures r.Err? && Deg(d) != -1 ==> r.error == NotInvertible
    ensures IsPrime(p) && Deg(d) != -1 ==> r.Ok?
    ensures Deg(d) != -1 && Deg(n) < Deg(d) ==> r == Ok(n)
    ensures r.Ok? ==> Valid(p, r.value) && Deg(r.value) < Deg(d)
    ensures r.Ok? ==> exists q: Poly :: Valid(p, q) && PolyEq(PolyAdd(p, PolyMul(p, q, d), r.value), n)
  {
    var qr := Divide(p, n, d);
    if qr.Err? {
      return Err(qr.error);
    }
    var (quo, rem) := qr.value;
    return Ok(rem);
  }

  /** `Polynomial.__truediv__`: the quotient, provided the remainder is
      zero (the source asserts it). */
  method TrueDiv(p: nat, n: Poly, d: Poly) returns (r: Result<Poly>)
    requires p > 1 && Valid(p, n) && Valid(p, d)
    ensures r == Err(ZeroDivisor) <==> Deg(d) == -1
    ensures r.Err? && Deg(d) != -1 ==> r.error == NotInvertible || r.error == InexactDivision
    ensures r.Ok? ==> Valid(p, r.value) && PolyEq(PolyMul(p, r.value, d), n)
    ensures IsPrime(p) && Deg(d) != -1 && Deg(n) < Deg(d) ==> (r.Ok? <==> Deg(n) == -1)
    ensures IsPrime(p) && Deg(d) != -1 ==> (r.Ok? <==> DividesPoly(p, d, n))
  {
    var qr := Divide(p, n, d);
    if qr.Err? {
      return Err(qr.error);
    }
    var (quo, rem) := qr.value;
    if IsPrime(p) {
      MultipleRemainder(p, n, d, quo, rem);
    }
    var zero := IsZero(rem);
    if !zero {
      return Err(InexactDivision);
    }
    ExactQuotient(p, n, d, quo, rem);
    return Ok(quo);
  }

  // ---------------------------------------------------------------------
  // xgcd

  /** s*x + t*y stands for r (stated on trimmed lists). */
  predicate Combines(p: nat, x: Poly, y: Poly, s: Poly, t: Poly, r: Poly)
    requires p > 1
  {
    Trim(PolyAdd(p, PolyMul(p, s, x), PolyMul(p, t, y))) == Trim(r)
  }

  lemma CombinesInit(p: nat, x: Poly, y: Poly)
    requires p > 1 && Valid(p, x) && Valid(p, y)
    ensures Combines(p, x, y, [1], [0], x) && Combines(p, x, y, [0], [1], y)
  {
    MulUnit(p, x);
    MulUnit(p, y);
    var c1 := PolyAdd(p, PolyMul(p, [1], x), PolyMul(p, [0], y));
    var c2 := PolyAdd(p, PolyMul(p, [0], x), PolyMul(p, [1], y));
    DegCoef(PolyMul(p, [0], y));
    DegCoef(PolyMul(p, [0], x));
    forall k
      ensures Coef(c1, k) == Coef(x, k) && Coef(c2, k) == Coef(y, k)
    {
      AddZero(p, Coef(x, k));
      AddZero(p, Coef(y, k));
    }
    TrimEq(c1, x);
    TrimEq(c2, y);
  }

  /** The coefficient identity behind one Euclid round. */
  lemma BezoutCoef(p: nat, x: Poly, y: Poly, s0: Poly, t0: Poly, r0: Poly, s: Poly, t: Poly, r: Poly, q: Poly, k: int)
    requires p > 1 && Valid(p, s0) && Valid(p, t0) && Valid(p, r0) && Valid(p, s) && Valid(p, t) && Valid(p, r)
    requires PolyEq(PolyAdd(p, PolyMul(p, s0, x), PolyMul(p, t0, y)), r0)
    requires PolyEq(PolyAdd(p, PolyMul(p, s, x), PolyMul(p, t, y)), r)
    ensures Coef(PolyAdd(p, PolyMul(p, PolySub(p, s0, PolyMul(p, q, s)), x),
                            PolyMul(p, PolySub(p, t0, PolyMul(p, q, t)), y)), k)
            == Coef(PolySub(p, r0, PolyMul(p, q, r)), k)
  {
    var qs, qt := PolyMul(p, q, s), PolyMul(p, q, t);
    var sx, ty := PolyMul(p, s, x), PolyMul(p, t, y);
    ConvSubLeft(p, s0, qs, PolySub(p, s0, qs), x, k);
    ConvSubLeft(p, t0, qt, PolySub(p, t0, qt), y, k);
    ConvAssoc(p, q, s, x, k);
    ConvAssoc(p, q, t, y, k);
    assert Coef(r0, k) == Add(p, Conv(p, s0, x, k), Conv(p, t0, y, k));
    assert PolyEq(r, PolyAdd(p, sx, ty));
    ConvFromCong(p, q, q, r, PolyAdd(p, sx, ty), k, 0);
    ConvFromLinearRight(p, q, sx, ty, PolyAdd(p, sx, ty), k, 0);
    SubAddSub(p, Conv(p, s0, x, k), Conv(p, t0, y, k), Conv(p, q, sx, k), Conv(p, q, ty, k));
  }

  /** One Euclid round keeps the Bezout relation: subtracting q times the
      current row from the previous one. */
  lemma BezoutStep(p: nat, x: Poly, y: Poly, s0: Poly, t0: Poly, r0: Poly, s: Poly, t: Poly, r: Poly, q: Poly)
    requires p > 1 && Valid(p, s0) && Valid(p, t0) && Valid(p, r0) && Valid(p, s) && Valid(p, t) && Valid(p, r)
    requires Combines(p, x, y, s0, t0, r0) && Combines(p, x, y, s, t, r)
    ensures Combines(p, x, y, PolySub(p, s0, PolyMul(p, q, s)), PolySub(p, t0, PolyMul(p, q, t)),
                     PolySub(p, r0, PolyMul(p, q, r)))
  {
    TrimEq(PolyAdd(p, PolyMul(p, s0, x), PolyMul(p, t0, y)), r0);
    TrimEq(PolyAdd(p, PolyMul(p, s, x), PolyMul(p, t, y)), r);
    var lhs := PolyAdd(p, PolyMul(p, PolySub(p, s0, PolyMul(p, q, s)), x),
                          PolyMul(p, PolySub(p, t0, PolyMul(p, q, t)), y));
    forall k
      ensures Coef(lhs, k) == Coef(PolySub(p, r0, PolyMul(p, q, r)), k)
    {
      BezoutCoef(p, x, y, s0, t0, r0, s, t, r, q, k);
    }
    TrimEq(lhs, PolySub(p, r0, PolyMul(p, q, r)));
  }

  /** Scaling all three rows by the same constant keeps the relation. */
  lemma BezoutScale(p: nat, x: Poly, y: Poly, s: Poly, t: Poly, r: Poly, c: nat)
    requires p > 1 && Combines(p, x, y, s, t, r)
    ensures PolyEq(PolyAdd(p, PolyMul(p, Scale(p, s, c), x), PolyMul(p, Scale(p, t, c), y)), Scale(p, r, c))
  {
    var sum := PolyAdd(p, PolyMul(p, s, x), PolyMul(p, t, y));
    TrimEq(sum, r);
    forall k
      ensures Coef(PolyAdd(p, PolyMul(p, Scale(p, s, c), x), PolyMul(p, Scale(p, t, c), y)), k)
              == Coef(Scale(p, r, c), k)
    {
      ConvFromScaleLeft(p, s, c, Scale(p, s, c), x, k, 0);
      ConvFromScaleLeft(p, t, c, Scale(p, t, c), y, k, 0);
      DistribRight(p, Conv(p, s, x, k), Conv(p, t, y, k), c);
      assert Coef(sum, k) == Coef(r, k);
    }
  }

  /** Multiplying by the inverse of the leading coefficient makes the
      polynomial monic without changing its degree. */
  lemma ScaleMonic(p: nat, a: Poly, c: nat)
    requires p > 1 && Deg(a) >= 0 && Mul(p, a[Deg(a)], c) == 1
    ensures Deg(Scale(p, a, c)) == Deg(a) && Scale(p, a, c)[Deg(a)] == 1
  {
    var g := Scale(p, a, c);
    DegCoef(a);
    forall k | k >= Deg(a) + 1
      ensures Coef(g, k) == 0
    {
      MulZero(p, c);
    }
    DegBelow(g, Deg(a) + 1);
    assert Coef(g, Deg(a)) == 1;
  }

  /** The coefficient identity behind the divisibility half of one Euclid
      round: x == u*a + v*b gives x == (v + u*q)*b + u*(a - q*b). */
  lemma DividesCoef(p: nat, a: Poly, b: Poly, u: Poly, v: Poly, x: Poly, q: Poly, k: int)
    requires p > 1 && Valid(p, a) && Valid(p, b) && Valid(p, u) && Valid(p, v) && Valid(p, q)
    requires PolyEq(PolyAdd(p, PolyMul(p, u, a), PolyMul(p, v, b)), x)
    ensures Coef(PolyAdd(p, PolyMul(p, PolyAdd(p, v, PolyMul(p, u, q)), b),
                            PolyMul(p, u, PolySub(p, a, PolyMul(p, q, b)))), k)
            == Coef(x, k)
  {
    var qb, uq := PolyMul(p, q, b), PolyMul(p, u, q);
    ConvFromLinearLeft(p, v, uq, PolyAdd(p, v, uq), b, k, 0);
    ConvAssoc(p, u, q, b, k);
    ConvSubRight(p, u, a, qb, PolySub(p, a, qb), k);
    assert Coef(x, k) == Add(p, Conv(p, u, a, k), Conv(p, v, b, k));
    AddSubCancel(p, Conv(p, v, b, k), Conv(p, u, qb, k), Conv(p, u, a, k));
    AddComm(p, Conv(p, v, b, k), Conv(p, u, a, k));
  }

  /** x stays a combination of the current pair across a Euclid round:
      that is how the final remainder comes to divide both inputs. */
  lemma DividesStep(p: nat, a: Poly, b: Poly, u: Poly, v: Poly, x: Poly, q: Poly)
    requires p > 1 && Valid(p, a) && Valid(p, b) && Valid(p, u) && Valid(p, v) && Valid(p, q)
    requires Combines(p, a, b, u, v, x)
    ensures Combines(p, b, PolySub(p, a, PolyMul(p, q, b)), PolyAdd(p, v, PolyMul(p, u, q)), u, x)
  {
    TrimEq(PolyAdd(p, PolyMul(p, u, a), PolyMul(p, v, b)), x);
    var lhs := PolyAdd(p, PolyMul(p, PolyAdd(p, v, PolyMul(p, u, q)), b),
                          PolyMul(p, u, PolySub(p, a, PolyMul(p, q, b))));
    forall k
      ensures Coef(lhs, k) == Coef(x, k)
    {
      DividesCoef(p, a, b, u, v, x, q, k);
    }
    TrimEq(lhs, x);
  }

  /** x is u*a + v*b for some polynomials u and v. */
  ghost predicate Generates(p: nat, a: Poly, b: Poly, x: Poly)
    requires p > 1
  {
    exists u: Poly, v: Poly {:trigger Combines(p, a, b, u, v, x)} ::
      Valid(p, u) && Valid(p, v) && Combines(p, a, b, u, v, x)
  }

  lemma GeneratesInit(p: nat, x: Poly, y: Poly)
    requires p > 1 && Valid(p, x) && Valid(p, y)
    ensures Generates(p, x, y, x) && Generates(p, x, y, y)
  {
    CombinesInit(p, x, y);
    GeneratesBy(p, x, y, [1], [0], x);
    GeneratesBy(p, x, y, [0], [1], y);
  }

  lemma GeneratesBy(p: nat, a: Poly, b: Poly, u: Poly, v: Poly, x: Poly)
    requires p > 1 && Valid(p, u) && Valid(p, v) && Combines(p, a, b, u, v, x)
    ensures Generates(p, a, b, x)
  {
  }

  /** Replacing the pair (a, b) by (b, a - q*b) keeps what it generates. */
  lemma GeneratesStep(p: nat, a: Poly, b: Poly, x: Poly, q: Poly)
    requires p > 1 && Valid(p, a) && Valid(p, b) && Valid(p, q)
    requires Generates(p, a, b, x)
    ensures Generates(p, b, PolySub(p, a, PolyMul(p, q, b)), x)
  {
    var u: Poly, v: Poly :| Valid(p, u) && Valid(p, v) && Combines(p, a, b, u, v, x);
    DividesStep(p, a, b, u, v, x, q);
    GeneratesBy(p, b, PolySub(p, a, PolyMul(p, q, b)), PolyAdd(p, v, PolyMul(p, u, q)), u, x);
  }

  /** A product with an all-zero right factor has degree -1. */
  lemma TimesZero(p: nat, v: Poly, z: Poly)
    requires p > 1 && Deg(z) == -1
    ensures Deg(PolyMul(p, v, z)) == -1
  {
    DegCoef(z);
    forall k
      ensures Coef(PolyMul(p, v, z), k) == 0
    {
      ConvFromCong(p, v, v, z, [], k, 0);
      ConvFromVanishes(p, v, [], k, 0);
    }
    DegBelow(PolyMul(p, v, z), 0);
  }

  /** Once the second element of the pair is zero, everything the pair
      generates is a multiple of the first. */
  lemma GeneratesDone(p: nat, a: Poly, b: Poly, x: Poly)
    requires p > 1 && Valid(p, a) && Valid(p, b)
    requires Deg(b) == -1 && Generates(p, a, b, x)
    ensures DividesPoly(p, a, x)
  {
    var u: Poly, v: Poly :| Valid(p, u) && Valid(p, v) && Combines(p, a, b, u, v, x);
    TrimEq(PolyAdd(p, PolyMul(p, u, a), PolyMul(p, v, b)), x);
    TimesZero(p, v, b);
    assert PolyAdd(p, PolyMul(p, u, a), PolyMul(p, v, b)) == PolyMul(p, u, a) || Deg(PolyMul(p, u, a)) == -1;
    AddZeroCoefs(p, PolyMul(p, v, b), PolyMul(p, u, a));
    AddCommCoefs(p, PolyMul(p, u, a), PolyMul(p, v, b));
    assert PolyEq(PolyMul(p, u, a), x);
  }

  /** A divisor stays a divisor when scaled by an invertible constant c':
      q*a == x gives (q*c)*(a*c') == x when c*c' == 1. */
  lemma DividesScale(p: nat, a: Poly, x: Poly, c: nat, c': nat)
    requires p > 1 && Valid(p, a) && c < p && Mul(p, c, c') == 1
    requires DividesPoly(p, a, x)
    ensures DividesPoly(p, Scale(p, a, c'), x)
  {
    var q: Poly :| Valid(p, q) && PolyEq(PolyMul(p, q, a), x);
    var g := Scale(p, a, c');
    assert Mono(0, c) == [c];
    forall k
      ensures Coef(PolyMul(p, [c], g), k) == Coef(a, k)
    {
      ConvMonoLeft(p, 0, c, g, k);
      CoefValid(p, a);
      MulComm(p, Coef(a, k), c');
      MulAssoc(p, c, c', Coef(a, k));
      MulOne(p, Coef(a, k));
    }
    var w := PolyMul(p, q, [c]);
    forall k
      ensures Coef(PolyMul(p, w, g), k) == Coef(x, k)
    {
      ConvAssoc(p, q, [c], g, k);
      ConvFromCong(p, q, q, PolyMul(p, [c], g), a, k, 0);
    }
    DividesBy(p, g, x, w);
  }

  lemma DividesBy(p: nat, d: Poly, n: Poly, q: Poly)
    requires p > 1 && Valid(p, q) && PolyEq(PolyMul(p, q, d), n)
    ensures DividesPoly(p, d, n)
  {
  }

  predicate AllValid(p: nat, qs: seq<Poly>)
  {
    forall i :: 0 <= i < |qs| ==> Valid(p, qs[i])
  }

  /** The pair of remainders after the Euclid rounds with quotients qs,
      each round taking (a, b) to (b, a - q*b). */
  ghost function Run(p: nat, x: Poly, y: Poly, qs: seq<Poly>): (r: (Poly, Poly))
    requires p > 1 && Valid(p, x) && Valid(p, y) && AllValid(p, qs)
    ensures Valid(p, r.0) && Valid(p, r.1)
    decreases |qs|
  {
    if |qs| == 0 then (x, y)
    else
      var prev := Run(p, x, y, qs[..|qs| - 1]);
      (prev.1, PolySub(p, prev.0, PolyMul(p, qs[|qs| - 1], prev.1)))
  }

  lemma RunSnoc(p: nat, x: Poly, y: Poly, qs: seq<Poly>, q: Poly)
    requires p > 1 && Valid(p, x) && Valid(p, y) && AllValid(p, qs) && Valid(p, q)
    ensures AllValid(p, qs + [q])
    ensures Run(p, x, y, qs + [q])
            == (Run(p, x, y, qs).1, PolySub(p, Run(p, x, y, qs).0, PolyMul(p, q, Run(p, x, y, qs).1)))
  {
    assert (qs + [q])[..|qs|] == qs;
  }

  /** Every pair of remainders generates both inputs. */
  lemma {:induction false} RunGenerates(p: nat, x: Poly, y: Poly, qs: seq<Poly>)
    requires p > 1 && Valid(p, x) && Valid(p, y) && AllValid(p, qs)
    ensures Generates(p, Run(p, x, y, qs).0, Run(p, x, y, qs).1, x)
    ensures Generates(p, Run(p, x, y, qs).0, Run(p, x, y, qs).1, y)
    decreases |qs|
  {
    if |qs| == 0 {
      GeneratesInit(p, x, y);
    } else {
      var init := qs[..|qs| - 1];
      assert AllValid(p, init);
      RunGenerates(p, x, y, init);
      var prev := Run(p, x, y, init);
      GeneratesStep(p, prev.0, prev.1, x, qs[|qs| - 1]);
      GeneratesStep(p, prev.0, prev.1, y, qs[|qs| - 1]);
    }
  }

  /** The Euclid rounds of `Polynomial.xgcd`: while r is not zero,
      (old_r, r) := (r, old_r - q*r) with q = old_r // r, and the same for
      the s and t rows. */
  method EuclidRounds(p: nat, x: Poly, y: Poly) returns (r: Result<(Poly, Poly, Poly)>)
    requires p > 1 && Valid(p, x) && Valid(p, y) && |x| > 0
    ensures r.Err? ==> r.error == NotInvertible
    ensures IsPrime(p) ==> r.Ok?
    ensures Deg(y) == -1 ==> r == Ok(([One()], [Zero()], x))
    ensures r.Ok? ==> Valid(p, r.value.0) && Valid(p, r.value.1) && Valid(p, r.value.2) && |r.value.2| > 0
    ensures r.Ok? ==> Combines(p, x, y, r.value.0, r.value.1, r.value.2)
    ensures r.Ok? && (Deg(x) != -1 || Deg(y) != -1) ==> Deg(r.value.2) != -1
    ensures r.Ok? ==> DividesPoly(p, r.value.2, x) && DividesPoly(p, r.value.2, y)
  {
    var oldR, rr := x, y;
    var oldS, s := [One()], [Zero()];
    var oldT, t := [Zero()], [One()];
    CombinesInit(p, x, y);
    ghost var quotients: seq<Poly> := [];
    var rz := IsZero(rr);
    while !rz
      invariant Valid(p, oldR) && Valid(p, rr) && Valid(p, oldS) && Valid(p, s) && Valid(p, oldT) && Valid(p, t)
      invariant |oldR| > 0
      invariant Combines(p, x, y, oldS, oldT, oldR) && Combines(p, x, y, s, t, rr)
      invariant AllValid(p, quotients) && Run(p, x, y, quotients) == (oldR, rr)
      invariant rz <==> Deg(rr) == -1
      invariant Deg(y) == -1 ==> oldR == x && oldS == [One()] && oldT == [Zero()]
      invariant Deg(x) != -1 || Deg(y) != -1 ==> Deg(oldR) != -1 || Deg(rr) != -1
      decreases Deg(rr) + 1
    {
      var qr := FloorDiv(p, oldR, rr);
      if qr.Err? {
        return Err(qr.error);
      }
      var quotient := qr.value;
      var qrr := MulPoly(p, quotient, rr);
      var newR := SubPoly(p, oldR, qrr);
      var qs := MulPoly(p, quotient, s);
      var newS := SubPoly(p, oldS, qs);
      var qt := MulPoly(p, quotient, t);
      var newT := SubPoly(p, oldT, qt);
      BezoutStep(p, x, y, oldS, oldT, oldR, s, t, rr, quotient);
      RunSnoc(p, x, y, quotients, quotient);
      quotients := quotients + [quotient];
      oldR, rr := rr, newR;
      oldS, s := s, newS;
      oldT, t := t, newT;
      rz := IsZero(rr);
    }
    RunGenerates(p, x, y, quotients);
    GeneratesDone(p, oldR, rr, x);
    GeneratesDone(p, oldR, rr, y);
    return Ok((oldS, oldT, oldR));
  }

  /** `Polynomial.xgcd`: the extended Euclidean algorithm on (x, y), then
      all three of old_s, old_t, old_r multiplied by the inverse of the
      leading coefficient of old_r. Reading `x.coefficients[0]` fails on an
      empty x; the final inverse fails when both inputs are zero (the
      source then inverts the last, zero, coefficient). */
  method XGcd(p: nat, x: Poly, y: Poly) returns (r: Result<(Poly, Poly, Poly)>)
    requires p > 1 && Valid(p, x) && Valid(p, y)
    ensures r == Err(EmptyInput) <==> |x| == 0
    ensures r.Err? && |x| > 0 ==> r.error == NotInvertible
    ensures |x| > 0 && Deg(x) == -1 && Deg(y) == -1 ==> r == Err(NotInvertible)
    ensures IsPrime(p) && |x| > 0 && (Deg(x) != -1 || Deg(y) != -1) ==> r.Ok?
    ensures r.Ok? ==> Valid(p, r.value.0) && Valid(p, r.value.1) && Valid(p, r.value.2)
    ensures r.Ok? ==> PolyEq(PolyAdd(p, PolyMul(p, r.value.0, x), PolyMul(p, r.value.1, y)), r.value.2)
    ensures r.Ok? ==> Deg(r.value.2) >= 0 && r.value.2[Deg(r.value.2)] == One()
    ensures r.Ok? ==> DividesPoly(p, r.value.2, x) && DividesPoly(p, r.value.2, y)
  {
    if |x| == 0 {
      return Err(EmptyInput);
    }
    var rounds := EuclidRounds(p, x, y);
    if rounds.Err? {
      return Err(rounds.error);
    }
    var (oldS, oldT, oldR) := rounds.value;
    var dr := Degree(oldR);
    var lead := if dr == -1 then oldR[|oldR| - 1] else oldR[dr];
    ModUnique(lead, p, 0, lead);
    var inv := Inverse(p, lead);
    if inv.None? {
      return Err(NotInvertible);
    }
    var lcinv := inv.value;
    MulZero(p, lcinv);
    MonicTriple(p, x, y, oldS, oldT, oldR, lead, lcinv);
    return Ok((Scale(p, oldS, lcinv), Scale(p, oldT, lcinv), Scale(p, oldR, lcinv)));
  }

  /** Scaling a Bézout triple whose g divides x and y by the inverse c of
      g's leading coefficient keeps all three facts and makes g monic. */
  lemma MonicTriple(p: nat, x: Poly, y: Poly, s: Poly, t: Poly, g: Poly, lead: nat, c: nat)
    requires p > 1 && Valid(p, g) && Deg(g) >= 0 && lead == g[Deg(g)] && Mul(p, lead, c) == 1
    requires Combines(p, x, y, s, t, g)
    requires DividesPoly(p, g, x) && DividesPoly(p, g, y)
    ensures PolyEq(PolyAdd(p, PolyMul(p, Scale(p, s, c), x), PolyMul(p, Scale(p, t, c), y)), Scale(p, g, c))
    ensures Deg(Scale(p, g, c)) >= 0 && Scale(p, g, c)[Deg(Scale(p, g, c))] == One()
    ensures DividesPoly(p, Scale(p, g, c), x) && DividesPoly(p, Scale(p, g, c), y)
  {
    ScaleMonic(p, g, c);
    BezoutScale(p, x, y, s, t, g, c);
    DividesScale(p, g, x, lead, c);
    DividesScale(p, g, y, lead, c);
  }
}
