/** Polynomials over the field of `src/field.py` as coefficient lists, lowest
    degree first and trailing zeros allowed, as `src/polynomial.py` stores
    them. The functions here are the specifications the methods of module
    `Polynomial` are proved against, and the lemmas are the ring laws the
    algorithms rely on, stated up to `PolyEq` (equality after trimming). */
module PolySpec {
  import opened Field

  type Poly = seq<nat>

  /** Every coefficient is a reduced field element. */
  predicate Valid(p: nat, a: Poly)
  {
    forall i :: 0 <= i < |a| ==> a[i] < p
  }

  lemma ValidUpdate(p: nat, a: Poly, i: nat, c: nat)
    requires Valid(p, a) && i < |a| && c < p
    ensures Valid(p, a[i := c])
  {
  }

  /** The coefficient of x^k; zero outside the list. */
  function Coef(a: Poly, k: int): nat
  {
    if 0 <= k < |a| then a[k] else 0
  }

  lemma CoefValid(p: nat, a: Poly)
    requires p > 1 && Valid(p, a)
    ensures forall k :: Coef(a, k) < p
  {
  }

  /** Equality of the polynomials the lists denote. */
  ghost predicate PolyEq(a: Poly, b: Poly)
  {
    forall k :: Coef(a, k) == Coef(b, k)
  }

  function Max(a: int, b: int): int
  {
    if a < b then b else a
  }

  // ---------------------------------------------------------------------
  // Degree

  /** The largest index holding a non-zero coefficient, -1 for the zero
      polynomial (an empty or all-zero list). */
  function Deg(a: Poly): (d: int)
    ensures -1 <= d < |a|
    ensures d == -1 <==> forall i :: 0 <= i < |a| ==> a[i] == 0
    ensures d >= 0 ==> a[d] != 0
    ensures forall i :: d < i < |a| ==> a[i] == 0
  {
    if |a| == 0 then -1
    else if a[|a| - 1] != 0 then |a| - 1
    else Deg(a[..|a| - 1])
  }

  /** The degree is the only index with a non-zero coefficient and only
      zeros above it. */
  lemma DegUnique(a: Poly, d: int)
    requires -1 <= d < |a|
    requires d >= 0 ==> a[d] != 0
    requires d == -1 ==> forall i :: 0 <= i < |a| ==> a[i] == 0
    requires forall i :: d < i < |a| ==> a[i] == 0
    ensures Deg(a) == d
  {
    assert Deg(a) >= 0 ==> a[Deg(a)] != 0;
  }

  /** Coefficients vanish above the degree. */
  lemma DegCoef(a: Poly)
    ensures forall k :: Deg(a) < k ==> Coef(a, k) == 0
    ensures Deg(a) >= 0 ==> Coef(a, Deg(a)) != 0
  {
  }

  /** A polynomial whose coefficients vanish from m on has degree below m. */
  lemma DegBelow(a: Poly, m: nat)
    requires forall k :: m <= k ==> Coef(a, k) == 0
    ensures Deg(a) < m
  {
    assert Deg(a) >= 0 ==> Coef(a, Deg(a)) != 0;
  }

  /** Equal polynomials have equal degrees. */
  lemma DegCong(a: Poly, b: Poly)
    requires PolyEq(a, b)
    ensures Deg(a) == Deg(b)
  {
    DegCoef(a);
    DegCoef(b);
    assert Deg(a) >= 0 ==> Coef(b, Deg(a)) != 0;
    assert Deg(b) >= 0 ==> Coef(a, Deg(b)) != 0;
  }

  /** The list with its trailing zeros removed. */
  function Trim(a: Poly): (r: Poly)
    ensures |r| == Deg(a) + 1
  {
    a[..Deg(a) + 1]
  }

  /** `PolyEq` is equality of the trimmed lists. */
  lemma {:induction false} TrimEq(a: Poly, b: Poly)
    ensures PolyEq(a, b) <==> Trim(a) == Trim(b)
  {
    DegCoef(a);
    DegCoef(b);
    if PolyEq(a, b) {
      DegCong(a, b);
      forall i | 0 <= i < |Trim(a)|
        ensures Trim(a)[i] == Trim(b)[i]
      {
        assert Coef(a, i) == Coef(b, i);
      }
    }
    if Trim(a) == Trim(b) {
      forall k
        ensures Coef(a, k) == Coef(b, k)
      {
        if 0 <= k <= Deg(a) {
          assert Trim(a)[k] == Trim(b)[k];
        }
      }
    }
  }

  // ---------------------------------------------------------------------
  // Addition, negation, subtraction

  /** `Polynomial.__add__`: an operand of degree -1 is returned as it is;
      otherwise the coefficients are added position by position over the
      longer length. */
  function PolyAdd(p: nat, a: Poly, b: Poly): (r: Poly)
    requires p > 1 && Valid(p, a) && Valid(p, b)
    ensures Valid(p, r)
    ensures |r| <= Max(|a|, |b|)
    ensures Deg(a) == -1 ==> r == b
    ensures Deg(a) != -1 && Deg(b) == -1 ==> r == a
    ensures forall k :: Coef(r, k) == Add(p, Coef(a, k), Coef(b, k))
  {
    if Deg(a) == -1 then
      AddZeroCoefs(p, a, b);
      b
    else if Deg(b) == -1 then
      AddZeroCoefs(p, b, a);
      AddCommCoefs(p, a, b);
      a
    else
      PadAdd(p, a, b)
  }

  /** Position-wise sum over the longer length. */
  function PadAdd(p: nat, a: Poly, b: Poly): (r: Poly)
    requires p > 1
    ensures Valid(p, r) && |r| == Max(|a|, |b|)
    ensures forall k :: Coef(r, k) == Add(p, Coef(a, k), Coef(b, k))
  {
    AddZero(p, 0);
    seq(Max(|a|, |b|), k => Add(p, Coef(a, k), Coef(b, k)))
  }

  lemma AddZeroCoefs(p: nat, z: Poly, b: Poly)
    requires p > 1 && Valid(p, b) && Deg(z) == -1
    ensures forall k :: Add(p, Coef(z, k), Coef(b, k)) == Coef(b, k)
  {
    forall k
      ensures Add(p, Coef(z, k), Coef(b, k)) == Coef(b, k)
    {
      AddZero(p, Coef(b, k));
    }
  }

  lemma AddCommCoefs(p: nat, a: Poly, b: Poly)
    requires p > 1
    ensures forall k :: Add(p, Coef(a, k), Coef(b, k)) == Add(p, Coef(b, k), Coef(a, k))
  {
    forall k
      ensures Add(p, Coef(a, k), Coef(b, k)) == Add(p, Coef(b, k), Coef(a, k))
    {
      AddComm(p, Coef(a, k), Coef(b, k));
    }
  }

  /** `Polynomial.__neg__`: every coefficient negated. */
  function PolyNeg(p: nat, a: Poly): (r: Poly)
    requires p > 1
    ensures Valid(p, r) && |r| == |a|
    ensures forall k :: Coef(r, k) == Neg(p, Coef(a, k))
  {
    NegZero(p);
    seq(|a|, i => Neg(p, Coef(a, i)))
  }

  /** `Polynomial.__sub__`: adding the negation. */
  function PolySub(p: nat, a: Poly, b: Poly): (r: Poly)
    requires p > 1 && Valid(p, a) && Valid(p, b)
    ensures Valid(p, r) && |r| <= Max(|a|, |b|)
    ensures forall k :: Coef(r, k) == Sub(p, Coef(a, k), Coef(b, k))
  {
    SubCoefs(p, a, b);
    PolyAdd(p, a, PolyNeg(p, b))
  }

  lemma SubCoefs(p: nat, a: Poly, b: Poly)
    requires p > 1 && Valid(p, b)
    ensures forall k :: Add(p, Coef(a, k), Neg(p, Coef(b, k))) == Sub(p, Coef(a, k), Coef(b, k))
  {
    forall k
      ensures Add(p, Coef(a, k), Neg(p, Coef(b, k))) == Sub(p, Coef(a, k), Coef(b, k))
    {
      SubIsAddNeg(p, Coef(a, k), Coef(b, k));
    }
  }

  /** Negation is an involution. */
  lemma NegNeg(p: nat, a: Poly)
    requires p > 1 && Valid(p, a)
    ensures PolyNeg(p, PolyNeg(p, a)) == a
  {
    forall i | 0 <= i < |a|
      ensures PolyNeg(p, PolyNeg(p, a))[i] == a[i]
    {
      assert Coef(a, i) == a[i];
      NegInvolution(p, a[i]);
    }
  }

  /** a - a is the zero polynomial. */
  lemma SubSelf(p: nat, a: Poly)
    requires p > 1 && Valid(p, a)
    ensures Deg(PolySub(p, a, a)) == -1
  {
    forall k
      ensures Coef(PolySub(p, a, a), k) == 0
    {
      SubIsAddNeg(p, Coef(a, k), Coef(a, k));
      AddNeg(p, Coef(a, k));
    }
    DegBelow(PolySub(p, a, a), 0);
  }

  // ---------------------------------------------------------------------
  // Monomials, scaling and the shift by x

  /** `Polynomial([zero] * s + [c])`, the monomial c*x^s. */
  function Mono(s: nat, c: nat): (r: Poly)
    ensures |r| == s + 1
    ensures forall k :: Coef(r, k) == if k == s then c else 0
  {
    seq(s, i => 0) + [c]
  }

  lemma MonoValid(p: nat, s: nat, c: nat)
    requires c < p
    ensures Valid(p, Mono(s, c))
  {
    forall i | 0 <= i < s + 1
      ensures Mono(s, c)[i] < p
    {
      assert Mono(s, c)[i] == Coef(Mono(s, c), i);
    }
  }

  /** Every coefficient multiplied by c on the right, as in `c * lcinv`. */
  function Scale(p: nat, a: Poly, c: nat): (r: Poly)
    requires p > 1
    ensures Valid(p, r) && |r| == |a|
    ensures forall k :: Coef(r, k) == Mul(p, Coef(a, k), c)
  {
    MulZeroAll(p, c);
    seq(|a|, i => Mul(p, Coef(a, i), c))
  }

  lemma MulZeroAll(p: nat, c: nat)
    requires p > 1
    ensures Mul(p, 0, c) == 0
  {
    MulZero(p, c);
  }

  /** Multiplication by x: a zero prepended. */
  function Shift(u: Poly): (r: Poly)
    ensures |r| == |u| + 1
    ensures forall k :: Coef(r, k) == Coef(u, k - 1)
  {
    [0] + u
  }

  // ---------------------------------------------------------------------
  // Multiplication

  /** Sum over i from i0 up to k of a_i * b_(k-i). */
  function ConvFrom(p: nat, a: Poly, b: Poly, k: int, i: nat): (r: nat)
    requires p > 1
    ensures r < p
    decreases k + 1 - i
  {
    if i > k then 0
    else Add(p, Mul(p, Coef(a, i), Coef(b, k - i)), ConvFrom(p, a, b, k, i + 1))
  }

  /** The coefficient of x^k in a*b: the sum of a_i * b_j over i + j == k. */
  function Conv(p: nat, a: Poly, b: Poly, k: int): (r: nat)
    requires p > 1
    ensures r < p
  {
    ConvFrom(p, a, b, k, 0)
  }

  /** `Polynomial.__mul__`: the empty list if either operand is empty, else
      the convolution of length |a| + |b| - 1. */
  function PolyMul(p: nat, a: Poly, b: Poly): (r: Poly)
    requires p > 1
    ensures Valid(p, r)
    ensures |r| == if |a| == 0 || |b| == 0 then 0 else |a| + |b| - 1
    ensures forall k :: Coef(r, k) == Conv(p, a, b, k)
  {
    ConvVanishes(p, a, b);
    if |a| == 0 || |b| == 0 then []
    else seq(|a| + |b| - 1, k => Conv(p, a, b, k))
  }

  /** Beyond the product's length, and for an empty factor, the
      convolution is zero. */
  lemma ConvVanishes(p: nat, a: Poly, b: Poly)
    requires p > 1
    ensures forall k :: (k < 0 || |a| == 0 || |b| == 0 || k >= |a| + |b| - 1) ==> Conv(p, a, b, k) == 0
  {
    forall k | k < 0 || |a| == 0 || |b| == 0 || k >= |a| + |b| - 1
      ensures Conv(p, a, b, k) == 0
    {
      ConvFromVanishes(p, a, b, k, 0);
    }
  }

  lemma {:induction false} ConvFromVanishes(p: nat, a: Poly, b: Poly, k: int, i: nat)
    requires p > 1
    requires k < 0 || |a| == 0 || |b| == 0 || k >= |a| + |b| - 1
    ensures ConvFrom(p, a, b, k, i) == 0
    decreases k + 1 - i
  {
    if i <= k {
      ConvFromVanishes(p, a, b, k, i + 1);
      assert Coef(a, i) == 0 || Coef(b, k - i) == 0;
      MulZero(p, Coef(a, i));
      MulZero(p, Coef(b, k - i));
      AddZero(p, 0);
    }
  }

  /** The convolution only depends on the polynomials, not on trailing zeros. */
  lemma {:induction false} ConvFromCong(p: nat, a1: Poly, a2: Poly, b1: Poly, b2: Poly, k: int, i: nat)
    requires p > 1 && PolyEq(a1, a2) && PolyEq(b1, b2)
    ensures ConvFrom(p, a1, b1, k, i) == ConvFrom(p, a2, b2, k, i)
    decreases k + 1 - i
  {
    if i <= k {
      ConvFromCong(p, a1, a2, b1, b2, k, i + 1);
      assert Coef(a1, i) == Coef(a2, i) && Coef(b1, k - i) == Coef(b2, k - i);
    }
  }

  lemma {:induction false} ConvFromLinearLeft(p: nat, a1: Poly, a2: Poly, a3: Poly, b: Poly, k: int, i: nat)
    requires p > 1
    requires forall j :: Coef(a3, j) == Add(p, Coef(a1, j), Coef(a2, j))
    ensures ConvFrom(p, a3, b, k, i) == Add(p, ConvFrom(p, a1, b, k, i), ConvFrom(p, a2, b, k, i))
    decreases k + 1 - i
  {
    if i > k {
      AddZero(p, 0);
    } else {
      ConvFromLinearLeft(p, a1, a2, a3, b, k, i + 1);
      DistribRight(p, Coef(a1, i), Coef(a2, i), Coef(b, k - i));
      AddSwap(p, Mul(p, Coef(a1, i), Coef(b, k - i)), Mul(p, Coef(a2, i), Coef(b, k - i)),
              ConvFrom(p, a1, b, k, i + 1), ConvFrom(p, a2, b, k, i + 1));
    }
  }

  lemma {:induction false} ConvFromLinearRight(p: nat, a: Poly, b1: Poly, b2: Poly, b3: Poly, k: int, i: nat)
    requires p > 1
    requires forall j :: Coef(b3, j) == Add(p, Coef(b1, j), Coef(b2, j))
    ensures ConvFrom(p, a, b3, k, i) == Add(p, ConvFrom(p, a, b1, k, i), ConvFrom(p, a, b2, k, i))
    decreases k + 1 - i
  {
    if i > k {
      AddZero(p, 0);
    } else {
      ConvFromLinearRight(p, a, b1, b2, b3, k, i + 1);
      Distrib(p, Coef(a, i), Coef(b1, k - i), Coef(b2, k - i));
      AddSwap(p, Mul(p, Coef(a, i), Coef(b1, k - i)), Mul(p, Coef(a, i), Coef(b2, k - i)),
              ConvFrom(p, a, b1, k, i + 1), ConvFrom(p, a, b2, k, i + 1));
    }
  }

  lemma {:induction false} ConvFromNegLeft(p: nat, a1: Poly, a2: Poly, b: Poly, k: int, i: nat)
    requires p > 1 && Valid(p, a1)
    requires forall j :: Coef(a2, j) == Neg(p, Coef(a1, j))
    ensures ConvFrom(p, a2, b, k, i) == Neg(p, ConvFrom(p, a1, b, k, i))
    decreases k + 1 - i
  {
    if i > k {
      NegZero(p);
    } else {
      ConvFromNegLeft(p, a1, a2, b, k, i + 1);
      NegMul(p, Coef(a1, i), Coef(b, k - i));
      NegAdd(p, Mul(p, Coef(a1, i), Coef(b, k - i)), ConvFrom(p, a1, b, k, i + 1));
    }
  }

  lemma {:induction false} ConvFromScaleLeft(p: nat, a: Poly, c: nat, s: Poly, b: Poly, k: int, i: nat)
    requires p > 1
    requires forall j :: Coef(s, j) == Mul(p, Coef(a, j), c)
    ensures ConvFrom(p, s, b, k, i) == Mul(p, ConvFrom(p, a, b, k, i), c)
    decreases k + 1 - i
  {
    if i > k {
      MulZero(p, c);
    } else {
      ConvFromScaleLeft(p, a, c, s, b, k, i + 1);
      var x, y := Coef(a, i), Coef(b, k - i);
      MulAssoc(p, x, c, y);
      MulComm(p, c, y);
      MulAssoc(p, x, y, c);
      DistribRight(p, Mul(p, x, y), ConvFrom(p, a, b, k, i + 1), c);
    }
  }

  /** Peeling off the lowest coefficient of the left factor. */
  lemma {:induction false} ConvFromShift(p: nat, a: Poly, u: Poly, b: Poly, k: int, i: nat)
    requires p > 1
    requires forall j :: 0 <= j ==> Coef(a, j + 1) == Coef(u, j)
    ensures ConvFrom(p, a, b, k, i + 1) == ConvFrom(p, u, b, k - 1, i)
    decreases k + 1 - i
  {
    if i + 1 <= k {
      ConvFromShift(p, a, u, b, k, i + 1);
      assert Coef(a, i + 1) == Coef(u, i);
      assert k - (i + 1) == k - 1 - i;
    }
  }

  /** Conv(a, b, k) == a_0 * b_k + Conv(a[1..], b, k - 1). */
  lemma ConvFront(p: nat, a: Poly, u: Poly, b: Poly, k: int)
    requires p > 1
    requires forall j :: 0 <= j ==> Coef(a, j + 1) == Coef(u, j)
    ensures Conv(p, a, b, k) == Add(p, Mul(p, Coef(a, 0), Coef(b, k)), Conv(p, u, b, k - 1))
  {
    ConvFromShift(p, a, u, b, k, 0);
    if k < 0 {
      MulZero(p, Coef(a, 0));
      ConvVanishes(p, u, b);
      AddZero(p, 0);
    }
  }

  /** The convolution with a monomial on the left. */
  lemma {:induction false} ConvFromMonoLeft(p: nat, s: nat, c: nat, b: Poly, k: int, i: nat)
    requires p > 1 && c < p && Valid(p, b)
    ensures ConvFrom(p, Mono(s, c), b, k, i) == if i <= s <= k then Mul(p, c, Coef(b, k - s)) else 0
    decreases k + 1 - i
  {
    if i <= k {
      ConvFromMonoLeft(p, s, c, b, k, i + 1);
      MulZero(p, Coef(b, k - i));
      AddZero(p, ConvFrom(p, Mono(s, c), b, k, i + 1));
      AddZero(p, Mul(p, c, Coef(b, k - s)));
    }
  }

  lemma ConvMonoLeft(p: nat, s: nat, c: nat, b: Poly, k: int)
    requires p > 1 && c < p && Valid(p, b)
    ensures Conv(p, Mono(s, c), b, k) == Mul(p, c, Coef(b, k - s))
  {
    ConvFromMonoLeft(p, s, c, b, k, 0);
    if k < s {
      MulZero(p, c);
    }
  }

  /** The convolution with a monomial on the right. */
  lemma {:induction false} ConvFromMonoRight(p: nat, a: Poly, s: nat, c: nat, k: int, i: nat)
    requires p > 1 && c < p && Valid(p, a)
    ensures ConvFrom(p, a, Mono(s, c), k, i) == if i <= k - s then Mul(p, Coef(a, k - s), c) else 0
    decreases k + 1 - i
  {
    if i <= k {
      ConvFromMonoRight(p, a, s, c, k, i + 1);
      MulZero(p, Coef(a, i));
      AddZero(p, ConvFrom(p, a, Mono(s, c), k, i + 1));
      AddZero(p, Mul(p, Coef(a, k - s), c));
    }
  }

  lemma ConvMonoRight(p: nat, a: Poly, s: nat, c: nat, k: int)
    requires p > 1 && c < p && Valid(p, a)
    ensures Conv(p, a, Mono(s, c), k) == Mul(p, Coef(a, k - s), c)
  {
    ConvFromMonoRight(p, a, s, c, k, 0);
    if k < s {
      MulZero(p, c);
    }
  }

  /** The coefficients of a[1..] are those of a, one place down. */
  lemma TailCoef(a: Poly)
    requires |a| >= 1
    ensures forall j :: 0 <= j ==> Coef(a, j + 1) == Coef(a[1..], j)
  {
    forall j | 0 <= j
      ensures Coef(a, j + 1) == Coef(a[1..], j)
    {
      if 0 <= j < |a| - 1 {
        assert a[1..][j] == a[j + 1];
      }
    }
  }

  /** The product by one polynomial is a scaled copy plus x times the rest:
      a*b == a_0*b + x*(a[1..]*b). */
  lemma MulFront(p: nat, a: Poly, b: Poly)
    requires p > 1 && |a| >= 1
    ensures forall j :: Coef(PolyMul(p, a, b), j)
                        == Add(p, Coef(Scale(p, b, a[0]), j), Coef(Shift(PolyMul(p, a[1..], b)), j))
  {
    TailCoef(a);
    forall j
      ensures Coef(PolyMul(p, a, b), j)
              == Add(p, Coef(Scale(p, b, a[0]), j), Coef(Shift(PolyMul(p, a[1..], b)), j))
    {
      ConvFront(p, a, a[1..], b, j);
      MulComm(p, a[0], Coef(b, j));
    }
  }

  /** The convolution of a product, unfolded at the left factor's lowest
      coefficient. */
  lemma ConvProductFront(p: nat, a: Poly, b: Poly, c: Poly, k: int)
    requires p > 1 && |a| >= 1
    ensures Conv(p, PolyMul(p, a, b), c, k)
            == Add(p, Mul(p, Conv(p, b, c, k), a[0]), Conv(p, PolyMul(p, a[1..], b), c, k - 1))
  {
    var a1b := PolyMul(p, a[1..], b);
    var sb := Scale(p, b, a[0]);
    MulFront(p, a, b);
    ConvFromLinearLeft(p, sb, Shift(a1b), PolyMul(p, a, b), c, k, 0);
    ConvFromScaleLeft(p, b, a[0], sb, c, k, 0);
    ConvFront(p, Shift(a1b), a1b, c, k);
    MulZero(p, Coef(c, k));
    AddZero(p, Conv(p, a1b, c, k - 1));
  }

  /** The product is associative. */
  lemma {:induction false} ConvAssoc(p: nat, a: Poly, b: Poly, c: Poly, k: int)
    requires p > 1
    ensures Conv(p, PolyMul(p, a, b), c, k) == Conv(p, a, PolyMul(p, b, c), k)
    decreases |a|
  {
    if |a| == 0 {
      ConvVanishes(p, PolyMul(p, a, b), c);
      ConvVanishes(p, a, PolyMul(p, b, c));
    } else {
      ConvProductFront(p, a, b, c, k);
      ConvAssoc(p, a[1..], b, c, k - 1);
      TailCoef(a);
      ConvFront(p, a, a[1..], PolyMul(p, b, c), k);
      MulComm(p, Conv(p, b, c, k), a[0]);
    }
  }

  lemma MulAssocPoly(p: nat, a: Poly, b: Poly, c: Poly)
    requires p > 1
    ensures PolyEq(PolyMul(p, PolyMul(p, a, b), c), PolyMul(p, a, PolyMul(p, b, c)))
  {
    forall k
      ensures Coef(PolyMul(p, PolyMul(p, a, b), c), k) == Coef(PolyMul(p, a, PolyMul(p, b, c)), k)
    {
      ConvAssoc(p, a, b, c, k);
    }
  }

  /** Equal factors give equal products. */
  lemma MulCong(p: nat, a1: Poly, a2: Poly, b1: Poly, b2: Poly)
    requires p > 1 && PolyEq(a1, a2) && PolyEq(b1, b2)
    ensures PolyEq(PolyMul(p, a1, b1), PolyMul(p, a2, b2))
  {
    forall k
      ensures Coef(PolyMul(p, a1, b1), k) == Coef(PolyMul(p, a2, b2), k)
    {
      ConvFromCong(p, a1, a2, b1, b2, k, 0);
    }
  }

  lemma AddCong(p: nat, a1: Poly, a2: Poly, b1: Poly, b2: Poly)
    requires p > 1 && Valid(p, a1) && Valid(p, a2) && Valid(p, b1) && Valid(p, b2)
    requires PolyEq(a1, a2) && PolyEq(b1, b2)
    ensures PolyEq(PolyAdd(p, a1, b1), PolyAdd(p, a2, b2))
  {
    forall k
      ensures Coef(PolyAdd(p, a1, b1), k) == Coef(PolyAdd(p, a2, b2), k)
    {
      assert Coef(a1, k) == Coef(a2, k) && Coef(b1, k) == Coef(b2, k);
    }
  }

  /** [1] is a two-sided unit and [0] absorbs. */
  lemma MulUnit(p: nat, a: Poly)
    requires p > 1 && Valid(p, a)
    ensures PolyEq(PolyMul(p, [1], a), a) && PolyEq(PolyMul(p, a, [1]), a)
    ensures Deg(PolyMul(p, [0], a)) == -1 && Deg(PolyMul(p, a, [0])) == -1
  {
    assert Mono(0, 1) == [1];
    assert Mono(0, 0) == [0];
    forall k
      ensures Coef(PolyMul(p, [1], a), k) == Coef(a, k)
      ensures Coef(PolyMul(p, a, [1]), k) == Coef(a, k)
      ensures Coef(PolyMul(p, [0], a), k) == 0
      ensures Coef(PolyMul(p, a, [0]), k) == 0
    {
      ConvMonoLeft(p, 0, 1, a, k);
      ConvMonoRight(p, a, 0, 1, k);
      ConvMonoLeft(p, 0, 0, a, k);
      ConvMonoRight(p, a, 0, 0, k);
      MulOne(p, Coef(a, k));
      MulZero(p, Coef(a, k));
    }
    DegBelow(PolyMul(p, [0], a), 0);
    DegBelow(PolyMul(p, a, [0]), 0);
  }

  /** Multiplication distributes over addition, on either side. */
  lemma DistribPoly(p: nat, a: Poly, b: Poly, c: Poly)
    requires p > 1 && Valid(p, a) && Valid(p, b) && Valid(p, c)
    ensures PolyEq(PolyMul(p, PolyAdd(p, a, b), c), PolyAdd(p, PolyMul(p, a, c), PolyMul(p, b, c)))
    ensures PolyEq(PolyMul(p, c, PolyAdd(p, a, b)), PolyAdd(p, PolyMul(p, c, a), PolyMul(p, c, b)))
  {
    forall k
      ensures Coef(PolyMul(p, PolyAdd(p, a, b), c), k)
              == Coef(PolyAdd(p, PolyMul(p, a, c), PolyMul(p, b, c)), k)
      ensures Coef(PolyMul(p, c, PolyAdd(p, a, b)), k)
              == Coef(PolyAdd(p, PolyMul(p, c, a), PolyMul(p, c, b)), k)
    {
      ConvFromLinearLeft(p, a, b, PolyAdd(p, a, b), c, k, 0);
      ConvFromLinearRight(p, c, a, b, PolyAdd(p, a, b), k, 0);
    }
  }
}
