/** `G1Point`: points of a short Weierstrass curve over the prime field,
    with the identity as a separate variant (the source stores it as a pair
    of `None` coordinates). The curve constants A and B are parameters. */
module Curve {
  import opened Errors
  import opened Modular
  import opened Field

  datatype Point = Identity | Affine(x: nat, y: nat)

  /** The BN254 base-field prime. */
  const BN254P: nat := 0x30644E72E131A029B85045B68181585D97816A916871CA8D3C208C16D87CFD47

  /** The generator `G1 = (1, 2)`. */
  const G1: Point := Affine(1, 2)

  /** Affine coordinates are reduced field elements. */
  predicate ValidPoint(p: nat, pt: Point)
  {
    pt.Identity? || (pt.x < p && pt.y < p)
  }

  /** The curve equation y^2 = x^3 + A*x + B; the identity is on every curve. */
  predicate OnCurve(p: nat, a: nat, b: nat, pt: Point)
    requires p > 1
  {
    pt.Identity? || FPow(p, pt.y, 2) == Field.Add(p, Field.Add(p, FPow(p, pt.x, 3), Mul(p, a, pt.x)), b % p)
  }

  // ---------------------------------------------------------------------
  // Negation and the chord-and-tangent construction

  /** `__neg__`: the identity is kept, otherwise y is negated. */
  function Negate(p: nat, pt: Point): (r: Point)
    requires p > 1 && ValidPoint(p, pt)
    ensures ValidPoint(p, r)
    ensures r.Identity? <==> pt.Identity?
    ensures r.Affine? ==> r.x == pt.x && Field.Add(p, r.y, pt.y) == 0
  {
    match pt
    case Identity => pt
    case Affine(x, y) =>
      SubAddRoundTrip(p, y, 0);
      AddComm(p, Neg(p, y), y);
      Affine(x, Neg(p, y))
  }

  /** Negation is an involution. */
  lemma NegateInvolution(p: nat, pt: Point)
    requires p > 1 && ValidPoint(p, pt)
    ensures Negate(p, Negate(p, pt)) == pt
  {
    if pt.Affine? {
      NegInvolution(p, pt.y);
    }
  }

  /** Negating an affine point on a curve stays on the curve. */
  lemma NegateOnCurve(p: nat, a: nat, b: nat, pt: Point)
    requires p > 1 && ValidPoint(p, pt) && OnCurve(p, a, b, pt)
    ensures OnCurve(p, a, b, Negate(p, pt))
  {
    if pt.Affine? {
      NegSquare(p, pt.y);
    }
  }

  /** v^2 is v times v. */
  lemma Square(p: nat, v: nat)
    requires p > 1 && v < p
    ensures FPow(p, v, 2) == Mul(p, v, v)
  {
    assert FPow(p, v, 1) == Mul(p, 1, v);
    ModUnique(v, p, 0, v);
  }

  /** (−y)^2 == y^2. */
  lemma NegSquare(p: nat, y: nat)
    requires p > 1 && y < p
    ensures FPow(p, Neg(p, y), 2) == FPow(p, y, 2)
  {
    var n := Neg(p, y);
    var iy: int := y;
    Square(p, y);
    Square(p, n);
    CNeg(p, y, iy);
    CMul(p, n, n, -iy, -iy);
    CMul(p, y, y, iy, iy);
    assert (-iy) * (-iy) == iy * iy;
    CongSame(p, Mul(p, n, n), Mul(p, y, y), iy * iy);
  }

  /** The line through `a` with slope s meets `c` reflected: −c lies on it. */
  predicate OnLine(p: nat, a: Point, s: nat, c: Point)
    requires p > 1 && a.Affine? && c.Affine?
  {
    Sub(p, Neg(p, c.y), a.y) == Mul(p, s, Sub(p, c.x, a.x))
  }

  /** s is the slope of the chord through a and b, and c is its third
      intersection reflected: the x-coordinates sum to s^2 and −c is on the
      line. */
  predicate ChordLine(p: nat, a: Point, b: Point, s: nat, c: Point)
    requires p > 1 && a.Affine? && b.Affine? && c.Affine?
  {
    s < p
    && Mul(p, s, Sub(p, b.x, a.x)) == Sub(p, b.y, a.y)
    && Field.Add(p, Field.Add(p, c.x, a.x), b.x) == Mul(p, s, s)
    && OnLine(p, a, s, c)
  }

  /** The same for the line through a with slope s, s * 2y == 3x^2 (the
      tangent when A == 0), meeting the curve twice at a. */
  predicate TangentLine(p: nat, a: Point, s: nat, c: Point)
    requires p > 1 && a.Affine? && c.Affine?
  {
    s < p
    && Mul(p, s, Mul(p, 2, a.y)) == Mul(p, Mul(p, 3, a.x), a.x)
    && Field.Add(p, Field.Add(p, c.x, a.x), a.x) == Mul(p, s, s)
    && OnLine(p, a, s, c)
  }

  /** `G1Point.add`, the chord construction: slope (y2 − y1)/(x2 − x1),
      x3 = s^2 − x1 − x2, y3 = s(x1 − x3) − y1. It reads both points'
      coordinates, so an identity operand fails; equal x-coordinates are a
      division by zero. */
  function Chord(p: nat, a: Point, b: Point): (r: Result<Point>)
    requires p > 1 && ValidPoint(p, a) && ValidPoint(p, b)
    ensures (a.Identity? || b.Identity?) ==> r == Err(IdentityCoordinate)
    ensures a.Affine? && b.Affine? ==> (r == Err(DivisionByZero) <==> a.x == b.x)
    ensures r.Err? && a.Affine? && b.Affine? && a.x != b.x ==> r == Err(NotInvertible)
    ensures IsPrime(p) && a.Affine? && b.Affine? && a.x != b.x ==> r.Ok?
    ensures r.Ok? ==> a.Affine? && b.Affine? && r.value.Affine? && ValidPoint(p, r.value)
    ensures r.Ok? ==> exists s: nat :: ChordLine(p, a, b, s, r.value)
  {
    if a.Identity? || b.Identity? then Err(IdentityCoordinate)
    else
      SubZeroIff(p, b.x, a.x);
      var q := Div(p, Sub(p, b.y, a.y), Sub(p, b.x, a.x));
      if q.Err? then Err(q.error)
      else
        var s := q.value;
        var nx := Sub(p, Sub(p, Mul(p, s, s), a.x), b.x);
        var ny := Sub(p, Mul(p, s, Sub(p, a.x, nx)), a.y);
        ModUnique(Sub(p, b.y, a.y), p, 0, Sub(p, b.y, a.y));
        ChordAlgebra(p, s, a.x, a.y, b.x);
        assert ChordLine(p, a, b, s, Affine(nx, ny));
        Ok(Affine(nx, ny))
  }

  /** The scalar identities behind `Chord`'s contract. */
  lemma ChordAlgebra(p: nat, s: nat, x1: nat, y1: nat, x2: nat)
    requires p > 1 && s < p && x1 < p && y1 < p && x2 < p
    ensures var nx := Sub(p, Sub(p, Mul(p, s, s), x1), x2);
            var ny := Sub(p, Mul(p, s, Sub(p, x1, nx)), y1);
            Field.Add(p, Field.Add(p, nx, x1), x2) == Mul(p, s, s)
            && Sub(p, Neg(p, ny), y1) == Mul(p, s, Sub(p, nx, x1))
  {
    var m := Mul(p, s, s);
    var u := Sub(p, m, x1);
    var nx := Sub(p, u, x2);
    var im: int := m;
    CongRefl(p, im);
    CSub(p, m, x1, im, x1);
    CSub(p, u, x2, im - x1, x2);
    CAdd(p, nx, x1, im - x1 - x2, x1);
    CAdd(p, Field.Add(p, nx, x1), x2, im - x1 - x2 + x1, x2);
    CongSame(p, Field.Add(p, Field.Add(p, nx, x1), x2), m, im);
    ReflectedOnLine(p, s, x1, y1, nx);
  }

  /** With y3 = s(x1 − x3) − y1, the reflected point (x3, −y3) is on the
      line through (x1, y1) with slope s. */
  lemma ReflectedOnLine(p: nat, s: nat, x1: nat, y1: nat, nx: nat)
    requires p > 1 && s < p && x1 < p && y1 < p && nx < p
    ensures Sub(p, Neg(p, Sub(p, Mul(p, s, Sub(p, x1, nx)), y1)), y1) == Mul(p, s, Sub(p, nx, x1))
  {
    var d := Sub(p, x1, nx);
    var e := Mul(p, s, d);
    var ny := Sub(p, e, y1);
    var n := Neg(p, ny);
    var lhs := Sub(p, n, y1);
    var d' := Sub(p, nx, x1);
    var rhs := Mul(p, s, d');
    var i: int := s * (x1 - nx);
    CSub(p, x1, nx, x1, nx);
    CMul(p, s, d, s, x1 - nx);
    CSub(p, e, y1, i, y1);
    CNeg(p, ny, i - y1);
    CSub(p, n, y1, -(i - y1), y1);
    CSub(p, nx, x1, nx, x1);
    CMul(p, s, d', s, nx - x1);
    NegProduct(s, x1, nx, y1);
    CongSame(p, lhs, rhs, s * (nx - x1));
  }

  lemma NegProduct(s: int, a: int, b: int, y: int)
    ensures -(s * (a - b) - y) - y == s * (b - a)
  {
  }

  /** `G1Point.double`, the tangent construction without an A term: slope
      3x^2 / 2y, x3 = s^2 − 2x, y3 = s(x − x3) − y. The slope is the tangent
      slope only on curves with A == 0. */
  function Double(p: nat, pt: Point): (r: Result<Point>)
    requires p > 1 && ValidPoint(p, pt)
    ensures pt.Identity? ==> r == Err(IdentityCoordinate)
    ensures pt.Affine? ==> (r == Err(DivisionByZero) <==> Mul(p, 2, pt.y) == 0)
    ensures r.Err? && pt.Affine? && Mul(p, 2, pt.y) != 0 ==> r == Err(NotInvertible)
    ensures IsPrime(p) && p != 2 && pt.Affine? && pt.y != 0 ==> r.Ok?
    ensures r.Ok? ==> pt.Affine? && r.value.Affine? && ValidPoint(p, r.value)
    ensures r.Ok? ==> exists s: nat :: TangentLine(p, pt, s, r.value)
  {
    if pt.Identity? then Err(IdentityCoordinate)
    else
      DoubledNonZero(p, pt.y);
      var q := Div(p, Mul(p, Mul(p, 3, pt.x), pt.x), Mul(p, 2, pt.y));
      if q.Err? then Err(q.error)
      else
        var s := q.value;
        var nx := Sub(p, Mul(p, s, s), Mul(p, 2, pt.x));
        var ny := Sub(p, Mul(p, s, Sub(p, pt.x, nx)), pt.y);
        ModUnique(Mul(p, Mul(p, 3, pt.x), pt.x), p, 0, Mul(p, Mul(p, 3, pt.x), pt.x));
        DoubleAlgebra(p, s, pt.x, pt.y);
        assert TangentLine(p, pt, s, Affine(nx, ny));
        Ok(Affine(nx, ny))
  }

  /** 2y is non-zero for y != 0 over an odd prime. */
  lemma DoubledNonZero(p: nat, y: nat)
    requires p > 1
    ensures IsPrime(p) && p != 2 && 0 < y < p ==> Mul(p, 2, y) != 0
  {
    if IsPrime(p) && p != 2 && 0 < y < p {
      NoZeroDivisors(p, 2, y);
    }
  }

  /** The scalar identities behind `Double`'s contract. */
  lemma DoubleAlgebra(p: nat, s: nat, x: nat, y: nat)
    requires p > 1 && s < p && x < p && y < p
    ensures var nx := Sub(p, Mul(p, s, s), Mul(p, 2, x));
            var ny := Sub(p, Mul(p, s, Sub(p, x, nx)), y);
            Field.Add(p, Field.Add(p, nx, x), x) == Mul(p, s, s)
            && Sub(p, Neg(p, ny), y) == Mul(p, s, Sub(p, nx, x))
  {
    var m := Mul(p, s, s);
    var t := Mul(p, 2, x);
    var nx := Sub(p, m, t);
    var im: int := m;
    var ix: int := x;
    CongRefl(p, im);
    CMul(p, 2, x, 2, ix);
    CSub(p, m, t, im, 2 * ix);
    CAdd(p, nx, x, im - 2 * ix, ix);
    CAdd(p, Field.Add(p, nx, x), x, im - 2 * ix + ix, ix);
    CongSame(p, Field.Add(p, Field.Add(p, nx, x), x), m, im);
    ReflectedOnLine(p, s, x, y, nx);
  }

  /** `__add__`: the identity is neutral; equal x with different y gives the
      identity; everything else, equal points included, goes to the chord. */
  function Plus(p: nat, a: Point, b: Point): (r: Result<Point>)
    requires p > 1 && ValidPoint(p, a) && ValidPoint(p, b)
    ensures a.Identity? ==> r == Ok(b)
    ensures a.Affine? && b.Identity? ==> r == Ok(a)
    ensures a.Affine? && b.Affine? && a.x == b.x && a.y != b.y ==> r == Ok(Identity)
    ensures a.Affine? && b.Affine? && a.x != b.x ==> r == Chord(p, a, b)
    ensures a.Affine? && a == b ==> r == Err(DivisionByZero)
    ensures r.Ok? ==> ValidPoint(p, r.value)
  {
    if a.Identity? then Ok(b)
    else if b.Identity? then Ok(a)
    else if a.x == b.x && a.y != b.y then Ok(Identity)
    else Chord(p, a, b)
  }

  /** `__sub__`: a + (−b). */
  function Minus(p: nat, a: Point, b: Point): (r: Result<Point>)
    requires p > 1 && ValidPoint(p, a) && ValidPoint(p, b)
    ensures r == Plus(p, a, Negate(p, b))
    ensures b.Identity? ==> r == Ok(a)
  {
    Plus(p, a, Negate(p, b))
  }

  /** P + (−P) is the identity whenever y != 0 (2y != 0: p odd). */
  lemma PlusNegate(p: nat, pt: Point)
    requires p > 2 && IsPrime(p) && ValidPoint(p, pt)
    requires pt.Affine? ==> pt.y != 0
    ensures Plus(p, pt, Negate(p, pt)) == Ok(Identity)
    ensures Minus(p, pt, pt) == Ok(Identity)
  {
    if pt.Affine? {
      NegNotFixed(p, pt.y);
    }
  }

  /** Over an odd prime, −y == y only for y == 0. */
  lemma NegNotFixed(p: nat, y: nat)
    requires p > 2 && IsPrime(p) && 0 < y < p
    ensures Neg(p, y) != y
  {
    if Neg(p, y) == y {
      var iy: int := y;
      CNeg(p, y, iy);
      CMul(p, 2, y, 2, iy);
      assert Cong(p, y, -iy);
      MultipleSum(p, y - (-iy), 0);
      assert Cong(p, 0, 2 * iy) by {
        MultipleSum(p, 0, y - (-iy));
      }
      CongSame(p, Mul(p, 2, y), 0, 2 * iy);
      NoZeroDivisors(p, 2, y);
      assert false;
    }
  }

  /** The chord is symmetric: a + b == b + a for distinct x (prime field). */
  lemma ChordCommutes(p: nat, a: Point, b: Point)
    requires IsPrime(p) && ValidPoint(p, a) && ValidPoint(p, b)
    requires a.Affine? && b.Affine? && a.x != b.x
    ensures Chord(p, a, b) == Chord(p, b, a)
    ensures Plus(p, a, b) == Plus(p, b, a)
  {
    SubZeroIff(p, b.x, a.x);
    SubZeroIff(p, a.x, b.x);
    var s := Div(p, Sub(p, b.y, a.y), Sub(p, b.x, a.x)).value;
    var t := Div(p, Sub(p, a.y, b.y), Sub(p, a.x, b.x)).value;
    ModUnique(Sub(p, b.y, a.y), p, 0, Sub(p, b.y, a.y));
    ModUnique(Sub(p, a.y, b.y), p, 0, Sub(p, a.y, b.y));
    SlopeSymmetric(p, s, t, a.x, a.y, b.x, b.y);
    MirrorAlgebra(p, s, a.x, a.y, b.x, b.y);
    var nx := Sub(p, Sub(p, Mul(p, s, s), a.x), b.x);
    var ny := Sub(p, Mul(p, s, Sub(p, a.x, nx)), a.y);
    assert Chord(p, a, b) == Ok(Affine(nx, ny));
    assert Chord(p, b, a) == Ok(Affine(nx, ny));
  }

  /** The two slopes of a chord agree. */
  lemma SlopeSymmetric(p: nat, s: nat, t: nat, x1: nat, y1: nat, x2: nat, y2: nat)
    requires IsPrime(p) && s < p && t < p && x1 < p && y1 < p && x2 < p && y2 < p && x1 != x2
    requires Mul(p, s, Sub(p, x2, x1)) == Sub(p, y2, y1)
    requires Mul(p, t, Sub(p, x1, x2)) == Sub(p, y1, y2)
    ensures s == t
  {
    CSub(p, x2, x1, x2, x1);
    CSub(p, x1, x2, x1, x2);
    CSub(p, y2, y1, y2, y1);
    CSub(p, y1, y2, y1, y2);
    CMul(p, s, Sub(p, x2, x1), s, x2 - x1);
    CMul(p, t, Sub(p, x1, x2), t, x1 - x2);
    CMul(p, t, Sub(p, x2, x1), t, x2 - x1);
    // t (x2 - x1) == -(t (x1 - x2)) == -(y1 - y2) == y2 - y1
    assert t * (x2 - x1) == -(t * (x1 - x2));
    assert Cong(p, Mul(p, t, Sub(p, x2, x1)), -(y1 - y2)) by {
      MultipleSum(p, Mul(p, t, Sub(p, x2, x1)) - t * (x2 - x1), Mul(p, t, Sub(p, x1, x2)) - t * (x1 - x2));
      MultipleSum(p, Mul(p, t, Sub(p, x1, x2)) - (y1 - y2), 0);
      assert (Mul(p, t, Sub(p, x2, x1)) - t * (x2 - x1)) + (Mul(p, t, Sub(p, x1, x2)) - t * (x1 - x2))
        == Mul(p, t, Sub(p, x2, x1)) + Mul(p, t, Sub(p, x1, x2));
      MultipleSum(p, Mul(p, t, Sub(p, x2, x1)) + Mul(p, t, Sub(p, x1, x2)), Mul(p, t, Sub(p, x1, x2)) - (y1 - y2));
      assert (Mul(p, t, Sub(p, x2, x1)) + Mul(p, t, Sub(p, x1, x2))) - (Mul(p, t, Sub(p, x1, x2)) - (y1 - y2))
        == Mul(p, t, Sub(p, x2, x1)) - (-(y1 - y2));
    }
    CongSame(p, Mul(p, t, Sub(p, x2, x1)), Sub(p, y2, y1), y2 - y1);
    SubZeroIff(p, x2, x1);
    MulCancel(p, s, t, Sub(p, x2, x1));
  }

  /** With the common slope, both orders give the same point. */
  lemma MirrorAlgebra(p: nat, s: nat, x1: nat, y1: nat, x2: nat, y2: nat)
    requires p > 1 && s < p && x1 < p && y1 < p && x2 < p && y2 < p
    requires Mul(p, s, Sub(p, x2, x1)) == Sub(p, y2, y1)
    ensures Sub(p, Sub(p, Mul(p, s, s), x1), x2) == Sub(p, Sub(p, Mul(p, s, s), x2), x1)
    ensures var nx := Sub(p, Sub(p, Mul(p, s, s), x1), x2);
            Sub(p, Mul(p, s, Sub(p, x1, nx)), y1) == Sub(p, Mul(p, s, Sub(p, x2, nx)), y2)
  {
    var m := Mul(p, s, s);
    var im: int := m;
    CongRefl(p, im);
    CSub(p, m, x1, im, x1);
    CSub(p, Sub(p, m, x1), x2, im - x1, x2);
    CSub(p, m, x2, im, x2);
    CSub(p, Sub(p, m, x2), x1, im - x2, x1);
    CongSame(p, Sub(p, Sub(p, m, x1), x2), Sub(p, Sub(p, m, x2), x1), im - x1 - x2);
    var nx := Sub(p, Sub(p, m, x1), x2);
    var l := Sub(p, Mul(p, s, Sub(p, x1, nx)), y1);
    var r := Sub(p, Mul(p, s, Sub(p, x2, nx)), y2);
    var il: int := s * (x1 - nx) - y1;
    var ir: int := s * (x2 - nx) - y2;
    CSub(p, x1, nx, x1, nx);
    CMul(p, s, Sub(p, x1, nx), s, x1 - nx);
    CSub(p, Mul(p, s, Sub(p, x1, nx)), y1, s * (x1 - nx), y1);
    CSub(p, x2, nx, x2, nx);
    CMul(p, s, Sub(p, x2, nx), s, x2 - nx);
    CSub(p, Mul(p, s, Sub(p, x2, nx)), y2, s * (x2 - nx), y2);
    var slope: int := s * (x2 - x1);
    CSub(p, x2, x1, x2, x1);
    CMul(p, s, Sub(p, x2, x1), s, x2 - x1);
    CSub(p, y2, y1, y2, y1);
    MultipleSum(p, Mul(p, s, Sub(p, x2, x1)) - slope, Sub(p, y2, y1) - (y2 - y1));
    assert (Mul(p, s, Sub(p, x2, x1)) - slope) - (Sub(p, y2, y1) - (y2 - y1)) == (y2 - y1) - slope;
    ChordIdentity(s, x1, x2, nx, y1, y2);
    assert ir - il == slope - (y2 - y1);
    CongDiff(p, ir, il, slope, y2 - y1);
    CongTrans(p, r, ir, il);
    CSub(p, l, l, l, l);
    CongSame(p, r, l, il);
  }

  lemma ChordIdentity(s: int, x1: int, x2: int, nx: int, y1: int, y2: int)
    ensures (s * (x2 - nx) - y2) - (s * (x1 - nx) - y1) == s * (x2 - x1) - (y2 - y1)
  {
  }

  /** Congruence depends on the difference only. */
  lemma CongDiff(p: nat, x: int, y: int, u: int, v: int)
    requires p > 1 && (v - u) % p == 0 && x - y == u - v
    ensures Cong(p, x, y)
  {
    ModEqualDiff(0, v - u, p);
    assert 0 - (v - u) == x - y;
  }

  // ---------------------------------------------------------------------
  // Scalar multiplication

  /** `scalar_mul` as written, as a function of the scalar: the accumulator
      starts at the identity and the raw chord is applied to it, so the
      first set bit fails; every earlier step doubles the addend. */
  function LadderAsWritten(p: nat, addend: Point, k: int): (r: Result<Point>)
    requires p > 1 && ValidPoint(p, addend)
    ensures k == 0 <==> r == Ok(Identity)
    ensures r.Err? <==> k != 0
    decreases if k < 0 then -k else k
  {
    if k == 0 then Ok(Identity)
    else if k % 2 == 1 then Chord(p, Identity, addend)
    else
      var d := Double(p, addend);
      if d.Err? then Err(d.error) else LadderAsWritten(p, d.value, k / 2)
  }

  /** The source's `scalar_mul`: bits from the least significant up,
      `scalar & 1` is `k % 2` and `scalar >>= 1` is floor division by 2. */
  method ScalarMul(p: nat, pt: Point, k: int) returns (r: Result<Point>)
    requires p > 1 && ValidPoint(p, pt)
    ensures r == LadderAsWritten(p, pt, k)
    ensures k == 0 <==> r == Ok(Identity)
    ensures k != 0 ==> r.Err?
  {
    var result := Identity;
    var addend := pt;
    var scalar := k;
    while scalar != 0
      invariant ValidPoint(p, addend) && result == Identity
      invariant LadderAsWritten(p, addend, scalar) == LadderAsWritten(p, pt, k)
      decreases if scalar < 0 then -scalar else scalar
    {
      if scalar % 2 == 1 {
        return Chord(p, result, addend);
      }
      var d := Double(p, addend);
      if d.Err? {
        return Err(d.error);
      }
      addend := d.value;
      scalar := scalar / 2;
    }
    return Ok(result);
  }

  /** The generator times one already fails: the chord is asked to add
      G1 to the identity accumulator. */
  lemma ScalarMulOneFails()
    ensures LadderAsWritten(BN254P, G1, 1) == Err(IdentityCoordinate)
  {
  }

  /** `__add__` with the equal-point cases the chord cannot take: a point
      plus itself is its double, and a point of order two plus itself the
      identity. */
  function GroupAdd(p: nat, a: Point, b: Point): (r: Result<Point>)
    requires p > 1 && ValidPoint(p, a) && ValidPoint(p, b)
    ensures a.Identity? ==> r == Ok(b)
    ensures a.Affine? && b.Identity? ==> r == Ok(a)
    ensures a.Affine? && b.Affine? && a.x != b.x ==> r == Plus(p, a, b)
    ensures a.Affine? && b.Affine? && a.x == b.x && a.y != b.y ==> r == Plus(p, a, b)
    ensures a.Affine? && a == b && a.y != 0 ==> r == Double(p, a)
    ensures a.Affine? && a == b && a.y == 0 ==> r == Ok(Identity)
    ensures r.Ok? ==> ValidPoint(p, r.value)
  {
    if a.Affine? && a == b then
      if a.y == 0 then Ok(Identity) else Double(p, a)
    else Plus(p, a, b)
  }

  /** With the equal-point cases handled, P + (−P) is the identity for
      every point, y == 0 included. */
  lemma GroupAddNegate(p: nat, pt: Point)
    requires p > 2 && IsPrime(p) && ValidPoint(p, pt)
    ensures GroupAdd(p, pt, Negate(p, pt)) == Ok(Identity)
  {
    if pt.Affine? && pt.y == 0 {
      NegZero(p);
    } else {
      PlusNegate(p, pt);
    }
  }

  /** The double-and-add ladder with the accumulator added by `GroupAdd`. */
  function Ladder(p: nat, acc: Point, addend: Point, k: nat): (r: Result<Point>)
    requires p > 1 && ValidPoint(p, acc) && ValidPoint(p, addend)
    ensures r.Ok? ==> ValidPoint(p, r.value)
    ensures k == 0 ==> r == Ok(acc)
    decreases k
  {
    if k == 0 then Ok(acc)
    else
      var acc' := if k % 2 == 1 then GroupAdd(p, acc, addend) else Ok(acc);
      var d := Double(p, addend);
      if acc'.Err? then Err(acc'.error)
      else if d.Err? then Err(d.error)
      else Ladder(p, acc'.value, d.value, k / 2)
  }

  /** `scalar_mul` with `result = GroupAdd(result, addend)`, the corrected
      addition, which treats the identity as neutral and doubles when
      result == addend. The loop runs once per binary digit of k. */
  method ScalarMulFixed(p: nat, pt: Point, k: nat) returns (r: Result<Point>, ghost steps: nat)
    requires p > 1 && ValidPoint(p, pt)
    ensures r == Ladder(p, Identity, pt, k)
    ensures r.Ok? ==> steps == (if k == 0 then 0 else BinLen(k))
  {
    var result := Identity;
    var addend := pt;
    var scalar := k;
    steps := 0;
    while scalar != 0
      invariant ValidPoint(p, result) && ValidPoint(p, addend)
      invariant Ladder(p, result, addend, scalar) == Ladder(p, Identity, pt, k)
      invariant steps + (if scalar == 0 then 0 else BinLen(scalar)) == (if k == 0 then 0 else BinLen(k))
    {
      if scalar % 2 == 1 {
        var s := GroupAdd(p, result, addend);
        if s.Err? {
          return Err(s.error), steps;
        }
        result := s.value;
      }
      var d := Double(p, addend);
      if d.Err? {
        return Err(d.error), steps;
      }
      addend := d.value;
      scalar := scalar / 2;
      steps := steps + 1;
    }
    return Ok(result), steps;
  }

  /** The fixed ladder: 0·P is the identity, and 1·P is P whenever the
      final doubling of the addend succeeds (over a prime p > 2: y != 0). */
  lemma LadderSmall(p: nat, pt: Point)
    requires p > 1 && ValidPoint(p, pt)
    ensures Ladder(p, Identity, pt, 0) == Ok(Identity)
    ensures Double(p, pt).Ok? ==> Ladder(p, Identity, pt, 1) == Ok(pt)
    ensures Double(p, pt).Err? ==> Ladder(p, Identity, pt, 1).Err?
  {
  }

  /** n successive doublings. */
  function DoubleN(p: nat, pt: Point, n: nat): (r: Result<Point>)
    requires p > 1 && ValidPoint(p, pt)
    ensures r.Ok? ==> ValidPoint(p, r.value)
    ensures pt.Identity? && n > 0 ==> r == Err(IdentityCoordinate)
    decreases n
  {
    if n == 0 then Ok(pt)
    else
      var d := Double(p, pt);
      if d.Err? then Err(d.error) else DoubleN(p, d.value, n - 1)
  }

  /** Before the first set bit the fixed ladder only doubles: 2^j · P is
      the j-th double of P, once the doubling after the last bit succeeds. */
  lemma {:induction false} LadderPowerOfTwo(p: nat, pt: Point, j: nat)
    requires p > 1 && ValidPoint(p, pt)
    requires DoubleN(p, pt, j + 1).Ok?
    ensures Ladder(p, Identity, pt, Pow2(j)) == DoubleN(p, pt, j)
    decreases j
  {
    var d := Double(p, pt);
    assert d.Ok?;
    if j == 0 {
      assert Pow2(0) == 1;
      assert Ladder(p, Identity, pt, 1) == Ladder(p, pt, d.value, 0);
    } else {
      var h := Pow2(j - 1);
      var k := Pow2(j);
      assert k == h * 2;
      assert k % 2 == 0 && k / 2 == h && k != 0;
      assert Ladder(p, Identity, pt, k) == Ladder(p, Identity, d.value, h);
      assert DoubleN(p, pt, j + 1) == DoubleN(p, d.value, j);
      LadderPowerOfTwo(p, d.value, j - 1);
    }
  }

  /** 2^j; positive, so the ladder on it takes at least one step. */
  function Pow2(j: nat): (r: nat)
    ensures r >= 1
  {
    if j == 0 then 1 else 2 * Pow2(j - 1)
  }

  // ---------------------------------------------------------------------
  // The curve check

  /** `is_on_curve` as written: compares y^2 with x^3 + 3x + 1 and returns
      the pair (equal, (left, right)); the second part stands for the
      message text built from the two values. The identity has no
      coordinates to read. */
  function IsOnCurveAsWritten(p: nat, pt: Point): (r: Result<(bool, (nat, nat))>)
    requires p > 1 && ValidPoint(p, pt)
    ensures pt.Identity? <==> r == Err(IdentityCoordinate)
    ensures r.Ok? ==> (r.value.0 <==> OnCurve(p, 3, 1, pt))
  {
    if pt.Identity? then Err(IdentityCoordinate)
    else
      var left := FPow(p, pt.y, 2);
      var right := Field.Add(p, Field.Add(p, FPow(p, pt.x, 3), Mul(p, 3, pt.x)), 1);
      OneReduced(p);
      Ok((left == right, (left, right)))
  }

  lemma OneReduced(p: nat)
    requires p > 1
    ensures 1 % p == 1
  {
  }

  /** Python's truth value of `is_on_curve(pt)`: a non-empty tuple is true,
      so the module-level assertion holds for every affine point. */
  predicate AssertionPasses(r: Result<(bool, (nat, nat))>)
  {
    r.Ok?
  }

  /** G1 is not on y^2 = x^3 + 3x + 1 over BN254 (4 != 5), yet the
      assertion on it passes. */
  lemma G1FailsAsWrittenEquation()
    ensures IsOnCurveAsWritten(BN254P, G1).Ok?
    ensures !IsOnCurveAsWritten(BN254P, G1).value.0
    ensures AssertionPasses(IsOnCurveAsWritten(BN254P, G1))
  {
    assert FPow(BN254P, 2, 2) == 4;
    assert FPow(BN254P, 1, 3) == 1;
  }

  /** The curve check with the BN254 equation y^2 = x^3 + 3 (`OnCurve` with
      A == 0, B == 3) and its truth value taken from the comparison alone:
      G1 passes and a point off the curve does not. */
  lemma G1OnBN254()
    ensures OnCurve(BN254P, 0, 3, G1)
    ensures !OnCurve(BN254P, 0, 3, Affine(1, 3))
  {
    assert FPow(BN254P, 2, 2) == 4;
    assert FPow(BN254P, 3, 2) == 9;
    assert FPow(BN254P, 1, 3) == 1;
  }
}
