/** `Divisor`: a formal sum of curve points. The source keeps a dictionary
    from points to multiplicities; here it is the list of its items, in
    insertion order, with distinct points. A point that is missing has
    multiplicity zero. */
module Divisor {
  import opened Curve

  type Entries = seq<(Point, int)>

  datatype Divisor = Divisor(points: Entries, degree: int)

  predicate DistinctKeys(es: Entries)
  {
    forall i, j :: 0 <= i < j < |es| ==> es[i].0 != es[j].0
  }

  /** The dictionary's keys, in order. */
  function Keys(es: Entries): (ks: seq<Point>)
    ensures |ks| == |es|
    ensures forall i :: 0 <= i < |es| ==> ks[i] == es[i].0
  {
    if |es| == 0 then [] else [es[0].0] + Keys(es[1..])
  }

  /** The dictionary lookup with a default of zero. */
  function Mult(es: Entries, pt: Point): int
  {
    if |es| == 0 then 0
    else if es[0].0 == pt then es[0].1
    else Mult(es[1..], pt)
  }

  /** `sum(points.values())`. */
  function Total(es: Entries): int
  {
    if |es| == 0 then 0 else es[0].1 + Total(es[1..])
  }

  /** Distinct points, and `degree` is the sum of the multiplicities. */
  predicate Valid(d: Divisor)
  {
    DistinctKeys(d.points) && d.degree == Total(d.points)
  }

  lemma {:induction false} MultAbsent(es: Entries, pt: Point)
    requires pt !in Keys(es)
    ensures Mult(es, pt) == 0
    decreases |es|
  {
    if |es| > 0 {
      assert Keys(es) == [es[0].0] + Keys(es[1..]);
      MultAbsent(es[1..], pt);
    }
  }

  lemma {:induction false} MultAt(es: Entries, i: int)
    requires DistinctKeys(es) && 0 <= i < |es|
    ensures Mult(es, es[i].0) == es[i].1
    decreases i
  {
    if i > 0 {
      assert es[0].0 != es[i].0;
      assert es[1..][i - 1] == es[i];
      MultAt(es[1..], i - 1);
    }
  }

  // ---------------------------------------------------------------------
  // Construction

  /** `Divisor.__init__`: the degree is computed from the multiplicities. */
  function Init(points: Entries): (d: Divisor)
    requires DistinctKeys(points)
    ensures Valid(d) && d.points == points
    ensures forall pt :: Mult(d.points, pt) == Mult(points, pt)
  {
    Divisor(points, Total(points))
  }

  /** `Divisor.empty`: every multiplicity is zero, and so is the degree. */
  function Empty(): (d: Divisor)
    ensures Valid(d) && d.degree == 0
    ensures forall pt :: Mult(d.points, pt) == 0
  {
    Divisor([], 0)
  }

  // ---------------------------------------------------------------------
  // Equality up to zero multiplicities

  /** The items with a non-zero multiplicity. */
  function NonZero(es: Entries): (r: Entries)
    ensures forall e :: e in r ==> e in es && e.1 != 0
    ensures forall e :: e in es && e.1 != 0 ==> e in r
  {
    if |es| == 0 then []
    else if es[0].1 != 0 then [es[0]] + NonZero(es[1..])
    else NonZero(es[1..])
  }

  /** The dictionaries without their zero entries hold the same items, in
      any order. */
  predicate SameItems(a: Divisor, b: Divisor)
  {
    (forall e | e in NonZero(a.points) :: e in NonZero(b.points))
    && (forall e | e in NonZero(b.points) :: e in NonZero(a.points))
  }

  /** `Divisor.__eq__`: the dictionaries compared after dropping their zero
      entries, which for valid divisors is equality of every multiplicity. */
  function Equal(a: Divisor, b: Divisor): (r: bool)
    ensures Valid(a) && Valid(b) ==> (r <==> SameMult(a, b))
  {
    SameItemsIff(a, b);
    SameItems(a, b)
  }

  /** A non-zero item is in the dictionary exactly when the lookup gives it. */
  lemma InNonZero(es: Entries, pt: Point, m: int)
    requires DistinctKeys(es) && m != 0
    ensures (pt, m) in NonZero(es) <==> Mult(es, pt) == m
  {
    if (pt, m) in es {
      var i :| 0 <= i < |es| && es[i] == (pt, m);
      MultAt(es, i);
    } else if pt in Keys(es) {
      var i :| 0 <= i < |es| && Keys(es)[i] == pt;
      MultAt(es, i);
    } else {
      MultAbsent(es, pt);
    }
  }

  /** Equality ignoring zeros is equality of every multiplicity. */
  lemma SameItemsIff(a: Divisor, b: Divisor)
    ensures Valid(a) && Valid(b) ==> (SameItems(a, b) <==> SameMult(a, b))
  {
    if Valid(a) && Valid(b) {
      if SameItems(a, b) {
        EqualMult(a, b);
      }
      if SameMult(a, b) {
        MultEqual(a, b);
        MultEqual(b, a);
      }
    }
  }

  /** Every point has the same multiplicity in both. */
  ghost predicate SameMult(a: Divisor, b: Divisor)
  {
    forall pt :: Mult(a.points, pt) == Mult(b.points, pt)
  }

  lemma EqualMult(a: Divisor, b: Divisor)
    requires Valid(a) && Valid(b) && SameItems(a, b)
    ensures SameMult(a, b)
  {
    forall pt
      ensures Mult(a.points, pt) == Mult(b.points, pt)
    {
      var ma, mb := Mult(a.points, pt), Mult(b.points, pt);
      if ma != 0 {
        InNonZero(a.points, pt, ma);
        InNonZero(b.points, pt, ma);
      } else if mb != 0 {
        InNonZero(a.points, pt, mb);
        InNonZero(b.points, pt, mb);
      }
    }
  }

  lemma MultEqual(a: Divisor, b: Divisor)
    requires Valid(a) && Valid(b)
    requires SameMult(a, b) || SameMult(b, a)
    ensures forall e | e in NonZero(a.points) :: e in NonZero(b.points)
  {
    forall e | e in NonZero(a.points)
      ensures e in NonZero(b.points)
    {
      InNonZero(a.points, e.0, e.1);
      assert Mult(b.points, e.0) == e.1;
      InNonZero(b.points, e.0, e.1);
    }
  }

  // ---------------------------------------------------------------------
  // Negation

  function NegEntries(es: Entries): (r: Entries)
    ensures |r| == |es|
    ensures forall i :: 0 <= i < |es| ==> r[i] == (es[i].0, -es[i].1)
  {
    if |es| == 0 then [] else [(es[0].0, -es[0].1)] + NegEntries(es[1..])
  }

  lemma {:induction false} NegEntriesFacts(es: Entries)
    ensures Total(NegEntries(es)) == -Total(es)
    ensures forall pt :: Mult(NegEntries(es), pt) == -Mult(es, pt)
    decreases |es|
  {
    if |es| > 0 {
      NegEntriesFacts(es[1..]);
      assert NegEntries(es)[1..] == NegEntries(es[1..]);
    }
  }

  /** `Divisor.__neg__`: every multiplicity negated, same points in the
      same order; the degree is negated too. */
  function Negate(d: Divisor): (r: Divisor)
    requires Valid(d)
    ensures Valid(r) && r.degree == -d.degree
    ensures forall pt :: Mult(r.points, pt) == -Mult(d.points, pt)
    ensures |r.points| == |d.points|
    ensures forall i :: 0 <= i < |d.points| ==> r.points[i] == (d.points[i].0, -d.points[i].1)
  {
    var es := NegEntries(d.points);
    NegEntriesFacts(d.points);
    Divisor(es, Total(es))
  }

  /** Negation is an involution. */
  lemma NegateInvolution(d: Divisor)
    requires Valid(d)
    ensures Negate(Negate(d)) == d
  {
    assert Negate(Negate(d)).points == d.points;
  }

  // ---------------------------------------------------------------------
  // Addition

  /** `formal_sum[p] += np` for a point already present, otherwise
      `formal_sum[p] = np` (appended at the end). */
  function Bump(es: Entries, pt: Point, m: int): (r: Entries)
  {
    if |es| == 0 then [(pt, m)]
    else if es[0].0 == pt then [(pt, es[0].1 + m)] + es[1..]
    else [es[0]] + Bump(es[1..], pt, m)
  }

  /** A present key keeps its place; a new one goes last. */
  lemma {:induction false} BumpKeys(es: Entries, pt: Point, m: int)
    ensures Keys(Bump(es, pt, m)) == if pt in Keys(es) then Keys(es) else Keys(es) + [pt]
    decreases |es|
  {
    if |es| > 0 {
      var r := Bump(es, pt, m);
      assert Keys(es) == [es[0].0] + Keys(es[1..]);
      assert Keys(r) == [r[0].0] + Keys(r[1..]);
      if es[0].0 != pt {
        BumpKeys(es[1..], pt, m);
        assert r[1..] == Bump(es[1..], pt, m);
      } else {
        assert r[1..] == es[1..];
      }
    }
  }

  lemma {:induction false} BumpMult(es: Entries, pt: Point, m: int, q: Point)
    ensures Mult(Bump(es, pt, m), q) == Mult(es, q) + (if q == pt then m else 0)
    decreases |es|
  {
    if |es| > 0 {
      var r := Bump(es, pt, m);
      if es[0].0 != pt {
        BumpMult(es[1..], pt, m, q);
        assert r[1..] == Bump(es[1..], pt, m);
      } else {
        assert r[1..] == es[1..];
      }
    }
  }

  lemma {:induction false} BumpTotal(es: Entries, pt: Point, m: int)
    ensures Total(Bump(es, pt, m)) == Total(es) + m
    decreases |es|
  {
    if |es| > 0 {
      var r := Bump(es, pt, m);
      if es[0].0 != pt {
        BumpTotal(es[1..], pt, m);
        assert r[1..] == Bump(es[1..], pt, m);
      } else {
        assert r[1..] == es[1..];
      }
    }
  }

  lemma BumpFacts(es: Entries, pt: Point, m: int)
    requires DistinctKeys(es)
    ensures DistinctKeys(Bump(es, pt, m))
    ensures Total(Bump(es, pt, m)) == Total(es) + m
    ensures forall q :: Mult(Bump(es, pt, m), q) == Mult(es, q) + (if q == pt then m else 0)
  {
    BumpKeys(es, pt, m);
    BumpTotal(es, pt, m);
    forall q
      ensures Mult(Bump(es, pt, m), q) == Mult(es, q) + (if q == pt then m else 0)
    {
      BumpMult(es, pt, m, q);
    }
    var r := Bump(es, pt, m);
    assert DistinctKeys(r) by {
      forall i, j | 0 <= i < j < |r|
        ensures r[i].0 != r[j].0
      {
        assert Keys(r)[i] == r[i].0 && Keys(r)[j] == r[j].0;
        if pt !in Keys(es) && j == |es| {
          assert Keys(r)[i] == Keys(es)[i];
        } else {
          assert Keys(r)[i] == es[i].0 && Keys(r)[j] == es[j].0;
        }
      }
    }
  }

  /** The dictionary after the loop has merged the first items of `other`. */
  function Merged(es: Entries, other: Entries): (r: Entries)
  {
    if |other| == 0 then es
    else
      var last := other[|other| - 1];
      Bump(Merged(es, other[..|other| - 1]), last.0, last.1)
  }

  lemma {:induction false} MergedFacts(es: Entries, other: Entries)
    requires DistinctKeys(es)
    ensures DistinctKeys(Merged(es, other))
    ensures Total(Merged(es, other)) == Total(es) + Total(other)
    ensures DistinctKeys(other) ==> forall q :: Mult(Merged(es, other), q) == Mult(es, q) + Mult(other, q)
    decreases |other|
  {
    if |other| > 0 {
      var init := other[..|other| - 1];
      var last := other[|other| - 1];
      assert DistinctKeys(other) ==> DistinctKeys(init);
      MergedFacts(es, init);
      BumpFacts(Merged(es, init), last.0, last.1);
      SplitLast(other);
    }
  }

  /** Merging keeps `es`'s keys first and in their order, and the keys of
      the result are those of `es` together with those of `other`; a key
      whose multiplicities cancel is kept. */
  lemma {:induction false} MergedKeys(es: Entries, other: Entries)
    ensures |es| <= |Merged(es, other)| && Keys(Merged(es, other))[..|es|] == Keys(es)
    ensures forall q :: q in Keys(Merged(es, other)) <==> q in Keys(es) || q in Keys(other)
    decreases |other|
  {
    if |other| > 0 {
      var init := other[..|other| - 1];
      var last := other[|other| - 1];
      var m := Merged(es, init);
      MergedKeys(es, init);
      BumpKeys(m, last.0, last.1);
      assert Keys(Bump(m, last.0, last.1))[..|m|] == Keys(m);
      forall q
        ensures q in Keys(other) <==> q in Keys(init) || q == last.0
      {
        if q in Keys(other) {
          var i :| 0 <= i < |other| && Keys(other)[i] == q;
          if i < |other| - 1 {
            assert Keys(init)[i] == q;
          }
        }
        if q in Keys(init) {
          var i :| 0 <= i < |init| && Keys(init)[i] == q;
          assert Keys(other)[i] == q;
        }
        if q == last.0 {
          assert Keys(other)[|other| - 1] == q;
        }
      }
    }
  }

  /** Total and lookup with the last item split off. */
  lemma {:induction false} SplitLast(es: Entries)
    requires |es| > 0
    ensures Total(es) == Total(es[..|es| - 1]) + es[|es| - 1].1
    ensures DistinctKeys(es) ==> forall q :: Mult(es, q) == Mult(es[..|es| - 1], q) + (if q == es[|es| - 1].0 then es[|es| - 1].1 else 0)
    decreases |es|
  {
    var init := es[..|es| - 1];
    if |es| == 1 {
      assert init == [];
      assert es[1..] == [];
    } else {
      SplitLast(es[1..]);
      assert es[1..][..|es[1..]| - 1] == init[1..];
      if DistinctKeys(es) {
        assert DistinctKeys(es[1..]) by {
          forall i, j | 0 <= i < j < |es[1..]|
            ensures es[1..][i].0 != es[1..][j].0
          {
            assert es[1..][i] == es[i + 1] && es[1..][j] == es[j + 1];
          }
        }
        assert es[0].0 != es[|es| - 1].0;
      }
    }
  }

  /** The divisor `self + other`: `self`'s items with `other`'s merged in. */
  function Plus(a: Divisor, b: Divisor): (r: Divisor)
    requires Valid(a) && Valid(b)
    ensures Valid(r) && r.degree == a.degree + b.degree
    ensures forall pt :: Mult(r.points, pt) == Mult(a.points, pt) + Mult(b.points, pt)
    ensures |a.points| <= |r.points| && Keys(r.points)[..|a.points|] == Keys(a.points)
    ensures forall pt :: pt in Keys(r.points) <==> pt in Keys(a.points) || pt in Keys(b.points)
  {
    var es := Merged(a.points, b.points);
    MergedFacts(a.points, b.points);
    MergedKeys(a.points, b.points);
    Divisor(es, Total(es))
  }

  /** `Divisor.__add__`: copy `self`'s dictionary, then add each item of
      `other` in turn. */
  method Add(a: Divisor, b: Divisor) returns (r: Divisor)
    requires Valid(a) && Valid(b)
    ensures r == Plus(a, b)
    ensures Valid(r) && r.degree == a.degree + b.degree
    ensures forall pt :: Mult(r.points, pt) == Mult(a.points, pt) + Mult(b.points, pt)
    ensures forall pt :: pt in Keys(r.points) <==> pt in Keys(a.points) || pt in Keys(b.points)
  {
    var formalSum := a.points;
    var i := 0;
    while i < |b.points|
      invariant 0 <= i <= |b.points|
      invariant formalSum == Merged(a.points, b.points[..i])
    {
      var (pt, m) := b.points[i];
      assert b.points[..i + 1][..i] == b.points[..i];
      formalSum := Bump(formalSum, pt, m);
      i := i + 1;
    }
    assert b.points[..i] == b.points;
    r := Divisor(formalSum, Total(formalSum));
  }

  /** `Divisor.__sub__`: a + (−b). */
  method Subtract(a: Divisor, b: Divisor) returns (r: Divisor)
    requires Valid(a) && Valid(b)
    ensures r == Plus(a, Negate(b))
    ensures Valid(r) && r.degree == a.degree - b.degree
    ensures forall pt :: Mult(r.points, pt) == Mult(a.points, pt) - Mult(b.points, pt)
  {
    r := Add(a, Negate(b));
  }

  // ---------------------------------------------------------------------
  // The properties the module's own checks assert

  /** D + (−D) == 0, up to zero multiplicities. */
  lemma PlusNegateIsEmpty(d: Divisor)
    requires Valid(d)
    ensures Equal(Plus(d, Negate(d)), Empty())
    ensures Plus(d, Negate(d)).degree == 0
  {
    SameItemsIff(Plus(d, Negate(d)), Empty());
  }

  /** D + D == D − (−D), exactly (same items in the same order). */
  lemma DoubleIsDifference(d: Divisor)
    requires Valid(d)
    ensures Plus(d, d) == Plus(d, Negate(Negate(d)))
    ensures Equal(Plus(d, d), Plus(d, Negate(Negate(d))))
  {
    NegateInvolution(d);
    SameItemsIff(Plus(d, d), Plus(d, d));
  }

  /** Addition is commutative up to the order of the items. */
  lemma PlusCommutes(a: Divisor, b: Divisor)
    requires Valid(a) && Valid(b)
    ensures Equal(Plus(a, b), Plus(b, a))
  {
    SameItemsIff(Plus(a, b), Plus(b, a));
  }
}
