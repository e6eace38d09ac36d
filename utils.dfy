/** `neg_3_base_le`: a scalar written in base −3 with balanced digits
    {−1, 0, 1}, least significant digit first. */
module Utils {

  /** (−3)^i. */
  function NegThreePow(i: nat): int
  {
    if i == 0 then 1 else -3 * NegThreePow(i - 1)
  }

  /** The integer a digit list stands for: the sum of d_i * (−3)^i. */
  function Value(digits: seq<int>): int
  {
    if |digits| == 0 then 0 else Value(digits[..|digits| - 1]) + digits[|digits| - 1] * NegThreePow(|digits| - 1)
  }

  predicate Balanced(digits: seq<int>)
  {
    forall i :: 0 <= i < |digits| ==> -1 <= digits[i] <= 1
  }

  /** Appending a digit adds it at the next power. */
  lemma ValueAppend(digits: seq<int>, d: int)
    ensures Value(digits + [d]) == Value(digits) + d * NegThreePow(|digits|)
  {
    assert (digits + [d])[..|digits|] == digits;
  }

  /** One round of the loop: the digit and the next scalar rebuild the
      current one, s == d + (−3) * s'. */
  lemma DigitStep(s: int)
    requires s != 0
    ensures var d := if s % 3 == 2 then -1 else s % 3;
            var t := if s % 3 == 2 then s + 1 else s;
            -1 <= d <= 1 && s == d + (-3) * (-(t / 3))
            && (if -(t / 3) < 0 then t / 3 else -(t / 3)) < (if s < 0 then -s else s)
  {
    var t := if s % 3 == 2 then s + 1 else s;
    assert t == 3 * (t / 3) + t % 3;
    if s % 3 == 2 {
      assert t % 3 == 0;
    } else {
      assert t == s;
    }
  }

  /** `neg_3_base_le`: zero is `[0]`; otherwise each round takes the
      remainder mod 3 (Python's `%`, non-negative), turns a remainder of 2
      into −1 with a carry, and divides by −3 (Python's floor `//` followed
      by negation). */
  method Neg3BaseLe(scalar: int) returns (digits: seq<int>)
    ensures Balanced(digits)
    ensures Value(digits) == scalar
    ensures |digits| >= 1
    ensures scalar == 0 <==> digits == [0]
    ensures scalar != 0 ==> digits[|digits| - 1] != 0
  {
    if scalar == 0 {
      return [0];
    }
    digits := [];
    var s := scalar;
    while s != 0
      invariant Balanced(digits)
      invariant Value(digits) + NegThreePow(|digits|) * s == scalar
      invariant s == 0 ==> |digits| >= 1 && digits[|digits| - 1] != 0
      decreases if s < 0 then -s else s
    {
      DigitStep(s);
      var remainder := s % 3;
      if remainder == 2 {
        remainder := -1;
        s := s + 1;
      }
      ValueAppend(digits, remainder);
      StepValue(Value(digits), NegThreePow(|digits|), remainder, s / 3);
      digits := digits + [remainder];
      s := -(s / 3);
      if s == 0 {
        assert remainder != 0;
      }
    }
  }

  /** v + P*(d + (−3)(−q)) == (v + d*P) + (−3 P)(−q). */
  lemma StepValue(v: int, pw: int, d: int, q: int)
    ensures v + pw * (d + (-3) * (-q)) == (v + d * pw) + (-3 * pw) * (-q)
  {
  }

  /** A balanced digit list with a non-zero top digit is the only such
      list for its value: base −3 with digits {−1, 0, 1} is canonical. */
  lemma {:induction false} Unique(a: seq<int>, b: seq<int>)
    requires Balanced(a) && Balanced(b)
    requires |a| > 0 ==> a[|a| - 1] != 0
    requires |b| > 0 ==> b[|b| - 1] != 0
    requires Value(a) == Value(b)
    ensures a == b
    decreases |a| + |b|
  {
    if |a| == 0 && |b| == 0 {
    } else if |a| == 0 || |b| == 0 {
      assert false by {
        var c := if |a| == 0 then b else a;
        NonZero(c);
      }
    } else {
      LowDigit(a);
      LowDigit(b);
      assert a[0] == b[0] by {
        DigitFromMod(a[0], RestValue(a), b[0], RestValue(b));
      }
      assert RestValue(a) == RestValue(b);
      Unique(a[1..], b[1..]);
      assert a == [a[0]] + a[1..];
      assert b == [b[0]] + b[1..];
    }
  }

  /** The value with the lowest digit split off. */
  function RestValue(digits: seq<int>): int
    requires |digits| > 0
  {
    Value(digits[1..])
  }

  /** Value(digits) == digits[0] + (−3) * Value(digits[1..]). */
  lemma {:induction false} LowDigit(digits: seq<int>)
    requires |digits| > 0
    ensures Value(digits) == digits[0] + (-3) * RestValue(digits)
    decreases |digits|
  {
    if |digits| == 1 {
      assert digits[1..] == [];
    } else {
      var n := |digits|;
      var init := digits[..n - 1];
      LowDigit(init);
      assert init[1..] == digits[1..][..n - 2];
      assert digits[1..][n - 2] == digits[n - 1];
      assert Value(digits[1..]) == Value(init[1..]) + digits[n - 1] * NegThreePow(n - 2);
      assert NegThreePow(n - 1) == -3 * NegThreePow(n - 2);
    }
  }

  /** Two balanced low digits with equal values mod 3 are equal. */
  lemma DigitFromMod(d: int, r: int, e: int, t: int)
    requires -1 <= d <= 1 && -1 <= e <= 1 && d + (-3) * r == e + (-3) * t
    ensures d == e && r == t
  {
  }

  /** A non-empty balanced list with a non-zero top digit has a non-zero
      value. */
  lemma {:induction false} NonZero(digits: seq<int>)
    requires Balanced(digits) && |digits| > 0 && digits[|digits| - 1] != 0
    ensures Value(digits) != 0
    decreases |digits|
  {
    if |digits| > 1 {
      LowDigit(digits);
      var rest := digits[1..];
      assert rest[|rest| - 1] == digits[|digits| - 1];
      NonZero(rest);
    } else {
      assert Value(digits) == Value([]) + digits[0] * NegThreePow(0);
    }
  }
}
