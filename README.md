# ECIP witnesses over a prime field, modelled in Dafny

This project models the core of zk-ecip-py. That Python library computes
witnesses for elliptic-curve inner products (ECIP) over a prime field. The
model has these layers:

- **Prime-field arithmetic** (`field.dfy`, with integer facts in `modular.dfy`).
  A field element is a `nat` below the modulus `p`, and `p` is a parameter.
- **Polynomials over the field**:
  - the specification functions are in `poly_spec.dfy` and `poly_eval.dfy`;
  - the root facts are in `poly_roots.dfy`;
  - the loops of `Polynomial` are methods in `polynomial.dfy`, each proved
    equal to its specification;
  - interpolation, zerofiers and the colinearity test are in
    `interpolation.dfy`.
- **Rational functions** with an `Inf` value for a pole (`rational_function.dfy`).
- **Points of a short Weierstrass curve y² = x³ + A·x + B** (`curve.dfy`).
  This covers the chord, tangent and ladder code as the library writes it,
  beside corrected versions.
- **Divisors**: formal sums of points with integer multiplicities and their
  arithmetic (`divisor.dfy`).
- **Function-field elements a(x) − y·b(x)**: their evaluation, norm and
  product, the witness test, and the Mumford witness for simple divisors
  (`function_field.dfy`).
- **The balanced base −3 decomposition of a scalar** (`utils.dfy`).

Modelling choices:

- Every exception the Python code raises is an `Err` with a named `Error`
  (`errors.dfy`).
- An assertion in the source that can fail is also an `Err`.
- Python's `%` and `//` are floor operations. Every divisor here is positive,
  so they agree with Dafny's Euclidean `%` and `/`.
- The curve coefficients A and B are parameters. `src/curve.py` does not
  define the `A`, `B` and `INF` that `src/function_field.py` and
  `src/rational_function.py` import.
- A divisor's dictionary is an insertion-ordered list of (point,
  multiplicity) pairs with distinct points. The order matters to
  `test_witness`, because it stops at the first failing point.

## Model

| member | source | states |
|---|---|---|
| `Field.Lift` | src/field.py:151-152 | the field element is below p and congruent to the integer |
| `Field.Add` | src/field.py:134-135 | the sum is reduced and congruent to a + b |
| `Field.Sub` | src/field.py:137-138 | the difference is reduced and congruent to a − b |
| `Field.Neg` | src/field.py:140-141 | the negation is reduced, and adding it to a gives 0 mod p |
| `Field.Mul` | src/field.py:131-132 | the product is reduced and congruent to a·b |
| `Field.Inverse` | src/field.py:143-144 | a result w is an inverse (v·w = 1); none means no inverse exists; a prime p always yields one for v ≠ 0 |
| `Field.Div` | src/field.py:146-149 | dividing by 0 is a division error and nothing else is; a quotient q satisfies q·b = a; a composite p can leave b without an inverse; a prime p always divides |
| `Field.SubAddRoundTrip` | src/field.py:134-141 | (a − b) + b = a, and −a + a = 0 |
| `Field.EqualityIsCongruence` | src/field.py:88-89 | equal field values are exactly the congruent ones |
| `Field.NegInvolution` | src/field.py:140-141 | −(−a) = a |
| `Field.AddComm` | src/field.py:134-135 | addition commutes |
| `Field.AddAssoc` | src/field.py:134-135 | addition associates |
| `Field.MulComm` | src/field.py:131-132 | multiplication commutes |
| `Field.MulAssoc` | src/field.py:131-132 | multiplication associates |
| `Field.Distrib` | src/field.py:131-135 | multiplication distributes over addition |
| `Field.InverseOfNonZero` | src/field.py:143-144 | over a prime field every non-zero element has an inverse |
| `Field.NoZeroDivisors` | src/field.py:131-132 | over a prime field a product is 0 exactly when one factor is 0 |
| `Field.FPowIsIntPowMod` | src/field.py:70-86 | the field power is the integer power reduced mod p |
| `Field.FPowAdd` | src/field.py:70-86 | x^(m+n) = x^m · x^n |
| `Field.Exp` | src/field.py:61-68 | the square-and-multiply loop over the bits of e, from the top bit down, yields x^e, and x^0 = 1 |
| `Field.PowerOfTwoTest` | src/field.py:107 | for n ≥ 1, n & (n − 1) = 0 exactly when n is a power of two |
| `Field.HasOrderPo2` | src/field.py:106-112 | the assertion fails exactly when the order is not 0 or a power of two; otherwise the answer is x^order = 1 and x^(order/2) ≠ 1; for order 1 it is x = 1 |
| `PolySpec.Deg` | src/polynomial.py:8-18 | the degree is −1 exactly when every coefficient is zero; otherwise it is the index of the last non-zero coefficient |
| `PolySpec.NegNeg` | src/polynomial.py:38-39 | negating twice gives the same coefficients |
| `PolySpec.SubSelf` | src/polynomial.py:54-55 | a − a is the zero polynomial |
| `PolySpec.MulAssocPoly` | src/polynomial.py:57-67 | polynomial multiplication associates |
| `PolySpec.DistribPoly` | src/polynomial.py:41-67 | polynomial multiplication distributes over addition |
| `PolySpec.PolyMul` | src/polynomial.py:57-67 | an empty factor gives []; otherwise the product has length \|a\| + \|b\| − 1 and each coefficient is the convolution sum |
| `PolyEval.EvalAdd` | src/polynomial.py:41-52 | evaluating a sum gives the sum of the values |
| `PolyEval.EvalNeg` | src/polynomial.py:38-39 | evaluating a negation gives the negated value |
| `PolyEval.EvalSub` | src/polynomial.py:54-55 | evaluating a difference gives the difference of the values |
| `PolyEval.EvalMul` | src/polynomial.py:57-67 | evaluation is multiplicative |
| `PolyEval.EvalIsPowerSum` | src/polynomial.py:204-210 | the Horner value equals the sum of c_i·z^i |
| `PolyEval.Derivative` | src/polynomial.py:26-36 | the coefficient of x^k in the derivative is (k+1)·c_(k+1) |
| `PolyEval.ProductRule` | src/polynomial.py:26-36 | (a·b)′(z) = a′(z)·b(z) + a(z)·b′(z) |
| `PolyEval.PolyPowAdd` | src/polynomial.py:215-225 | a^(m+n) = a^m · a^n as polynomials |
| `PolyEval.EvalPow` | src/polynomial.py:215-225 | evaluating a^n gives the n-th power of the value |
| `PolyRoots.SynDivEval` | src/polynomial.py:145-164 | the root step behind the uniqueness of the interpolant: dividing by (x − d) splits a(z) into (z − d)·q(z) + a(d), so a root d leaves the factor (x − d) |
| `PolyRoots.VanishingIsZero` | src/polynomial.py:145-164 | over a prime field a polynomial of degree below n with n distinct roots is zero |
| `PolyRoots.InterpolantUnique` | src/polynomial.py:145-164 | two polynomials of degree below n that agree on n distinct points are equal |
| `Polynomial.Degree` | src/polynomial.py:8-18 | the scan returns −1 for an all-zero list, else the index of the last non-zero coefficient |
| `Polynomial.Equal` | src/polynomial.py:84-95 | true exactly when the two coefficient lists agree after trailing zeros are ignored |
| `Polynomial.IsZero` | src/polynomial.py:136-142 | true exactly when the degree is −1 |
| `Polynomial.AddPoly` | src/polynomial.py:41-52 | the result is the coefficient-wise field sum, and a zero operand returns the other unchanged |
| `Polynomial.SubPoly` | src/polynomial.py:54-55 | the result is a + (−b) |
| `Polynomial.MulPoly` | src/polynomial.py:57-67 | the buffer loop, which skips zero coefficients, computes the convolution product |
| `Polynomial.Evaluate` | src/polynomial.py:204-210 | the loop value is the sum of c_i·z^i, which is Horner's value |
| `Polynomial.Power` | src/polynomial.py:215-225 | a zero polynomial gives []; exponent 0 gives [1]; otherwise the result equals a^e |
| `Polynomial.Divide` | src/polynomial.py:111-134 | a zero divisor is reported; a lower-degree numerator gives ([], n); otherwise q·d + r = n with deg r < deg d; over a prime field it always succeeds |
| `Polynomial.EliminateLead` | src/polynomial.py:121-132 | one round lowers the remainder's degree and keeps quo·d + rem equal to the numerator |
| `Polynomial.FloorDiv` | src/polynomial.py:76-78 | the quotient leaves a remainder n − q·d of degree below deg d; a zero divisor is an error |
| `Polynomial.Mod` | src/polynomial.py:80-82 | the remainder has degree below deg d and n − r is a multiple of d |
| `Polynomial.TrueDiv` | src/polynomial.py:69-74 | a result q satisfies q·d = n; a non-zero remainder fails the assertion; over a prime field with d ≠ 0 it succeeds exactly when d divides n |
| `Polynomial.MulDegree` | src/polynomial.py:57-67 | over a prime field the degree of a product of non-zero polynomials is the sum of the degrees |
| `Polynomial.MultipleRemainder` | src/polynomial.py:69-74 | when d divides n, the remainder of the long division is zero |
| `Polynomial.ExactQuotient` | src/polynomial.py:69-74 | a zero remainder makes quo·d = n, so d divides n |
| `Polynomial.XGcd` | src/polynomial.py:227-247 | s·x + t·y = g with g monic, and g divides both x and y; an empty x is an error; two zero inputs fail the final inverse; over a prime field it succeeds otherwise |
| `Polynomial.MonicTriple` | src/polynomial.py:240-247 | scaling by the inverse of g's leading coefficient keeps the Bézout relation and the divisibility of x and y, and makes g monic |
| `Polynomial.EuclidRounds` | src/polynomial.py:234-238 | the loop keeps the Bézout relations, and the last non-zero remainder divides both inputs |
| `Polynomial.RunGenerates` | src/polynomial.py:234-238 | after any number of rounds, x and y are each u·old_r + v·r for some polynomials u and v |
| `Polynomial.GeneratesDone` | src/polynomial.py:234-241 | once r is zero, x = u·old_r, so old_r divides it |
| `Interpolation.LagrangeTerm` | src/polynomial.py:153-162 | the i-th term takes the value v_i at d_i and vanishes at every other node |
| `Interpolation.Lagrange` | src/polynomial.py:145-164 | a length mismatch and an empty domain fail their assertions; the result has degree below n and takes every value at its node; repeated nodes make an inverse fail |
| `Interpolation.ZeroProductRoots` | src/polynomial.py:196-202 | the product of (z − d) is zero exactly when z is a node |
| `Interpolation.Zerofier` | src/polynomial.py:196-202 | an empty domain is an error; the result is monic of degree n and vanishes at every node |
| `Interpolation.HermiteBasis` | src/polynomial.py:179-184 | the basis polynomial is 1 at its node and 0 at the others |
| `Interpolation.HermiteTermOf` | src/polynomial.py:186-190 | the loop body computes q·(v + (x − d)·(v′ − q′(d)·v)) with q = l² |
| `Interpolation.Hermite` | src/polynomial.py:167-194 | the result has degree below 2n and matches every value and every derivative at its node; length mismatches and empty input are errors |
| `Interpolation.TestColinearity` | src/polynomial.py:250-254 | true implies a polynomial of degree exactly one, a non-horizontal line, through all the points; with two or more points over a prime field, true holds exactly when such a line exists |
| `RationalFunction.LiftOperand` | src/rational_function.py:26-33 | an int, field element or polynomial gets denominator [1]; a rational function is kept |
| `RationalFunction.Evaluate` | src/rational_function.py:16-23 | the value is `Inf` exactly when the denominator vanishes; otherwise v·den(x) = num(x) |
| `RationalFunction.Value` | src/rational_function.py:16-23 | away from a pole the value is the unique v with v·den(x) = num(x) |
| `RationalFunction.LiftValue` | src/rational_function.py:26-33 | a lifted operand evaluates to its plain value |
| `RationalFunction.EvaluateProduct` | src/rational_function.py:25-38 | the product evaluates to the product of the values |
| `RationalFunction.EvaluateSum` | src/rational_function.py:43-58 | the sum evaluates to the sum of the values |
| `RationalFunction.EvaluateNegation` | src/rational_function.py:40-41 | negation keeps the poles and negates the value |
| `RationalFunction.EvaluateDifference` | src/rational_function.py:63-64 | f − g evaluates to f(x) − g(x) |
| `RationalFunction.EvaluateReverseDifference` | src/rational_function.py:60-61 | g − f evaluates to g(x) − f(x) |
| `RationalFunction.PolesKept` | src/rational_function.py:25-55 | a pole of either operand is a pole of the product and of the sum |
| `RationalFunction.Product` | src/rational_function.py:25-38 | over a prime field the poles of f·g are exactly the poles of f together with those of g |
| `RationalFunction.Sum` | src/rational_function.py:43-58 | over a prime field the poles of f + g are exactly the poles of f together with those of g |
| `RationalFunction.Negation` | src/rational_function.py:40-41 | the denominator is kept, so the poles are the same |
| `RationalFunction.Difference` | src/rational_function.py:63-64 | over a prime field the poles of f − g are exactly the poles of f together with those of g |
| `RationalFunction.ReverseDifference` | src/rational_function.py:60-61 | over a prime field the poles of g − f are exactly the poles of f together with those of g |
| `RationalFunction.NegOperand` | src/rational_function.py:63-64 | negating the operand keeps its kind and its denominator |
| `RationalFunction.DenominatorRoots` | src/rational_function.py:35-54 | over a prime field a product of denominators vanishes exactly where one factor does |
| `RationalFunction.LiftedDenominator` | src/rational_function.py:32-35 | with a lifted operand, product and sum keep f's denominator |
| `Curve.Negate` | src/curve.py:54-57 | the identity stays the identity; an affine point keeps x and gets y with y + y′ = 0 |
| `Curve.NegateInvolution` | src/curve.py:54-57 | −(−P) = P |
| `Curve.NegateOnCurve` | src/curve.py:54-57 | negation keeps a point on the curve |
| `Curve.Chord` | src/curve.py:37-41 | the identity has no coordinates; equal x's divide by zero; over a prime field a chord always exists; the result passes through its reflection line |
| `Curve.Double` | src/curve.py:31-35 | it divides by zero exactly when 2y = 0; over a prime field other than 2 and with y ≠ 0 it succeeds; the result lies on the line of slope 3x²/(2y) through P, which is the tangent when A = 0 |
| `Curve.Plus` | src/curve.py:59-68 | the identity is neutral; equal x's with different y's, so P + (−P) when y ≠ 0, give the identity; different x's take the chord; P + P divides by zero |
| `Curve.Minus` | src/curve.py:70-73 | P − Q = P + (−Q), and P − O = P |
| `Curve.PlusNegate` | src/curve.py:59-73 | over a prime field, P + (−P) = O and P − P = O when y ≠ 0 |
| `Curve.ChordCommutes` | src/curve.py:37-41 | the chord of P and Q is the chord of Q and P |
| `Curve.LadderAsWritten` | src/curve.py:43-52 | the ladder as written gives the identity for k = 0 and fails for every other k |
| `Curve.ScalarMul` | src/curve.py:43-52 | the loop computes the as-written ladder: O for k = 0, an error otherwise |
| `Curve.ScalarMulOneFails` | src/curve.py:43-52 | on BN254, 1·G1 already fails |
| `Curve.GroupAdd` | src/curve.py:59-68 | the corrected addition agrees with `__add__` where that works, doubles P + P, and maps a 2-torsion point to O |
| `Curve.GroupAddNegate` | src/curve.py:59-68 | over a prime field, P + (−P) = O for every point, including y = 0 |
| `Curve.ScalarMulFixed` | src/curve.py:43-52 | the corrected loop equals the corrected ladder and runs one round for each bit of k |
| `Curve.Ladder` | src/curve.py:43-52 | the corrected double-and-add recursion: k = 0 leaves the accumulator, and every result is a valid point |
| `Curve.LadderSmall` | src/curve.py:43-52 | 0·P = O, and 1·P = P when the doubling succeeds |
| `Curve.LadderPowerOfTwo` | src/curve.py:43-52 | 2^j·P is P doubled j times |
| `Curve.IsOnCurveAsWritten` | src/curve.py:88-91 | the flag tests y² = x³ + 3x + 1; the identity has no coordinates |
| `Curve.G1FailsAsWrittenEquation` | src/curve.py:84-94 | G1 fails the flag, yet the module assertion passes because it tests a non-empty tuple |
| `Curve.G1OnBN254` | src/curve.py:84 | G1 = (1, 2) lies on the intended BN254 curve y² = x³ + 3 over the prime P of src/curve.py line 6, and (1, 3) does not |
| `Divisor.Init` | src/divisor.py:8-10 | the degree is the sum of the multiplicities and the points are kept |
| `Divisor.Empty` | src/divisor.py:12-14 | degree 0, and every multiplicity is 0 |
| `Divisor.NonZero` | src/divisor.py:17-19 | exactly the entries with non-zero multiplicity are kept |
| `Divisor.Equal` | src/divisor.py:16-21 | two divisors are equal exactly when every point has the same multiplicity in both |
| `Divisor.Negate` | src/divisor.py:23-29 | a new divisor with every multiplicity negated, so the degree is negated |
| `Divisor.NegateInvolution` | src/divisor.py:23-29 | −(−D) = D |
| `Divisor.MergedFacts` | src/divisor.py:34-41 | merging keeps the points distinct, adds the degrees and adds the multiplicities |
| `Divisor.Plus` | src/divisor.py:31-45 | the degrees add and each point's multiplicities add; the keys are those of either operand, with self's keys first in their order, and a key whose multiplicities cancel to 0 is kept |
| `Divisor.MergedKeys` | src/divisor.py:34-41 | merging keeps the first dictionary's keys as a prefix, and its key set is the union of both key sets |
| `Divisor.Add` | src/divisor.py:31-45 | the loop over the second divisor builds the merged sum, with the union of both key sets |
| `Divisor.Subtract` | src/divisor.py:47-48 | D − E = D + (−E): degrees and multiplicities subtract |
| `Divisor.PlusNegateIsEmpty` | src/divisor.py:63-66 | D + (−D) equals the empty divisor |
| `Divisor.DoubleIsDifference` | src/divisor.py:68-74 | D + D equals D − (−D) |
| `Divisor.PlusCommutes` | src/divisor.py:31-45 | D + E equals E + D |
| `FunctionField.CurvePoly` | src/function_field.py:72-74 | the polynomial [B, A, 0, 1] is valid, of length 4 and of degree 3 |
| `FunctionField.CurvePolyEval` | src/function_field.py:72-74 | [B, A, 0, 1] evaluates to x³ + A·x + B |
| `FunctionField.Evaluate` | src/function_field.py:38-42 | the identity has no coordinates; an affine point gives a(x) − y·b(x) |
| `FunctionField.Norm` | src/function_field.py:23-36 | the norm is a valid polynomial (its meaning is `NormIsProduct`) |
| `FunctionField.Product` | src/function_field.py:56-77 | the product is a valid element (its meaning is `EvaluateProduct` and `UnitNeutral`) |
| `FunctionField.UnitNeutral` | src/function_field.py:119 | the start value a = [1], b = [0] is neutral on both sides of `__mul__` (lines 56-77): both components of 1·g and g·1 agree with g coefficient by coefficient |
| `FunctionField.EvaluateProduct` | src/function_field.py:56-77 | at a point on the curve, (f·g)(P) = f(P)·g(P) |
| `FunctionField.NormIsProduct` | src/function_field.py:23-36 | at a point on the curve, N(f)(x) = f(x, y)·f(x, −y) |
| `FunctionField.EvaluateUnit` | src/function_field.py:119 | the start value 1 − y·0 is 1 at every affine point |
| `FunctionField.ProductVanishes` | src/function_field.py:56-77 | if either factor vanishes at a point on the curve, so does the product |
| `FunctionField.TestWitness` | src/function_field.py:80-99 | true exactly when every affine point is a root with non-negative multiplicity; false at the first non-root with m ≥ 0; an error when a negative multiplicity comes first |
| `FunctionField.PointFactor` | src/function_field.py:133-140 | the factor from xgcd(x − x_P, y_P) vanishes at P, and it exists over a prime field |
| `FunctionField.FactorVanishes` | src/function_field.py:133-140 | every Bézout triple for (x − x_P, y_P) gives a function that vanishes at P |
| `FunctionField.MumfordWitness` | src/function_field.py:112-156 | the result vanishes at every simple point on the curve; with no such point it is 1; it refuses a non-principal divisor, a negative multiplicity (the first refusal wins) and m > 1 |
| `FunctionField.SimpleDivisorWitness` | src/function_field.py:177-180 | over a prime field, a divisor of simple on-curve points plus the identity passes `test_witness` on its own Mumford witness |
| `Utils.Neg3BaseLe` | src/utils.py:4-26 | the digits are in {−1, 0, 1}, the sum of d_i·(−3)^i equals the scalar, 0 gives [0], and the top digit is non-zero |
| `Utils.Unique` | src/utils.py:4-26 | a balanced digit list with a non-zero top digit is the only one for its value |
| `Utils.LowDigit` | src/utils.py:15-24 | the value is the low digit plus −3 times the value of the rest |

## Left out

The library's quirks, and what the model does instead:

- `G1Point` is a mutable dataclass, so its objects cannot be hashed. The
  dictionaries of `Divisor` throw `TypeError` as written; the model keys
  entries by point value, as intended.
- `p == POINT_AT_INFINITY` compares a field element with `None`, which fails
  inside `BaseFieldElement.__eq__`. The model follows the evident intent: it
  skips the identity and handles affine points.
- `src/curve.py` defines no `A`, `B` or `INF`, so the imports of
  `src/function_field.py` and `src/rational_function.py` fail. A and B are
  parameters, and `INF` is the `Inf` variant.
- `A * X` in `norm` needs an integer-times-polynomial product that
  `Polynomial` lacks. It is modelled as the polynomial [B, A, 0, 1].
- `is_principal` is not defined on `Divisor`, so it is a boolean parameter
  of `FunctionField.MumfordWitness`.
- Python object-level failures are not modelled: wrong argument types,
  `None` coefficients, and `isinstance` checks.
- `BaseFieldElement.__neq__` is a misspelling. The default `!=` still
  compares through `__eq__`, which is what the model uses.

Operations and properties outside the model:

- Field.Exp: takes a non-negative exponent. For a negative exponent
  `bin(e)` is `-0b…`, so `bin(e)[2:]` keeps the `b` and the digits; that
  edge case of the source is not modelled.
- Polynomial.Power: takes a non-negative exponent. For a negative exponent
  the loop of src/polynomial.py:221-224 runs over `bin(e)[2:]`, which keeps
  the `b` of `-0b…`: `bin(-1)[2:] == 'b1'` has two characters, and since
  `(1 << i) & -1` is non-zero for every i, f^-1 gives f³. That edge case is
  not modelled.
- Curve.ScalarMulFixed: takes a non-negative scalar. A negative scalar
  shifts to −1 and never stops in the loop (`-1 >> 1 == -1`).
- Curve.IsOnCurveAsWritten: the message string is modelled as the pair
  (left, right) of field values.
- FunctionField.Norm: its own contract states only validity. Its meaning is
  stated by `FunctionField.NormIsProduct`.
- FunctionField.Product: its own contract states only validity. Its meaning
  is stated by `FunctionField.EvaluateProduct`.
- FunctionField.MumfordWitness: multiplicity above 1 (Hensel lifting) is
  the `NotImplemented` error, as in the source. The Hensel lifting sketched
  in comments is not modelled.
- `incremental_witness` has no body beyond its assertion, so it is not
  modelled.
- Random generation is not modelled, because it relies on randomness:
  `gen_random` and `gen_random_point`.
- Printing is not modelled: `__str__`, `__repr__`, `get_coeffs` and the
  `print` calls.
- `__main__` test drivers are not modelled, except the assertions restated
  as lemmas above.
- `src/bn254.py` is not part of this model.
- General group-law theorems (associativity, closure of the chord on the
  curve) are not stated.
- Python's builtin three-argument `pow` for inverses is modelled by the
  extended Euclidean algorithm (`Field.XGcdInt`). Over a composite modulus,
  a missing inverse is the `NotInvertible` error.
- The performance shortcut in `__mul__` that skips zero coefficients is
  modelled in `Polynomial.MulPoly`, which proves it changes nothing.

## Findings

| source | as written | input that shows it | evidently intended | confidence | as-written member | corrected member |
|---|---|---|---|---|---|---|
| src/curve.py:43-52 | `scalar_mul` starts from the identity and adds through the chord formula, which reads the identity's missing coordinates | any k ≠ 0, e.g. 1·G1 | start by treating the identity as neutral, giving k·P with one round per bit | not executed | `Curve.ScalarMulOneFails` | `Curve.LadderPowerOfTwo` |
| src/curve.py:59-68 | `__add__` of a point with itself falls through to the chord and divides by zero | P + P for any affine P | use the tangent (`double`) when the points are equal | not executed | `Curve.Plus` | `Curve.GroupAdd` |
| src/curve.py:88-94 | `is_on_curve` tests y² = x³ + 3x + 1 and returns a tuple, so `assert is_on_curve(G1)` always passes | G1 = (1, 2): 4 ≠ 5 | test y² = x³ + 3 and assert the boolean | not executed | `Curve.G1FailsAsWrittenEquation` | `Curve.G1OnBN254` |
