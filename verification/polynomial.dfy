/**
 * The cost polynomial and its evaluation (`weight_to_fee`): a left fold over
 * the terms, in list order, with a saturating u128 accumulator that starts
 * at zero. Because a negative term clamps the accumulator at zero, the order
 * of the terms is part of the result.
 */
module Polynomial {
  import opened Arithmetic

  /** One term `±(coeffInteger + coeffFrac) · weight^degree` of the polynomial. */
  datatype Coefficient = Coefficient(
    coeffInteger: U128,
    coeffFrac: Perbill,
    negative: bool,
    degree: U8)

  /** The weight raised to a term's degree: a 64-bit saturating power, then widened to u128. */
  function TermWeight(weight: U64, degree: U8): (r: U128)
    ensures r <= U64_MAX
    ensures Pow(weight, degree) <= U64_MAX ==> r == Pow(weight, degree)
    ensures Pow(weight, degree) > U64_MAX ==> r == U64_MAX
  {
    SatPow64(weight, degree)
  }

  /** The fractional part of a term: `coeff_frac * weight`. */
  function FracTerm(lib: FixedPointLib, c: Coefficient, weight: U64): (r: U128)
    ensures PerbillZeroIsZero(lib) && c.coeffFrac == 0 ==> r == 0
  {
    lib.perbillMul(c.coeffFrac, TermWeight(weight, c.degree))
  }

  /** The integer part of a term: `coeff_integer.saturating_mul(weight)`. */
  function IntegerTerm(c: Coefficient, weight: U64): (r: U128)
    ensures r == Clamp128(c.coeffInteger * TermWeight(weight, c.degree))
    ensures r == c.coeffInteger * TermWeight(weight, c.degree) || r == U128_MAX
    ensures c.coeffInteger == 0 ==> r == 0
    ensures weight == 0 && c.degree > 0 ==> r == 0
  {
    SatMul128(c.coeffInteger, TermWeight(weight, c.degree))
  }

  /**
   * One step of the fold: the fractional part and then the integer part are
   * added to, or subtracted from, the accumulator, each with saturation.
   */
  function ApplyTerm(lib: FixedPointLib, acc: U128, c: Coefficient, weight: U64): (r: U128)
    ensures !c.negative ==> acc <= r
    ensures c.negative ==> r <= acc
    ensures var amount := FracTerm(lib, c, weight) + IntegerTerm(c, weight);
            r == Clamp128(if c.negative then acc - amount else acc + amount)
  {
    var frac := FracTerm(lib, c, weight);
    var integer := IntegerTerm(c, weight);
    if c.negative then
      SatSubTwice(acc, frac, integer);
      SatSub128(SatSub128(acc, frac), integer)
    else
      SatAddTwice(acc, frac, integer);
      SatAdd128(SatAdd128(acc, frac), integer)
  }

  /** The fold of `ApplyTerm` over the terms, in list order, from the accumulator `acc`. */
  function Evaluate(lib: FixedPointLib, acc: U128, polynomial: seq<Coefficient>, weight: U64): (r: U128)
    ensures polynomial == [] ==> r == acc
    decreases |polynomial|
  {
    if polynomial == [] then acc
    else Evaluate(lib, ApplyTerm(lib, acc, polynomial[0], weight), polynomial[1..], weight)
  }

  /** `weight_to_fee`: the polynomial evaluated at `weight`, starting from zero. */
  function WeightToFee(lib: FixedPointLib, weight: U64, polynomial: seq<Coefficient>): (r: U128)
    ensures polynomial == [] ==> r == 0
  {
    Evaluate(lib, 0, polynomial, weight)
  }

  /** Whether no term of the polynomial is negative. */
  predicate AllNonNegative(polynomial: seq<Coefficient>)
  {
    forall i :: 0 <= i < |polynomial| ==> !polynomial[i].negative
  }

  /** Whether every term of the polynomial is negative. */
  predicate AllNegative(polynomial: seq<Coefficient>)
  {
    forall i :: 0 <= i < |polynomial| ==> polynomial[i].negative
  }

  /** The integer part of a term is at most `coeff_integer ⊗ (2^64 − 1)`, whatever the weight and degree. */
  lemma IntegerTermBound(c: Coefficient, weight: U64)
    ensures IntegerTerm(c, weight) <= SatMul128(c.coeffInteger, U64_MAX)
  {
    SatMulMonotone(c.coeffInteger, TermWeight(weight, c.degree), U64_MAX);
  }

  /** Folding over a concatenation is folding over the second part from where the first part ends. */
  lemma {:induction false} EvaluateAppend(lib: FixedPointLib, acc: U128, p: seq<Coefficient>, q: seq<Coefficient>, weight: U64)
    ensures Evaluate(lib, acc, p + q, weight) == Evaluate(lib, Evaluate(lib, acc, p, weight), q, weight)
    decreases |p|
  {
    if p == [] {
      assert p + q == q;
    } else {
      assert (p + q)[1..] == p[1..] + q;
      EvaluateAppend(lib, ApplyTerm(lib, acc, p[0], weight), p[1..], q, weight);
    }
  }

  /** A step of the fold is monotone in the accumulator. */
  lemma ApplyTermMonotone(lib: FixedPointLib, a: U128, b: U128, c: Coefficient, weight: U64)
    requires a <= b
    ensures ApplyTerm(lib, a, c, weight) <= ApplyTerm(lib, b, c, weight)
  {
  }

  /** A larger starting accumulator never gives a smaller result: saturation never inverts order. */
  lemma {:induction false} EvaluateMonotone(lib: FixedPointLib, a: U128, b: U128, polynomial: seq<Coefficient>, weight: U64)
    requires a <= b
    ensures Evaluate(lib, a, polynomial, weight) <= Evaluate(lib, b, polynomial, weight)
    decreases |polynomial|
  {
    if polynomial != [] {
      ApplyTermMonotone(lib, a, b, polynomial[0], weight);
      EvaluateMonotone(lib, ApplyTerm(lib, a, polynomial[0], weight), ApplyTerm(lib, b, polynomial[0], weight), polynomial[1..], weight);
    }
  }

  /** A polynomial without negative terms never lowers the accumulator. */
  lemma {:induction false} EvaluateNonNegativeGrows(lib: FixedPointLib, acc: U128, polynomial: seq<Coefficient>, weight: U64)
    requires AllNonNegative(polynomial)
    ensures acc <= Evaluate(lib, acc, polynomial, weight)
    decreases |polynomial|
  {
    if polynomial != [] {
      assert !polynomial[0].negative;
      assert AllNonNegative(polynomial[1..]) by {
        forall i | 0 <= i < |polynomial[1..]| ensures !polynomial[1..][i].negative {
          assert polynomial[1..][i] == polynomial[i + 1];
        }
      }
      EvaluateNonNegativeGrows(lib, ApplyTerm(lib, acc, polynomial[0], weight), polynomial[1..], weight);
    }
  }

  /** A polynomial of negative terms only never raises the accumulator, so its fee is zero. */
  lemma {:induction false} EvaluateNegativeShrinks(lib: FixedPointLib, acc: U128, polynomial: seq<Coefficient>, weight: U64)
    requires AllNegative(polynomial)
    ensures Evaluate(lib, acc, polynomial, weight) <= acc
    ensures WeightToFee(lib, weight, polynomial) == 0
    decreases |polynomial|
  {
    if polynomial != [] {
      assert polynomial[0].negative;
      assert AllNegative(polynomial[1..]) by {
        forall i | 0 <= i < |polynomial[1..]| ensures polynomial[1..][i].negative {
          assert polynomial[1..][i] == polynomial[i + 1];
        }
      }
      EvaluateNegativeShrinks(lib, ApplyTerm(lib, acc, polynomial[0], weight), polynomial[1..], weight);
      EvaluateNegativeShrinks(lib, ApplyTerm(lib, 0, polynomial[0], weight), polynomial[1..], weight);
    }
  }

  /** Folding over two terms applies the first, then the second. */
  lemma EvaluatePair(lib: FixedPointLib, acc: U128, x: Coefficient, y: Coefficient, weight: U64)
    ensures Evaluate(lib, acc, [x, y], weight) == ApplyTerm(lib, ApplyTerm(lib, acc, x, weight), y, weight)
  {
    var s1 := ApplyTerm(lib, acc, x, weight);
    assert [x, y][1..] == [y];
    assert Evaluate(lib, acc, [x, y], weight) == Evaluate(lib, s1, [y], weight);
    assert [y][1..] == [];
    assert Evaluate(lib, s1, [y], weight) == Evaluate(lib, ApplyTerm(lib, s1, y, weight), [], weight);
  }

  /**
   * Applying a negative term before a non-negative one never gives less than
   * applying it after: the subtraction can only be absorbed by the clamp at
   * zero when it comes first.
   */
  lemma NegativeFirstNeverLess(lib: FixedPointLib, acc: U128, neg: Coefficient, pos: Coefficient, weight: U64)
    requires neg.negative && !pos.negative
    ensures Evaluate(lib, acc, [pos, neg], weight) <= Evaluate(lib, acc, [neg, pos], weight)
  {
    EvaluatePair(lib, acc, pos, neg, weight);
    EvaluatePair(lib, acc, neg, pos, weight);
    var a := FracTerm(lib, neg, weight) + IntegerTerm(neg, weight);
    var b := FracTerm(lib, pos, weight) + IntegerTerm(pos, weight);
    var afterPos := ApplyTerm(lib, acc, pos, weight);
    var afterNeg := ApplyTerm(lib, acc, neg, weight);
    assert afterPos == Clamp128(acc + b);
    assert afterNeg == Clamp128(acc - a);
    ClampSubLaterNeverMore(acc, a, b);
  }

  /**
   * Moving a negative term to just after the non-negative term that follows
   * it, anywhere in the polynomial, never raises the fee.
   */
  lemma SwapNegativeLaterNeverRaises(lib: FixedPointLib, weight: U64, pre: seq<Coefficient>, neg: Coefficient, pos: Coefficient, post: seq<Coefficient>)
    requires neg.negative && !pos.negative
    ensures WeightToFee(lib, weight, pre + [pos, neg] + post) <= WeightToFee(lib, weight, pre + [neg, pos] + post)
  {
    var mid := Evaluate(lib, 0, pre, weight);
    EvaluateAppend(lib, 0, pre + [pos, neg], post, weight);
    EvaluateAppend(lib, 0, pre, [pos, neg], weight);
    EvaluateAppend(lib, 0, pre + [neg, pos], post, weight);
    EvaluateAppend(lib, 0, pre, [neg, pos], weight);
    NegativeFirstNeverLess(lib, mid, neg, pos, weight);
    EvaluateMonotone(lib, Evaluate(lib, mid, [pos, neg], weight), Evaluate(lib, mid, [neg, pos], weight), post, weight);
  }

  /** The combined amount of the non-negative terms, each term's fractional plus integer part. */
  function PositiveTotal(lib: FixedPointLib, polynomial: seq<Coefficient>, weight: U64): (r: nat)
    decreases |polynomial|
  {
    if polynomial == [] then 0
    else
      var c := polynomial[0];
      (if c.negative then 0 else FracTerm(lib, c, weight) + IntegerTerm(c, weight))
      + PositiveTotal(lib, polynomial[1..], weight)
  }

  /**
   * The fold never goes above the starting accumulator plus the amounts of
   * its non-negative terms: negative terms only lower it and saturation only
   * cuts it.
   */
  lemma {:induction false} EvaluateUpperBound(lib: FixedPointLib, acc: U128, polynomial: seq<Coefficient>, weight: U64)
    ensures Evaluate(lib, acc, polynomial, weight) <= acc + PositiveTotal(lib, polynomial, weight)
    ensures WeightToFee(lib, weight, polynomial) <= PositiveTotal(lib, polynomial, weight)
    decreases |polynomial|
  {
    if polynomial != [] {
      EvaluateUpperBound(lib, ApplyTerm(lib, acc, polynomial[0], weight), polynomial[1..], weight);
      EvaluateUpperBound(lib, ApplyTerm(lib, 0, polynomial[0], weight), polynomial[1..], weight);
    }
  }

  /**
   * Without negative terms and without overflow, the fold is the exact sum:
   * the starting accumulator plus the amounts of all terms.
   */
  lemma {:induction false} NonNegativeExact(lib: FixedPointLib, acc: U128, polynomial: seq<Coefficient>, weight: U64)
    requires AllNonNegative(polynomial)
    requires acc + PositiveTotal(lib, polynomial, weight) <= U128_MAX
    ensures Evaluate(lib, acc, polynomial, weight) == acc + PositiveTotal(lib, polynomial, weight)
    decreases |polynomial|
  {
    if polynomial != [] {
      assert !polynomial[0].negative;
      assert AllNonNegative(polynomial[1..]) by {
        forall i | 0 <= i < |polynomial[1..]| ensures !polynomial[1..][i].negative {
          assert polynomial[1..][i] == polynomial[i + 1];
        }
      }
      NonNegativeExact(lib, ApplyTerm(lib, acc, polynomial[0], weight), polynomial[1..], weight);
    }
  }

  /**
   * `weight_to_fee`'s fold written as a loop over the terms in order that
   * updates one accumulator.
   */
  method WeightToFeeLoop(lib: FixedPointLib, weight: U64, polynomial: seq<Coefficient>) returns (acc: U128)
    ensures acc == WeightToFee(lib, weight, polynomial)
  {
    acc := 0;
    var i := 0;
    while i < |polynomial|
      invariant 0 <= i <= |polynomial|
      invariant Evaluate(lib, acc, polynomial[i..], weight) == WeightToFee(lib, weight, polynomial)
    {
      assert polynomial[i..][1..] == polynomial[i + 1..];
      acc := ApplyTerm(lib, acc, polynomial[i], weight);
      i := i + 1;
    }
    assert polynomial[i..] == [];
  }

  /** The constant term `amount · w⁰`, positive or negative. */
  function Constant(amount: U128, negative: bool): Coefficient
  {
    Coefficient(amount, 0, negative, 0)
  }

  /**
   * Order matters: `[−5·w⁰, +10·w⁰]` costs 10 at every weight, while
   * `[+10·w⁰, −5·w⁰]` costs 5.
   */
  lemma OrderMatters(lib: FixedPointLib, weight: U64)
    requires PerbillZeroIsZero(lib)
    ensures WeightToFee(lib, weight, [Constant(5, true), Constant(10, false)]) == 10
    ensures WeightToFee(lib, weight, [Constant(10, false), Constant(5, true)]) == 5
  {
    assert TermWeight(weight, 0) == 1;
    assert lib.perbillMul(0, 1) == 0;
    assert [Constant(5, true), Constant(10, false)][1..] == [Constant(10, false)];
    assert [Constant(10, false), Constant(5, true)][1..] == [Constant(5, true)];
  }
}
