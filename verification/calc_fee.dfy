/**
 * The fee calculator (`CalcFee`): an immutable aggregate of the polynomial,
 * the multiplier, the per-byte fee and a base fee computed once when it is
 * built, and the fee query that combines them with u128 saturating
 * arithmetic.
 */
module Fees {
  import opened Arithmetic
  import opened Polynomial
  import opened Multipliers

  /** `CalcFee`: no field changes after `FromParams`, so it is a value. */
  datatype CalcFee = CalcFee(
    polynomial: seq<Coefficient>,
    multiplier: Multiplier,
    perByteFee: U128,
    baseFee: U128)
  {
    /** The length fee: `per_byte_fee.saturating_mul(len.into())`. */
    function LenFee(len: U32): (r: U128)
      ensures perByteFee == 0 || len == 0 ==> r == 0
      ensures r <= perByteFee * len
      ensures r == Clamp128(perByteFee * len)
    {
      SatMul128(perByteFee, len)
    }

    /** The part of the fee the multiplier scales: length fee plus weight fee, saturating. */
    function AdjustableFee(lib: FixedPointLib, weight: U64, len: U32): (r: U128)
      ensures LenFee(len) <= r && WeightToFee(lib, weight, polynomial) <= r
      ensures r == Clamp128(LenFee(len) + WeightToFee(lib, weight, polynomial))
    {
      SatAdd128(LenFee(len), WeightToFee(lib, weight, polynomial))
    }

    /**
     * `calc_fee`: the base fee plus the multiplier applied to the adjustable
     * fee, saturating. It reads only the fields and its two arguments.
     */
    function Fee(lib: FixedPointLib, weight: U64, len: U32): (r: U128)
      ensures baseFee <= r
      ensures Calc(lib, multiplier, AdjustableFee(lib, weight, len)) <= r
      ensures r == Clamp128(baseFee + Calc(lib, multiplier, AdjustableFee(lib, weight, len)))
    {
      SatAdd128(baseFee, Calc(lib, multiplier, AdjustableFee(lib, weight, len)))
    }
  }

  /**
   * `CalcFee::from_params`, from inputs already parsed: the polynomial is
   * kept in the given order, the multiplier is built by `Multiplier::new`
   * and the base fee is the polynomial evaluated at the base weight.
   */
  function FromParams(lib: FixedPointLib, polynomial: seq<Coefficient>, extrinsicBaseWeight: U64,
                      multiplier: I128, perByteFee: U128, fixed128Bug: bool, fixed128Legacy: bool): (r: CalcFee)
    ensures r.polynomial == polynomial
    ensures r.perByteFee == perByteFee
    ensures r.multiplier.Legacy? <==> fixed128Legacy
    ensures r.multiplier.inner == multiplier
    ensures r.multiplier.Current? ==> r.multiplier.bug == fixed128Bug
    ensures r.baseFee == WeightToFee(lib, extrinsicBaseWeight, polynomial)
  {
    CalcFee(polynomial, New(multiplier, fixed128Legacy, fixed128Bug), perByteFee,
            WeightToFee(lib, extrinsicBaseWeight, polynomial))
  }

  /**
   * A query on a freshly built calculator: the weight fee at the base weight,
   * plus the multiplier applied to the length fee plus the weight fee at the
   * query weight, every step saturating.
   */
  lemma FeeOfFromParams(lib: FixedPointLib, polynomial: seq<Coefficient>, extrinsicBaseWeight: U64,
                        multiplier: I128, perByteFee: U128, fixed128Bug: bool, fixed128Legacy: bool,
                        weight: U64, len: U32)
    ensures var c := FromParams(lib, polynomial, extrinsicBaseWeight, multiplier, perByteFee, fixed128Bug, fixed128Legacy);
            c.Fee(lib, weight, len)
            == SatAdd128(WeightToFee(lib, extrinsicBaseWeight, polynomial),
                         Calc(lib, New(multiplier, fixed128Legacy, fixed128Bug),
                              SatAdd128(SatMul128(perByteFee, len), WeightToFee(lib, weight, polynomial))))
  {
  }

  /**
   * With no polynomial terms and no per-byte fee, the base fee is zero and
   * every query returns the multiplier applied to zero. That is zero for a
   * bug-compatible negative multiplier, and for every multiplier when the
   * multiply-accumulate of zero is zero, as it is in both fixed-point crates.
   */
  lemma EmptyCalculatorFee(lib: FixedPointLib, extrinsicBaseWeight: U64, multiplier: I128,
                           fixed128Bug: bool, fixed128Legacy: bool, weight: U64, len: U32)
    ensures var c := FromParams(lib, [], extrinsicBaseWeight, multiplier, 0, fixed128Bug, fixed128Legacy);
            c.baseFee == 0 && c.Fee(lib, weight, len) == Calc(lib, c.multiplier, 0)
    ensures fixed128Bug && !fixed128Legacy && IsNegative(multiplier) ==>
            FromParams(lib, [], extrinsicBaseWeight, multiplier, 0, fixed128Bug, fixed128Legacy).Fee(lib, weight, len) == 0
    ensures MulAccOfZeroIsZero(lib) ==>
            FromParams(lib, [], extrinsicBaseWeight, multiplier, 0, fixed128Bug, fixed128Legacy).Fee(lib, weight, len) == 0
  {
  }

  /**
   * When the multiplier is a bug-compatible negative one, the fee is the
   * saturated sum of base fee, length fee and weight fee, as if there were no
   * multiplier at all.
   */
  lemma BugCompatibleFeeIgnoresMultiplier(lib: FixedPointLib, c: CalcFee, weight: U64, len: U32)
    requires c.multiplier.Current? && c.multiplier.bug && IsNegative(c.multiplier.inner)
    ensures c.Fee(lib, weight, len) == Clamp128(c.baseFee + c.LenFee(len) + WeightToFee(lib, weight, c.polynomial))
  {
    var adjustable := c.AdjustableFee(lib, weight, len);
    assert Calc(lib, c.multiplier, adjustable) == adjustable;
  }

  /**
   * When the multiplier leaves the balance unchanged, a longer transaction
   * never pays less.
   */
  lemma {:induction false} BugCompatibleFeeMonotoneInLength(lib: FixedPointLib, c: CalcFee, weight: U64, len1: U32, len2: U32)
    requires c.multiplier.Current? && c.multiplier.bug && IsNegative(c.multiplier.inner)
    requires len1 <= len2
    ensures c.Fee(lib, weight, len1) <= c.Fee(lib, weight, len2)
  {
    SatMulMonotone(c.perByteFee, len1, len2);
    BugCompatibleFeeIgnoresMultiplier(lib, c, weight, len1);
    BugCompatibleFeeIgnoresMultiplier(lib, c, weight, len2);
  }

  /** The multiplier value that stands for 1.0 in the current encoding (18 decimal places). */
  const CURRENT_ONE: I128 := 1_000_000_000_000_000_000

  /**
   * The polynomial `1·w¹`, base weight 0, per-byte fee 1 and a current
   * multiplier of 1.0 without the bug flag: at weight 100 and length 10 the
   * weight fee is 100, the length fee 10, the base fee 0, and the fee is the
   * multiply-accumulate of 1.0 on 110.
   */
  lemma LinearScenario(lib: FixedPointLib)
    requires PerbillZeroIsZero(lib)
    ensures var c := FromParams(lib, [Coefficient(1, 0, false, 1)], 0, CURRENT_ONE, 1, false, false);
            c.baseFee == 0 && WeightToFee(lib, 100, c.polynomial) == 100 && c.LenFee(10) == 10
            && c.AdjustableFee(lib, 100, 10) == 110 && c.Fee(lib, 100, 10) == lib.currentMulAcc(CURRENT_ONE, 110)
  {
    var term := Coefficient(1, 0, false, 1);
    assert TermWeight(0, 1) == 0 && TermWeight(100, 1) == 100;
    assert lib.perbillMul(0, 0) == 0 && lib.perbillMul(0, 100) == 0;
    assert [term][1..] == [];
    assert WeightToFee(lib, 0, [term]) == Evaluate(lib, ApplyTerm(lib, 0, term, 0), [], 0) == 0;
    assert WeightToFee(lib, 100, [term]) == Evaluate(lib, ApplyTerm(lib, 0, term, 100), [], 100) == 100;
  }
}
