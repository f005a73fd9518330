/**
 * Fixed-width integer types of the fee engine and the saturating operations
 * the Rust primitives provide (`saturating_add`, `saturating_sub`,
 * `saturating_mul`, `saturating_pow`), written out over unbounded integers.
 *
 * The three fixed-point primitives the engine calls from the arithmetic
 * crates (`Perbill * u128`, `FixedI128::saturating_mul_acc_int` and the
 * legacy `Fixed128::saturated_multiply_accumulate`) are not part of this
 * model: they are the function-valued fields of `FixedPointLib`, which every
 * operation that needs them takes as a parameter, so nothing is assumed
 * about their numeric results.
 */
module Arithmetic {

  const U32_MAX: nat := 0xFFFF_FFFF
  const U64_MAX: nat := 0xFFFF_FFFF_FFFF_FFFF
  const U128_MAX: nat := 0xFFFF_FFFF_FFFF_FFFF_FFFF_FFFF_FFFF_FFFF
  const I128_MIN: int := -0x8000_0000_0000_0000_0000_0000_0000_0000
  const I128_MAX: int := 0x7FFF_FFFF_FFFF_FFFF_FFFF_FFFF_FFFF_FFFF
  /** Parts of a `Perbill` that make up one whole. */
  const PERBILL_ONE: nat := 1_000_000_000

  type U8 = x: nat | x <= 0xFF
  type U32 = x: nat | x <= U32_MAX
  /** `Weight` in the Rust crate. */
  type U64 = x: nat | x <= U64_MAX
  /** `Balance` in the Rust crate. */
  type U128 = x: nat | x <= U128_MAX
  /** The raw inner value of a signed 128-bit fixed-point number. */
  type I128 = x: int | I128_MIN <= x <= I128_MAX
  /** A `Perbill`, as its number of billionths (at most one whole). */
  type Perbill = x: nat | x <= PERBILL_ONE

  /** The fixed-point primitives of the arithmetic crates, left uninterpreted. */
  datatype FixedPointLib = FixedPointLib(
    /** `Perbill * u128`, with the crate's own rounding. */
    perbillMul: (Perbill, U128) -> U128,
    /** `FixedI128::from_inner(inner).saturating_mul_acc_int(n)`. */
    currentMulAcc: (I128, U128) -> U128,
    /** `Fixed128::from_parts(inner).saturated_multiply_accumulate(n)` of the legacy crate. */
    legacyMulAcc: (I128, U128) -> U128)

  /** A fraction of nothing is nothing: the one fact about `Perbill * u128` some lemmas take as a hypothesis. */
  ghost predicate PerbillZeroIsZero(lib: FixedPointLib)
  {
    forall n: U128 :: lib.perbillMul(0, n) == 0
  }

  /** Multiplying-and-accumulating onto a zero balance gives zero, in both fixed-point encodings. */
  ghost predicate MulAccOfZeroIsZero(lib: FixedPointLib)
  {
    forall m: I128 :: lib.currentMulAcc(m, 0) == 0 && lib.legacyMulAcc(m, 0) == 0
  }

  /** The value `x` would saturate to in a u128: 0 below the range, the maximum above it. */
  function Clamp128(x: int): U128
  {
    if x < 0 then 0 else if x > U128_MAX then U128_MAX else x
  }

  /** Mathematical power, the value `checked_pow` computes when it does not overflow. */
  function Pow(b: nat, e: nat): nat
  {
    if e == 0 then 1 else b * Pow(b, e - 1)
  }

  /** `u128::saturating_add`. */
  function SatAdd128(a: U128, b: U128): (r: U128)
    ensures a <= r && b <= r && r <= a + b
    ensures r == a + b || r == U128_MAX
  {
    if a + b > U128_MAX then U128_MAX else a + b
  }

  /** `u128::saturating_sub`: clamps at zero instead of going negative. */
  function SatSub128(a: U128, b: U128): (r: U128)
    ensures r <= a && a <= r + b
    ensures r == a - b || r == 0
  {
    if b > a then 0 else a - b
  }

  /** `u128::saturating_mul`. */
  function SatMul128(a: U128, b: U128): (r: U128)
    ensures r <= a * b
    ensures r == a * b || r == U128_MAX
  {
    if a * b > U128_MAX then U128_MAX else a * b
  }

  /**
   * `u64::saturating_pow`: the exact power when it fits in 64 bits and the
   * 64-bit maximum otherwise (never the 128-bit maximum, because the power is
   * taken before the result is widened).
   */
  function SatPow64(b: U64, e: nat): (r: U64)
    ensures r <= Pow(b, e)
    ensures r == Pow(b, e) || r == U64_MAX
  {
    if Pow(b, e) > U64_MAX then U64_MAX else Pow(b, e)
  }

  /** Two saturating additions in a row saturate the combined sum once. */
  lemma SatAddTwice(acc: U128, x: U128, y: U128)
    ensures SatAdd128(SatAdd128(acc, x), y) == Clamp128(acc + x + y)
  {
  }

  /** Two saturating subtractions in a row clamp the combined difference once. */
  lemma SatSubTwice(acc: U128, x: U128, y: U128)
    ensures SatSub128(SatSub128(acc, x), y) == Clamp128(acc - x - y)
  {
  }

  /** A larger multiplier never gives a smaller saturated product. */
  lemma SatMulMonotone(a: U128, b: U128, c: U128)
    requires b <= c
    ensures SatMul128(a, b) <= SatMul128(a, c)
  {
    assert a * b <= a * c by {
      assert a * c - a * b == a * (c - b);
    }
  }

  /**
   * Saturating first by a subtraction and then by an addition never gives
   * less than the same two steps in the other order.
   */
  lemma ClampSubLaterNeverMore(acc: U128, a: nat, b: nat)
    ensures Clamp128(Clamp128(acc + b) - a) <= Clamp128(Clamp128(acc - a) + b)
  {
  }
}
