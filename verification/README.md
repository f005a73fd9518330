# calc-fee: fee evaluation engine

A Dafny model of the fee engine of `calc-fee` (substrate-api-sidecar), which
computes a transaction fee from a weight (u64) and a byte length (u32):

- `weight_to_fee` evaluates the cost polynomial at a weight. It is a left fold,
  in list order, over the terms. Each term raises the weight to its degree with
  a 64-bit saturating power, widens it to u128, and adds or subtracts the
  fractional part (`Perbill * weight`) and then the integer part
  (`coeff_integer ⊗ weight`) with u128 saturation. Subtraction clamps at zero,
  so the order of the terms matters (module `Polynomial`).
- `Multiplier` is either `Current` (a `FixedI128` plus a bug-compatibility flag)
  or `Legacy` (the old `Fixed128`). `new` lets the legacy flag win. `calc`
  returns the balance unchanged for a bug-compatible negative `Current`
  multiplier; otherwise it applies the crate's multiply-accumulate
  (module `Multipliers`).
- `CalcFee` is built once by `from_params`, which computes the base fee as the
  polynomial at the base weight. `calc_fee` returns
  `base_fee ⊕ multiplier.calc((per_byte_fee ⊗ len) ⊕ weight_to_fee(weight))`
  (module `Fees`).

The integer widths are subset types of `int`: `U8`, `U32`, `U64`, `U128`,
`I128`, and `Perbill` as billionths in [0, 10^9]. The saturating operations are
written out explicitly (module `Arithmetic`). The three fixed-point primitives
come from crates outside this repository:

- `Perbill * u128`
- `FixedI128::saturating_mul_acc_int`
- the legacy `Fixed128::saturated_multiply_accumulate`

They are the function fields of `Arithmetic.FixedPointLib`. Every operation that
uses them takes that record as a parameter, so they stay uninterpreted. Where a
property needs a fact about them, it takes that fact as a hypothesis:

- `PerbillZeroIsZero`: a `Perbill` of zero times anything is zero. Used by
  `Polynomial.OrderMatters`, `Polynomial.FracTerm` and `Fees.LinearScenario`.
- `MulAccOfZeroIsZero`: the multiply-accumulate of a zero balance is zero in
  both encodings. Used by `Fees.EmptyCalculatorFee`.

`CalcFee` never changes after construction, since every method takes `&self`.
It is therefore a datatype, and `calc_fee` is a function of the calculator and
its two arguments. Repeated queries agree by construction.

## Model

| member | source | states |
|---|---|---|
| Arithmetic.SatAdd128 | calc-fee/src/lib.rs:127-128 | the exact sum when it fits, else the u128 maximum; never below either operand |
| Arithmetic.SatSub128 | calc-fee/src/lib.rs:124-125 | the exact difference when it is non-negative, else 0; never above the minuend |
| Arithmetic.SatMul128 | calc-fee/src/lib.rs:121 | the exact product when it fits, else the u128 maximum |
| Arithmetic.SatPow64 | calc-fee/src/lib.rs:118 | the exact power when it fits in 64 bits, else the 64-bit maximum |
| Polynomial.TermWeight | calc-fee/src/lib.rs:118 | the per-term weight power is at most 2^64−1, is exact when it fits, and clamps at 2^64−1 before widening to u128 |
| Polynomial.IntegerTermBound | calc-fee/src/lib.rs:118-121 | the integer part of a term is at most `coeff_integer ⊗ (2^64−1)` for every weight and degree |
| Polynomial.FracTerm | calc-fee/src/lib.rs:120 | defined as the Perbill crate's `coeff_frac * weight` on the term weight; its contract states that a zero fraction gives 0 when a zero Perbill times anything is 0 |
| Polynomial.IntegerTerm | calc-fee/src/lib.rs:121 | the integer part is the product of `coeff_integer` and the term weight, exact when it fits, else the u128 maximum; 0 for a zero coefficient, and 0 at weight 0 for a positive degree |
| Polynomial.ApplyTerm | calc-fee/src/lib.rs:118-129 | a non-negative term never lowers the accumulator and a negative one never raises it; the two saturating steps equal one clamp of accumulator ± (fraction + integer) |
| Polynomial.Evaluate | calc-fee/src/lib.rs:117-131 | defined as the fold of `ApplyTerm` over the terms in list order from any accumulator; its contract states that no terms leave the accumulator as it is; the fold's laws are the lemmas below |
| Polynomial.WeightToFee | calc-fee/src/lib.rs:116-133 | defined as `Evaluate` from 0; its contract states that the empty polynomial costs 0 (the result is a u128 by type); the fold's laws are the lemmas below |
| Polynomial.WeightToFeeLoop | calc-fee/src/lib.rs:116-133 | the accumulator loop over the terms in order returns exactly the fold `WeightToFee` |
| Polynomial.EvaluateAppend | calc-fee/src/lib.rs:117-131 | terms are processed strictly in list order: folding over `p + q` continues from where `p` ends |
| Polynomial.EvaluateMonotone | calc-fee/src/lib.rs:123-129 | a larger starting accumulator never gives a smaller result |
| Polynomial.EvaluateNonNegativeGrows | calc-fee/src/lib.rs:126-129 | a polynomial without negative terms never lowers the accumulator |
| Polynomial.EvaluateNegativeShrinks | calc-fee/src/lib.rs:123-125 | a polynomial of negative terms only never raises the accumulator, and its fee is 0 |
| Polynomial.EvaluateUpperBound | calc-fee/src/lib.rs:116-133 | the fee is at most the combined amount of the non-negative terms |
| Polynomial.NonNegativeExact | calc-fee/src/lib.rs:116-133 | without negative terms and without overflow the fee is exactly the sum of every term's fraction and integer parts |
| Polynomial.NegativeFirstNeverLess | calc-fee/src/lib.rs:117-131 | a negative term applied before a non-negative one gives at least as much as after it |
| Polynomial.SwapNegativeLaterNeverRaises | calc-fee/src/lib.rs:117-131 | moving a negative term past the following non-negative term, anywhere in the list, never raises the fee |
| Polynomial.OrderMatters | calc-fee/src/lib.rs:117-131 | `[−5·w⁰, +10·w⁰]` costs 10 at every weight, `[+10·w⁰, −5·w⁰]` costs 5 |
| Multipliers.New | calc-fee/src/lib.rs:34-40 | the result is `Legacy` exactly when the legacy flag is set; it keeps the inner value; a `Current` result carries the given bug flag |
| Multipliers.Calc | calc-fee/src/lib.rs:42-54 | a bug-compatible negative `Current` returns the balance; any other `Current` uses the current multiply-accumulate; `Legacy` uses the legacy one |
| Multipliers.LegacyIgnoresBug | calc-fee/src/lib.rs:34-40 | with the legacy flag set the bug flag changes neither the multiplier nor its result |
| Multipliers.BugCompatibleNegativeIsIdentity | calc-fee/src/lib.rs:45-47 | a bug-compatible negative multiplier returns every balance unchanged, including 0 and 2^128−1 |
| Multipliers.BugFlagOnlyMattersWhenNegative | calc-fee/src/lib.rs:44-50 | for a non-negative value both bug settings give the current multiply-accumulate |
| Fees.CalcFee.LenFee | calc-fee/src/lib.rs:106 | the length fee is the exact product `per_byte_fee · len` when it fits and the u128 maximum otherwise; 0 when either factor is 0 |
| Fees.CalcFee.AdjustableFee | calc-fee/src/lib.rs:106-109 | the adjustable fee is the saturated sum of length fee and weight fee, and at least each of them |
| Fees.CalcFee.Fee | calc-fee/src/lib.rs:103-113 | the fee is the saturated sum of the base fee and the multiplied adjustable fee, and at least each of them |
| Fees.FromParams | calc-fee/src/lib.rs:67-101 | keeps the polynomial in the given order and the per-byte fee; builds the multiplier as `new` does; the base fee is the polynomial at the base weight |
| Fees.FeeOfFromParams | calc-fee/src/lib.rs:88-112 | a query on a built calculator is `weight_to_fee(base) ⊕ calc((per_byte ⊗ len) ⊕ weight_to_fee(w))` |
| Fees.EmptyCalculatorFee | calc-fee/src/lib.rs:94-112 | an empty polynomial and zero per-byte fee give base fee 0 and fee `calc(0)` for every weight and length; the fee is 0 for a bug-compatible negative multiplier, and for every multiplier when the multiply-accumulate of 0 is 0 |
| Fees.BugCompatibleFeeIgnoresMultiplier | calc-fee/src/lib.rs:103-113 | with a bug-compatible negative multiplier the fee is the saturated sum of base, length and weight fees |
| Fees.BugCompatibleFeeMonotoneInLength | calc-fee/src/lib.rs:103-113 | with a bug-compatible negative multiplier a longer transaction never pays less |
| Fees.LinearScenario | calc-fee/src/lib.rs:67-113 | polynomial `1·w¹`, base weight 0, per-byte fee 1: at weight 100 and length 10 the base fee is 0, the weight fee 100, the length fee 10, the adjustable fee 110, and the fee is the multiply-accumulate of 1.0 on 110 |

## Left out

- Parsing of the inputs is not modelled: the serde deserialisation of `JSCoefficient`, `from_str(...).unwrap()` on decimal strings, and `Perbill::from_parts`. `Fees.FromParams` takes values already in range.
- The panic hook (`mod panic`, `panic::set_hook`) is not modelled: the engine cannot panic once built.
- The wasm bindings and the final `.to_string()` are not modelled: `Fee` returns the u128 itself.
- The internals of `Perbill * u128`, `FixedI128::saturating_mul_acc_int` and the legacy `Fixed128::saturated_multiply_accumulate` belong to crates outside this repository. They stay uninterpreted, so nothing numeric is proved about them.
- Fees.LinearScenario: stops at `currentMulAcc(1.0, 110)`. The value 220 is what the foreign multiply-accumulate computes, and that is not modelled.
- The parity of `Legacy` and `Current` for the same nominal value is not modelled, for the same reason.
- There is no floating point, I/O or concurrency in the engine.
