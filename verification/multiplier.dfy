/**
 * The fee multiplier: a closed sum of the current fixed-point encoding,
 * which carries a bug-compatibility flag, and the legacy encoding.
 */
module Multipliers {
  import opened Arithmetic

  /**
   * `Current` holds the raw inner value of a `FixedI128` and the flag that
   * replicates the old bug where negative multipliers were ignored; `Legacy`
   * holds the raw parts of a legacy `Fixed128`.
   */
  datatype Multiplier =
    | Current(inner: I128, bug: bool)
    | Legacy(inner: I128)

  /** `Multiplier::new`: the legacy flag wins, and the bug flag is then dropped. */
  function New(inner: I128, useLegacy: bool, bug: bool): (m: Multiplier)
    ensures m.Legacy? <==> useLegacy
    ensures m.inner == inner
    ensures m.Current? ==> m.bug == bug
  {
    if useLegacy then Legacy(inner) else Current(inner, bug)
  }

  /** `FixedI128::is_negative` on the raw inner value. */
  predicate IsNegative(inner: I128)
  {
    inner < 0
  }

  /**
   * `Multiplier::calc`: the multiply-accumulate `balance + balance · m` of the
   * variant's own fixed-point crate, except that a bug-compatible `Current`
   * multiplier with a negative value leaves the balance unchanged.
   */
  function Calc(lib: FixedPointLib, m: Multiplier, balance: U128): (r: U128)
    ensures m.Current? && m.bug && IsNegative(m.inner) ==> r == balance
    ensures m.Current? && !(m.bug && IsNegative(m.inner)) ==> r == lib.currentMulAcc(m.inner, balance)
    ensures m.Legacy? ==> r == lib.legacyMulAcc(m.inner, balance)
  {
    match m
    case Current(inner, bug) =>
      if bug && IsNegative(inner) then balance else lib.currentMulAcc(inner, balance)
    case Legacy(inner) => lib.legacyMulAcc(inner, balance)
  }

  /** With the legacy flag set, the bug flag changes neither the multiplier nor its result. */
  lemma LegacyIgnoresBug(lib: FixedPointLib, inner: I128, bug: bool, balance: U128)
    ensures New(inner, true, bug) == New(inner, true, !bug)
    ensures Calc(lib, New(inner, true, bug), balance) == lib.legacyMulAcc(inner, balance)
  {
  }

  /**
   * A bug-compatible current multiplier with a negative value returns every
   * balance unchanged, from zero to the u128 maximum.
   */
  lemma BugCompatibleNegativeIsIdentity(lib: FixedPointLib, inner: I128, balance: U128)
    requires IsNegative(inner)
    ensures Calc(lib, New(inner, false, true), balance) == balance
    ensures Calc(lib, New(inner, false, true), 0) == 0
    ensures Calc(lib, New(inner, false, true), U128_MAX) == U128_MAX
  {
  }

  /**
   * The bug flag of a current multiplier matters only when its value is
   * negative: otherwise both settings give the crate's multiply-accumulate.
   */
  lemma BugFlagOnlyMattersWhenNegative(lib: FixedPointLib, inner: I128, balance: U128)
    requires !IsNegative(inner)
    ensures Calc(lib, New(inner, false, true), balance) == Calc(lib, New(inner, false, false), balance)
    ensures Calc(lib, New(inner, false, false), balance) == lib.currentMulAcc(inner, balance)
  {
  }
}
