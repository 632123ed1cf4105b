/**
  The numeric capability the engine is generic over (src/lib.rs:4-6): a zero,
  a one and an addition that reports overflow instead of wrapping.

  A value of the numeric type is modelled by the natural number it denotes;
  a `Capacity` says which naturals the chosen type can hold.
 */
module Numeric {

  datatype Option<T> = None | Some(value: T)

  /** The largest value of a fixed-width type; at least 1, since `one` must exist. */
  type Max = m: nat | 1 <= m witness 1

  /** Fixed-width unsigned types hold 0..max; an arbitrary-precision type holds every natural. */
  datatype Capacity = Bounded(max: Max) | Unbounded

  const U16: Capacity := Bounded(0xFFFF)
  const U32: Capacity := Bounded(0xFFFF_FFFF)
  const U64: Capacity := Bounded(0xFFFF_FFFF_FFFF_FFFF)

  predicate Fits(cap: Capacity, v: nat) {
    cap.Unbounded? || v <= cap.max
  }

  /** The mathematical value `v` as the numeric type holds it, or None when it overflows. */
  function Checked(cap: Capacity, v: nat): Option<nat> {
    if Fits(cap, v) then Some(v) else None
  }

  /** `a.checked_add(&b)` */
  function CheckedAdd(cap: Capacity, a: nat, b: nat): Option<nat> {
    Checked(cap, a + b)
  }
}
