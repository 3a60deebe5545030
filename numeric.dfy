/**
 * Scalar helpers shared by the model. Floating-point values are modelled as
 * exact reals; the conversions that the Rust code performs with `as` are
 * written out explicitly (saturating casts, wrap-around of `u32` arithmetic).
 */
module Numeric {

  const U32Max: int := 4294967295
  const U32Modulus: int := 4294967296
  const I32Min: int := -2147483648
  const I32Max: int := 2147483647

  /** The values of Rust's `u32`. */
  type U32 = x: int | 0 <= x <= U32Max

  /** `f32::EPSILON`, the distance from 1.0 to the next float, 2^-23. */
  const Epsilon: real := 1.0 / 8388608.0

  /** `f32::signum`: +1 for every non-negative value, including zero. */
  function Signum(x: real): (r: real)
    ensures r == 1.0 || r == -1.0
    ensures r > 0.0 <==> x >= 0.0
  {
    if x >= 0.0 then 1.0 else -1.0
  }

  function Abs(x: real): (r: real)
    ensures r >= 0.0 && (r == x || r == -x)
  {
    if x < 0.0 then -x else x
  }

  function Min(a: real, b: real): real { if a <= b then a else b }

  function Max(a: real, b: real): real { if a >= b then a else b }

  /** `f32::div_euclid` for a positive divisor: the floor of the quotient. */
  function DivEuclid(value: real, unit: real): real
    requires unit > 0.0
  {
    (value / unit).Floor as real
  }

  /** The integer part of x, rounding toward zero (what `as` does to a float). */
  function Trunc(x: real): int
  {
    if x >= 0.0 then x.Floor else -((-x).Floor)
  }

  /** `x as u32` on a float: truncates, and saturates at both ends. */
  function CastU32(x: real): (r: nat)
    ensures r <= U32Max
    ensures 0.0 <= x < U32Max as real ==> r == x.Floor
  {
    if x < 0.0 then 0 else if x >= U32Max as real then U32Max else x.Floor
  }

  /** `x as i32` on a float: truncates toward zero, and saturates at both ends. */
  function CastI32(x: real): (r: int)
    ensures I32Min <= r <= I32Max
    ensures I32Min as real <= x <= I32Max as real ==> r == Trunc(x)
  {
    if x <= I32Min as real then I32Min
    else if x >= I32Max as real then I32Max
    else Trunc(x)
  }

  /** Wrap-around of `u32` arithmetic (release-build semantics). */
  function WrapU32(x: int): (r: nat)
    ensures r < U32Modulus
    ensures 0 <= x < U32Modulus ==> r == x
  {
    x % U32Modulus
  }
}
