/** Rust's fixed-width integers as ranges of `int`. */
module Integers {
  const I64_MIN: int := -0x8000_0000_0000_0000
  const I64_MAX: int := 0x7FFF_FFFF_FFFF_FFFF
  const U64_LIMIT: int := 0x1_0000_0000_0000_0000
  const U32_LIMIT: nat := 0x1_0000_0000
  const U32_MAX: nat := 0xFFFF_FFFF

  type I64 = x: int | I64_MIN <= x <= I64_MAX
  type U64 = x: int | 0 <= x < U64_LIMIT
  type U32 = x: int | 0 <= x <= U32_MAX
  type Byte = x: int | 0 <= x < 256

  /** Two's complement wrap-around of a 64-bit result. */
  function Wrap(x: int): I64
  {
    (x - I64_MIN) % U64_LIMIT + I64_MIN
  }

  /** Wrapping subtraction is undone by wrapping addition. */
  lemma WrapUndone(x: I64, base: int)
    ensures Wrap(base + Wrap(x - base)) == x
  {
    var d := x - base;
    var k := (d - I64_MIN) / U64_LIMIT;
    assert Wrap(d) == d - k * U64_LIMIT;
    var y := base + Wrap(d);
    assert y - I64_MIN == (x - I64_MIN) - k * U64_LIMIT;
    ModShift(x - I64_MIN, k);
  }

  lemma ModShift(a: int, k: int)
    requires 0 <= a < U64_LIMIT
    ensures (a - k * U64_LIMIT) % U64_LIMIT == a
  {
  }

  function Pow2(n: nat): (r: nat)
    ensures r > 0
  {
    if n == 0 then 1 else 2 * Pow2(n - 1)
  }
}
