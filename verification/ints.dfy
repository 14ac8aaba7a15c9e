/** Fixed-width integer types of the C++ sources, written over Dafny's unbounded
    `int`, and the clamping used for 32-bit signed counters. */
module Ints {

  type uint8 = x: int | 0 <= x < 0x100
  type uint16 = x: int | 0 <= x < 0x1_0000
  type uint32 = x: int | 0 <= x < 0x1_0000_0000
  type uint64 = x: int | 0 <= x < 0x1_0000_0000_0000_0000
  type int32 = x: int | -0x8000_0000 <= x < 0x8000_0000
  type int64 = x: int | -0x8000_0000_0000_0000 <= x < 0x8000_0000_0000_0000

  const UINT32_MOD: int := 0x1_0000_0000
  const INT32_MIN: int := -0x8000_0000
  const INT32_MAX: int := 0x7FFF_FFFF

  /** ClampToI32: the nearest value of the int32 range. */
  function ClampToI32(x: int): (r: int32)
    ensures INT32_MIN <= x <= INT32_MAX ==> r == x
    ensures x < INT32_MIN ==> r == INT32_MIN
    ensures x > INT32_MAX ==> r == INT32_MAX
  {
    if x < INT32_MIN then INT32_MIN else if x > INT32_MAX then INT32_MAX else x
  }

  /** Saturating addition on the int32 range: the effect of `+=` and `-=` on an
      OverflowSafeInt32 holding `x`. */
  function SaturatingAdd(x: int32, y: int): (r: int32)
  {
    ClampToI32(x + y)
  }

  /** Two saturating steps in the same direction saturate like one step. */
  lemma SaturatingAddTwice(x: int32, y: int, z: int)
    requires (y >= 0 && z >= 0) || (y <= 0 && z <= 0)
    ensures SaturatingAdd(SaturatingAdd(x, y), z) == ClampToI32(x + y + z)
  {
  }

  lemma {:induction false} MulAtLeast(t: int, d: int)
    requires t >= 1 && d > 0
    ensures t * d >= d
    decreases t
  {
    if t > 1 {
      MulAtLeast(t - 1, d);
      assert t * d == (t - 1) * d + d;
    }
  }

  /** Euclidean division is unique: a quotient and remainder that rebuild `x`
      are the ones `/` and `%` give. */
  lemma DivModUnique(x: int, d: int, q: int, r: int)
    requires d > 0 && 0 <= r < d && x == q * d + r
    ensures x / d == q && x % d == r
  {
    var q', r' := x / d, x % d;
    assert x == q' * d + r';
    if q' > q {
      MulAtLeast(q' - q, d);
    } else if q' < q {
      MulAtLeast(q - q', d);
    }
  }

  /** Adding whole multiples of `d` does not change the remainder. */
  lemma ModAddMultiple(a: int, q: int, d: int)
    requires d > 0
    ensures (a + q * d) % d == a % d
  {
    assert a == (a / d) * d + a % d;
    assert a + q * d == (a / d + q) * d + a % d;
    DivModUnique(a + q * d, d, a / d + q, a % d);
  }

  /** Reducing a summand first does not change the remainder of the sum. */
  lemma ModAbsorb(a: int, b: int, m: int)
    requires m > 0
    ensures (a % m + b) % m == (a + b) % m
  {
    assert a % m + b == (a + b) + (-(a / m)) * m;
    ModAddMultiple(a + b, -(a / m), m);
  }
}
