/** Plaintext model of the encrypted 3-bit unsigned integer the game runs on.
    Only the operations the game issues are modelled: wrapping addition,
    equality against a constant (which yields 0 or 1) and the bitwise
    `&` and `|` of two 3-bit values. */
module Uint3 {

  /** A 3-bit unsigned value. */
  type Uint3 = x: nat | x < 8

  /** `a += b`: addition that wraps around modulo 8. */
  function Add(a: Uint3, b: Uint3): (r: Uint3)
    ensures r == (a + b) % 8
  {
    if a + b < 8 then a + b else a + b - 8
  }

  /** `a.eq(k)`: 1 when the value equals the constant `k`, 0 otherwise. */
  function Eq(a: Uint3, k: Uint3): (r: Uint3)
    ensures r <= 1
    ensures r == 1 <==> a == k
  {
    if a == k then 1 else 0
  }

  /** Bitwise `a & b` on three bits. */
  function And(a: Uint3, b: Uint3): (r: Uint3)
    ensures r <= a && r <= b
    ensures b <= 1 ==> r == (if b == 1 then a % 2 else 0)
    ensures a <= 1 ==> r == (if a == 1 then b % 2 else 0)
  {
    ((a as bv3) & (b as bv3)) as nat
  }

  /** Bitwise `a | b` on three bits. */
  function Or(a: Uint3, b: Uint3): (r: Uint3)
    ensures a <= r && b <= r
    ensures a <= 1 && b <= 1 ==> r <= 1 && (r == 1 <==> a == 1 || b == 1)
  {
    ((a as bv3) | (b as bv3)) as nat
  }
}
