/**
 * WGSL `u32` arithmetic. Every index the compute kernel manipulates is a
 * `u32`, and WGSL's `+`, `-` and `*` on `u32` wrap around modulo 2^32.
 * The model keeps that width explicit so that "no index ever wraps"
 * is something proved rather than assumed.
 */
module U32 {

  const Modulus: int := 0x1_0000_0000

  type U32 = n: int | 0 <= n < Modulus

  /** WGSL `a + b` on u32. */
  function Add(a: U32, b: U32): (r: U32)
    ensures a + b < Modulus ==> r == a + b
    ensures a + b >= Modulus ==> r == a + b - Modulus
  {
    (a + b) % Modulus
  }

  /** WGSL `a - b` on u32. */
  function Sub(a: U32, b: U32): (r: U32)
    ensures b <= a ==> r == a - b
    ensures a < b ==> r == a - b + Modulus
  {
    (a - b) % Modulus
  }

  lemma NonNegativeProduct(a: nat, b: nat)
    ensures 0 <= a * b
  {
  }

  /** WGSL `a * b` on u32. */
  function Mul(a: U32, b: U32): (r: U32)
    ensures a * b < Modulus ==> r == a * b
  {
    assert 0 <= a * b by { NonNegativeProduct(a, b); }
    (a * b) % Modulus
  }
}
