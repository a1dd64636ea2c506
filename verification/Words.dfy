/** Arithmetic on unsigned machine words of a given modulus, as numbers. */
module Words {
  const TWO_32: nat := 0x1_0000_0000
  const TWO_64: nat := 0x1_0000_0000_0000_0000

  function Max(a: nat, b: nat): (r: nat)
    ensures r >= a && r >= b && (r == a || r == b)
  {
    if a >= b then a else b
  }

  function Add(a: nat, b: nat, modulus: nat): nat
    requires modulus > 0
  {
    (a + b) % modulus
  }

  function Mul(a: nat, b: nat, modulus: nat): nat
    requires modulus > 0
  {
    (a * b) % modulus
  }

  /** a - b, wrapping around. */
  function Sub(a: nat, b: nat, modulus: nat): nat
    requires modulus > 0
  {
    (a + (modulus - b % modulus)) % modulus
  }

  /** Rotation to the left by the number of bits whose power of two is up; low * up is the modulus. */
  function Rotate(x: nat, up: nat, low: nat): nat
    requires low > 0
  {
    x % low * up + x / low
  }

  function Xor(a: nat, b: nat): nat
    decreases a + b
  {
    if a == 0 && b == 0 then 0
    else (if a % 2 != b % 2 then 1 else 0) + 2 * Xor(a / 2, b / 2)
  }

  lemma AddCut32(a: nat, b: nat)
    ensures (a % TWO_32 + b % TWO_32) % TWO_32 == (a + b) % TWO_32
  {}

  lemma AddCut64(a: nat, b: nat)
    ensures (a % TWO_64 + b % TWO_64) % TWO_64 == (a + b) % TWO_64
  {}
}
