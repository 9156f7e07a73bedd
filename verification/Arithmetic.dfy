/** Bytes, and the few facts about products, quotients and powers that several modules share. */
module Arithmetic {
  type Byte = b: int | 0 <= b < 256

  /** The low byte of v. */
  function LowByte(v: int): Byte { v % 256 }

  function Pow2(n: nat): (r: nat)
    ensures r >= 1
  {
    if n == 0 then 1 else 2 * Pow2(n - 1)
  }

  lemma MulMono(x: int, y: int, m: nat)
    ensures x <= y ==> x * m <= y * m
  {
  }

  /** Quotient and remainder are unique. */
  lemma DivMod(m: nat, q: int, r: nat)
    requires r < m
    ensures (q * m + r) / m == q && (q * m + r) % m == r
  {
    var k := (q * m + r) / m;
    MulMono(k + 1, q, m);
    MulMono(q + 1, k, m);
  }
}
