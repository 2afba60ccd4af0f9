/** The 256-bit unsigned word of the Ethereum math helpers. */
module Word256 {

  /** 2^256. */
  const Modulus: nat := 0x1_0000000000000000000000000000000000000000000000000000000000000000

  /** U256: interprets `x` as a 256-bit two's-complement word, i.e. reduces it
      modulo 2^256 (negative numbers wrap to large positive ones). */
  function U256(x: int): (r: nat)
    ensures r < Modulus
    ensures (x - r) % Modulus == 0
    ensures 0 <= x < Modulus ==> r == x
  {
    x % Modulus
  }
}
