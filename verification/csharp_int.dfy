/** C#'s 32-bit `int` and its unchecked arithmetic, which wraps around
    modulo 2^32 instead of failing. */
module CSharpInt {

  const IntMin: int := -0x8000_0000
  const IntMax: int := 0x7FFF_FFFF
  const Modulus: int := 0x1_0000_0000

  /** The `int` an unchecked operation yields for the mathematical value `x`:
      the one value in the `int` range congruent to `x` modulo 2^32. */
  function Wrap32(x: int): (r: int)
    ensures IntMin <= r <= IntMax
    ensures (r - x) % Modulus == 0
    ensures IntMin <= x <= IntMax ==> r == x
  {
    var low := x % Modulus;
    assert x == Modulus * (x / Modulus) + low;
    if low > IntMax then low - Modulus else low
  }
}
