/**
 C#'s 32-bit `int` under the default unchecked context: an arithmetic result
 that does not fit is reduced to its low 32 bits, read as two's complement.
 */
module Int32 {

  const Min: int := -0x8000_0000
  const Max: int := 0x7fff_ffff
  const Modulus: int := 0x1_0000_0000

  type int32 = x: int | -0x8000_0000 <= x < 0x8000_0000

  /**
   The two's-complement reduction of `x`: the only `int` value congruent to
   `x` modulo 2^32 (see `WrapUnique`), and `x` itself when `x` fits.
   */
  function Wrap(x: int): (r: int32)
    ensures (x - r) % Modulus == 0
    ensures Min <= x <= Max ==> r == x
  {
    (x + 0x8000_0000) % 0x1_0000_0000 - 0x8000_0000
  }

  /** Two `int` values that agree modulo 2^32 are equal, so `Wrap` is determined by its contract. */
  lemma WrapUnique(x: int, r: int32)
    requires (x - r) % Modulus == 0
    ensures r == Wrap(x)
  {
    var w := Wrap(x);
    var q1, q2 := (x - r) / Modulus, (x - w) / Modulus;
    assert x - r == Modulus * q1;
    assert x - w == Modulus * q2;
    assert w - r == Modulus * (q1 - q2);
  }

}
