/** Go's 64-bit integers. */
module Integers {

  const MAX_INT64 := 0x7FFF_FFFF_FFFF_FFFF

  type Int64 = n: int | -0x8000_0000_0000_0000 <= n < 0x8000_0000_0000_0000

  /** The value of an overflowing sum. */
  function Wrap(n: int): Int64 {
    (n + 0x8000_0000_0000_0000) % 0x1_0000_0000_0000_0000 - 0x8000_0000_0000_0000
  }

  /** Wrapping at every addition is wrapping once, at the end. */
  lemma WrapAdd(a: int, b: int)
    ensures Wrap(Wrap(a) + b) == Wrap(a + b)
  {
    var q := (a + 0x8000_0000_0000_0000) / 0x1_0000_0000_0000_0000;
    assert Wrap(a) == a - 0x1_0000_0000_0000_0000 * q;
  }
}
