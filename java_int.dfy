/** Java's 32-bit `int`, as used for book ids, quantities, rack numbers and the running total. */
module JavaInt {
  const MIN_VALUE: int := -0x8000_0000
  const MAX_VALUE: int := 0x7fff_ffff
  const MODULUS: int := 0x1_0000_0000

  /** A value a Java `int` variable can hold. */
  type int32 = x: int | -0x8000_0000 <= x <= 0x7fff_ffff

  predicate InRange(x: int) {
    MIN_VALUE <= x <= MAX_VALUE
  }

  /** The `int` Java stores for the exact result `x`: `x` reduced modulo 2^32 into the signed range. */
  function Wrap(x: int): (r: int32)
    ensures (x - r) % MODULUS == 0
    ensures InRange(x) ==> r == x
  {
    (x - MIN_VALUE) % MODULUS + MIN_VALUE
  }

  /** Two exact results that agree modulo 2^32 are stored as the same `int`. */
  lemma WrapCongruent(x: int, y: int)
    requires (x - y) % MODULUS == 0
    ensures Wrap(x) == Wrap(y)
  {
    var t := (x - y) / MODULUS;
    assert x - MIN_VALUE == (y - MIN_VALUE) + t * MODULUS;
  }

  /** Accumulating with `+=` step by step stores the wrapped exact sum. */
  lemma WrapAdd(a: int, b: int)
    ensures Wrap(Wrap(a) + b) == Wrap(a + b)
  {
    WrapCongruent(Wrap(a) + b, a + b);
  }

  /** `q + 1` on a Java `int`: one more, except that MAX_VALUE wraps around to MIN_VALUE. */
  function Increment(q: int32): (r: int32)
    ensures q < MAX_VALUE ==> r == q + 1 && r > q
    ensures q == MAX_VALUE ==> r == MIN_VALUE
  {
    Wrap(q + 1)
  }
}
