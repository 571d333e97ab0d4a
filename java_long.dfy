/** Java's 64-bit signed `long` and its wrap-around addition and subtraction. */
module JavaLong {

  const MIN: int := -0x8000_0000_0000_0000
  const MAX: int := 0x7FFF_FFFF_FFFF_FFFF
  /** 2^64: `long` arithmetic is exact modulo this number. */
  const MODULUS: int := 0x1_0000_0000_0000_0000

  type Long = x: int | MIN <= x <= MAX

  /** The `long` that Java's `+` or `-` yields when the exact result is `x`:
      the unique value of the `long` range congruent to `x` modulo 2^64. */
  function Wrap(x: int): (r: Long)
    ensures (r - x) % MODULUS == 0
  {
    (x - MIN) % MODULUS + MIN
  }

  /** Congruent integers wrap to the same `long`. */
  lemma WrapCongruent(x: int, y: int)
    requires (x - y) % MODULUS == 0
    ensures Wrap(x) == Wrap(y)
  {
    var k := (x - y) / MODULUS;
    assert x - MIN == (y - MIN) + k * MODULUS;
    var q, r := (y - MIN) / MODULUS, (y - MIN) % MODULUS;
    assert x - MIN == (q + k) * MODULUS + r;
    ModUnique(x - MIN, q + k, r);
  }

  lemma ModUnique(n: int, q: int, r: int)
    requires 0 <= r < MODULUS && n == q * MODULUS + r
    ensures n % MODULUS == r
  {
  }

  /** Where the exact result fits in a `long`, nothing wraps. */
  lemma WrapInRange(x: int)
    requires MIN <= x <= MAX
    ensures Wrap(x) == x
  {
    ModUnique(x - MIN, 0, x - MIN);
  }

  /** Wrapping an intermediate sum does not change the wrapped final sum:
      a chain of `long` additions equals the exact sum, wrapped once. */
  lemma WrapAdd(a: int, b: int)
    ensures Wrap(Wrap(a) + b) == Wrap(a + b)
  {
    assert ((Wrap(a) + b) - (a + b)) % MODULUS == 0;
    WrapCongruent(Wrap(a) + b, a + b);
  }
}
