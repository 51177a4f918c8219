/** C# `int` arithmetic (32-bit two's complement; `++`, `--` and `+` are
    unchecked, so they wrap around) and Unity's integer `Mathf.Clamp`, as the
    level-progress logic of the game uses them. */
module Numerics {

  const MinInt32: int := -0x8000_0000
  const MaxInt32: int := 0x7fff_ffff
  /** Number of distinct 32-bit values */
  const Modulus: int := 0x1_0000_0000

  /** The values of a C# `int` */
  type int32 = x: int | -0x8000_0000 <= x < 0x8000_0000

  /** The C# `int` an unbounded integer result wraps around to: the unique
      32-bit value congruent to `x` modulo 2^32. */
  function Wrap32(x: int): (r: int32)
    ensures MinInt32 <= x <= MaxInt32 ==> r == x
  {
    (x + 0x8000_0000) % Modulus - 0x8000_0000
  }

  /** `Wrap32(x)` differs from `x` by a multiple of 2^32. */
  lemma WrapDifference(x: int)
    ensures (x - Wrap32(x)) % Modulus == 0
  {
    var q := (x + 0x8000_0000) / Modulus;
    assert x + 0x8000_0000 == Modulus * q + (x + 0x8000_0000) % Modulus;
    assert x - Wrap32(x) == Modulus * q;
  }

  /** Two integers that differ by a multiple of 2^32 wrap to the same `int`. */
  lemma WrapCongruent(x: int, y: int)
    requires (x - y) % Modulus == 0
    ensures Wrap32(x) == Wrap32(y)
  {
    var k := (x - y) / Modulus;
    assert x == y + Modulus * k;
    var qy := (y + 0x8000_0000) / Modulus;
    var ry := (y + 0x8000_0000) % Modulus;
    assert y + 0x8000_0000 == Modulus * qy + ry;
    assert x + 0x8000_0000 == Modulus * (qy + k) + ry;
    assert (x + 0x8000_0000) / Modulus == qy + k;
  }

  /** Wrapping an intermediate result first does not change the final
      wrapped value: `(int)(a + b)` is the same whether or not `a` wrapped. */
  lemma WrapAdd(a: int, b: int)
    ensures Wrap32(Wrap32(a) + b) == Wrap32(a + b)
  {
    WrapDifference(a);
    var q := (a - Wrap32(a)) / Modulus;
    assert a - Wrap32(a) == Modulus * q;
    assert (Wrap32(a) + b) - (a + b) == Modulus * -q;
    WrapCongruent(Wrap32(a) + b, a + b);
  }

  /** C# `x++` on an `int`: the largest value steps round to the smallest. */
  function Inc32(x: int32): (r: int32)
    ensures x < MaxInt32 ==> r == x + 1
    ensures x == MaxInt32 ==> r == MinInt32
  {
    if x == MaxInt32 then MinInt32 else x + 1
  }

  /** C# `x--` on an `int`: the smallest value steps round to the largest. */
  function Dec32(x: int32): (r: int32)
    ensures x > MinInt32 ==> r == x - 1
    ensures x == MinInt32 ==> r == MaxInt32
  {
    if x == MinInt32 then MaxInt32 else x - 1
  }

  /** Incrementing and decrementing are addition of 1 and -1 modulo 2^32. */
  lemma StepsWrap(x: int32)
    ensures Inc32(x) == Wrap32(x + 1)
    ensures Dec32(x) == Wrap32(x - 1)
  {
    if x == MaxInt32 {
      WrapCongruent(x + 1, MinInt32);
    }
    if x == MinInt32 {
      WrapCongruent(x - 1, MaxInt32);
    }
  }

  /** Unity's `Mathf.Clamp(int value, int min, int max)`: `value` raised to
      `min` or lowered to `max`; the lower bound is tested first. */
  function Clamp(value: int, min: int, max: int): (r: int)
    ensures min <= max ==> min <= r <= max
    ensures min <= value <= max ==> r == value
    ensures value < min ==> r == min
    ensures min <= value && max < value ==> r == max
  {
    if value < min then min
    else if value > max then max
    else value
  }
}
