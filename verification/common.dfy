/**
 Machine-level vocabulary shared by both tools: unsigned bytes, the
 32-bit wrap-around of `uint32_t`, and an optional value.
 */
module Common {

  /** An unsigned 8-bit quantity (`uint8_t`, or a `char` reinterpreted as one). */
  type byte = x: int | 0 <= x < 256

  /** The modulus of `uint32_t` arithmetic. */
  const U32: nat := 0x1_0000_0000

  /** The value a `uint32_t` holds after being assigned the mathematical value `x`.
      Dafny's `%` is Euclidean, so a negative `x` lands where C's conversion
      of a negative `int` to `unsigned` puts it. */
  function Wrap32(x: int): (r: nat)
    ensures r < U32
    ensures (x - r) % U32 == 0
  {
    x % U32
  }

  /** Adding to an already wrapped value wraps like adding to the exact one. */
  lemma WrapAdd(a: int, b: int)
    ensures Wrap32(Wrap32(a) + b) == Wrap32(a + b)
  {
    var q := a / U32;
    assert a == q * U32 + Wrap32(a);
    assert a + b == (Wrap32(a) + b) + q * U32;
  }

  /** One more wrapped addition onto an accumulator that holds the wrapped
      exact sum keeps it equal to the wrapped exact sum. */
  lemma WrapChain(a: int, exact: int, delta: int, a': int)
    requires a == Wrap32(exact) && a' == Wrap32(a + delta)
    ensures a' == Wrap32(exact + delta)
  {
    WrapAdd(exact, delta);
  }

  /** A value below 2^32 is stored unchanged. */
  lemma WrapSmall(x: int)
    requires 0 <= x < U32
    ensures Wrap32(x) == x
  {
  }

  /** Wrapping never increases a natural number. */
  lemma WrapBelow(x: nat)
    ensures Wrap32(x) <= x
  {
  }

  /** Multiplication by a natural number is monotonic. */
  lemma MulLe(a: nat, b: nat, c: nat)
    requires a <= b
    ensures a * c <= b * c
  {
  }

  /** Integer division of a natural number rounds down. */
  lemma DivBounds(a: nat, d: nat)
    requires d > 0
    ensures (a / d) * d <= a < (a / d) * d + d
  {
    assert a == (a / d) * d + a % d;
  }

  datatype Option<+T> = None | Some(value: T)
}
