/**
 * The few pieces of Java's 32-bit integer arithmetic that the hash-slot
 * computation relies on: the `int` range, `Math.abs` (which overflows on
 * `Integer.MIN_VALUE`) and the remainder operator `%` (which truncates
 * toward zero, unlike Dafny's Euclidean `%`).
 */
module JavaInt {

  const MIN_VALUE: int := -0x8000_0000
  const MAX_VALUE: int := 0x7fff_ffff

  /** A Java `int`. */
  type int32 = x: int | MIN_VALUE <= x <= MAX_VALUE

  /** `Math.abs(int)`: the negation of `Integer.MIN_VALUE` wraps back to itself. */
  function Abs(x: int32): (r: int32)
    ensures x != MIN_VALUE ==> r >= 0 && (r == x || r == -x)
    ensures x == MIN_VALUE ==> r == MIN_VALUE
  {
    if x == MIN_VALUE then MIN_VALUE else if x < 0 then -x else x
  }

  /** Java's `a % b`: the remainder takes the sign of the dividend. */
  function Rem(a: int, b: int): (r: int)
    requires b != 0
    ensures a >= 0 ==> 0 <= r < (if b < 0 then -b else b)
    ensures a < 0 ==> -(if b < 0 then -b else b) < r <= 0
    ensures a >= 0 ==> r == a % (if b < 0 then -b else b)
  {
    var m := if b < 0 then -b else b;
    if a >= 0 then a % m else -((-a) % m)
  }
}
