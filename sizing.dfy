/**
 * How many slots the bucket array gets. Both designs size the array from
 * the capacity and a `float` load factor, here a `real` (float rounding is
 * not modelled), followed by Java's `(int)` cast, which truncates toward zero.
 */
module Sizing {

  /** `DEFAULT_LOAD_FACTOR` of both designs. */
  const DEFAULT_LOAD_FACTOR: real := 0.75

  /** Java's `(int) x` for an `x` inside the `int` range. */
  function Truncate(x: real): (n: int)
    ensures x >= 0.0 ==> n as real <= x < n as real + 1.0
    ensures x < 0.0 ==> n as real - 1.0 < x <= n as real
  {
    if x >= 0.0 then x.Floor else -((-x).Floor)
  }

  /** The array length of `SLRUMap`: `(int) (capacity / loadFactor)`. */
  function DividedTableLength(capacity: int, loadFactor: real): int
    requires loadFactor > 0.0
  {
    Truncate(capacity as real / loadFactor)
  }

  /** The array length of `SLRUCache` as written: `(int) (capacity * loadFactor)`. */
  function MultipliedTableLength(capacity: int, loadFactor: real): int
  {
    Truncate(capacity as real * loadFactor)
  }

  /**
   * With any load factor below one, a cache of capacity one gets an array
   * of length zero, so every later `hashIndex` divides by zero.
   */
  lemma MultipliedTableLengthEmpty(loadFactor: real)
    requires 0.0 < loadFactor < 1.0
    ensures MultipliedTableLength(1, loadFactor) == 0
  {
  }

  /**
   * Dividing by a load factor of at most one gives at least one slot per
   * entry the capacity allows, so a positive capacity gets a usable array.
   */
  lemma DividedTableLengthCovers(capacity: int, loadFactor: real)
    requires capacity >= 1 && 0.0 < loadFactor <= 1.0
    ensures DividedTableLength(capacity, loadFactor) >= capacity >= 1
  {
    var q := capacity as real / loadFactor;
    assert q * loadFactor == capacity as real;
    assert q >= capacity as real;
  }

  /** A usable array can only come from a positive capacity. */
  lemma UsableTableNeedsCapacity(capacity: int, loadFactor: real)
    requires loadFactor > 0.0 && DividedTableLength(capacity, loadFactor) >= 1
    ensures capacity >= 1
  {
    var q := capacity as real / loadFactor;
    assert q >= 1.0;
    assert q * loadFactor == capacity as real;
    assert capacity as real >= loadFactor;
  }
}
