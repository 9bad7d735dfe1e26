/** The growth rule of every dynamic array (GROW_CAPACITY in memory.h). */
module Memory {
  /** The capacity a full array is grown to: 8 when it held fewer than 8 slots, twice as many otherwise. */
  function GrowCapacity(capacity: nat): nat {
    if capacity < 8 then 8 else capacity * 2
  }

  /** Growth always makes room and never yields fewer than 8 slots. */
  lemma GrowCapacityBounds(c: nat)
    ensures GrowCapacity(c) > c && GrowCapacity(c) >= 8
    ensures c < 8 ==> GrowCapacity(c) == 8
    ensures c >= 8 ==> GrowCapacity(c) == 2 * c
  {
  }

  function Pow2(n: nat): (r: nat)
    ensures r >= 1
  {
    if n == 0 then 1 else 2 * Pow2(n - 1)
  }

  /** The capacity of an array that started empty and has grown `n` times. */
  function GrowthFromEmpty(n: nat): nat {
    if n == 0 then 0 else GrowCapacity(GrowthFromEmpty(n - 1))
  }

  /** Repeated growth from 0 yields 8, 16, 32, ... */
  lemma {:induction false} GrowthFromEmptyDoubles(n: nat)
    requires n >= 1
    ensures GrowthFromEmpty(n) == 8 * Pow2(n - 1)
  {
    if n > 1 {
      GrowthFromEmptyDoubles(n - 1);
    }
  }
}
