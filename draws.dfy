/**
 * The random numbers the shufflers draw with `randint`, supplied as inputs.
 * Nothing here says anything about their distribution; it only fixes how
 * many draws one call of a shuffle consumes and the inclusive range each must lie in.
 */
module Draws {

  /** Number of iterations of `for i in range(n - 1, 0, -1)`. */
  function Steps(n: int): nat {
    if n > 1 then n - 1 else 0
  }

  /**
   * The first `|d|` draws of a descending Fisher–Yates loop over `n` items:
   * draw `k` is made when `i == n - 1 - k` and lies in `[0, i]`.
   */
  predicate DescendingPrefix(n: int, d: seq<int>) {
    |d| <= Steps(n) && forall k :: 0 <= k < |d| ==> 0 <= d[k] <= n - 1 - k
  }

  /** All draws of one complete descending loop over `n` items. */
  predicate Descending(n: int, d: seq<int>) {
    |d| == Steps(n) && DescendingPrefix(n, d)
  }

  /**
   * Draws of an ascending loop `for i in range(1, n)`: draw `k` is made
   * when `i == k + 1` and lies in `[0, i]`.
   */
  predicate Ascending(n: int, d: seq<int>) {
    |d| == Steps(n) && forall k :: 0 <= k < |d| ==> 0 <= d[k] <= k + 1
  }

  /** `count` draws of `randint(0, n - 1)`. */
  predicate Slots(n: int, count: int, d: seq<int>) {
    |d| == count && forall k :: 0 <= k < |d| ==> 0 <= d[k] < n
  }
}
