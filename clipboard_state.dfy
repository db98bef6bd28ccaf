/**
 * The shared cycle index: one process-wide integer that says which history
 * entry the last paste-next (or paste-previous) picked.  `-1` means "unset",
 * so that the first increment picks entry 0.
 */
module ClipboardState {

  function Abs(x: int): nat {
    if x < 0 then -x else x
  }

  /** The quotient of `a` by `|b|`, truncated toward zero. */
  function TruncatedQuotient(a: int, b: int): int
    requires b != 0
  {
    if a >= 0 then a / Abs(b) else -((-a) / Abs(b))
  }

  /**
   * JavaScript's `%` on integral numbers: the remainder of division truncated
   * toward zero, so it takes the sign of the dividend (Dafny's own `%` is
   * Euclidean and never negative).
   */
  function JsRem(a: int, b: int): (r: int)
    requires b != 0
    ensures a >= 0 ==> 0 <= r < Abs(b)
    ensures a < 0 ==> 0 <= -r < Abs(b)
    ensures a == Abs(b) * TruncatedQuotient(a, b) + r
  {
    if a >= 0 then a % Abs(b) else -((-a) % Abs(b))
  }

  /** Below twice a positive divisor, the remainder is the dividend, less the divisor once it is reached. */
  lemma JsRemSmall(a: int, m: int)
    requires m != 0
    ensures m > 0 && 0 <= a < m ==> JsRem(a, m) == a
    ensures m > 0 && m <= a < 2 * m ==> JsRem(a, m) == a - m
  {
    if m > 0 && 0 <= a < 2 * m {
      assert JsRem(a, m) == a % m;
      EuclideanRemSmall(a, m);
    }
  }

  lemma EuclideanRemSmall(a: int, m: int)
    requires m > 0 && 0 <= a < 2 * m
    ensures a < m ==> a % m == a
    ensures m <= a ==> a % m == a - m
  {
  }

  /** The sentinel `resetClipboardIndex` stores. */
  const Unset: int := -1

  /** What `incrementClipboardIndex(max)` stores and returns, from index `i`. */
  function Incremented(i: int, max: int): (r: int)
    requires max != 0
    ensures max > 0 && i >= -1 ==> 0 <= r < max
    ensures max > 0 && -1 <= i < max - 1 ==> r == i + 1
    ensures max > 0 && i == max - 1 ==> r == 0
  {
    JsRemSmall(i + 1, max);
    JsRem(i + 1, max)
  }

  /** What `decrementClipboardIndex(max)` stores and returns, from index `i`. */
  function Decremented(i: int, max: int): (r: int)
    requires max != 0
    ensures max > 0 && 1 - max <= i ==> 0 <= r < max
    ensures max > 0 && 0 < i <= max ==> r == i - 1
    ensures max > 0 && i == 0 ==> r == max - 1
  {
    JsRemSmall(i - 1 + max, max);
    JsRem(i - 1 + max, max)
  }

  /**
   * The indices returned by `n` successive `incrementClipboardIndex(max)`
   * calls that start from index `i`.
   */
  function IncrementRun(i: int, max: int, n: nat): (run: seq<int>)
    requires max != 0
    ensures |run| == n
    decreases n
  {
    if n == 0 then [] else
      var j := Incremented(i, max);
      [j] + IncrementRun(j, max, n - 1)
  }

  /** The module-level `currentClipboardIndex` and the functions that read and write it. */
  class CycleIndex {
    var current: int

    constructor ()
      ensures current == Unset
    {
      current := Unset;
    }

    method Reset()
      modifies this
      ensures current == Unset
    {
      current := Unset;
    }

    method Get() returns (r: int)
      ensures r == current
    {
      r := current;
    }

    method Set(x: int)
      modifies this
      ensures current == x
    {
      current := x;
    }

    method Increment(max: int) returns (r: int)
      requires max != 0
      modifies this
      ensures current == Incremented(old(current), max)
      ensures r == current
    {
      current := JsRem(current + 1, max);
      r := current;
    }

    method Decrement(max: int) returns (r: int)
      requires max != 0
      modifies this
      ensures current == Decremented(old(current), max)
      ensures r == current
    {
      current := JsRem(current - 1 + max, max);
      r := current;
    }
  }

  /** After a reset, a decrement lands on `max - 2`, not on the last entry `max - 1`. */
  lemma DecrementFromUnset(max: int)
    requires max > 0
    ensures max >= 2 ==> Decremented(Unset, max) == max - 2
    ensures max == 1 ==> Decremented(Unset, max) == 0
  {
  }

  /** Within range, a decrement undoes an increment and an increment undoes a decrement. */
  lemma IncrementDecrementInverse(i: int, max: int)
    requires 0 <= i < max
    ensures Decremented(Incremented(i, max), max) == i
    ensures Incremented(Decremented(i, max), max) == i
  {
  }

  /** Every index reachable through reset, increment and decrement stays at `-1` or above. */
  lemma ReachableIndexNotBelowUnset(i: int, max: int)
    requires max > 0 && i >= Unset
    ensures Incremented(i, max) >= Unset && Decremented(i, max) >= Unset
  {
  }

  /** From index `k - 1`, the next `max - k` increments return `k, k + 1, ..., max - 1`. */
  lemma {:induction false} IncrementRunCounts(k: int, max: int)
    requires 0 <= k <= max && max > 0
    ensures IncrementRun(k - 1, max, max - k) == seq(max - k, j => k + j)
    decreases max - k
  {
    if k < max {
      IncrementRunCounts(k + 1, max);
    }
  }

  /**
   * Starting from the reset value, `max` increments return `0, 1, ..., max - 1`
   * and the next one wraps around to `0`.
   */
  lemma {:induction false} IncrementWrapsAround(max: int)
    requires max > 0
    ensures IncrementRun(Unset, max, max + 1) == seq(max, j => j) + [0]
  {
    var run := IncrementRun(Unset, max, max + 1);
    IncrementRunTail(Unset, max, max);
    IncrementRunCounts(0, max);
    assert run[..max] == seq(max, j => j);
    assert IncrementRun(Unset, max, max)[max - 1] == max - 1;
  }

  /** One more increment appends the next index to the run. */
  lemma {:induction false} IncrementRunTail(i: int, max: int, n: nat)
    requires max != 0
    ensures n > 0 ==> IncrementRun(i, max, n + 1) == IncrementRun(i, max, n) + [Incremented(IncrementRun(i, max, n)[n - 1], max)]
    ensures n == 0 ==> IncrementRun(i, max, 1) == [Incremented(i, max)]
    decreases n
  {
    if n > 0 {
      IncrementRunTail(Incremented(i, max), max, n - 1);
    }
  }
}
