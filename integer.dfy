/*
 * next_even and next_odd. Integers are unbounded. Swift's `%` truncates, so
 * `n % 2` is -1 for a negative odd `n`, where Dafny's gives 1; the test
 * `n % 2 == 0` is the same under both.
 */
module Integers {

  /** `next_even(n)`: the least even number above `n`. */
  function NextEven(n: int): (r: int)
    ensures r % 2 == 0 && n < r <= n + 2
    ensures r == n + 2 ==> n % 2 == 0
  {
    if n % 2 == 0 then n + 2 else n + 1
  }

  /** `next_odd(n)`: the least odd number above `n`. */
  function NextOdd(n: int): (r: int)
    ensures r % 2 == 1 && n < r <= n + 2
    ensures r == n + 2 ==> n % 2 == 1
  {
    if n % 2 == 0 then n + 1 else n + 2
  }
}
