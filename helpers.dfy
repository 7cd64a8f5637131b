/** Small integer helpers shared by the animations. */
module Helpers {

  function Max(a: int, b: int): int { if a < b then b else a }

  function Min(a: int, b: int): int { if a < b then a else b }

  /** Length of Python's `range(n)`: zero when `n` is negative. */
  function Nat(n: int): (r: nat)
    ensures n >= 0 ==> r == n
    ensures n < 0 ==> r == 0
  {
    if n < 0 then 0 else n
  }

  /** `clamp(v, lo, hi)` is `max(lo, min(hi, v))`: the point of `[lo, hi]`
      nearest to `v`, and `lo` itself when the interval is empty. */
  function Clamp(v: int, lo: int, hi: int): (r: int)
    ensures lo <= r
    ensures lo <= hi ==> r <= hi
    ensures lo <= v <= hi ==> r == v
    ensures v < lo ==> r == lo
    ensures lo <= hi < v ==> r == hi
    ensures hi < lo ==> r == lo
  {
    Max(lo, Min(hi, v))
  }
}
