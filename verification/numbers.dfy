/** Integer helpers standing in for `Math.min`, `Math.max`, `Math.abs` and `Math.ceil(x / 1000)`. */
module Numbers {

  function Min(a: int, b: int): (r: int)
    ensures r <= a && r <= b
    ensures r == a || r == b
  {
    if a <= b then a else b
  }

  function Max(a: int, b: int): (r: int)
    ensures r >= a && r >= b
    ensures r == a || r == b
  {
    if a >= b then a else b
  }

  function Abs(a: int): (r: nat)
    ensures r == a || r == -a
  {
    if a < 0 then -a else a
  }

  /** `Math.max(lo, Math.min(hi, x))`: the slider clamp. When `lo > hi` the lower bound wins. */
  function Clamp(lo: int, hi: int, x: int): (r: int)
    ensures lo <= hi ==> lo <= r <= hi
    ensures lo <= r
    ensures lo <= x <= hi ==> r == x
    ensures x < lo ==> r == lo
    ensures lo <= hi < x ==> r == hi
  {
    Max(lo, Min(hi, x))
  }

  /** `Math.ceil(ms / 1000)` on an integer number of milliseconds. */
  function CeilSeconds(ms: int): (r: int)
    ensures 1000 * (r - 1) < ms <= 1000 * r
  {
    (ms + 999) / 1000
  }

  /** Rounding up is monotone. */
  lemma CeilSecondsMonotone(a: int, b: int)
    requires a <= b
    ensures CeilSeconds(a) <= CeilSeconds(b)
  {
  }
}
