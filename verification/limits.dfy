/**
 * The index-clamping helper `limited(within:)` that the array and matrix
 * extensions call.  Given a half-open range `lo ..< hi` it saturates into
 * `lo ... hi - 1`; given a closed range `lo ... hi` it saturates into
 * `lo ... hi`.  The helper is undefined on an empty half-open range.
 */
module Limits {

  /** `n.limited(within: lo ..< hi)` */
  function LimitedHalfOpen(n: int, lo: int, hi: int): (r: int)
    requires lo < hi
    ensures lo <= r < hi
    ensures lo <= n < hi ==> r == n
    ensures n < lo ==> r == lo
    ensures hi <= n ==> r == hi - 1
  {
    if n < lo then lo else if n >= hi then hi - 1 else n
  }

  /** `n.limited(within: lo ... hi)` */
  function LimitedClosed(n: int, lo: int, hi: int): (r: int)
    requires lo <= hi
    ensures lo <= r <= hi
    ensures lo <= n <= hi ==> r == n
    ensures n < lo ==> r == lo
    ensures hi < n ==> r == hi
  {
    if n < lo then lo else if n > hi then hi else n
  }
}
