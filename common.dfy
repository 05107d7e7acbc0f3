/**
 * Small building blocks shared by the reader model: an optional value and
 * the two Kotlin clamping helpers the panel uses on document offsets.
 */
module Common {

  /** A value that may be absent (Kotlin's nullable `T?`). */
  datatype Option<T> = None | Some(value: T)

  /**
   * Kotlin's `x.coerceIn(lo, hi)`: the point of `[lo, hi]` nearest to `x`.
   */
  function CoerceIn(x: int, lo: int, hi: int): (r: int)
    requires lo <= hi
    ensures lo <= r <= hi
    ensures lo <= x <= hi ==> r == x
    ensures x < lo ==> r == lo
    ensures hi < x ==> r == hi
  {
    if x < lo then lo else if hi < x then hi else x
  }

  /** Kotlin's `x.coerceAtLeast(lo)`: the larger of `x` and `lo`. */
  function CoerceAtLeast(x: int, lo: int): (r: int)
    ensures lo <= r && x <= r
    ensures r == x || r == lo
  {
    if x < lo then lo else x
  }
}
