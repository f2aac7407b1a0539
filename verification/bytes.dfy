/** Octets, and helpers on sequences of them. */
module Bytes {

  /** One octet of a byte string, as a JavaScript `Buffer` holds it. */
  type byte = x: int | 0 <= x < 256

  /** The first `n` elements of `s`, or all of `s` when it is shorter. */
  function Take<T>(s: seq<T>, n: nat): (r: seq<T>)
    ensures |r| == if |s| < n then |s| else n
    ensures r <= s
  {
    if |s| <= n then s else s[..n]
  }
}
