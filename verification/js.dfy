/** The JavaScript operators and array methods the client code relies on,
    with their treatment of negative operands and positions. */
module Js {
  /** JavaScript's `%`: the remainder takes the sign of the dividend. */
  function Rem(a: int, n: int): (r: int)
    requires n > 0
    ensures -n < r < n
    ensures a >= 0 ==> 0 <= r
    ensures a < 0 ==> r <= 0
  {
    if a >= 0 then a % n else -((-a) % n)
  }

  /** A position argument of `slice` and `splice`: a negative position
      counts from the end, and positions are clamped to the array. */
  function Index(k: int, len: nat): (i: nat)
    ensures i <= len
  {
    if k < 0 then (if len + k < 0 then 0 else len + k) else if k > len then len else k
  }

  /** `Array.prototype.slice(start, end)`. */
  function Slice<T>(s: seq<T>, start: int, end: int): (r: seq<T>)
    ensures |r| <= |s|
    ensures 0 <= start <= end <= |s| ==> r == s[start..end]
  {
    var a := Index(start, |s|);
    var b := Index(end, |s|);
    if b <= a then [] else s[a..b]
  }
}
