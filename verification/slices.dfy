/** PHP's `array_slice($list, 0, $length)` on a list, as findBestSplit uses it. */
module Slices {

  function Min(a: int, b: int): int
  {
    if a <= b then a else b
  }

  /**
   * The first elements of `s` selected by a length argument, following PHP:
   * a non-negative length keeps at most that many elements from the front,
   * a negative length stops that many elements before the end.
   */
  function Take<T>(s: seq<T>, length: int): (r: seq<T>)
    ensures r <= s
    ensures length >= 0 ==> |r| == Min(length, |s|)
    ensures length < 0 ==> |s| - |r| == Min(-length, |s|)
  {
    if length >= 0 then
      if length <= |s| then s[..length] else s
    else
      if -length <= |s| then s[..|s| + length] else []
  }
}
