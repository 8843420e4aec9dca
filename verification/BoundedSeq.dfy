/** What the ring queue holds, as a sequence. */
module BoundedSeq {

  /** Appending to a sequence of at most n elements: the newest n of them all stay, in order. */
  function Push<T>(s: seq<T>, x: T, n: nat): (r: seq<T>)
    requires |s| <= n
    ensures |r| == if |s| + 1 <= n then |s| + 1 else n
    ensures r == (s + [x])[|s| + 1 - |r|..]
  {
    if |s| < n then s + [x] else (s + [x])[1..]
  }
}
