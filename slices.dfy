/** Python list slicing as used by the history reader. */
module Slices {

  function Min(a: int, b: int): int
  {
    if a <= b then a else b
  }

  /** Python's `xs[start:]`: a negative start counts from the end, and an
      out-of-range start is clamped to the list. */
  function From<T>(xs: seq<T>, start: int): (r: seq<T>)
    ensures |r| <= |xs|
    ensures r == xs[|xs| - |r|..]
    ensures start >= 0 ==> |r| == |xs| - Min(start, |xs|)
    ensures start < 0 ==> |r| == Min(-start, |xs|)
  {
    var s := if start < 0 then (if start + |xs| < 0 then 0 else start + |xs|)
             else (if start > |xs| then |xs| else start);
    xs[s..]
  }

  /** Python's `xs[-n:]`. For n >= 1 it is the last min(n, |xs|) elements,
      for n == 0 it is the whole list (because -0 == 0), and for a negative n
      it drops the first -n elements. */
  function LastN<T>(xs: seq<T>, n: int): (r: seq<T>)
    ensures n >= 1 ==> |r| == Min(n, |xs|) && r == xs[|xs| - Min(n, |xs|)..]
    ensures n == 0 ==> r == xs
    ensures n < 0 ==> r == xs[Min(-n, |xs|)..]
  {
    From(xs, -n)
  }
}
