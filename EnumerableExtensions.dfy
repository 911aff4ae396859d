/** Helpers over sequences. */
module EnumerableExtensions {

  /** IsGreaterThanOne: advances an enumerator at most twice, so it answers whether the
      sequence has at least two elements without looking past the second. */
  function IsGreaterThanOne<T>(source: seq<T>): (r: bool)
    ensures r <==> |source| > 1
    ensures |source| > 2 ==> r == IsGreaterThanOne(source[..2])
  {
    if |source| == 0 then false   // first MoveNext fails
    else |source[1..]| > 0        // result of the second MoveNext
  }
}
