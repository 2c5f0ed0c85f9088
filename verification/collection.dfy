/** Collection.swift: the optional second element of a collection, here a sequence. */
module Collections {

  import opened Wrappers

  /**
   * `second`: the element one position after the start when the distance
   * from there to the end is positive, and `nil` otherwise.
   */
  function Second<T>(xs: seq<T>): (r: Option<T>)
    ensures r.Some? <==> |xs| >= 2
    ensures r.Some? ==> r.value == xs[1]
  {
    var secondIndex := 1;
    if |xs| - secondIndex > 0 then Some(xs[secondIndex]) else None
  }
}
