/**
 * The first-match search behind `Array.prototype.find` and MongoDB's
 * `findOne` over a collection kept in insertion order.
 */
module Search {
  import opened Wrappers

  /** The index of the first element satisfying `p`; `None` when there is none. */
  function FirstMatch<T>(xs: seq<T>, p: T -> bool): (r: Option<nat>)
    ensures r.Some? ==> r.value < |xs| && p(xs[r.value])
    ensures r.Some? ==> forall k :: 0 <= k < r.value ==> !p(xs[k])
    ensures r.None? ==> forall k :: 0 <= k < |xs| ==> !p(xs[k])
  {
    if xs == [] then None
    else if p(xs[0]) then Some(0)
    else match FirstMatch(xs[1..], p)
      case None => None
      case Some(k) => Some(k + 1)
  }
}
