/** Optional values, standing for a computation that either produces a value or raises. */
module Wrappers {

  datatype Option<+T> = None | Some(value: T)

  /** Applies `f` to every element and succeeds only when every application succeeds,
      as a list comprehension does when one of its calls raises. */
  function Traverse<A, B>(xs: seq<A>, f: A -> Option<B>): (r: Option<seq<B>>)
    ensures r.Some? <==> forall i :: 0 <= i < |xs| ==> f(xs[i]).Some?
    ensures r.Some? ==> |r.value| == |xs|
    ensures r.Some? ==> forall i :: 0 <= i < |xs| ==> f(xs[i]) == Some(r.value[i])
  {
    if |xs| == 0 then Some([])
    else
      match f(xs[0])
      case None => None
      case Some(y) =>
        match Traverse(xs[1..], f)
        case None => None
        case Some(ys) => Some([y] + ys)
  }
}
