/** Option and Result values used across the model for JavaScript's
    `undefined` and for the error paths of request handlers. */
module Wrappers {

  datatype Option<+T> = None | Some(value: T) {
    function GetOr(default: T): T {
      match this
      case Some(v) => v
      case None => default
    }
  }

  datatype Result<+R, +E> = Success(value: R) | Failure(error: E) {
    function ToOption(): Option<R> {
      match this
      case Success(v) => Some(v)
      case Failure(_) => None
    }
  }

  /** Apply `f` to every element in order, stopping at the first failure
      (a `forEach` whose callback may throw). */
  function MapResults<A, B, E>(f: A -> Result<B, E>, xs: seq<A>): (r: Result<seq<B>, E>)
    ensures r.Success? ==> |r.value| == |xs| && forall j :: 0 <= j < |xs| ==> f(xs[j]) == Success(r.value[j])
    ensures r.Failure? ==> exists j :: 0 <= j < |xs| && f(xs[j]) == Failure(r.error)
  {
    if xs == [] then Success([])
    else
      match f(xs[0])
      case Failure(err) => Failure(err)
      case Success(y) =>
        match MapResults(f, xs[1..])
        case Failure(err) =>
          ghost var j :| 0 <= j < |xs[1..]| && f(xs[1..][j]) == Failure(err);
          assert f(xs[j + 1]) == Failure(err);
          Failure(err)
        case Success(ys) =>
          assert forall j :: 1 <= j < |xs| ==> xs[j] == xs[1..][j - 1];
          Success([y] + ys)
  }
}
