/** Option and Result, used for the nullable values and the exceptions of the library. */
module Wrappers {

  /** A C# nullable value: `None` is `null`. */
  datatype Option<+T> = None | Some(value: T)

  /** The outcome of a call that may throw: `Failure` carries the exception. */
  datatype Result<+T, +E> = Success(value: T) | Failure(error: E) {

    predicate IsFailure() {
      Failure?
    }

    function PropagateFailure<U>(): Result<U, E>
      requires Failure?
    {
      Failure(error)
    }

    function Extract(): T
      requires Success?
    {
      value
    }
  }

  /**
   * `f` applied to every element, enumerated in order: all the results, or the failure
   * of the first element that fails.
   */
  function MapResult<A, B, E>(xs: seq<A>, f: A -> Result<B, E>): (r: Result<seq<B>, E>)
    ensures r.Success? <==> forall k :: 0 <= k < |xs| ==> f(xs[k]).Success?
    ensures r.Success? ==> |r.value| == |xs| && forall k :: 0 <= k < |xs| ==> r.value[k] == f(xs[k]).value
    ensures r.Failure? ==> exists k :: 0 <= k < |xs| && f(xs[k]) == Failure(r.error)
                                       && forall m :: 0 <= m < k ==> f(xs[m]).Success?
    decreases |xs|
  {
    if xs == [] then Success([])
    else
      match f(xs[0])
      case Failure(e) => Failure(e)
      case Success(first) =>
        var rest := MapResult(xs[1..], f);
        assert forall k :: 1 <= k < |xs| ==> xs[k] == xs[1..][k - 1];
        if rest.Failure? then
          ghost var k :| 0 <= k < |xs| - 1 && f(xs[1..][k]) == Failure(rest.error)
                         && forall m :: 0 <= m < k ==> f(xs[1..][m]).Success?;
          assert f(xs[k + 1]) == Failure(rest.error);
          Failure(rest.error)
        else
          Success([first] + rest.value)
  }
}
