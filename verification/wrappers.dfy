/** Option and Result: the values this model uses where the Java code returns null or
    an Optional, and where it throws. Both work with Dafny's `:-` operator. */
module Wrappers {

  /** Optional<T> (and a nullable reference): either absent or a present value. */
  datatype Option<+T> = None | Some(value: T) {

    predicate IsFailure() {
      None?
    }

    function PropagateFailure<U>(): Option<U>
      requires None?
    {
      None
    }

    function Extract(): T
      requires Some?
    {
      value
    }
  }

  /** The outcome of a call that either returns a value or throws an exception. */
  datatype Result<+T, +E> = Success(value: T) | Failure(error: E) {

    predicate IsFailure() {
      Failure?
    }

    function PropagateFailure<U>(): Result<U, E>
      requires Failure?
    {
      Failure(error)
    }

    function Extract(): T
      requires Success?
    {
      value
    }
  }

  /** Position `i` holds the first element on which `f` fails. */
  predicate FirstFailureAt<A, B, E>(f: A -> Result<B, E>, xs: seq<A>, i: int) {
    && 0 <= i < |xs|
    && f(xs[i]).Failure?
    && forall j :: 0 <= j < i ==> f(xs[j]).Success?
  }

  /** A loop (or a stream) that applies `f` to each element in order and stops at the
      first exception: every result, or the first failure. */
  function MapAll<A, B, E>(f: A -> Result<B, E>, xs: seq<A>): (r: Result<seq<B>, E>)
    ensures r.Success? <==> forall i :: 0 <= i < |xs| ==> f(xs[i]).Success?
    ensures r.Success? ==> && |r.value| == |xs|
                           && forall i :: 0 <= i < |xs| ==> r.value[i] == f(xs[i]).value
    ensures r.Failure? ==> exists i :: FirstFailureAt(f, xs, i) && r.error == f(xs[i]).error
  {
    if |xs| == 0 then Success([])
    else if f(xs[0]).Failure? then
      assert FirstFailureAt(f, xs, 0);
      Failure(f(xs[0]).error)
    else
      var rest := MapAll(f, xs[1..]);
      assert forall i :: 1 <= i < |xs| ==> xs[i] == xs[1..][i - 1];
      if rest.Failure? then
        assert exists i :: FirstFailureAt(f, xs, i) && rest.error == f(xs[i]).error by {
          var i :| FirstFailureAt(f, xs[1..], i) && rest.error == f(xs[1..][i]).error;
          assert FirstFailureAt(f, xs, i + 1);
        }
        Failure(rest.error)
      else
        Success([f(xs[0]).value] + rest.value)
  }
}
