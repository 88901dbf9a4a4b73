/** Option and Result, for the lookups that may find nothing and the steps that may raise, and
    MapAll, a step applied to each element in turn where the first failure stops the run. */
module Wrappers {

  datatype Option<+T> = None | Some(value: T)

  datatype Result<+R, +E> = Success(value: R) | Failure(error: E)

  /** `f` applied to every element in order; the first failure is the result. */
  function MapAll<T, U, E>(xs: seq<T>, f: T -> Result<U, E>): Result<seq<U>, E> {
    if xs == [] then Success([])
    else
      match MapAll(xs[..|xs| - 1], f)
      case Failure(e) => Failure(e)
      case Success(done) =>
        match f(xs[|xs| - 1])
        case Failure(e) => Failure(e)
        case Success(y) => Success(done + [y])
  }

  lemma MapAllStep<T, U, E>(xs: seq<T>, f: T -> Result<U, E>, i: nat)
    requires i < |xs| && MapAll(xs[..i], f).Success?
    ensures MapAll(xs[..i + 1], f) ==
      match f(xs[i])
      case Failure(e) => Failure(e)
      case Success(y) => Success(MapAll(xs[..i], f).value + [y])
  {
    assert xs[..i + 1][..i] == xs[..i];
  }

  /** A failure on a prefix is the failure of the whole sequence. */
  lemma {:induction false} MapAllStopsAt<T, U, E>(xs: seq<T>, f: T -> Result<U, E>, n: nat)
    requires n <= |xs| && MapAll(xs[..n], f).Failure?
    ensures MapAll(xs, f) == MapAll(xs[..n], f)
    decreases |xs| - n
  {
    if n < |xs| {
      var m := |xs| - 1;
      assert xs[..m][..n] == xs[..n];
      MapAllStopsAt(xs[..m], f, n);
    } else {
      assert xs[..n] == xs;
    }
  }

  /** MapAll succeeds exactly when every step does, and then holds every step's value in order. */
  lemma {:induction false} MapAllSuccess<T, U, E>(xs: seq<T>, f: T -> Result<U, E>)
    ensures MapAll(xs, f).Success? <==> forall k :: 0 <= k < |xs| ==> f(xs[k]).Success?
    ensures MapAll(xs, f).Success? ==>
      |MapAll(xs, f).value| == |xs| && forall k :: 0 <= k < |xs| ==> MapAll(xs, f).value[k] == f(xs[k]).value
  {
    if xs != [] {
      var n := |xs| - 1;
      MapAllSuccess(xs[..n], f);
      assert forall k :: 0 <= k < n ==> xs[..n][k] == xs[k];
    }
  }

  /** On failure, the error is that of the first failing step. */
  lemma {:induction false} MapAllFailure<T, U, E>(xs: seq<T>, f: T -> Result<U, E>)
    requires MapAll(xs, f).Failure?
    ensures exists k ::
      && 0 <= k < |xs|
      && (forall j :: 0 <= j < k ==> f(xs[j]).Success?)
      && f(xs[k]).Failure?
      && MapAll(xs, f).error == f(xs[k]).error
  {
    var n := |xs| - 1;
    var front := xs[..n];
    assert forall k :: 0 <= k < n ==> front[k] == xs[k];
    if MapAll(front, f).Failure? {
      MapAllFailure(front, f);
      var k :| 0 <= k < |front| && (forall j :: 0 <= j < k ==> f(front[j]).Success?)
        && f(front[k]).Failure? && MapAll(front, f).error == f(front[k]).error;
      assert front[k] == xs[k];
    } else {
      MapAllSuccess(front, f);
    }
  }
}
