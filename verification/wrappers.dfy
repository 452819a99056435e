/** Failure-carrying return types: the model's stand-in for the exceptions the
    signer throws and for library calls that may fail. */
module Wrappers {

  datatype Option<+T> = None | Some(value: T)

  /** Either a value or the error that stopped the computation.
      Usable with `:-`, so the first failure propagates as a `throw` would. */
  datatype Result<+T, +E> = Success(value: T) | Failure(error: E) {

    predicate IsFailure() {
      Failure?
    }

    function PropagateFailure<U>(): Result<U, E>
      requires Failure?
    {
      Failure(error)
    }

    function Extract(): T
      requires Success?
    {
      value
    }
  }

  /** Runs a sequence of fallible steps in order: all the values when every
      step succeeds, otherwise the error of the first step that fails. */
  function Collect<T, E>(rs: seq<Result<T, E>>): (r: Result<seq<T>, E>)
    ensures r.Success? <==> forall i :: 0 <= i < |rs| ==> rs[i].Success?
    ensures r.Success? ==> |r.value| == |rs| && forall i :: 0 <= i < |rs| ==> rs[i] == Success(r.value[i])
    ensures r.Failure? ==>
              exists i :: 0 <= i < |rs| && rs[i] == Failure(r.error) && forall j :: 0 <= j < i ==> rs[j].Success?
  {
    if rs == [] then Success([])
    else if rs[0].Failure? then Failure(rs[0].error)
    else
      var tail := Collect(rs[1..]);
      assert forall i :: 1 <= i < |rs| ==> rs[i] == rs[1..][i - 1];
      if tail.Failure? then Failure(tail.error)
      else Success([rs[0].value] + tail.value)
  }

  /** The error `Collect` reports is that of the first failing step. */
  lemma CollectFirstFailure<T, E>(rs: seq<Result<T, E>>, i: nat)
    requires i < |rs| && rs[i].Failure?
    requires forall j :: 0 <= j < i ==> rs[j].Success?
    ensures Collect(rs) == Failure(rs[i].error)
  {
    var k :| 0 <= k < |rs| && rs[k] == Failure(Collect(rs).error) && forall j :: 0 <= j < k ==> rs[j].Success?;
    assert k == i;
  }
}
