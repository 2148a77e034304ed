/** Option and Result, the two failure-carrying values the model uses. */
module Wrappers {

  datatype Option<+T> = None | Some(value: T)

  datatype Result<+R, +E> = Success(value: R) | Failure(error: E)

  /**
    Applies `f` to every element in order and collects the results; the
    first failure, if any, is the result.
  */
  function MapAll<A, B, E>(f: A -> Result<B, E>, xs: seq<A>): (r: Result<seq<B>, E>)
    ensures r.Success? <==> forall i :: 0 <= i < |xs| ==> f(xs[i]).Success?
    ensures r.Success? ==> |r.value| == |xs|
    ensures r.Success? ==> forall i :: 0 <= i < |xs| ==> f(xs[i]) == Success(r.value[i])
    ensures r.Failure? ==> exists i :: 0 <= i < |xs| && f(xs[i]) == Failure(r.error)
                                        && forall k :: 0 <= k < i ==> f(xs[k]).Success?
  {
    if xs == [] then Success([])
    else
      var head := f(xs[0]);
      var tail := MapAll(f, xs[1..]);
      assert forall i :: 1 <= i < |xs| ==> xs[i] == xs[1..][i - 1];
      if head.Failure? then Failure(head.error)
      else if tail.Failure? then
        assert exists i :: 0 <= i < |xs| && f(xs[i]) == Failure(tail.error) by {
          var k :| 0 <= k < |xs[1..]| && f(xs[1..][k]) == Failure(tail.error)
                   && forall j :: 0 <= j < k ==> f(xs[1..][j]).Success?;
          assert f(xs[k + 1]) == Failure(tail.error);
          assert forall j :: 0 <= j < k + 1 ==> f(xs[j]).Success?;
        }
        Failure(tail.error)
      else
        var r := [head.value] + tail.value;
        assert forall i :: 1 <= i < |xs| ==> r[i] == tail.value[i - 1];
        Success(r)
  }
}
