/** Failure-compatible wrappers used throughout the model, and the in-order
    traversal that stops at the first failure, which is how a Python `for`
    loop behaves when one of its iterations raises. */
module Results {

  /** A value that may be absent, such as a key missing from a JSON object. */
  datatype Option<+T> = None | Some(value: T) {

    /** The wrapped value, or `default` when absent (Python's `dict.get(key, default)`). */
    function GetOr(default: T): T {
      match this
      case Some(v) => v
      case None => default
    }
  }

  /** Either a value or the error that stopped the computation. */
  datatype Result<+T, +E> = Success(value: T) | Failure(error: E) {

    predicate IsFailure() {
      Failure?
    }

    function PropagateFailure<U>(): Result<U, E>
      requires Failure?
    {
      Failure(error)
    }

    function Extract(): T
      requires Success?
    {
      value
    }
  }

  /** Applies `f` to every element of `xs` in order. The result fails exactly
      when some application fails, and then with the error of the FIRST
      failing element; otherwise it holds every result, position by position. */
  function MapAll<A, B(==), E(==)>(xs: seq<A>, f: A -> Result<B, E>): (r: Result<seq<B>, E>)
    ensures r.Success? <==> forall i :: 0 <= i < |xs| ==> f(xs[i]).Success?
    ensures r.Success? ==>
              && |r.value| == |xs|
              && forall i :: 0 <= i < |xs| ==> f(xs[i]) == Success(r.value[i])
    ensures r.Failure? ==>
              exists i :: && 0 <= i < |xs|
                          && f(xs[i]) == Failure(r.error)
                          && forall j :: 0 <= j < i ==> f(xs[j]).Success?
  {
    if |xs| == 0 then Success([])
    else
      match f(xs[0])
      case Failure(e) => Failure(e)
      case Success(y) =>
        var rest := MapAll(xs[1..], f);
        if rest.Failure? then
          assert exists i :: && 0 <= i < |xs[1..]|
                             && f(xs[1..][i]) == Failure(rest.error)
                             && forall j :: 0 <= j < i ==> f(xs[1..][j]).Success?;
          var i :| && 0 <= i < |xs[1..]|
                   && f(xs[1..][i]) == Failure(rest.error)
                   && forall j :: 0 <= j < i ==> f(xs[1..][j]).Success?;
          assert forall j :: 0 <= j < i + 1 ==> f(xs[j]).Success? by {
            forall j | 0 <= j < i + 1 ensures f(xs[j]).Success? {
              if j > 0 { assert xs[j] == xs[1..][j - 1]; }
            }
          }
          Failure(rest.error)
        else
          assert forall i :: 1 <= i < |xs| ==> xs[i] == xs[1..][i - 1];
          Success([y] + rest.value)
  }
}
