/**
 * Option and Result values, and the exceptions the pipeline raises.
 * A Python `raise` becomes an `Err` carrying the exception class and its
 * `str(...)` message; the first error reached is the one returned.
 */
module Outcomes {

  datatype Option<+T> = None | Some(value: T) {
    /** Python's `x or default` on a value that is either None or present. */
    function GetOr(default: T): T {
      match this
      case Some(v) => v
      case None => default
    }
  }

  /** The exception classes raised by the modelled code, with their messages. */
  datatype Error =
    | ValueError(message: string)
    | IndexError(message: string)
    | NotImplementedError

  datatype Result<+T> = Ok(value: T) | Err(error: Error) {
    predicate IsFailure() {
      Err?
    }

    function PropagateFailure<U>(): Result<U>
      requires Err?
    {
      Err(error)
    }

    function Extract(): T
      requires Ok?
    {
      value
    }
  }

  /**
   * A list whose items are computed one by one, left to right, where any
   * item may raise: the first failing item's error is the outcome;
   * otherwise every value, in order.
   */
  function Collect<T>(rs: seq<Result<T>>): (r: Result<seq<T>>)
    ensures r.Ok? <==> forall i :: 0 <= i < |rs| ==> rs[i].Ok?
    ensures r.Ok? ==> |r.value| == |rs| && forall i :: 0 <= i < |rs| ==> r.value[i] == rs[i].value
    ensures r.Err? ==> exists j :: 0 <= j < |rs| && rs[j] == Err(r.error) && forall k :: 0 <= k < j ==> rs[k].Ok?
  {
    if rs == [] then Ok([])
    else if rs[0].Err? then Err(rs[0].error)
    else
      var rest := Collect(rs[1..]);
      if rest.Err? then
        var j :| 0 <= j < |rs[1..]| && rs[1..][j] == Err(rest.error) && forall k :: 0 <= k < j ==> rs[1..][k].Ok?;
        assert rs[j + 1] == Err(rest.error);
        assert forall k :: 0 <= k < j + 1 ==> rs[k].Ok? by {
          forall k | 0 <= k < j + 1
            ensures rs[k].Ok?
          {
            if k > 0 {
              assert rs[k] == rs[1..][k - 1];
            }
          }
        }
        Err(rest.error)
      else
        Ok([rs[0].value] + rest.value)
  }
}
