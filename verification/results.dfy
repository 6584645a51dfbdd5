/** Failure-compatible wrappers used by every parser in the model. */
module Results {

  datatype Option<T> = None | Some(value: T)

  /** The outcome of an operation that can raise: a value, or the error it raised. */
  datatype Result<T, E> = Ok(value: T) | Err(error: E) {

    predicate IsFailure() {
      Err?
    }

    function PropagateFailure<U>(): Result<U, E>
      requires Err?
    {
      Err(error)
    }

    function Extract(): T
      requires Ok?
    {
      value
    }
  }

  /** Runs through the outcomes in order: all the values, or the first error. */
  function AllOk<T, E>(rs: seq<Result<T, E>>): (r: Result<seq<T>, E>)
    ensures r.Ok? ==> |r.value| == |rs| && forall i :: 0 <= i < |rs| ==> rs[i] == Ok(r.value[i])
  {
    if |rs| == 0 then Ok([])
    else if rs[0].Err? then Err(rs[0].error)
    else
      var rest := AllOk(rs[1..]);
      if rest.Err? then rest
      else
        assert forall i :: 1 <= i < |rs| ==> rs[i] == rs[1..][i - 1];
        Ok([rs[0].value] + rest.value)
  }

  /** `AllOk` succeeds exactly when every outcome is a value; otherwise it reports the first error. */
  lemma {:induction false} AllOkSpec<T, E>(rs: seq<Result<T, E>>)
    ensures AllOk(rs).Ok? <==> forall i :: 0 <= i < |rs| ==> rs[i].Ok?
    ensures AllOk(rs).Err? ==>
      exists i :: (0 <= i < |rs| && rs[i] == Err(AllOk(rs).error) && forall j :: 0 <= j < i ==> rs[j].Ok?)
  {
    if |rs| > 0 {
      var tail := rs[1..];
      AllOkSpec(tail);
      assert forall i :: 1 <= i < |rs| ==> rs[i] == tail[i - 1];
      if rs[0].Ok? && AllOk(tail).Err? {
        var i :| 0 <= i < |tail| && tail[i] == Err(AllOk(tail).error) && forall j :: 0 <= j < i ==> tail[j].Ok?;
        assert rs[i + 1] == Err(AllOk(rs).error);
        forall j | 0 <= j < i + 1 ensures rs[j].Ok? {
          if j > 0 { assert rs[j] == tail[j - 1]; }
        }
      }
    }
  }
}
