/** The outcome of an operation that Python would end with an exception. */
module Wrappers {
  datatype Option<+T> = None | Some(value: T)

  datatype Result<+T, +E> = Ok(value: T) | Err(error: E)

  /** The values of a run of steps in order, or the error of the first step that failed. */
  function FirstError<T, E>(rs: seq<Result<T, E>>): (r: Result<seq<T>, E>)
    ensures r.Ok? ==> |r.value| == |rs|
  {
    if rs == [] then Ok([])
    else if rs[0].Err? then Err(rs[0].error)
    else
      var rest := FirstError(rs[1..]);
      if rest.Err? then Err(rest.error) else Ok([rs[0].value] + rest.value)
  }

  /**
   * The run fails exactly when some step fails, with the error of the first
   * failing step; otherwise each value is the value of its step.
   */
  lemma FirstErrorSpec<T, E>(rs: seq<Result<T, E>>)
    ensures FirstError(rs).Ok? ==> forall i :: 0 <= i < |rs| ==> rs[i] == Ok(FirstError(rs).value[i])
    ensures FirstError(rs).Err? ==>
      exists i :: 0 <= i < |rs| && rs[i] == Err(FirstError(rs).error) && forall j :: 0 <= j < i ==> rs[j].Ok?
  {
    if FirstError(rs).Ok? {
      forall i | 0 <= i < |rs| ensures rs[i] == Ok(FirstError(rs).value[i]) {
        FirstErrorAt(rs, i);
      }
    } else {
      var i := FirstFailure(rs);
    }
  }

  lemma {:induction false} FirstErrorAt<T, E>(rs: seq<Result<T, E>>, i: nat)
    requires FirstError(rs).Ok? && i < |rs|
    ensures rs[i] == Ok(FirstError(rs).value[i])
  {
    if i > 0 {
      FirstErrorAt(rs[1..], i - 1);
    }
  }

  lemma {:induction false} FirstFailure<T, E>(rs: seq<Result<T, E>>) returns (i: nat)
    requires FirstError(rs).Err?
    ensures i < |rs| && rs[i] == Err(FirstError(rs).error) && forall j :: 0 <= j < i ==> rs[j].Ok?
  {
    if rs[0].Err? {
      i := 0;
    } else {
      var k := FirstFailure(rs[1..]);
      i := k + 1;
      forall j | 0 < j < i ensures rs[j].Ok? {
        assert rs[j] == rs[1..][j - 1];
      }
    }
  }
}
