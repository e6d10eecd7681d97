/** Option and Result: the failure-carrying values that stand for Python's `None` and raised exceptions. */
module Wrappers {

  datatype Option<+T> = None | Some(value: T)

  datatype Result<+T, +E> = Ok(value: T) | Err(error: E) {

    predicate IsFailure() {
      Err?
    }

    function PropagateFailure<U>(): Result<U, E>
      requires Err?
    {
      Err(error)
    }

    function Extract(): T
      requires Ok?
    {
      value
    }
  }

  /** The values of a sequence of results, or the first error among them. */
  function AllOk<T, E>(rs: seq<Result<T, E>>): (r: Result<seq<T>, E>)
    ensures r.Ok? <==> forall k :: 0 <= k < |rs| ==> rs[k].Ok?
    ensures r.Ok? ==> |r.value| == |rs| && forall k :: 0 <= k < |rs| ==> rs[k] == Ok(r.value[k])
    decreases |rs|
  {
    if rs == [] then Ok([])
    else
      var last := |rs| - 1;
      match AllOk(rs[..last])
      case Err(e) => Err(e)
      case Ok(vs) =>
        match rs[last]
        case Err(e) => Err(e)
        case Ok(v) => Ok(vs + [v])
  }

  /** A failed `AllOk` reports the error of the first failing entry. */
  lemma {:induction false} AllOkFirstError<T, E>(rs: seq<Result<T, E>>) returns (k: nat)
    requires AllOk(rs).Err?
    ensures k < |rs| && rs[k] == Err(AllOk(rs).error)
    ensures forall j :: 0 <= j < k ==> rs[j].Ok?
    decreases |rs|
  {
    var last := |rs| - 1;
    if AllOk(rs[..last]).Err? {
      k := AllOkFirstError(rs[..last]);
      assert rs[..last][k] == rs[k];
      assert forall j :: 0 <= j < k ==> rs[..last][j] == rs[j];
    } else {
      k := last;
      assert forall j :: 0 <= j < k ==> rs[..last][j] == rs[j];
    }
  }

  /** Once an entry fails after a successful prefix, the whole sequence fails with that entry's error. */
  lemma {:induction false} AllOkStopsAtError<T, E>(rs: seq<Result<T, E>>, n: nat)
    requires n < |rs|
    requires AllOk(rs[..n]).Ok? && rs[n].Err?
    ensures AllOk(rs) == Err(rs[n].error)
    decreases |rs| - n
  {
    if n + 1 == |rs| {
      assert rs[..|rs| - 1] == rs[..n];
    } else {
      var shorter := rs[..|rs| - 1];
      assert shorter[..n] == rs[..n];
      AllOkStopsAtError(shorter, n);
    }
  }

  /** A single success. */
  lemma AllOkSingle<T, E>(r: Result<T, E>)
    requires r.Ok?
    ensures AllOk([r]) == Ok([r.value])
  {
    var a := AllOk([r]);
    assert [r][0] == r;
    assert a.Ok? && |a.value| == 1 && a.value[0] == r.value;
    assert a.value == [r.value];
  }

  /** A successful entry after a successful prefix extends the values by one. */
  lemma AllOkSnoc<T, E>(rs: seq<Result<T, E>>, n: nat, vs: seq<T>)
    requires n < |rs| && AllOk(rs[..n]) == Ok(vs) && rs[n].Ok?
    ensures AllOk(rs[..n + 1]) == Ok(vs + [rs[n].value])
  {
    assert rs[..n + 1][..n] == rs[..n];
  }
}
