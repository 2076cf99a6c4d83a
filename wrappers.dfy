/** Optional values and fallible results, as used throughout the model. */
module Wrappers {

  /** A value that may be absent (Python's `X | None`). */
  datatype Option<+T> = None | Some(value: T)

  /** The outcome of an operation that either returns a value or raises. */
  datatype Result<+T, +E> = Ok(value: T) | Err(error: E)

  /**
   * `for x in xs: out.append(op(x))` where `op` may raise: the results in
   * order, or the error of the first result that is one.
   */
  function Collect<T, E>(rs: seq<Result<T, E>>): Result<seq<T>, E>
  {
    if rs == [] then Ok([])
    else
      match Collect(rs[..|rs| - 1])
      case Err(e) => Err(e)
      case Ok(out) =>
        match rs[|rs| - 1]
        case Err(e) => Err(e)
        case Ok(x) => Ok(out + [x])
  }

  /**
   * Collecting fails exactly when some result is an error, with the first
   * error; otherwise it holds every value, in order.
   */
  lemma {:induction false} CollectMeaning<T, E>(rs: seq<Result<T, E>>)
    ensures Collect(rs).Ok? <==> forall i :: 0 <= i < |rs| ==> rs[i].Ok?
    ensures Collect(rs).Ok? ==> (|Collect(rs).value| == |rs|
      && forall i :: 0 <= i < |rs| ==> Collect(rs).value[i] == rs[i].value)
    ensures Collect(rs).Err? ==> exists i :: (0 <= i < |rs| && rs[i] == Err(Collect(rs).error)
      && forall j :: 0 <= j < i ==> rs[j].Ok?)
  {
    if rs != [] {
      var n := |rs| - 1;
      var init := rs[..n];
      CollectMeaning(init);
      assert forall i :: 0 <= i < n ==> init[i] == rs[i];
      if Collect(init).Err? {
        var i :| 0 <= i < n && init[i] == Err(Collect(init).error) && forall j :: 0 <= j < i ==> init[j].Ok?;
        assert rs[i] == Err(Collect(rs).error);
      }
    }
  }

  /** One more result: its error ends the collection, its value is appended. */
  lemma CollectNext<T, E>(rs: seq<Result<T, E>>, i: nat)
    requires i < |rs| && Collect(rs[..i]).Ok?
    ensures rs[i].Err? ==> Collect(rs[..i + 1]) == Err(rs[i].error)
    ensures rs[i].Ok? ==> Collect(rs[..i + 1]) == Ok(Collect(rs[..i]).value + [rs[i].value])
  {
    assert rs[..i + 1][..i] == rs[..i];
  }

  /** Once the results collected so far hold an error, the whole collection fails with it. */
  lemma {:induction false} CollectStaysFailed<T, E>(rs: seq<Result<T, E>>, k: nat)
    requires k <= |rs| && Collect(rs[..k]).Err?
    ensures Collect(rs) == Collect(rs[..k])
    decreases |rs| - k
  {
    if k < |rs| {
      assert rs[..k + 1][..k] == rs[..k];
      CollectStaysFailed(rs, k + 1);
    } else {
      assert rs[..k] == rs;
    }
  }
}
