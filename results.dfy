/** Outcome types shared by the extractor and the row expander. */
module Results {

  datatype Option<+T> = None | Some(value: T)

  /** The two exceptions the core can raise. */
  datatype Error =
    /** `float()` rejected a seconds token (after `,` became `.`); carries that token. */
    | ValueError(token: string)
    /** A row of the table has no cell under the requested column name. */
    | KeyError(key: string)

  datatype Result<+T> = Success(value: T) | Failure(error: Error)

  /**
   * A loop that appends each outcome's value and stops at the first
   * failure: the values in order, or the first error.
   */
  function Collect<T>(rs: seq<Result<T>>): Result<seq<T>>
    decreases |rs|
  {
    if rs == [] then Success([])
    else
      match Collect(rs[..|rs| - 1])
      case Failure(e) => Failure(e)
      case Success(vs) =>
        match rs[|rs| - 1]
        case Failure(e) => Failure(e)
        case Success(v) => Success(vs + [v])
  }

  lemma CollectOne<T>(v: T)
    ensures Collect([Success(v)]) == Success([v])
  {
    var rs: seq<Result<T>> := [Success(v)];
    assert rs[..|rs| - 1] == [];
    assert Collect(rs[..|rs| - 1]) == Success([]);
    assert rs[|rs| - 1] == Success(v);
    assert [] + [v] == [v];
  }

  lemma CollectOneFailure<T>(e: Error)
    ensures Collect<T>([Failure(e)]) == Failure(e)
  {
    var rs: seq<Result<T>> := [Failure(e)];
    assert rs[..|rs| - 1] == [];
    assert Collect(rs[..|rs| - 1]) == Success([]);
  }

  /** One more outcome: the earlier error, this outcome's error, or one more value. */
  lemma CollectSnoc<T>(rs: seq<Result<T>>, k: nat)
    requires k < |rs|
    ensures Collect(rs[..k + 1]) ==
      if Collect(rs[..k]).Failure? then Collect(rs[..k])
      else if rs[k].Failure? then Failure(rs[k].error)
      else Success(Collect(rs[..k]).value + [rs[k].value])
  {
    assert rs[..k + 1][..k] == rs[..k];
  }

  /** Once a prefix fails, the whole fails with the same error. */
  lemma {:induction false} FailureSticks<T>(rs: seq<Result<T>>, k: nat)
    requires k <= |rs| && Collect(rs[..k]).Failure?
    ensures Collect(rs) == Collect(rs[..k])
    decreases |rs| - k
  {
    if k < |rs| {
      CollectSnoc(rs, k);
      FailureSticks(rs, k + 1);
    } else {
      assert rs[..k] == rs;
    }
  }

  /** Collecting succeeds exactly when every outcome does, and then yields their values in order. */
  lemma {:induction false} CollectSuccess<T>(rs: seq<Result<T>>)
    ensures Collect(rs).Success? <==> forall k :: 0 <= k < |rs| ==> rs[k].Success?
    ensures Collect(rs).Success? ==>
      |Collect(rs).value| == |rs| && forall k :: 0 <= k < |rs| ==> rs[k] == Success(Collect(rs).value[k])
    decreases |rs|
  {
    if rs != [] {
      var n := |rs| - 1;
      var front := rs[..n];
      CollectSuccess(front);
      CollectSnoc(rs, n);
      assert rs[..n + 1] == rs;
      if Collect(front).Success? && rs[n].Success? {
        var vs := Collect(front).value + [rs[n].value];
        forall k | 0 <= k < |rs| ensures rs[k] == Success(vs[k]) {
          if k < n {
            assert front[k] == rs[k];
          }
        }
      } else if Collect(front).Failure? {
        var k :| 0 <= k < n && !front[k].Success?;
        assert !rs[k].Success?;
      }
    }
  }

  /** When collecting fails, its error is that of the first failing outcome. */
  lemma {:induction false} CollectFailure<T>(rs: seq<Result<T>>)
    requires Collect(rs).Failure?
    ensures exists k ::
      && 0 <= k < |rs| && rs[k].Failure? && Collect(rs).error == rs[k].error
      && (forall j :: 0 <= j < k ==> rs[j].Success?)
    decreases |rs|
  {
    var n := |rs| - 1;
    var front := rs[..n];
    CollectSnoc(rs, n);
    assert rs[..n + 1] == rs;
    if Collect(front).Failure? {
      CollectFailure(front);
      var k :| 0 <= k < n && front[k].Failure? && Collect(front).error == front[k].error &&
        (forall j :: 0 <= j < k ==> front[j].Success?);
      assert rs[k] == front[k];
      assert forall j :: 0 <= j < k ==> rs[j] == front[j];
    } else {
      CollectSuccess(front);
      assert forall j :: 0 <= j < n ==> rs[j] == front[j];
    }
  }
}
