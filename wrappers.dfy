/** Option and Result types used by every parser of the model, and the
    fail-fast collection of a sequence of results. */
module Wrappers {

  datatype Option<+T> = None | Some(value: T) {
    function GetOr(default: T): T {
      if Some? then value else default
    }
  }

  /** The outcome of a parser: a value, or the error the source raises. */
  datatype Result<+T, +E> = Ok(value: T) | Err(error: E) {
    predicate IsFailure() {
      Err?
    }

    function PropagateFailure<U>(): Result<U, E>
      requires Err?
    {
      Err(error)
    }

    function Extract(): T
      requires Ok?
    {
      value
    }
  }

  /** Index of the first failed result, or |rs| when every one succeeded. */
  function FirstFailure<T, E>(rs: seq<Result<T, E>>): (k: nat)
    ensures k <= |rs|
    ensures forall j | 0 <= j < k :: rs[j].Ok?
    ensures k < |rs| ==> rs[k].Err?
  {
    if |rs| == 0 then 0
    else if rs[0].Err? then 0
    else 1 + FirstFailure(rs[1..])
  }

  /** The first failure is the one every earlier result succeeded before. */
  lemma {:induction false} FirstFailureAt<T, E>(rs: seq<Result<T, E>>, i: nat)
    requires i < |rs| && rs[i].Err?
    requires forall j | 0 <= j < i :: rs[j].Ok?
    ensures FirstFailure(rs) == i
  {
    if i > 0 {
      assert rs[0].Ok?;
      FirstFailureAt(rs[1..], i - 1);
    }
  }

  /** Runs a sequence of results in order and stops at the first failure,
      as a Python loop that appends parsed values and lets the first
      exception escape does. */
  function Collect<T, E>(rs: seq<Result<T, E>>): (r: Result<seq<T>, E>)
    ensures r.Ok? <==> forall i | 0 <= i < |rs| :: rs[i].Ok?
    ensures r.Ok? ==> |r.value| == |rs| && forall i | 0 <= i < |rs| :: rs[i] == Ok(r.value[i])
    ensures r.Err? ==> FirstFailure(rs) < |rs| && r.error == rs[FirstFailure(rs)].error
  {
    if |rs| == 0 then Ok([])
    else
      var prefix := rs[..|rs| - 1];
      assert forall j | 0 <= j < |prefix| :: prefix[j] == rs[j];
      match Collect(prefix)
      case Err(e) => Err(e)
      case Ok(vs) =>
        match rs[|rs| - 1]
        case Err(e) => Err(e)
        case Ok(v) => Ok(vs + [v])
  }

  /** Collect of results that all succeed is their values. */
  lemma CollectAllOk<T, E>(rs: seq<Result<T, E>>, vs: seq<T>)
    requires |rs| == |vs| && forall i | 0 <= i < |rs| :: rs[i] == Ok(vs[i])
    ensures Collect(rs) == Ok(vs)
  {
    assert Collect(rs).Ok?;
    assert Collect(rs).value == vs;
  }

  /** Collecting a first result and then the rest. */
  lemma CollectCons<T, E>(x: Result<T, E>, rs: seq<Result<T, E>>)
    ensures Collect([x] + rs) ==
      match x
      case Err(e) => Err(e)
      case Ok(v) =>
        match Collect(rs)
        case Err(e) => Err(e)
        case Ok(vs) => Ok([v] + vs)
  {
    if x.Err? {
      CollectFirstFails(x, rs);
    } else if Collect(rs).Err? {
      CollectRestFails(x, rs);
    } else {
      CollectBothSucceed(x, rs);
    }
  }

  lemma CollectFirstFails<T, E>(x: Result<T, E>, rs: seq<Result<T, E>>)
    requires x.Err?
    ensures Collect([x] + rs) == Err(x.error)
  {
    var all := [x] + rs;
    assert all[0] == x;
    FirstFailureAt(all, 0);
  }

  lemma CollectRestFails<T, E>(x: Result<T, E>, rs: seq<Result<T, E>>)
    requires x.Ok? && Collect(rs).Err?
    ensures Collect([x] + rs) == Err(Collect(rs).error)
  {
    var all := [x] + rs;
    var k := FirstFailure(rs);
    assert all[k + 1] == rs[k];
    assert forall j | 0 < j < k + 1 :: all[j] == rs[j - 1];
    FirstFailureAt(all, k + 1);
  }

  lemma CollectBothSucceed<T, E>(x: Result<T, E>, rs: seq<Result<T, E>>)
    requires x.Ok? && Collect(rs).Ok?
    ensures Collect([x] + rs) == Ok([x.value] + Collect(rs).value)
  {
    var all := [x] + rs;
    var vs := [x.value] + Collect(rs).value;
    assert forall j | 0 < j < |all| :: all[j] == rs[j - 1];
    assert forall j | 0 <= j < |all| :: all[j] == Ok(vs[j]);
    assert Collect(all).value == vs;
  }
}
