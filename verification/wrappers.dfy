/** Failure-carrying return types shared by every puzzle model.

    `Option` stands for Rust's `Option`; `Result` stands for `anyhow::Result`,
    whose error messages are not modelled: a failure is just `Err`. */
module Wrappers {

  datatype Option<+T> = None | Some(value: T) {

    predicate IsFailure() {
      None?
    }

    function PropagateFailure<U>(): Option<U>
      requires None?
    {
      None
    }

    function Extract(): T
      requires Some?
    {
      value
    }

    /** Rust's `unwrap_or`. */
    function GetOr(default: T): T {
      match this
      case Some(v) => v
      case None => default
    }
  }

  datatype Result<+T> = Ok(value: T) | Err {

    predicate IsFailure() {
      Err?
    }

    function PropagateFailure<U>(): Result<U>
      requires Err?
    {
      Err
    }

    function Extract(): T
      requires Ok?
    {
      value
    }
  }

  /** Rust's `ok_or`: turns a missing value into a failure. */
  function OkOr<T>(o: Option<T>): (r: Result<T>)
    ensures r.Ok? <==> o.Some?
    ensures r.Ok? ==> r.value == o.value
  {
    match o
    case Some(v) => Ok(v)
    case None => Err
  }

  /** `xs.iter().map(f).collect::<Result<Vec<_>>>()`: every element converted, or a
      failure as soon as one conversion fails. */
  function MapAll<T, U>(xs: seq<T>, f: T -> Result<U>): (r: Result<seq<U>>)
    ensures r.Ok? <==> forall k :: 0 <= k < |xs| ==> f(xs[k]).Ok?
    ensures r.Ok? ==> |r.value| == |xs| && forall k :: 0 <= k < |xs| ==> Ok(r.value[k]) == f(xs[k])
  {
    if |xs| == 0 then Ok([])
    else match f(xs[0])
      case Err => Err
      case Ok(y) =>
        assert forall k :: 1 <= k < |xs| ==> xs[1..][k - 1] == xs[k];
        match MapAll(xs[1..], f)
        case Err => Err
        case Ok(ys) =>
          assert forall k :: 1 <= k < |xs| ==> ([y] + ys)[k] == ys[k - 1];
          Ok([y] + ys)
  }
}
