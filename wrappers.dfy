/** Failure-compatible wrappers shared by every module of the model. */
module Wrappers {

  datatype Option<T> = None | Some(value: T) {
    function GetOr(default: T): T {
      match this
      case Some(v) => v
      case None => default
    }
  }

  /** The outcome of an operation that the source may abort with an exception. */
  datatype Result<T, E> = Ok(value: T) | Err(error: E) {
    predicate IsFailure() {
      Err?
    }

    function PropagateFailure<U>(): Result<U, E>
      requires Err?
    {
      Err(error)
    }

    function Extract(): T
      requires Ok?
    {
      value
    }
  }

  /** `xs` in front of the list `r` holds, unless `r` failed. */
  function PrependOk<T, E>(xs: seq<T>, r: Result<seq<T>, E>): Result<seq<T>, E> {
    match r
    case Ok(ys) => Ok(xs + ys)
    case Err(e) => Err(e)
  }

  function PrependSome<T>(xs: seq<T>, r: Option<seq<T>>): Option<seq<T>> {
    match r
    case Some(ys) => Some(xs + ys)
    case None => None
  }

  lemma PrependSomeNil<T>(r: Option<seq<T>>)
    ensures PrependSome([], r) == r
  {
    if r.Some? {
      assert [] + r.value == r.value;
    }
  }

  lemma PrependSomeStep<T>(xs: seq<T>, x: T, r: Option<seq<T>>)
    ensures PrependSome(xs, PrependSome([x], r)) == PrependSome(xs + [x], r)
  {
    if r.Some? {
      assert xs + ([x] + r.value) == xs + [x] + r.value;
    }
  }

  lemma PrependSomeEnd<T>(xs: seq<T>)
    ensures PrependSome(xs, Some([])) == Some(xs)
  {
    assert xs + [] == xs;
  }

  lemma PrependOkNil<T, E>(r: Result<seq<T>, E>)
    ensures PrependOk([], r) == r
  {
    if r.Ok? {
      assert [] + r.value == r.value;
    }
  }

  lemma PrependOkStep<T, E>(xs: seq<T>, x: T, r: Result<seq<T>, E>)
    ensures PrependOk(xs, PrependOk([x], r)) == PrependOk(xs + [x], r)
  {
    if r.Ok? {
      assert xs + ([x] + r.value) == xs + [x] + r.value;
    }
  }

  lemma PrependOkEnd<T, E>(xs: seq<T>)
    ensures PrependOk<T, E>(xs, Ok([])) == Ok(xs)
  {
    assert xs + [] == xs;
  }
}
