/** Optional values and failure-carrying results, used for dictionary keys that
    may be missing and for the exceptions the modelled code raises. */
module Wrappers {

  /** A dictionary lookup: `Some(v)` when the key is present, `None` when absent. */
  datatype Option<+T> = None | Some(value: T) {

    /** The value, or `default` when absent (Python's `dict.get(key, default)`). */
    function GetOr(default: T): T {
      match this
      case Some(v) => v
      case None => default
    }
  }

  /** The outcome of code that either returns a value or raises an exception. */
  datatype Result<+T, +E> = Ok(value: T) | Err(error: E)

  /** Puts elements already produced in front of the list the rest of a loop
      produces; an exception raised by the rest passes through. */
  function Prepend<T, E>(done: seq<T>, r: Result<seq<T>, E>): Result<seq<T>, E> {
    match r
    case Ok(rest) => Ok(done + rest)
    case Err(e) => Err(e)
  }

  lemma PrependNothing<T, E>(r: Result<seq<T>, E>)
    ensures Prepend([], r) == r
  {
    if r.Ok? {
      assert [] + r.value == r.value;
    }
  }

  lemma PrependTwice<T, E>(xs: seq<T>, ys: seq<T>, r: Result<seq<T>, E>)
    ensures Prepend(xs, Prepend(ys, r)) == Prepend(xs + ys, r)
  {
    if r.Ok? {
      assert xs + (ys + r.value) == (xs + ys) + r.value;
    }
  }
}
