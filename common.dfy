/** Shared value types: an optional value, the Python exceptions the modelled code can
    raise, and a failure-compatible result. */
module Common {

  datatype Option<T> = None | Some(value: T)

  /** The exception classes raised by the modelled code paths. */
  datatype Error =
    | TypeError(msg: string)
    | IOError(path: string)
    | KeyError(key: string)
    | IndexError(msg: string)
    | ValueError(msg: string)

  datatype Result<T> = Ok(value: T) | Err(error: Error) {
    predicate IsFailure() { Err? }

    function PropagateFailure<U>(): Result<U>
      requires Err?
    {
      Err(error)
    }

    function Extract(): T
      requires Ok?
    {
      value
    }
  }

  /** A non-empty set of ids has a member to pick. */
  lemma NonEmptyHasMember(s: set<int>)
    requires s != {}
    ensures exists k :: k in s
  {
    if forall k :: k !in s {
      assert false;
    }
  }
}
