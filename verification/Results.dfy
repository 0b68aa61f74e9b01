/** Success-or-denial values, usable with the `:-` operator. */
module Results {

  datatype Option<+T> = None | Some(value: T) {
    /** The contained value, or the denial `error` when there is none. */
    function OkOr<E>(error: E): (r: Result<T, E>) {
      match this
      case Some(v) => Ok(v)
      case None => Err(error)
    }
  }

  datatype Result<+T, +E> = Ok(value: T) | Err(error: E) {
    predicate IsFailure() {
      Err?
    }

    function PropagateFailure<U>(): (r: Result<U, E>)
      requires Err?
    {
      Err(error)
    }

    function Extract(): (r: T)
      requires Ok?
    {
      value
    }
  }
}
