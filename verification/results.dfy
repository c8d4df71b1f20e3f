/** Failure-carrying values used across the model: an absent value (`Option`)
    and an operation that either produces a value or raises an error
    (`Result`), which stands for a thrown JavaScript `Error`, and the
    truthiness of an optional text (`Given`). */
module Results {

  datatype Option<+T> = None | Some(value: T) {

    /** The wrapped value, or `default` when there is none. */
    function Or(default: T): T {
      match this
      case Some(v) => v
      case None => default
    }
  }

  /** An optional text field that JavaScript treats as true: present and
      not empty. */
  predicate Given(o: Option<string>) {
    o.Some? && o.value != ""
  }

  datatype Result<+R> = Success(value: R) | Failure(message: string) {

    predicate IsFailure() {
      Failure?
    }

    function PropagateFailure<U>(): Result<U>
      requires Failure?
    {
      Failure(message)
    }

    function Extract(): R
      requires Success?
    {
      value
    }
  }
}
