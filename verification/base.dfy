/** Failure-carrying values shared by every module of the model. */
module Base {

  /** A Python value that may be `None` (or a dictionary key that may be absent). */
  datatype Option<+T> = None | Some(value: T) {
    function GetOr(default: T): T {
      match this
      case Some(v) => v
      case None => default
    }
  }

  /** The value an operation returns, or the exception it raises. */
  datatype Result<+T, +E> = Ok(value: T) | Err(error: E) {
    predicate IsFailure() {
      Err?
    }

    function PropagateFailure<U>(): Result<U, E>
      requires Err?
    {
      Err(error)
    }

    function Extract(): T
      requires Ok?
    {
      value
    }
  }

  /** Python truthiness of an optional string: `None` and `""` are both false. */
  predicate Truthy(s: Option<string>) {
    s.Some? && s.value != ""
  }

  /** `requests.Response.raise_for_status` raises exactly for 4xx and 5xx statuses. */
  predicate RaisesForStatus(status: int) {
    400 <= status < 600
  }
}
