/** Failure-carrying results for the reporter's operations. */
module Wrappers {

  /** A value that may be absent, as Ruby's `nil` in an options hash. */
  datatype Option<+T> = None | Some(value: T) {
    /** The value, or `default` when absent (Ruby's `x || default`). */
    function GetOr(default: T): T {
      match this
      case Some(v) => v
      case None => default
    }
  }

  /** The run-time errors of the reporter that the model keeps. */
  datatype Error =
    /** `matches_time?` found no `T\d\d:\d\d:\d\d` in the path, so `scan(...)[0]` is nil. */
    | MissingTimestamp(path: string)
    /** `html` was asked for before any exceptions directory was processed. */
    | NoAggregate
    /** `except` was given as a single symbol or string, not a list, so its `include?` raises. */
    | ExceptNotList(className: string)

  datatype Result<+T> = Ok(value: T) | Err(error: Error) {
    predicate IsFailure() { Err? }

    function PropagateFailure<U>(): Result<U>
      requires Err?
    {
      Err(error)
    }

    function Extract(): T
      requires Ok?
    {
      value
    }
  }
}
