/**
 * Failure-compatible wrappers shared by every module of the model.
 *
 * PHP exceptions become `Err` values carrying the exception class and the
 * message the library passes to it.
 */
module Wrappers {

  datatype Option<+T> = None | Some(value: T) {

    predicate IsFailure() {
      None?
    }

    function PropagateFailure<U>(): Option<U>
      requires None?
    {
      None
    }

    function Extract(): T
      requires Some?
    {
      value
    }

    /** PHP's `??`: the wrapped value, or the fallback when absent. */
    function GetOr(default: T): T {
      match this
      case Some(v) => v
      case None => default
    }
  }

  /** The exception classes thrown by the library; `EngineError` is PHP's own `Error`. */
  datatype Error =
    | InvalidArgument(msg: string)
    | Runtime(msg: string)
    | TypeError(msg: string)
    | EngineError(msg: string)

  datatype Result<+T> = Ok(value: T) | Err(error: Error) {

    predicate IsFailure() {
      Err?
    }

    function PropagateFailure<U>(): Result<U>
      requires Err?
    {
      Err(error)
    }

    function Extract(): T
      requires Ok?
    {
      value
    }
  }
}
