/** Option and Result, and the Ruby exception classes the gem raises. */
module Wrappers {

  datatype Option<+T> = None | Some(value: T) {
    function GetOr(default: T): T {
      match this
      case Some(v) => v
      case None => default
    }
  }

  datatype Result<+R, +E> = Success(value: R) | Failure(error: E)

  /** The exception raised on an error path, by class, with its message. */
  datatype Error =
    | RegexpError(msg: string)     // PosixRegexpError / E_REGEXP_ERROR
    | TypeError(msg: string)
    | IndexError(msg: string)
    | RuntimeError(msg: string)    // a bare `raise "..."`
    | NoMethodError(msg: string)   // a method called on nil
}
