/** Option and Result, and the error values that stand for the exceptions the system throws. */
module Wrappers {

  datatype Option<+T> = None | Some(value: T)

  datatype Result<+T, +E> = Success(value: T) | Failure(error: E)

  /**
   * An exception: `SystemError` is the system's `system_error`, a message with the `errno` that
   * was current when it was thrown (its text is the message followed by strerror of the code, which
   * is not modelled); `RuntimeError` is a `std::runtime_error` with a fixed message.
   */
  datatype Error =
    | SystemError(message: string, errno: int)
    | RuntimeError(message: string)
}
