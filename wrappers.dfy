/** Failure-compatible result types shared by the modules of this model.
    The C++ sources report errors by throwing; the model returns them. */
module Wrappers {

  datatype Option<+T> = None | Some(value: T)

  /** The exception classes thrown by the modelled code. The message text is
      diagnostic only and is not modelled. */
  datatype Error =
    | IOError          // IOError in global.cpp, hash.cpp and config_parser.cpp
    | StringError      // StringError in global.cpp and config_parser.cpp
    | ParsingError     // ConfigParsingError in config_parser.cpp

  datatype Result<+R> = Success(value: R) | Failure(error: Error) {
    predicate IsFailure() { Failure? }

    function PropagateFailure<U>(): Result<U>
      requires Failure?
    {
      Failure(error)
    }

    function Extract(): R
      requires Success?
    {
      value
    }
  }
}
