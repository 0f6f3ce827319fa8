/**
 .NET exceptions as values. A catch clause selects an exception by its
 runtime type; callers observe its Message and its InnerException (the cause
 it wraps, if any). A call completes either by returning a value or by
 throwing an exception, which `Result` makes an explicit value.
 */
module Exceptions {

  datatype Option<+T> = None | Some(value: T)

  /** The exception types the car facade raises or catches; any other type is `OtherException`. */
  datatype ExceptionType =
    | EngineStartException
    | CarStartException
    | EcuDataException
    | OtherException(name: string)

  datatype Exception = Exception(exceptionType: ExceptionType, message: string, innerException: Option<Exception>)

  /** How a call completed: it returned `value`, or it threw `exception`. */
  datatype Result<+T> = Return(value: T) | Throw(exception: Exception)
}
