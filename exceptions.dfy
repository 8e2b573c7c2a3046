/**
 * Error codes and error-code exceptions of the utilities library.
 *
 * Each enum class of error codes becomes a datatype of nullary constructors; the
 * class template `ErrorCodeException<ErrorCodeType>` becomes a generic datatype that
 * carries a code and a message, both fixed at construction. The four exception
 * kinds are that datatype instantiated with each enum, and `Exception` (the common base
 * class) is the sum of the four kinds.
 */
module Exceptions {

  /** Errors that are the programmer's fault. */
  datatype LogicExceptionErrors = illegalState | notImplemented

  /** Errors that are the system's fault. */
  datatype SystemExceptionErrors = fileNotFound | serialPortUnavailable

  /** Errors due to the numeric values in the data. */
  datatype NumericExceptionErrors = divideByZero | overflow | didNotConverge

  /** Errors related to inputs (public API calls, file formats). */
  datatype InputExceptionErrors =
    | badStringFormat
    | badData
    | indexOutOfRange
    | invalidArgument
    | nullReference
    | typeMismatch

  /**
   * An exception with an error code. The message defaults to the empty string,
   * as the constructor's default argument does.
   */
  datatype ErrorCodeException<ErrorCodeType> =
    ErrorCodeException(errorCode: ErrorCodeType, message: string := "")
  {
    function GetErrorCode(): ErrorCodeType { errorCode }

    function GetMessage(): string { message }
  }

  type LogicException = ErrorCodeException<LogicExceptionErrors>
  type SystemException = ErrorCodeException<SystemExceptionErrors>
  type NumericException = ErrorCodeException<NumericExceptionErrors>
  type InputException = ErrorCodeException<InputExceptionErrors>

  /** An exception of any of the four kinds; the kind is fixed by the error-code type. */
  datatype Exception =
    | Logic(logic: LogicException)
    | System(system: SystemException)
    | Numeric(numeric: NumericException)
    | Input(input: InputException)
  {
    /** The message of whichever kind of exception this is. */
    function GetMessage(): (m: string)
      ensures Logic? ==> m == logic.message
      ensures System? ==> m == system.message
      ensures Numeric? ==> m == numeric.message
      ensures Input? ==> m == input.message
    {
      match this
      case Logic(e) => e.GetMessage()
      case System(e) => e.GetMessage()
      case Numeric(e) => e.GetMessage()
      case Input(e) => e.GetMessage()
    }
  }

  /** Whatever its kind, an exception gives back through the base class the message it was built with. */
  lemma BaseMessageRoundTrip(m: string, l: LogicExceptionErrors, y: SystemExceptionErrors,
                             n: NumericExceptionErrors, i: InputExceptionErrors)
    ensures Logic(ErrorCodeException(l, m)).GetMessage() == m
    ensures System(ErrorCodeException(y, m)).GetMessage() == m
    ensures Numeric(ErrorCodeException(n, m)).GetMessage() == m
    ensures Input(ErrorCodeException(i, m)).GetMessage() == m
    ensures Logic(ErrorCodeException(l)).GetMessage() == ""
  {
  }

  /** The code and the message given at construction are the ones read back. */
  lemma ConstructionRoundTrip<E>(code: E, message: string)
    ensures ErrorCodeException(code, message).GetErrorCode() == code
    ensures ErrorCodeException(code, message).GetMessage() == message
    ensures ErrorCodeException(code).GetMessage() == ""
  {
  }

  /** Two exceptions of one kind are the same exactly when code and message agree. */
  lemma ErrorCodeExceptionEquality<E>(a: ErrorCodeException<E>, b: ErrorCodeException<E>)
    ensures a == b <==> a.GetErrorCode() == b.GetErrorCode() && a.GetMessage() == b.GetMessage()
  {
  }

  /** The logic error codes are exactly these two. */
  lemma LogicErrorsAreClosed(c: LogicExceptionErrors)
    ensures c == illegalState || c == notImplemented
  {
  }

  /** The input error codes are exactly these six. */
  lemma InputErrorsAreClosed(c: InputExceptionErrors)
    ensures c in {badStringFormat, badData, indexOutOfRange, invalidArgument, nullReference, typeMismatch}
  {
  }

  /**
   * The kinds are told apart by their error-code type alone: exceptions of two
   * different kinds are never equal, whatever their codes and messages.
   */
  lemma KindsAreDistinct(l: LogicException, s: SystemException, n: NumericException, i: InputException)
    ensures Logic(l) != System(s) && Logic(l) != Numeric(n) && Logic(l) != Input(i)
    ensures System(s) != Numeric(n) && System(s) != Input(i) && Numeric(n) != Input(i)
  {
  }
}
