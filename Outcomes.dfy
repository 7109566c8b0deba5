/** Values shared by every service model: an optional value (C#'s null), the exceptions
    the services throw, and the outcome of a call that either returns or throws. */
module Outcomes {

  /** `None` stands for a C# null reference. */
  datatype Option<+T> = None | Some(value: T)

  /** The exceptions the modelled services raise, with the argument the source gives them. */
  datatype Exception =
    | ArgumentNullException(paramName: string)
    | NotSupportedException(message: string)
    | KeyNotFoundException(message: string)
    | IOException(path: seq<string>)
    | SandboxException(stage: string)

  /** How a call ends: it returns a value, or an exception propagates out of it. */
  datatype Outcome<+T> = Normal(value: T) | Thrown(error: Exception)

  /** The value of a method returning `void` (or a bare `Task`). */
  datatype Unit = Unit
}
