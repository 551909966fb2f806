/** How a step of the service ends: a value, or an exception that the caller sees. */
module Outcomes {

  /** An exception object, identified by its .NET type name and its message. */
  datatype Fault = Fault(exceptionType: string, message: string)

  /** What one call into a collaborator does: return a value or throw a fault. */
  datatype Outcome<+T> = Returned(value: T) | Threw(fault: Fault)

  /**
   * What a service operation does for its caller: return a value, throw a
   * `ValidationException` or an `ArgumentException` of its own, or rethrow,
   * unchanged, a fault that came out of the repository.
   */
  datatype ServiceResult<+T> =
    | Ok(value: T)
    | ValidationError(message: string)
    | ArgumentError(message: string)
    | RepositoryFault(fault: Fault)

  datatype Option<+T> = None | Some(value: T)

  /** `return await call;` inside a `catch { ...; throw; }`: the value, or the same fault. */
  function Rethrow<T>(call: Outcome<T>): ServiceResult<T>
  {
    match call
    case Returned(v) => Ok(v)
    case Threw(f) => RepositoryFault(f)
  }
}
