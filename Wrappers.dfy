/** Error and result types shared by every part of the model.

    The source reports failures with four exception classes; here they are
    the constructors of one datatype, and the operations return a `Result`
    instead of throwing. */
module Wrappers {

  /** `PtraceException`, `TerminateException`, `FatalException` and
      `SymbolException`, which is a kind of `FatalException`. */
  datatype Error = Ptrace | Terminate | Fatal | Symbol
  {
    /** True for the exceptions a handler of `FatalException` also catches. */
    predicate IsFatal() { Fatal? || Symbol? }
  }

  datatype Option<+T> = None | Some(value: T)

  datatype Result<+T> = Ok(value: T) | Err(error: Error)
  {
    predicate IsFailure() { Err? }

    function PropagateFailure<U>(): Result<U>
      requires Err?
    {
      Err(error)
    }

    function Extract(): T
      requires Ok?
    {
      value
    }
  }

  /** The outcome of a computation whose loop the source does not bound: it
      either finishes (`Ok`/`Fail`) or it would go on forever (`Diverge`)
      within the step budget it was given. */
  datatype Run<+T> = Done(value: T) | Fail(error: Error) | Diverge
  {
    predicate IsFailure() { !Done? }

    function PropagateFailure<U>(): Run<U>
      requires !Done?
    {
      if Fail? then Fail(error) else Diverge
    }

    function Extract(): T
      requires Done?
    {
      value
    }
  }

  /** A terminating result seen as a run. */
  function Lift<T>(r: Result<T>): Run<T>
  {
    match r
    case Ok(v) => Done(v)
    case Err(e) => Fail(e)
  }
}
