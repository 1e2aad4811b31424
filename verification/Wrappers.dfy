// Failure-compatible results, shared by every module.
module Wrappers {
  datatype Option<+T> = None | Some(value: T)

  // The kinds of error the storage and SQL crates return (their messages are dropped).
  datatype Error = Corruption | InternalError | NotFound | InvalidTransaction | Io
                 | TypeError | ColumnNotFound | ExecutionError | PlannerError

  datatype Result<+T> = Ok(value: T) | Err(error: Error) {
    predicate IsFailure() { Err? }
    function PropagateFailure<U>(): Result<U>
      requires Err?
    {
      Err(error)
    }
    function Extract(): T
      requires Ok?
    {
      value
    }
  }
}
