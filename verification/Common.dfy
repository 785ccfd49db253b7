/** Outcomes shared by every part of the model. */
module Common {

  datatype Option<+T> = None | Some(value: T)

  /** The kinds of failure the database reports; message texts are not modelled. */
  datatype Error =
    | InvalidState
    | Corruption
    | OutOfRange
    | DivisionByZero
    | Unsupported
    | TypeMismatch
    | ValueTooLarge
    | UniqueViolation
    | ForeignKeyViolation
    | CascadeDepthExceeded
    | SerializationConflict
    | TransactionAborted
    | Cancelled

  datatype Result<+T> = Ok(value: T) | Err(error: Error) {
    predicate IsFailure() {
      Err?
    }

    function PropagateFailure<U>(): Result<U>
      requires Err?
    {
      Err(error)
    }

    function Extract(): T
      requires Ok?
    {
      value
    }
  }

  datatype Ordering = Less | Equal | Greater

  function CompareInts(a: int, b: int): Ordering {
    if a < b then Less else if a == b then Equal else Greater
  }
}
