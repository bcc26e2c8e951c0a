/** Values that stand for Python's None, for raised exceptions and for
    results that either hold a value or the exception that replaced it. */
module Outcomes {

  /** Python's `Optional[T]`: `None` or a value. */
  datatype Option<+T> = None | Some(value: T)

  /** The exceptions the modelled code raises or lets through. */
  datatype Error =
    /** `ValueError` raised when a response holds no "```sql" marker. */
    | NoSqlQueryFound
    /** `TypeError` raised by `in` when the response is None. */
    | NoneNotIterable
    /** `IndexError` raised by `[0]` on the empty list of close matches. */
    | EmptyCandidateSet
    /** An exception raised by an external collaborator (LLM client, database). */
    | External(text: string)

  /** The text `str(exc)` gives for each exception. */
  function Message(e: Error): string
  {
    match e
    case NoSqlQueryFound => "No SQL query found in response."
    case NoneNotIterable => "argument of type 'NoneType' is not iterable"
    case EmptyCandidateSet => "list index out of range"
    case External(text) => text
  }

  /** A computation that returns a value or raises. */
  datatype Result<+T> = Ok(value: T) | Err(error: Error)
}
