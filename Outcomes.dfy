/** Outcomes of the containers' operations: an optional value and the exceptions the C# code throws. */
module Outcomes {

  /** A value or nothing; stands for a C# reference that may be null. */
  datatype Option<T> = None | Some(value: T)

  /** The exceptions the containers throw, by their .NET class. */
  datatype Error =
    | IndexOutOfRange    // System.IndexOutOfRangeException
    | InvalidOperation   // System.InvalidOperationException
    | Argument           // System.ArgumentException
    | NullReference      // System.NullReferenceException, raised by dereferencing null

  /** The result of an operation that either returns normally or throws. */
  datatype Result<T> = Ok(value: T) | Err(error: Error)
}
