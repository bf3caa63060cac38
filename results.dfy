/** Failure-carrying values shared by the whole model: the exceptions the code
    generator throws, and the results of the operations that can throw them. */
module Results {

  datatype Option<+T> = None | Some(value: T)

  /** The exceptions that end an operation of the code generator. */
  datatype Error =
    | AsyncApiException(message: string)  // BallerinaAsyncApiException
    | StringIndexOutOfBounds              // charAt or substring outside the string

  datatype Result<+T> = Ok(value: T) | Err(error: Error)
  {
    predicate IsFailure() { Err? }

    function PropagateFailure<U>(): Result<U>
      requires Err?
    {
      Err(error)
    }

    function Extract(): T
      requires Ok?
    {
      value
    }
  }

  /** The result of an operation that returns nothing when it succeeds. */
  datatype Outcome = Pass | Fail(error: Error)
}
