/** Results of operations that can fail. */
module Results {

  datatype Error =
    | ShareVerificationFailed
    | DecryptProofFailed
    | HashToElementError
    | DecryptionError
    | NaorYungStripError
    | EncodingError
    | ScalarDecodeError
    | DeserializationError
    | WrongSize
    | UnknownType
    | ReservedName
    | AlreadyRegistered

  datatype Result<+T> = Ok(value: T) | Err(error: Error) {
    predicate IsFailure() {
      Err?
    }

    function PropagateFailure<U>(): Result<U>
      requires Err?
    {
      Err(error)
    }

    function Extract(): T
      requires Ok?
    {
      value
    }
  }
}
