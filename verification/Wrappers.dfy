/** Results, options and the error kinds of the crate. */
module Wrappers {

  datatype Option<+T> = None | Some(value: T) {
    predicate IsFailure() {
      None?
    }

    function PropagateFailure<U>(): Option<U>
      requires None?
    {
      None
    }

    function Extract(): T
      requires Some?
    {
      value
    }

    function ToResult(error: CoseError): Result<T> {
      match this
      case Some(v) => Success(v)
      case None => Failure(error)
    }
  }

  /** The crate's error kinds. Their text and their nested source errors are not modelled. */
  datatype CoseError =
    | EntropyError
    | HashingError
    | SignatureError
    | UnsupportedError
    | UnverifiedSignature
    | SpecificationError
    | SerializationError
    | TagError(tag: Option<nat>)
    | EncryptionError
    | AwsSignError
    | AwsVerifyError

  /** The outcome of a call. `Panic` says that the call does not return: a slice operation or an
      assertion of the crate failed. */
  datatype Result<+T> = Success(value: T) | Failure(error: CoseError) | Panic {
    predicate IsFailure() {
      !Success?
    }

    function PropagateFailure<U>(): Result<U>
      requires !Success?
    {
      if Failure? then Failure(error) else Panic
    }

    function Extract(): T
      requires Success?
    {
      value
    }

    /** Replaces the error, as `map_err` with a constant error does. */
    function MapError(e: CoseError): Result<T> {
      if Failure? then Failure(e) else this
    }
  }
}
