/** `DecodingError` and the throwing-function result type. */
module Errors {
  import opened Keys

  /** The four decoding error kinds, each with the coding path at the
      failure site. `Unclassified` is the untyped error the adapter falls back
      to when the parser reports no error kind. */
  datatype DecodingError =
    | TypeMismatch(codingPath: CodingPath)
    | ValueNotFound(codingPath: CodingPath)
    | KeyNotFound(key: CodingKey, codingPath: CodingPath)
    | DataCorrupted(codingPath: CodingPath)
    | Unclassified

  /** The outcome of a `throws` function: a value or the thrown error. */
  datatype Result<+T> = Success(value: T) | Failure(error: DecodingError) {

    predicate IsFailure() {
      Failure?
    }

    function PropagateFailure<U>(): Result<U>
      requires Failure?
    {
      Failure(error)
    }

    function Extract(): T
      requires Success?
    {
      value
    }
  }
}
