/** Outcomes: a value, or one of the engine's stable error codes. */
module Results {

  datatype ErrorCode =
    | NonCanonical
    | DuplicateMapKey
    | ForbiddenCborConstruct
    | IdMismatch
    | SignatureInvalid
    | UnknownAlgorithm
    | DeprecatedAlgorithm
    | LimitExceeded
    | Malformed
    | InvalidBase64Url
    | UnexpectedHeaderParam
    | AlgorithmConfusion
    | SchemaViolation
    | CycleDetected
    | UnsupportedVersion

  datatype Result<+T> = Ok(value: T) | Err(code: ErrorCode) {
    predicate IsFailure() {
      Err?
    }

    function PropagateFailure<U>(): Result<U>
      requires Err?
    {
      Err(code)
    }

    function Extract(): T
      requires Ok?
    {
      value
    }
  }
}
