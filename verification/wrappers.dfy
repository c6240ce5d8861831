/** Failure-compatible result types shared by every module of the model. */
module Wrappers {

  /** A value that may be absent (Python's `None`). */
  datatype Option<+T> = None | Some(value: T)

  /** The outcome of an operation that may raise. */
  datatype Result<+R, +E> = Success(value: R) | Failure(error: E)
}

/** The exceptions the modelled Python code raises, one constructor per raise site kind. */
module Errors {

  datatype Error =
    /** `ValueError` from the object constructor: an obligation with an empty kind. */
    | InvalidObligationKind(kind: string)
    /** `KeyError` from the verifier registry: no verifier for this kind. */
    | NoVerifier(kind: string)
    /** `ObligationViolation` from unwrap: the set of kinds still outstanding. */
    | ObligationViolation(remaining: set<string>)
    /** `KeyError` from the encrypted storage: unknown object id. */
    | NotFound(id: string)
    /** `CryptographicException`: the key service refused to release the cleared key. */
    | CryptographicRefusal(id: string)
    /** The authenticated decryption rejected the ciphertext. */
    | InvalidTag
    /** `TypeError` from a timeline bisection that reached two record dicts to order. */
    | UnorderableRecords
}
