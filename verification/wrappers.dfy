/** Failure-carrying wrappers shared by every module of the model, and the
    error taxonomy the certificate operations raise. */
module Wrappers {

  /** A value that may be absent; `None` plays the role of an undefined
      property. */
  datatype Option<+T> = None | Some(value: T) {
    function GetOr(default: T): T {
      match this
      case Some(v) => v
      case None => default
    }
  }

  /** The outcome of an operation that may throw. */
  datatype Result<+T, +E> = Ok(value: T) | Err(error: E)
}

/** The exceptions the modelled operations raise. */
module Errors {

  datatype Error =
    /** The input tree does not match the declared layout. */
    | SchemaMismatch
    /** `sign` was called without a private key. */
    | MissingKey
    /** `verify` could not resolve a verification key. */
    | MissingIssuer
    /** The cryptographic provider rejected a request. */
    | ProviderFailure
    /** The stored TBS bytes could not be parsed back into a tree. */
    | EncodingFailure
    /** `defaultValues` was asked about a name that is not a member. */
    | InvalidMemberName(name: string)
}
