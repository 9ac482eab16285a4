/** Failure-compatible wrappers used for the C++ exceptions and null results of keyring.cc. */
module Wrappers {

  datatype Option<+T> = None | Some(value: T)

  datatype Result<+T, +E> = Success(value: T) | Failure(error: E) {
    predicate IsFailure() {
      Failure?
    }

    function PropagateFailure<U>(): Result<U, E>
      requires Failure?
    {
      Failure(error)
    }

    function Extract(): T
      requires Success?
    {
      value
    }
  }

  /** Pass or Fail, for operations whose only result is whether they threw. */
  datatype Outcome<+E> = Pass | Fail(error: E)
}

/** The failures keyring.cc reports, one constructor per kind of failure. Where a comment lists
    two messages, the source words the same failure in two places. */
module Errors {

  datatype Error =
    | NoKeyLoaded                 // "No key has been loaded in the keyring"
    | InvalidAlgoType             // "Invalid algo type."
    | InvalidKeySize              // "Invalid key size. Must be between 1024 and 16384 bits"
    | BinaryCurveUnsupported      // "Binary curves are not supported yet"
    | UnknownCurve                // "Unknown curve name" / "Unknown curve"
    | UnknownCurveId              // "Unknown curve ID"
    | MissingKeyType              // "keyType not found", or map::at on a missing "keyType"
    | MissingField(name: string)  // "Missing parameter : <name>"
    | UnknownKeyType              // "Unknown key type"
    | InvalidContainer            // "Invalid key file"
    | TruncatedInput              // a length-prefixed field runs past the end of the buffer
    | UnsupportedAesKeySize       // "AES key size must be either 128, 192 or 256"
    | FileNotFound                // "The given file doesn't exist."
    | NotEncryptionKey            // "The key pair loaded is not one of an asymmetric encryption algorithm."
    | UnknownEncoding             // "Unknown encoding. Valid values are \"hex\" and \"base64\""
}
