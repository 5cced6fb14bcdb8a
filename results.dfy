/** Error values for the exceptions the mnemonic code throws, and the wrappers that carry them. */
module Results {

  /** The conditions under which the mnemonic code throws. */
  datatype Error =
    | InvalidEntropyLength    // a bit length outside [MIN_ENTROPY, MAX_ENTROPY] or not a multiple of 32
    | UnsupportedLanguage     // a language name outside the six supported ones
    | AmbiguousChecksum       // a word count that leaves no checksum bits
    | UnknownLanguage         // the first word of a phrase is in no wordlist
    | UnknownWord             // a word is missing from the phrase's wordlist
    | ChecksumMismatch        // the embedded checksum disagrees with SHA-256 of the entropy
    | EntropySizeMismatch     // the stored entropy does not hold `bits / 8` bytes
    | MalformedSerialization  // a JSON or binary form fails a type, length or read check

  datatype Result<T> = Ok(value: T) | Err(error: Error)

  datatype Option<T> = None | Some(value: T)

  /** A state-changing operation either completes or throws. */
  datatype Outcome = Done | Fail(error: Error)
}
