/**
 * The codec's error type and the Option / Result wrappers its operations
 * return.
 */
module Errors {
  import opened Host

  datatype Option<+T> = None | Some(value: T)

  /**
   * Everything that can go wrong. `HostCallFailure` is the crate's
   * `Error::JNI`: a failed host call (a thrown exception, a call on a null
   * reference). `BindingResolutionFailure` is an `Error::JNI` raised while
   * the lookup tables are built, naming the lookup that failed. The
   * `Expected…` kinds and `DeserializeAnyNotSupported` are the decoder's own
   * errors. The last six are the `Error::Message` errors that serde's
   * visitors raise through `de::Error::custom`.
   */
  datatype Error =
    | HostCallFailure
    | BindingResolutionFailure(missing: Lookup)
    | DeserializeAnyNotSupported
    | ExpectedBoolean
    | ExpectedInteger
    | ExpectedFloat
    | ExpectedChar
    | ExpectedString
    | ExpectedNull
    | ExpectedMap
    | ExpectedKeyword
    | InvalidValue
    | InvalidType
    | InvalidLength(len: nat)
    | UnknownVariant(variant: string)
    | DuplicateField(field: string)
    | MissingField(field: string)

  /** The crate's `Result<T>`; usable with `:-` like Rust's `?`. */
  datatype Result<+T> = Ok(value: T) | Err(error: Error) {
    predicate IsFailure() {
      Err?
    }

    function PropagateFailure<U>(): Result<U>
      requires Err?
    {
      Err(error)
    }

    function Extract(): T
      requires Ok?
    {
      value
    }
  }
}
