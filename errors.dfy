/** Failure results of capability discovery, and the Result type that carries them. */
module Errors {

  /** Every way discovery can fail. Each one aborts the whole sequence. */
  datatype Error =
    /** The Fitness Machine Feature characteristic is absent. */
    | CharacteristicNotFound
    /** The Feature characteristic did not hold exactly 8 bytes. */
    | FeatureLength(length: nat)
    /** A machine-features word has a bit outside positions 0..16. */
    | UndefinedFeatureBits(word: nat)
    /** A target-settings word has a bit outside positions 0..16. */
    | UndefinedSettingBits(word: nat)
    /** A movement-direction value other than 0 or 1. */
    | UndefinedDirection(value: int)
    /** The buffer ended before all values of a range were read. */
    | Truncated
    /** Bytes were left over after the three values of a range. */
    | TrailingData
    /** A failure raised by the transport's byte reader, passed on unchanged. */
    | Transport(code: nat)

  datatype Result<+T> = Ok(value: T) | Err(error: Error) {
    predicate IsFailure() { Err? }

    function PropagateFailure<U>(): Result<U>
      requires Err?
    {
      Err(error)
    }

    function Extract(): T
      requires Ok?
    {
      value
    }
  }
}
