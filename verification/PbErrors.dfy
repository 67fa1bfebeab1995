/** Error codes of the Protocol Buffers codec and the result type its operations return. */
module PbErrors {

  // The names follow the source's error enumeration.  OutOfBounds is the model's own: it marks the
  // one read the source does not check against the end of its input (a bytes field's length).
  datatype PbError =
    | TagMismatch
    | VarintTooLarge
    | VarintIncomplete
    | FixedIncomplete
    | RepeatedIncomplete
    | MsgIncomplete
    | InvalidLength
    | MoreDataThanRequired
    | RequiredFieldMissing
    | OutOfBounds

  // A successful read yields a value and the number of bytes it consumed.
  datatype Read<+T> = Ok(value: T, used: nat) | Err(error: PbError)

  // A read that consumes everything it is given.
  datatype Result<+T> = Success(value: T) | Failure(error: PbError)
}
