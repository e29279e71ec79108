/** Failure-compatible result of a decode, and the ways decoding can fail.
    Every exception the deserializer can raise becomes one `Error` value. */
module Results {

  datatype Error =
    | OutOfRange         // an index, span or range past the end of the buffer, or of negative length
    | BadMarker          // the first byte of a unit is not the control byte
    | NegativeCount      // an array count the runtime refuses to allocate
    | PrimitiveTooShort  // fewer payload bytes than the primitive's native size
    | UnknownField       // a frame names no public field of the target type
    | CustomCodecFailed  // an override decoder rejected its payload

  datatype Result<+T> = Ok(value: T) | Err(error: Error) {

    predicate IsFailure() {
      Err?
    }

    function PropagateFailure<U>(): Result<U>
      requires Err?
    {
      Err(error)
    }

    function Extract(): T
      requires Ok?
    {
      value
    }
  }

  datatype Option<+T> = None | Some(value: T)
}
