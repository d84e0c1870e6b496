/**
 Error kinds of the codec and a failure-compatible result type, so that
 encode and decode can be written with `:-`.
 */
module Results {

  datatype Error =
    | SizeOverflow   // more values than a 3-byte count can hold
    | FormatError    // header with a foreign version, payload type or count width
    | OutOfBounds    // a read past the end of the encoded buffer
    | BadControl     // six 1 bits where a control code was expected
    | TooFewValues   // a count field below 2: the preamble always carries two values

  datatype Result<+T> = Ok(value: T) | Err(error: Error) {

    predicate IsFailure() {
      Err?
    }

    function PropagateFailure<U>(): Result<U>
      requires Err?
    {
      Err(error)
    }

    function Extract(): T
      requires Ok?
    {
      value
    }
  }
}
