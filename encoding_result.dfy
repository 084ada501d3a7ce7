/**
 * Error translation: the outcome of a raw stream operation becomes an
 * EncodingResult, which is either a value or one of two sentinel status
 * codes, BadEncoding (a write failed) and BadDecoding (a read failed).
 */
module EncodingResults {

  /** Why a raw stream operation failed; none of this survives translation. */
  datatype IoError = UnexpectedEof | StorageFull | Other(code: int)

  /** The outcome of a raw stream operation (std::io::Result). */
  datatype IoResult<T> = IoOk(value: T) | IoErr(error: IoError)

  /** A value, or one of the two static sentinel errors; usable with `:-` like the source's `?`. */
  datatype EncodingResult<T> = Ok(value: T) | BadEncoding | BadDecoding {

    predicate IsFailure() {
      !Ok?
    }

    /** Passes a sentinel on unchanged to a caller with a different value type. */
    function PropagateFailure<U>(): (r: EncodingResult<U>)
      requires !Ok?
      ensures !r.Ok?
      ensures r.BadEncoding? <==> BadEncoding?
    {
      if BadEncoding? then BadEncoding else BadDecoding
    }

    function Extract(): T
      requires Ok?
    {
      value
    }
  }

  /** The outcome of a write: the byte count on success, BadEncoding whatever the cause of a failure. */
  function ProcessEncodeIoResult(io: IoResult<nat>): (r: EncodingResult<nat>)
    ensures r.Ok? <==> io.IoOk?
    ensures r.Ok? ==> r.value == io.value
    ensures !r.Ok? ==> r == BadEncoding
  {
    match io
    case IoOk(n) => Ok(n)
    case IoErr(_) => BadEncoding
  }

  /** The outcome of a read: the value on success, BadDecoding whatever the cause of a failure. */
  function ProcessDecodeIoResult<T>(io: IoResult<T>): (r: EncodingResult<T>)
    ensures r.Ok? <==> io.IoOk?
    ensures r.Ok? ==> r.value == io.value
    ensures !r.Ok? ==> r == BadDecoding
  {
    match io
    case IoOk(v) => Ok(v)
    case IoErr(_) => BadDecoding
  }
}
