/** Types shared by the whole model. */
module Common {

  /** One byte of an image; `^` on it is the source's `^` on `unsigned char`. */
  type Byte = bv8

  datatype Option<+T> = None | Some(value: T)

  /** The exceptions thrown by the builder and by diffFiles. */
  datatype Error =
    | SizeMismatch      // "Orig and patched file must be of the same size!"
    | StartOfFileHit    // "Start of file hit while extending the match pattern!"
    | EndOfFileHit      // "End of file hit while extending the match pattern!"
    | TooCloseToEOF     // "Last change too close to EOF!"

  datatype Result<+T> = Success(value: T) | Failure(error: Error)

  /** Overwriting the bytes from location on. */
  function WriteAt(out: seq<Byte>, location: nat, bytes: seq<Byte>): (r: seq<Byte>)
    requires location + |bytes| <= |out|
    ensures |r| == |out|
  {
    out[..location] + bytes + out[location + |bytes|..]
  }
}
