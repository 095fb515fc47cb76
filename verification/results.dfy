/** Values shared by every decoder: bytes, optional values and the outcome of a decode. */
module Results {

  /** One byte of a WebAssembly binary. */
  type uint8 = b: nat | b < 256

  datatype Option<T> = None | Some(value: T)

  /** The failures of the binary decoder (ParserStreamError in the source). */
  datatype ParseError =
    | UnexpectedEnd
    | Unexpected(byte: uint8, location: nat)
    | VectorInvalidLength(length: nat, location: nat)

  /** A decoded value with the offset just past it, or the first failure met. */
  datatype ParseResult<T> = Success(value: T, next: nat) | Failure(error: ParseError)

  /** An `Unexpected` failure names a byte that really is at the offset it reports. */
  predicate Located<T>(r: ParseResult<T>, s: seq<uint8>, pos: nat)
  {
    && (r.Success? ==> pos <= r.next <= |s|)
    && (r.Failure? && r.error.Unexpected? ==>
          pos <= r.error.location < |s| && s[r.error.location] == r.error.byte)
    && (r.Failure? && r.error.VectorInvalidLength? ==> pos <= r.error.location < |s|)
  }
}
