/** Failure-compatible results of the deletion-vector codec, with one error variant per
    exception the Java code can raise on the paths that are modelled. */
module Results {

  datatype Option<+T> = None | Some(value: T)

  datatype Error =
    | SizeMismatch(expected: int, actual: int)        // stored size field differs from the descriptor
    | ChecksumMismatch                                // stored CRC-32 differs from the recomputed one
    | BadMagic(magic: int)                            // payload does not start with the portable magic
    | NegativeKey(key: int)                           // a payload segment key below zero
    | NotSupported(storageType: string)               // storage types "i" and "p"
    | IllegalArgument                                 // IllegalArgumentException (checkArgument, codec validation)
    | IllegalState                                    // IllegalStateException (checkState on the skip)
    | CardinalityMismatch(expected: int, actual: int) // decoded positions differ from the descriptor's count
    | IntOverflow                                     // ArithmeticException of toIntExact, int cardinality overflow
    | Truncated                                       // EOFException / BufferUnderflowException
    | MalformedBitmap                                 // the bitmap codec refuses its input
    | NegativeArraySize                               // new byte[n] with n < 0
    | FileNotFound                                    // opening a file that does not exist
    | MissingOffset                                   // NoSuchElementException of OptionalInt.orElseThrow
    | BufferOverflow                                  // BufferOverflowException of a full ByteBuffer
    | IndexOutOfBounds                                // StringIndexOutOfBoundsException of substring

  datatype Result<+T> = Success(value: T) | Failure(error: Error) {

    predicate IsFailure() {
      Failure?
    }

    function PropagateFailure<U>(): Result<U>
      requires Failure?
    {
      Failure(error)
    }

    function Extract(): T
      requires Success?
    {
      value
    }
  }
}
