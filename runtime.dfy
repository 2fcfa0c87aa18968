/** Values and failures of the .NET runtime that the two decoders rely on:
    unsigned bytes, unchecked 32-bit signed arithmetic, and the exceptions
    that abort a decode, modelled as the failure half of a Result. */
module Runtime {

  /** An unsigned byte, as returned by BinaryReader.ReadByte. */
  type byte = b: int | 0 <= b < 256

  const TWO_31: int := 0x8000_0000
  const TWO_32: int := 0x1_0000_0000

  /** Result of C#'s unchecked Int32 arithmetic on the exact value x. */
  function Wrap32(x: int): (r: int)
    ensures -TWO_31 <= r < TWO_31
  {
    (x + TWO_31) % TWO_32 - TWO_31
  }

  /** Wrap-around changes nothing when the exact value fits in an Int32. */
  lemma Wrap32Identity(x: int)
    requires -TWO_31 <= x < TWO_31
    ensures Wrap32(x) == x
  {
  }

  /** The exceptions that abort a decode. */
  datatype Error =
    | EndOfStream                 // EndOfStreamException: a read past the end of the stream
    | NegativeSeek(offset: int)   // IOException: a seek before the beginning of the stream
    | NegativeCount(count: int)   // ArgumentOutOfRangeException from BinaryReader.ReadBytes
    | NegativeArraySize(size: int) // OverflowException from `new T[size]`
    | BadDiamondLength(length: int) // the decoder's own exception for a diamond block
    | IndexOutOfRange(index: int) // IndexOutOfRangeException from a pixel store
    | SubstringOutOfRange         // ArgumentOutOfRangeException from String.Substring
    | KeyNotFound(key: string)    // KeyNotFoundException from a dictionary lookup

  /** A value, or the exception that replaced it. */
  datatype Result<+T> = Success(value: T) | Failure(error: Error) {
    predicate IsFailure() {
      Failure?
    }

    function PropagateFailure<U>(): Result<U>
      requires Failure?
    {
      Failure(error)
    }

    function Extract(): T
      requires Success?
    {
      value
    }
  }
}
