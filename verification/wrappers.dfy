/**
 Failure-compatible results. Every exception the library throws and every
 `null` a `Parse` returns becomes a `Failure` carrying one of these errors.
 */
module Wrappers {

  datatype Error =
    | InvalidPackageSize   // a Parse given the wrong number of bytes ("INVALID PACKAGE SIZE", returns null)
    | WrongLength          // `Long(byte[])` given other than 8 bytes
    | TooLarge             // a value above a declared maximum (payload, header size, URI)
    | TypeOutOfRange       // a header type outside 0..255
    | CapacityExceeded     // more than 25 send-many transfers
    | OutOfRange           // an Array.Copy / AsSpan range outside its array
    | NegativeSize         // `new byte[n]` with n < 0

  datatype Option<+T> = None | Some(value: T)

  datatype Result<+T> = Success(value: T) | Failure(error: Error) {

    predicate IsFailure() {
      Failure?
    }

    function PropagateFailure<U>(): Result<U>
      requires Failure?
    {
      Failure(error)
    }

    function Extract(): T
      requires Success?
    {
      value
    }

    /** The value, or `None` where the source would hand on `null`. */
    function ToOption(): (r: Option<T>)
      ensures r.Some? <==> Success?
      ensures r.Some? ==> r.value == value
    {
      if Success? then Some(value) else None
    }
  }
}
