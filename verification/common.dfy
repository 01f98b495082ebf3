/** Shared vocabulary of the adapter: optional values, bytes, the error names
    the host understands, remote replies and the entry metadata record. */
module Common {

  /** A value that may be absent (a JavaScript `undefined`/`null` field). */
  datatype Option<+T> = None | Some(value: T)

  newtype byte = b: int | 0 <= b < 0x100

  type Bytes = seq<byte>

  /** The error names handed to the host, plus free-text reasons that the
      authorization steps pass through unchanged. */
  datatype ErrorCode =
    | NotFound
    | InvalidOperation
    | Failed
    | AlreadyMounted
    | CredentialNotFound
    | AccessTokenNotFound
    | Reason(text: string)

  /** The single outcome delivered for one remote call or one host request. */
  datatype Reply<+T> = Ok(value: T) | Err(code: ErrorCode)

  /** A JavaScript `Date`: a millisecond instant, or the invalid date that
      `new Date(undefined)` yields. */
  datatype Time = Date(millis: int) | InvalidDate

  /** `getTime()` equality: an invalid date reads as NaN, which equals nothing. */
  predicate SameTime(a: Time, b: Time)
  {
    a.Date? && b.Date? && a.millis == b.millis
  }

  /** The entry metadata the adapter hands to the host. */
  datatype Metadata = Metadata(
    isDirectory: bool,
    name: string,
    size: int,
    modificationTime: Time,
    mimeType: Option<string>,
    thumbnail: Option<string>)

  /** A JavaScript truthiness test on an optional string. */
  predicate Truthy(s: Option<string>)
  {
    s.Some? && s.value != ""
  }
}
