/** The error kinds of the shortener core.

    The five sentinel values of the models package become five constructors;
    the errors that the storage layer builds by wrapping a backend failure
    become `BackendFailure`, naming the call that failed, and the wrapping
    done by the code generator becomes `CounterFailure`. */
module Errors {

  /** The backend call whose failure an error reports. */
  datatype Operation =
    | UpdateCounter            // UpdateItem on the counter table
    | ParseCounter             // the stored counter does not parse as an int64
    | ScanCounters             // Scan of the counter table
    | DeleteBucket(key: string) // DeleteItem of one counter bucket
    | PutItem                  // PutItem of a URL record (other than a lost condition)
    | GetItem                  // GetItem of a URL record
    | DeleteItem               // DeleteItem of a URL record

  datatype Error =
    | EmptyURL
    | InvalidURL
    | URLNotFound
    | URLExpired
    | DuplicateShortCode
    | BackendFailure(op: Operation)
    | CounterFailure(cause: Error)
  {
    /** One of the five package-level sentinel values. */
    predicate IsSentinel() {
      EmptyURL? || InvalidURL? || URLNotFound? || URLExpired? || DuplicateShortCode?
    }
  }

  /** The text each sentinel carries. */
  function Message(e: Error): (m: string)
    requires e.IsSentinel()
  {
    match e
    case EmptyURL => "empty URL provided"
    case InvalidURL => "invalid URL format"
    case URLNotFound => "URL not found"
    case URLExpired => "URL has expired"
    case DuplicateShortCode => "duplicate short code"
  }

  /** An optional value (a Go pointer that may be nil). */
  datatype Option<T> = None | Some(value: T)

  /** A value or the error that replaced it. */
  datatype Result<T> = Ok(value: T) | Err(error: Error)

  /** A Go `error` result of an operation that returns nothing else: nil or an error. */
  datatype Outcome = Pass | Fail(error: Error)

  /** The five sentinels are pairwise distinct and so are their texts, so a
      caller comparing with `==` tells every pair apart. */
  lemma SentinelsDistinct(a: Error, b: Error)
    requires a.IsSentinel() && b.IsSentinel() && a != b
    ensures Message(a) != Message(b)
  {
  }
}
