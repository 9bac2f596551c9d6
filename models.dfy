/** The URL record and the create request of the models package. */
module Models {
  import opened Errors

  /** A `time.Time`, as nanoseconds since 1970-01-01T00:00:00Z. */
  type Time = int

  const NanosPerSecond: int := 1_000_000_000

  /** The zero `time.Time`, 0001-01-01T00:00:00Z, which Go reports through `IsZero`. */
  const ZeroTime: Time := -62_135_596_800 * NanosPerSecond

  /** Whether `t` is Go's zero time. The zero time lies on a whole second
      before the Unix epoch, so no reading of a clock set after 1970 is zero. */
  predicate IsZero(t: Time): (b: bool)
    ensures b ==> t < 0 && t % NanosPerSecond == 0
  {
    t == ZeroTime
  }

  /** One stored short URL. `shortURL` is the full link the shortener attaches;
      the record type of the repository lacks this field although the shortener
      sets it, so the model adds it. */
  datatype URL = URL(
    shortCode: string,
    originalURL: string,
    shortURL: string,
    createdAt: Time,
    expiresAt: Time)

  /** The body of a create request; `expiresAt` is an optional time. */
  datatype CreateURLRequest = CreateURLRequest(url: string, expiresAt: Option<Time>)
  {
    /** The request check only rejects an empty URL; scheme and host are not examined. */
    function Validate(): (r: Outcome)
      ensures r == Fail(EmptyURL) <==> url == ""
      ensures r == Pass <==> url != ""
    {
      if url == "" then Fail(EmptyURL) else Pass
    }
  }

  /** A fresh record for `shortCode` and `originalURL`, created at `now` and
      never expiring. */
  function NewURL(originalURL: string, shortCode: string, now: Time): (u: URL)
    ensures u.shortCode == shortCode && u.originalURL == originalURL
    ensures u.createdAt == now
    ensures IsZero(u.expiresAt)
  {
    URL(shortCode, originalURL, "", now, ZeroTime)
  }
}
