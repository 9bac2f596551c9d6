# Go-Shortener core in Dafny

A model of the short-code allocation and URL-persistence engine of
Go-Shortener, a URL shortener backed by DynamoDB.

- **Code generator** (`Shortener`): a `Shortener` object holds a base URL with
  its trailing slashes trimmed and a counter table. `GenerateShortCode` takes
  the next value of the day's counter. It combines that value with the last
  six decimal digits of the Unix second, as `(seconds mod 10^6) * 1000 +
  counter`. The result is written in base 62 and left-padded with `'0'` to
  six symbols. `CreateShortURL` validates the URL, then generates a code, then
  builds the record with its full short link. `ValidateURL` rejects the empty
  string, anything that does not parse, and URLs without a scheme or host.
- **Day-bucketed counter** (`Counter`): a `CounterStorage` object holds a map
  from UTC date keys (`YYYY-MM-DD`) to counter values. `GetNextCounter` adds
  one to the bucket of the current day, an absent bucket counting as zero.
  `CleanupOldBuckets` walks the scanned keys and deletes the buckets dated
  before a cutoff. It skips keys that are not dates and stops at the first
  deletion that fails.
- **Record store** (`Store`): a `URLStore` object holds a map from short code
  to record. `Create` is a first-writer-wins conditional insert. `Get`
  reports a missing code as not found and applies the expiry rule when it
  reads. `Delete` succeeds whether or not the code is present.
- **Records and errors** (`Models`, `Errors`): the URL record, `NewURL`, the
  create request's emptiness check, and the five sentinel errors.
- **Supporting modules**:
  - `Base62` is the base-62 encoder the generator depends on. The package the
    generator imports is not a Go standard package, so the model supplies its
    own encoder, with `'0'` as the zero digit.
  - `UrlParse` is the scheme/host split of Go's `net/url.Parse`.
  - `Calendar` converts between proleptic Gregorian dates and day numbers. It
    also writes and reads the `2006-01-02` layout.

Time is an integer number of nanoseconds since 1970-01-01T00:00:00Z, passed
in by the caller. Go's zero `time.Time` is the constant `ZeroTime`. The
generator reads the clock several times (for the bucket key, for the
timestamp, and for the record's creation time), so each reading is its own
parameter. Each DynamoDB call that can fail is stood in for by a parameter
saying whether it fails. A call that fails changes nothing.

Two facts about the code shape the model.

- `CreateShortURL` (pkg/shortener/shortener.go:79-93) returns the record
  without storing it. Storing it is left to the caller, through
  `Store.URLStore.Create`.
- The record type (internal/models/url.go:8-13) has no `ShortURL` field,
  although shortener.go:90 sets one. The model's `URL` record has the field,
  so the link the code builds is kept.

## Model

| member | source | states |
|---|---|---|
| Errors.SentinelsDistinct | internal/models/errors.go:5-11 | the five sentinel errors are pairwise distinct and so are their messages, so callers can tell each pair apart by equality (empty from invalid, not found from expired) |
| Models.CreateURLRequest.Validate | internal/models/url.go:28-33 | the request check fails with EmptyURL exactly when the URL is empty and passes otherwise, whatever the scheme or host |
| Models.IsZero | internal/storage/dynamodb.go:76 | Go's zero time is a whole second before the Unix epoch, so no clock reading after 1970 is zero |
| Models.NewURL | internal/models/url.go:36-41 | a new record keeps the code and original URL unchanged, is created at the supplied time and has a zero expiry time |
| Base62.Encode | pkg/shortener/shortener.go:50 | the encoding of a number is a non-empty string of base-62 digits that starts with the zero digit only for the number zero |
| Base62.DecodeEncode | pkg/shortener/shortener.go:50 | decoding an encoding gives back the number, so the encoder is injective |
| Base62.EncodeDecode | pkg/shortener/shortener.go:50 | every numeral without a superfluous leading zero is the encoding of its value, so the encoder is a bijection onto canonical numerals |
| Base62.PadLeft | pkg/shortener/shortener.go:53-55 | padding reaches the width or keeps a longer string whole: its length is the larger of the two, the input is its suffix, and everything before is the zero digit |
| Base62.DecodePadLeft | pkg/shortener/shortener.go:53-55 | padding with the zero digit does not change the value of a numeral |
| Base62.PaddedEncodingInjective | pkg/shortener/shortener.go:50-55 | two numbers with the same padded encoding are equal |
| Base62.EncodeLength | pkg/shortener/shortener.go:50-55 | an encoding has at most k digits exactly when the number is below 62^k |
| UrlParse.SchemeScan | pkg/shortener/shortener.go:66 | a scheme found by the scan is a scheme name followed by its first colon; a missing scheme is reported exactly when the text starts with a colon; no scheme is reported only when no prefix is a scheme name followed by a colon |
| UrlParse.SchemeScanName | pkg/shortener/shortener.go:66 | a scheme name followed by a colon is always found as the scheme, with the rest after the colon |
| UrlParse.Parse | pkg/shortener/shortener.go:66 | a control character before the fragment and a leading colon are parse errors; a non-empty scheme is a scheme name; a host holds no `@` and no `/` |
| UrlParse.ParseAbsolute | pkg/shortener/shortener.go:66-73 | `scheme://host`, bare or followed by a path, a query or a fragment, parses to exactly that scheme and host |
| UrlParse.ParsedHostShape | pkg/shortener/shortener.go:66-73 | a parse with a non-empty scheme and host is a scheme name, a colon, two slashes and a character other than `/`, `?` or `#`, with no control character before the fragment |
| Calendar.Civil | internal/storage/counter.go:22 | every day number is the day number of a unique valid calendar date |
| Calendar.CivilOfDayNumber | internal/storage/counter.go:22 | converting a valid date to its day number and back gives the same date |
| Calendar.EpochIsFirstUnixDay | internal/storage/counter.go:22 | day 0 of Unix time is 1970-01-01 |
| Calendar.FormatDate | internal/storage/counter.go:22 | a date with a year from 0 to 9999 is written as ten characters with dashes at positions 4 and 7; a negative year starts with a sign and a year past 9999 makes the text longer |
| Calendar.ParseDate | internal/storage/counter.go:82 | a key that parses with the `2006-01-02` layout gives a valid date with a four-digit year |
| Calendar.ParseFormat | internal/storage/counter.go:82 | parsing a formatted date with a year from 0 to 9999 gives back the date |
| Calendar.ParseFormatOutOfRange | internal/storage/counter.go:82 | the formatted date of any other year does not parse with the layout |
| Calendar.FormatParse | internal/storage/counter.go:82 | every string that parses is the formatted form of its date, so the layout admits one spelling per date |
| Counter.BucketDate | internal/storage/counter.go:21-23 | the bucket date of an instant is the valid calendar date of its UTC day |
| Counter.BucketKeyRoundTrip | internal/storage/counter.go:17-23 | parsing a bucket key gives back the UTC day it was made for, for every year from 0 to 9999; the key of any other year does not parse |
| Counter.ParseKeyOfDate | internal/storage/counter.go:21-23 | the key written for a valid date parses back to that date's Unix day when the year has four digits, and does not parse otherwise |
| Counter.ParseBucketKeyOf | internal/storage/counter.go:82-86 | a key that parses to a date names that date's Unix day |
| Counter.BucketKey | internal/storage/counter.go:21-23 | for a year from 0 to 9999 the key of an instant is ten characters with dashes at positions 4 and 7, the `YYYY-MM-DD` shape of the layout; `Counter.BucketKeyRoundTrip` reads it back |
| Counter.ParseBucketKey | internal/storage/counter.go:82-85 | a key names a day exactly when it parses with the `2006-01-02` layout |
| Counter.ParsedDayIsDate | internal/storage/counter.go:82-85 | the day a key names is the day whose calendar date the key spells |
| Counter.ZeroTimeIsYearOne | internal/models/url.go:36-41 | the zero time a new record carries as its expiry falls on 0001-01-01, Go's zero date |
| Counter.ParsedKeyIsBucketKey | internal/storage/counter.go:82-86 | every key that parses is the bucket key of the day it names |
| Counter.SameKeySameDate | internal/storage/counter.go:21-23 | a date with a year from 0 to 9999 and any other valid date are written alike exactly when they are the same date |
| Counter.SameBucketSameDay | internal/storage/counter.go:20-23 | two instants share a bucket key exactly when they fall on the same UTC day |
| Counter.Increment | internal/storage/counter.go:44 | an increment gives the bucket one more than before (an absent bucket counts as zero), adds no other key and changes no other bucket |
| Counter.Reply | internal/storage/counter.go:57-62 | the caller gets the stored value when it fits in a signed 64-bit integer, and otherwise a parse error with no value |
| Counter.RunOfOneBucket | internal/storage/counter.go:35-62 | n successive increments of a bucket holding c return c+1 to c+n |
| Counter.FreshBucketCountsFromOne | internal/storage/counter.go:35-62 | n successive increments of an absent bucket return exactly 1 to n |
| Counter.RunIncreasesPerBucket | internal/storage/counter.go:35-62 | over any sequence of increments, two calls that hit the same bucket return different values, and the later one is larger |
| Counter.Cutoff | internal/storage/counter.go:67 | the cutoff lies exactly daysToKeep UTC days before now, at the same time of day |
| Counter.IsStale | internal/storage/counter.go:80-87 | only a key that parses as a date can be stale |
| Counter.StaleByDay | internal/storage/counter.go:80-87 | a key is stale exactly when it parses and names a day before the cutoff's day, or the cutoff's own day when the cutoff is after midnight |
| Counter.StaleDays | internal/storage/counter.go:67-87 | a day is before the cutoff exactly when it is more than daysToKeep days before today, or exactly daysToKeep days before while now is not midnight |
| Counter.TodaySurvives | internal/storage/counter.go:67-87 | with daysToKeep at least 1, today's bucket is never stale |
| Counter.StaleKeys | internal/storage/counter.go:80-99 | the stale keys are the scanned keys that parse as dates and are dated before the cutoff |
| Counter.FirstFailure | internal/storage/counter.go:95-98 | the stop position is the first stale key whose deletion fails, or the end of the scan |
| Counter.CleanupKeepsToday | internal/storage/counter.go:67-99 | with daysToKeep at least 1, today's bucket is still present with its value after any cleanup, wherever it stops |
| Counter.CleanupKeepsFresh | internal/storage/counter.go:80-99 | when the scan lists every bucket and no deletion fails, the table afterwards is the old table restricted to the buckets that are not stale |
| Counter.CounterStorage.constructor | internal/storage/counter.go:29-33 | a new storage object starts with an empty counter table |
| Counter.CounterStorage.GetNextCounter | internal/storage/counter.go:36-63 | a failed update changes nothing and returns an error; otherwise today's bucket is incremented and the new value is returned, or a parse error after the store has changed |
| Counter.CounterStorage.CleanupOldBuckets | internal/storage/counter.go:66-103 | a failed scan deletes nothing; otherwise exactly the stale keys before the first failed deletion are deleted, and the result names the key whose deletion failed |
| Shortener.GoRem | pkg/shortener/shortener.go:46 | Go's remainder lies strictly between -b and b, differs from the dividend by a multiple of b, equals the Euclidean remainder for a non-negative dividend and is not positive for a negative one, which fixes it as the truncated remainder |
| Shortener.UnixSeconds | pkg/shortener/shortener.go:41 | the Unix second of an instant is the whole second it falls in, rounded down |
| Shortener.Combine | pkg/shortener/shortener.go:46-50 | the combined value as the encoder receives it lies in the unsigned 64-bit range |
| Shortener.ShortCode | pkg/shortener/shortener.go:50-55 | a code is six symbols or the full encoding if that is longer, never truncated, and decodes to the combined value |
| Shortener.ShortCodeInjective | pkg/shortener/shortener.go:50-55 | distinct combined values give distinct codes |
| Shortener.ShortCodeLengthBound | pkg/shortener/shortener.go:53-55 | a code is exactly six symbols long exactly when the value is below 62^6 |
| Shortener.CombineInjective | pkg/shortener/shortener.go:46-47 | with counters below 1000 the combined value determines the timestamp's last six digits and the counter |
| Shortener.CollisionPastCounterSpan | pkg/shortener/shortener.go:47 | the bound is needed: second 0 with counter 1001 gives the same code as second 1 with counter 1 |
| Shortener.CollisionAcrossWindows | pkg/shortener/shortener.go:44-47 | the same counter value gives the same code again 10^6 seconds later |
| Shortener.CodesDistinctWithinWindow | pkg/shortener/shortener.go:41-55 | within less than 10^6 seconds after the epoch, different (second, counter) pairs with counters below 1000 give different codes |
| Shortener.SixSymbolCodes | pkg/shortener/shortener.go:46-55 | after the epoch every counter up to 10^9, including 42 and 1000000, gives a six-symbol code |
| Shortener.PreEpochCodeIsLonger | pkg/shortener/shortener.go:46-55 | a negative remainder before the epoch wraps around to an eleven-symbol code, which is kept whole |
| Shortener.TrimRightSlash | pkg/shortener/shortener.go:27 | trimming gives the longest prefix not ending in a slash that is followed only by slashes |
| Shortener.TrimIgnoresTrailingSlashes | pkg/shortener/shortener.go:27 | any number of trailing slashes on the base URL gives the same trimmed base |
| Shortener.ValidateURL | pkg/shortener/shortener.go:61-76 | validation fails with EmptyURL exactly for the empty string, and every other failure is InvalidURL |
| Shortener.ValidAbsoluteURL | pkg/shortener/shortener.go:66-75 | every `scheme://host` URL, bare or with a path, query or fragment, passes validation |
| Shortener.ValidURLShape | pkg/shortener/shortener.go:66-75 | every URL that passes starts with a scheme name, a colon and two slashes followed by a character other than `/`, `?` or `#` |
| Shortener.RejectedWithoutSchemeSlashes | pkg/shortener/shortener.go:71-73 | a non-empty string with no room for `scheme://` and a host is rejected as invalid |
| Shortener.AcceptedExamples | pkg/shortener/shortener.go:61-76 | a bare https URL, one with a path and one with a query pass validation |
| Shortener.RejectedExamples | pkg/shortener/shortener.go:61-76 | the empty string is EmptyURL; `not-a-url`, `example.com` and `https://` are InvalidURL |
| Shortener.ValidateURLStricterThanRequest | pkg/shortener/shortener.go:61-76 | a URL that passes validation also passes the request check |
| Shortener.RequestCheckAcceptsMore | pkg/shortener/shortener.go:61-76 | `not-a-url` passes the request check while validation rejects it as invalid |
| Shortener.JoinLink | pkg/shortener/shortener.go:96-98 | a link made of a base, a slash and a code starts with the base, and a code without a slash can be read back after the last slash |
| Shortener.Shortener.constructor | pkg/shortener/shortener.go:25-30 | the shortener keeps the base URL with its trailing slashes trimmed, and the counter it is given |
| Shortener.Shortener.GetShortURL | pkg/shortener/shortener.go:96-98 | the link is the trimmed base, one slash and the code; it starts with the base and gives back a slash-free code after its last slash |
| Shortener.Shortener.GenerateShortCode | pkg/shortener/shortener.go:33-58 | a counter failure is passed on wrapped, with no code and no counter change; otherwise the bucket of the counter's clock is incremented and the code is that of the combined value of the timestamp and the new counter |
| Shortener.Shortener.CreateShortURL | pkg/shortener/shortener.go:79-93 | an invalid URL returns the validation error without touching the counter; a failed counter update is passed on without touching the counter; otherwise the bucket is incremented and the call succeeds exactly when the new counter value fits in 64 bits, returning the new record of the URL and the code of that value, with its short link and no expiry, and else returns the wrapped parse error |
| Store.IsExpired | internal/storage/dynamodb.go:76 | a record with a zero expiry never expires; one with an expiry has expired exactly when now is strictly after it |
| Store.Lookup | internal/storage/dynamodb.go:66-80 | a read returns not found exactly for an absent code, expired exactly when the stored record has expired, and otherwise the stored record |
| Store.Put | internal/storage/dynamodb.go:35-50 | the insert fails as a duplicate exactly when the code is taken, and then leaves the table unchanged; otherwise it adds the record under its code and keeps every other entry |
| Store.PutThenLookup | internal/storage/dynamodb.go:29-81 | a record that was just stored is read back unchanged, with the same original URL, until it expires |
| Store.FirstWriterWins | internal/storage/dynamodb.go:38-46 | a second insert under a stored code is refused and the first record is still what is read |
| Store.ZeroExpiryNeverExpires | internal/storage/dynamodb.go:76 | a record with zero expiry time is never expired, whatever the time |
| Store.ExpiryIsExclusive | internal/storage/dynamodb.go:76-78 | at exactly its expiry time a record is still returned, and one nanosecond later it has expired |
| Store.NewRecordNeverExpires | internal/storage/dynamodb.go:76 | a record built by NewURL is never expired |
| Store.RemoveIdempotent | internal/storage/dynamodb.go:83-96 | deleting twice equals deleting once, and deleting an absent code changes nothing |
| Store.URLStore.constructor | internal/storage/dynamodb.go:23-27 | a new store starts with an empty table |
| Store.URLStore.Create | internal/storage/dynamodb.go:29-51 | a failed put changes nothing; otherwise the table and result are those of the conditional insert |
| Store.URLStore.Get | internal/storage/dynamodb.go:53-81 | a failed read returns a backend error; otherwise the result is the lookup of the code at that time, and the table is never changed |
| Store.URLStore.Delete | internal/storage/dynamodb.go:83-97 | a failed delete changes nothing; otherwise the code is removed, whether or not it was present, and the call succeeds |

## Left out

- The DynamoDB client is not modelled. Its calls become map operations, and a
  bool parameter (a set of keys, for the bucket deletions) says which calls
  fail. Table names, request shapes and context cancellation are left out.
- Marshalling is the identity. The marshal failure in `Create` and the
  unmarshal failure in `Get` cannot occur in the model.
- Wrapped errors keep only which backend call failed; the message text and
  the underlying cause are dropped. A failing call returns no value, not the
  accompanying `0`.
- Concurrency and the atomicity of the backend's update are not modelled.
  Calls are sequential, and uniqueness of counter values is stated over a
  sequence of calls (`Counter.RunIncreasesPerBucket`).
- Clock readings are parameters. Nothing says that later readings are
  larger, so a request that straddles midnight can take its counter from one
  day and its timestamp from the next, as in the code.
- The scan result is a parameter: one page of keys, in the backend's order.
  The code reads only the first page and does not page through the rest.
  An item without a string `BucketKey` (a failed type assertion in Go) is
  not representable.
- Counter.CounterStorage.GetNextCounter: the stored number fails to parse
  only when it lies outside the signed 64-bit range. A non-integral or
  malformed number attribute is not representable.
- Shortener.ValidateURL: only the scheme/host split of `net/url.Parse` is
  modelled. Go's checks of the host's characters, the port, percent-escapes
  and the user-info are left out, so some strings that Go rejects are
  accepted here (for example a host containing a space).
- The base-62 alphabet is `0-9A-Za-z`. No claim is made about the order of
  codes.
- Calendar: only the `2006-01-02` layout is modelled. For a year outside 0 to
  9999 the formatted key has a sign or more than four digits and does not
  parse back. `Calendar.ParseFormatOutOfRange` states this.
- The gRPC server, the Lambda handlers, the test doubles and the statistics
  call lie outside the core.
