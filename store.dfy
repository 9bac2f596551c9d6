/** The URL record table: records keyed by short code.

    Storing is a conditional insert that only succeeds when the code is still
    free, lookups apply the expiry rule at read time and never change the
    table, and deleting an absent code is not an error. Each backend call may
    fail, which is a parameter of the operation; a failed call changes
    nothing. Records are stored as they are given: marshalling is the
    identity. */
module Store {
  import opened Errors
  import opened Models

  /** A record has expired when its expiry time is set and `now` is strictly
      after it. */
  predicate IsExpired(u: URL, now: Time): (b: bool)
    ensures IsZero(u.expiresAt) ==> !b
    ensures !IsZero(u.expiresAt) ==> (b <==> u.expiresAt < now)
  {
    !IsZero(u.expiresAt) && now > u.expiresAt
  }

  /** What a successful read of `code` at `now` returns: not found, expired,
      or the stored record itself. */
  function Lookup(table: map<string, URL>, code: string, now: Time): (r: Result<URL>)
    ensures r == Err(URLNotFound) <==> code !in table
    ensures r == Err(URLExpired) <==> code in table && IsExpired(table[code], now)
    ensures r.Ok? <==> code in table && !IsExpired(table[code], now)
    ensures r.Ok? ==> r.value == table[code]
  {
    if code !in table then Err(URLNotFound)
    else if IsExpired(table[code], now) then Err(URLExpired)
    else Ok(table[code])
  }

  /** The conditional insert: the record goes in under its own code when that
      code is free, and otherwise the table stays as it is. */
  function Put(table: map<string, URL>, u: URL): (r: (map<string, URL>, Outcome))
    ensures u.shortCode in table <==> r.1 == Fail(DuplicateShortCode)
    ensures r.1 == Fail(DuplicateShortCode) || r.1 == Pass
    ensures r.1 == Fail(DuplicateShortCode) ==> r.0 == table
    ensures r.1 == Pass ==> r.0.Keys == table.Keys + {u.shortCode} && r.0[u.shortCode] == u
    ensures forall c :: c in table ==> c in r.0 && r.0[c] == table[c]
  {
    if u.shortCode in table then (table, Fail(DuplicateShortCode))
    else (table[u.shortCode := u], Pass)
  }

  /** A record that was just stored is found again under its code, with the
      same original URL, until it expires. */
  lemma PutThenLookup(table: map<string, URL>, u: URL, now: Time)
    requires Put(table, u).1 == Pass && !IsExpired(u, now)
    ensures Lookup(Put(table, u).0, u.shortCode, now) == Ok(u)
  {
  }

  /** First writer wins: once a code is stored, a second insert under the
      same code is refused and the first record is still what is read. */
  lemma FirstWriterWins(table: map<string, URL>, u1: URL, u2: URL, now: Time)
    requires Put(table, u1).1 == Pass && u2.shortCode == u1.shortCode
    ensures Put(Put(table, u1).0, u2) == (Put(table, u1).0, Fail(DuplicateShortCode))
    ensures !IsExpired(u1, now) ==> Lookup(Put(Put(table, u1).0, u2).0, u1.shortCode, now) == Ok(u1)
  {
  }

  /** A record whose expiry time is zero never expires. */
  lemma ZeroExpiryNeverExpires(u: URL, now: Time)
    requires IsZero(u.expiresAt)
    ensures !IsExpired(u, now)
  {
  }

  /** At exactly its expiry time a record is still served; one nanosecond
      later it has expired. */
  lemma ExpiryIsExclusive(u: URL)
    requires !IsZero(u.expiresAt)
    ensures !IsExpired(u, u.expiresAt)
    ensures IsExpired(u, u.expiresAt + 1)
  {
  }

  /** A record built by `NewURL` is served whenever it is looked up. */
  lemma NewRecordNeverExpires(originalURL: string, shortCode: string, created: Time, now: Time)
    ensures !IsExpired(NewURL(originalURL, shortCode, created), now)
  {
  }

  /** Deleting twice is the same as deleting once. */
  lemma RemoveIdempotent(table: map<string, URL>, code: string)
    ensures table - {code} - {code} == table - {code}
    ensures code !in table ==> table - {code} == table
  {
  }

  class URLStore {
    /** The record table: short code to record. */
    var table: map<string, URL>

    /** A store over an empty table. */
    constructor ()
      ensures table == map[]
    {
      table := map[];
    }

    /** Stores `u` under its code unless the code is taken; a taken code is
        reported as a duplicate and leaves the table as it was. */
    method Create(u: URL, putFails: bool) returns (r: Outcome)
      modifies this
      ensures putFails ==> r == Fail(BackendFailure(PutItem)) && table == old(table)
      ensures !putFails ==> (table, r) == Put(old(table), u)
    {
      if putFails {
        return Fail(BackendFailure(PutItem));
      }
      if u.shortCode in table {
        return Fail(DuplicateShortCode);
      }
      table := table[u.shortCode := u];
      return Pass;
    }

    /** Reads the record of `code` at `now`. The table is never changed, so an
        expired record stays stored. */
    method Get(code: string, now: Time, getFails: bool) returns (r: Result<URL>)
      ensures getFails ==> r == Err(BackendFailure(GetItem))
      ensures !getFails ==> r == Lookup(table, code, now)
    {
      if getFails {
        return Err(BackendFailure(GetItem));
      }
      if code !in table {
        return Err(URLNotFound);
      }
      var url := table[code];
      if !IsZero(url.expiresAt) && now > url.expiresAt {
        return Err(URLExpired);
      }
      return Ok(url);
    }

    /** Removes the record of `code`; an absent code is not an error. */
    method Delete(code: string, deleteFails: bool) returns (r: Outcome)
      modifies this
      ensures deleteFails ==> r == Fail(BackendFailure(DeleteItem)) && table == old(table)
      ensures !deleteFails ==> r == Pass && table == old(table) - {code}
    {
      if deleteFails {
        return Fail(BackendFailure(DeleteItem));
      }
      table := table - {code};
      return Pass;
    }
  }
}
