/** The day-bucketed counter table: one counter per UTC date, keyed by the
    date written as `YYYY-MM-DD`.

    The table is a map from bucket key to counter value held by the
    `CounterStorage` object; the backend's atomic "set to old-or-zero plus
    one" becomes an ordinary update of that map. Every backend call may fail;
    which ones do is a parameter of the operation, and a failed call changes
    nothing. */
module Counter {
  import opened Errors
  import opened Models
  import opened Calendar

  /** 86400 seconds. */
  const NanosPerDay: int := 86_400_000_000_000

  const Int64Min: int := -0x8000_0000_0000_0000
  const Int64Max: int := 0x7FFF_FFFF_FFFF_FFFF

  /** The Unix day of an instant: whole days since 1970-01-01T00:00:00Z,
      rounded down, so instants before the epoch fall on negative days. */
  function UnixDay(now: Time): int {
    now / NanosPerDay
  }

  /** The UTC calendar date of an instant. */
  function BucketDate(now: Time): (d: Date)
    ensures IsValid(d) && DayNumber(d) == UnixDay(now) + EpochDay
  {
    Civil(UnixDay(now) + EpochDay)
  }

  /** The key of the bucket that counts codes issued at `now`: the UTC date in
      the `2006-01-02` layout. */
  function BucketKey(now: Time): (k: string)
    ensures 0 <= BucketDate(now).year <= 9999 ==> |k| == 10 && k[4] == '-' && k[7] == '-'
  {
    FormatDate(BucketDate(now))
  }

  /** The Unix day a key names when it parses with the `2006-01-02` layout. */
  function ParseBucketKey(key: string): (r: Option<int>)
    ensures r.Some? <==> ParseDate(key).Some?
  {
    match ParseDate(key)
    case None => None
    case Some(d) => Some(DayNumber(d) - EpochDay)
  }

  /** The day a key names is the day whose calendar date the key spells. */
  lemma ParsedDayIsDate(key: string)
    requires ParseBucketKey(key).Some?
    ensures Civil(ParseBucketKey(key).value + EpochDay) == ParseDate(key).value
  {
    CivilOfDayNumber(ParseDate(key).value);
  }

  /** Go's zero time falls on 0001-01-01. */
  lemma ZeroTimeIsYearOne()
    ensures BucketDate(ZeroTime) == Date(1, 1, 1)
  {
    assert UnixDay(ZeroTime) == -719_162;
    assert DayNumber(Date(1, 1, 1)) == EpochDay - 719_162;
    CivilOfDayNumber(Date(1, 1, 1));
  }

  /** Midnight of a Unix day falls on that day. */
  lemma MidnightDay(day: int)
    ensures UnixDay(day * NanosPerDay) == day
  {
  }

  /** Every key that parses is the bucket key of the day it names: the
      layout admits no second spelling of a date. */
  lemma ParsedKeyIsBucketKey(key: string)
    requires ParseBucketKey(key).Some?
    ensures BucketKey(ParseBucketKey(key).value * NanosPerDay) == key
  {
    var d := ParseDate(key).value;
    var day := DayNumber(d) - EpochDay;
    assert ParseBucketKey(key).value == day;
    MidnightDay(day);
    CivilOfDayNumber(d);
    assert BucketDate(day * NanosPerDay) == d;
    FormatParse(key);
  }

  /** Parsing a bucket key gives back the day it was made for, for every date
      whose year the layout can hold (0 to 9999); the key of any other date
      does not parse. */
  lemma BucketKeyRoundTrip(now: Time)
    ensures 0 <= BucketDate(now).year <= 9999 ==> ParseBucketKey(BucketKey(now)) == Some(UnixDay(now))
    ensures !(0 <= BucketDate(now).year <= 9999) ==> ParseBucketKey(BucketKey(now)) == None
  {
    var d := BucketDate(now);
    assert DayNumber(d) - EpochDay == UnixDay(now);
    ParseKeyOfDate(d);
  }

  /** The key written for a valid date parses back to that date's Unix day
      when its year has four digits, and does not parse otherwise. */
  lemma ParseKeyOfDate(d: Date)
    requires IsValid(d)
    ensures 0 <= d.year <= 9999 ==> ParseBucketKey(FormatDate(d)) == Some(DayNumber(d) - EpochDay)
    ensures !(0 <= d.year <= 9999) ==> ParseBucketKey(FormatDate(d)) == None
  {
    var key := FormatDate(d);
    if 0 <= d.year <= 9999 {
      ParseFormat(d);
      ParseBucketKeyOf(key, d);
    } else {
      ParseFormatOutOfRange(d);
      assert ParseDate(key) == None;
    }
  }

  /** A key that parses to a date names that date's Unix day. */
  lemma ParseBucketKeyOf(key: string, d: Date)
    requires ParseDate(key) == Some(d)
    ensures ParseBucketKey(key) == Some(DayNumber(d) - EpochDay)
  {
  }

  /** Two instants share a bucket exactly when they fall on the same UTC day. */
  lemma SameBucketSameDay(now1: Time, now2: Time)
    requires 0 <= BucketDate(now1).year <= 9999
    ensures BucketKey(now1) == BucketKey(now2) <==> UnixDay(now1) == UnixDay(now2)
  {
    var d1, d2 := BucketDate(now1), BucketDate(now2);
    assert BucketKey(now1) == FormatDate(d1) && BucketKey(now2) == FormatDate(d2);
    SameKeySameDate(d1, d2);
    SameDateSameDay(now1, now2);
  }

  /** Two instants have the same UTC date exactly when they have the same
      Unix day. */
  lemma SameDateSameDay(now1: Time, now2: Time)
    ensures BucketDate(now1) == BucketDate(now2) <==> UnixDay(now1) == UnixDay(now2)
  {
    var d1, d2 := BucketDate(now1), BucketDate(now2);
    if UnixDay(now1) == UnixDay(now2) {
      assert d1 == Civil(UnixDay(now1) + EpochDay) == d2;
    } else {
      assert DayNumber(d1) != DayNumber(d2);
    }
  }

  /** Two valid dates are written alike exactly when they are the same date,
      given that the first has a four-digit year. */
  lemma SameKeySameDate(d1: Date, d2: Date)
    requires IsValid(d1) && IsValid(d2) && 0 <= d1.year <= 9999
    ensures FormatDate(d1) == FormatDate(d2) <==> d1 == d2
  {
    if FormatDate(d1) == FormatDate(d2) {
      ParseFormat(d1);
      if 0 <= d2.year <= 9999 {
        ParseFormat(d2);
      } else {
        ParseFormatOutOfRange(d2);
      }
    }
  }

  /** The value a bucket holds, an absent bucket counting as zero. */
  function Current(buckets: map<string, int>, key: string): int {
    if key in buckets then buckets[key] else 0
  }

  /** The table after one successful increment of bucket `key`: that bucket
      holds one more than before and no other bucket changes. */
  function Increment(buckets: map<string, int>, key: string): (m: map<string, int>)
    ensures m.Keys == buckets.Keys + {key}
    ensures m[key] == Current(buckets, key) + 1
    ensures forall k :: k in buckets && k != key ==> m[k] == buckets[k]
  {
    buckets[key := Current(buckets, key) + 1]
  }

  /** What the caller receives for a stored value: the value itself, or a parse
      error when it lies outside the 64-bit signed range. */
  function Reply(v: int): (r: Result<int>)
    ensures r.Ok? <==> Int64Min <= v <= Int64Max
    ensures r.Ok? ==> r.value == v
    ensures r.Err? ==> r.error == BackendFailure(ParseCounter)
  {
    if Int64Min <= v <= Int64Max then Ok(v) else Err(BackendFailure(ParseCounter))
  }

  /** The values returned by successive successful increments of the buckets
      `keys`, starting from table `m`. */
  function Run(m: map<string, int>, keys: seq<string>): (vs: seq<int>)
    ensures |vs| == |keys|
    decreases |keys|
  {
    if keys == [] then [] else [Current(m, keys[0]) + 1] + Run(Increment(m, keys[0]), keys[1..])
  }

  /** `n` increments of one bucket. */
  function Repeat(key: string, n: nat): (ks: seq<string>)
    ensures |ks| == n && forall i :: 0 <= i < n ==> ks[i] == key
  {
    seq(n, _ => key)
  }

  /** A bucket holding `c` hands out c+1, c+2, ..., c+n to n successive calls;
      in particular a fresh bucket hands out exactly 1..n. */
  lemma {:induction false} RunOfOneBucket(m: map<string, int>, key: string, n: nat)
    ensures Run(m, Repeat(key, n)) == seq(n, i => Current(m, key) + i + 1)
    decreases n
  {
    if n > 0 {
      var m' := Increment(m, key);
      assert Repeat(key, n)[1..] == Repeat(key, n - 1);
      RunOfOneBucket(m', key, n - 1);
    }
  }

  lemma FreshBucketCountsFromOne(m: map<string, int>, key: string, n: nat)
    requires key !in m
    ensures Run(m, Repeat(key, n)) == seq(n, i => i + 1)
  {
    RunOfOneBucket(m, key, n);
  }

  /** A bucket's value never goes down under increments. */
  lemma {:induction false} RunAbove(m: map<string, int>, keys: seq<string>, j: nat)
    requires j < |keys|
    ensures Run(m, keys)[j] > Current(m, keys[j])
    decreases j
  {
    if j > 0 {
      var m' := Increment(m, keys[0]);
      RunAbove(m', keys[1..], j - 1);
      assert Current(m', keys[j]) >= Current(m, keys[j]);
    }
  }

  /** Over any sequence of calls, however the day rolls over between them, two
      calls that hit the same bucket return different values, the later one
      larger: within a day the counter never repeats. */
  lemma {:induction false} RunIncreasesPerBucket(m: map<string, int>, keys: seq<string>, i: nat, j: nat)
    requires i < j < |keys| && keys[i] == keys[j]
    ensures Run(m, keys)[i] < Run(m, keys)[j]
    decreases i
  {
    var m' := Increment(m, keys[0]);
    if i == 0 {
      RunAbove(m', keys[1..], j - 1);
    } else {
      RunIncreasesPerBucket(m', keys[1..], i - 1, j - 1);
    }
  }

  /** What a page of the counter table's scan returned: a failure, or the
      bucket keys of the items it holds, in the order the backend gave them. */
  datatype ScanResult = ScanFailed | Scanned(keys: seq<string>)

  /** The instant `daysToKeep` calendar days before `now`; in UTC every day
      is exactly 86400 seconds long. */
  function Cutoff(now: Time, daysToKeep: int): (c: Time)
    ensures UnixDay(c) == UnixDay(now) - daysToKeep
    ensures c % NanosPerDay == now % NanosPerDay
  {
    now - daysToKeep * NanosPerDay
  }

  /** A bucket is stale when its key parses and its date (midnight UTC) lies
      strictly before the cutoff; a key that does not parse is never stale. */
  predicate IsStale(key: string, cutoff: Time): (b: bool)
    ensures b ==> ParseDate(key).Some?
  {
    match ParseBucketKey(key)
    case None => false
    case Some(day) => day * NanosPerDay < cutoff
  }

  /** A key is stale exactly when it names a day before the cutoff's day, or
      names the cutoff's day and the cutoff is after that day's midnight. */
  lemma StaleByDay(key: string, cutoff: Time)
    ensures IsStale(key, cutoff) <==>
      ParseBucketKey(key).Some? &&
      (ParseBucketKey(key).value < UnixDay(cutoff) ||
       (ParseBucketKey(key).value == UnixDay(cutoff) && cutoff % NanosPerDay != 0))
  {
    if ParseBucketKey(key).Some? {
      DayBeforeCutoff(ParseBucketKey(key).value, cutoff);
    }
  }

  /** Midnight of `day` is before `cutoff` exactly when the day is before the
      cutoff's day, or is that day and the cutoff is after its midnight. */
  lemma DayBeforeCutoff(day: int, cutoff: Time)
    ensures day * NanosPerDay < cutoff <==>
      day < UnixDay(cutoff) || (day == UnixDay(cutoff) && cutoff % NanosPerDay != 0)
  {
    var t, r := UnixDay(cutoff), cutoff % NanosPerDay;
    var e := day - t;
    assert cutoff == t * 86_400_000_000_000 + r;
    assert day * 86_400_000_000_000 - cutoff == e * 86_400_000_000_000 - r;
    if e <= -1 {
      assert e * 86_400_000_000_000 <= -86_400_000_000_000;
    } else if e >= 1 {
      assert e * 86_400_000_000_000 >= 86_400_000_000_000;
    }
  }

  /** The keys among `keys` that are stale. */
  function StaleKeys(keys: seq<string>, cutoff: Time): (s: set<string>)
    ensures forall k :: k in s <==> k in keys && IsStale(k, cutoff)
  {
    set k | k in keys && IsStale(k, cutoff)
  }

  /** Extending the scanned prefix by one key adds that key to the stale
      set exactly when it is stale. */
  lemma StaleKeysStep(keys: seq<string>, i: nat, cutoff: Time)
    requires i < |keys|
    ensures StaleKeys(keys[..i + 1], cutoff)
         == StaleKeys(keys[..i], cutoff) + (if IsStale(keys[i], cutoff) then {keys[i]} else {})
  {
    assert keys[..i + 1] == keys[..i] + [keys[i]];
  }

  /** The position of the first stale key whose deletion fails, or `|keys|`
      when none does. */
  function FirstFailure(keys: seq<string>, cutoff: Time, failing: set<string>): (i: nat)
    ensures i <= |keys|
    ensures forall k :: 0 <= k < i ==> !(IsStale(keys[k], cutoff) && keys[k] in failing)
    ensures i < |keys| ==> IsStale(keys[i], cutoff) && keys[i] in failing
  {
    if keys == [] then 0
    else if IsStale(keys[0], cutoff) && keys[0] in failing then 0
    else 1 + FirstFailure(keys[1..], cutoff, failing)
  }

  /** The scan passes position `i` unless the first failing deletion is
      there. */
  lemma FirstFailureStep(keys: seq<string>, cutoff: Time, failing: set<string>, i: nat)
    requires i < |keys| && i <= FirstFailure(keys, cutoff, failing)
    ensures IsStale(keys[i], cutoff) && keys[i] in failing ==> FirstFailure(keys, cutoff, failing) == i
    ensures !(IsStale(keys[i], cutoff) && keys[i] in failing) ==> i + 1 <= FirstFailure(keys, cutoff, failing)
  {
  }

  /** Which days the retention rule removes: every day more than `daysToKeep`
      days before today, plus the day exactly `daysToKeep` days back unless
      `now` is midnight to the nanosecond; never a later day. */
  lemma StaleDays(now: Time, daysToKeep: int, day: int)
    ensures day * NanosPerDay < Cutoff(now, daysToKeep) <==>
      day < UnixDay(now) - daysToKeep ||
      (day == UnixDay(now) - daysToKeep && now % NanosPerDay != 0)
  {
    DayBeforeCutoff(day, Cutoff(now, daysToKeep));
  }

  /** Keeping at least one day never removes the bucket of today. */
  lemma TodaySurvives(now: Time, daysToKeep: int)
    requires daysToKeep >= 1
    ensures !IsStale(BucketKey(now), Cutoff(now, daysToKeep))
  {
    BucketKeyRoundTrip(now);
    StaleDays(now, daysToKeep, UnixDay(now));
  }

  /** Whatever the scan lists and wherever the cleanup stops, keeping at
      least one day leaves today's bucket and its value in place. */
  lemma CleanupKeepsToday(m: map<string, int>, keys: seq<string>, now: Time, daysToKeep: int, stop: nat)
    requires daysToKeep >= 1 && stop <= |keys| && BucketKey(now) in m
    ensures var rest := m - StaleKeys(keys[..stop], Cutoff(now, daysToKeep));
      BucketKey(now) in rest && rest[BucketKey(now)] == m[BucketKey(now)]
  {
    TodaySurvives(now, daysToKeep);
  }

  /** When the scan lists every bucket and no deletion fails, exactly the
      stale buckets go and every other bucket keeps its value. */
  lemma CleanupKeepsFresh(m: map<string, int>, keys: seq<string>, cutoff: Time, failing: set<string>)
    requires forall k :: k in m ==> k in keys
    requires FirstFailure(keys, cutoff, failing) == |keys|
    ensures m - StaleKeys(keys[..FirstFailure(keys, cutoff, failing)], cutoff)
         == map k | k in m && !IsStale(k, cutoff) :: m[k]
  {
    assert keys[..|keys|] == keys;
  }

  class CounterStorage {
    /** The counter table: bucket key to counter value. */
    var buckets: map<string, int>

    /** A storage object over an empty counter table. */
    constructor ()
      ensures buckets == map[]
    {
      buckets := map[];
    }

    /** Adds one to the bucket of `now` (an absent bucket starting from zero)
        and returns the new value. When the update fails nothing changes; when
        the stored value does not parse the table is already updated and an
        error is returned. */
    method GetNextCounter(now: Time, updateFails: bool) returns (r: Result<int>)
      modifies this
      ensures updateFails ==> r == Err(BackendFailure(UpdateCounter)) && buckets == old(buckets)
      ensures !updateFails ==>
        buckets == Increment(old(buckets), BucketKey(now)) &&
        r == Reply(Current(old(buckets), BucketKey(now)) + 1)
    {
      var key := BucketKey(now);
      if updateFails {
        return Err(BackendFailure(UpdateCounter));
      }
      var newValue := Current(buckets, key) + 1;
      buckets := buckets[key := newValue];
      assert buckets == Increment(old(buckets), key);
      if newValue < Int64Min || Int64Max < newValue {
        r := Err(BackendFailure(ParseCounter));
      } else {
        r := Ok(newValue);
      }
      assert r == Reply(newValue);
    }

    /** Deletes the stale buckets among the scanned keys, in scan order, and
        stops at the first deletion that fails; unparseable keys are skipped.
        A failed scan deletes nothing. */
    method CleanupOldBuckets(now: Time, daysToKeep: int, scan: ScanResult, failingDeletes: set<string>)
      returns (r: Outcome)
      modifies this
      ensures scan.ScanFailed? ==> r == Fail(BackendFailure(ScanCounters)) && buckets == old(buckets)
      ensures scan.Scanned? ==>
        var cutoff := Cutoff(now, daysToKeep);
        var stop := FirstFailure(scan.keys, cutoff, failingDeletes);
        buckets == old(buckets) - StaleKeys(scan.keys[..stop], cutoff) &&
        r == (if stop == |scan.keys| then Pass else Fail(BackendFailure(DeleteBucket(scan.keys[stop]))))
    {
      var cutoff := Cutoff(now, daysToKeep);
      if scan.ScanFailed? {
        return Fail(BackendFailure(ScanCounters));
      }
      var keys := scan.keys;
      for i := 0 to |keys|
        invariant i <= FirstFailure(keys, cutoff, failingDeletes)
        invariant buckets == old(buckets) - StaleKeys(keys[..i], cutoff)
      {
        var key := keys[i];
        StaleKeysStep(keys, i, cutoff);
        FirstFailureStep(keys, cutoff, failingDeletes, i);
        var parsed := ParseBucketKey(key);
        assert IsStale(key, cutoff) <==> parsed.Some? && parsed.value * NanosPerDay < cutoff;
        if parsed.None? {
          continue;
        }
        if parsed.value * NanosPerDay < cutoff {
          if key in failingDeletes {
            return Fail(BackendFailure(DeleteBucket(key)));
          }
          buckets := buckets - {key};
        }
      }
      assert keys[..|keys|] == keys;
      return Pass;
    }
  }
}
