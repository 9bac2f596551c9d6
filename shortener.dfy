/** The short-code generator and the URL helpers of the shortener package.

    A code is built from two clock-dependent numbers: the counter value the
    day bucket hands out and the Unix second at which the code is made. The
    last six decimal digits of the second, times 1000, plus the counter, is
    written in base 62 and left-padded with the zero digit to six symbols. */
module Shortener {
  import opened Errors
  import opened Models
  import opened Base62
  import opened UrlParse
  import opened Counter

  const ShortCodeLength: nat := 6

  /** The timestamp keeps its last six decimal digits. */
  const TimestampModulus: int := 1_000_000

  /** The counter is added below the timestamp part, assumed smaller than this. */
  const CounterSpan: int := 1000

  const Uint64Modulus: int := 0x1_0000_0000_0000_0000

  /** Go's `%`: the remainder of division truncated toward zero, so it takes
      the sign of the dividend. */
  function GoRem(a: int, b: int): (r: int)
    requires b > 0
    ensures -b < r < b
    ensures a >= 0 ==> r == a % b
    ensures a < 0 ==> r <= 0
    ensures (a - r) % b == 0
  {
    if a >= 0 then
      assert a - a % b == b * (a / b);
      MultipleRem(a / b, b);
      a % b
    else
      var q := (-a) / b;
      assert a + (-a) % b == b * -q;
      MultipleRem(-q, b);
      -((-a) % b)
  }

  /** A multiple of `b` leaves no remainder. */
  lemma MultipleRem(d: int, b: int)
    requires b > 0
    ensures (b * d) % b == 0
  {
    var m := b * d;
    var e := d - m / b;
    assert m % b == b * e;
    if e >= 1 {
      assert b * e == b * (e - 1) + b;
    } else if e <= -1 {
      assert b * e == b * (e + 1) - b;
    }
  }

  /** `time.Unix()`: whole seconds since the epoch, rounded down. */
  function UnixSeconds(t: Time): (s: int)
    ensures s * NanosPerSecond <= t < s * NanosPerSecond + NanosPerSecond
  {
    t / NanosPerSecond
  }

  /** The combined value as the encoder receives it: the product and sum
      wrap in 64-bit signed arithmetic and the conversion to an unsigned
      64-bit value reinterprets the bits, which together is reduction
      modulo 2^64 of the exact value. */
  function Combine(ts: int, counter: int): (v: nat)
    ensures v < Uint64Modulus
  {
    (GoRem(ts, TimestampModulus) * CounterSpan + counter) % Uint64Modulus
  }

  /** The code of a combined value: its base-62 numeral padded with the zero
      digit to six symbols and never truncated. Decoding the code gives the
      value back. */
  function ShortCode(v: nat): (c: string)
    ensures |c| == if |Encode(v)| < ShortCodeLength then ShortCodeLength else |Encode(v)|
    ensures IsDigits(c) && Decode(c) == v
  {
    DecodePadLeft(Encode(v), ShortCodeLength);
    DecodeEncode(v);
    PadLeft(Encode(v), ShortCodeLength)
  }

  /** Distinct values get distinct codes. */
  lemma ShortCodeInjective(v1: nat, v2: nat)
    requires ShortCode(v1) == ShortCode(v2)
    ensures v1 == v2
  {
  }

  /** A code is exactly six symbols long when the value is below 62^6, and
      longer otherwise. */
  lemma ShortCodeLengthBound(v: nat)
    ensures |ShortCode(v)| == ShortCodeLength <==> v < Pow(ShortCodeLength)
  {
    EncodeLength(v, ShortCodeLength);
  }

  /** Two exact values that agree modulo 2^64 and lie less than 2^64 apart
      are equal. */
  lemma WrapInjective(x1: int, x2: int)
    requires -Uint64Modulus / 2 <= x1 < Uint64Modulus / 2
    requires -Uint64Modulus / 2 <= x2 < Uint64Modulus / 2
    requires x1 % Uint64Modulus == x2 % Uint64Modulus
    ensures x1 == x2
  {
    var q1, q2 := x1 / Uint64Modulus, x2 / Uint64Modulus;
    assert x1 == q1 * Uint64Modulus + x1 % Uint64Modulus;
    assert x2 == q2 * Uint64Modulus + x2 % Uint64Modulus;
    assert -1 <= q1 <= 0 && -1 <= q2 <= 0;
  }

  /** While the counter stays below 1000, the combined value determines both
      the last six digits of the timestamp and the counter. */
  lemma CombineInjective(ts1: int, c1: int, ts2: int, c2: int)
    requires 0 <= c1 < CounterSpan && 0 <= c2 < CounterSpan
    requires Combine(ts1, c1) == Combine(ts2, c2)
    ensures GoRem(ts1, TimestampModulus) == GoRem(ts2, TimestampModulus) && c1 == c2
  {
    var q1, q2 := GoRem(ts1, TimestampModulus), GoRem(ts2, TimestampModulus);
    WrapInjective(q1 * 1000 + c1, q2 * 1000 + c2);
    assert (q1 - q2) * 1000 == c2 - c1;
  }

  /** The assumption is needed: at counter 1001 the first second of a window
      collides with counter 1 one second later. */
  lemma CollisionPastCounterSpan()
    ensures Combine(0, CounterSpan + 1) == Combine(1, 1)
    ensures ShortCode(Combine(0, CounterSpan + 1)) == ShortCode(Combine(1, 1))
  {
  }

  /** Codes repeat every 10^6 seconds (about 11.6 days): the same counter
      value at the same position of the next window gives the same code. */
  lemma CollisionAcrossWindows(ts: int, c: int)
    requires ts >= 0
    ensures Combine(ts + TimestampModulus, c) == Combine(ts, c)
  {
    assert (ts + 1_000_000) % 1_000_000 == ts % 1_000_000;
  }

  /** Within any window shorter than 10^6 seconds after the epoch, two
      different (second, counter) pairs with counters below 1000 give two
      different codes. */
  lemma CodesDistinctWithinWindow(ts1: int, c1: int, ts2: int, c2: int)
    requires 0 <= ts1 && 0 <= ts2
    requires ts1 - TimestampModulus < ts2 < ts1 + TimestampModulus
    requires 0 <= c1 < CounterSpan && 0 <= c2 < CounterSpan
    requires ts1 != ts2 || c1 != c2
    ensures ShortCode(Combine(ts1, c1)) != ShortCode(Combine(ts2, c2))
  {
    if ShortCode(Combine(ts1, c1)) == ShortCode(Combine(ts2, c2)) {
      CombineInjective(ts1, c1, ts2, c2);
      SameRemainderFarApart(ts1, ts2);
    }
  }

  /** Two distinct non-negative seconds with the same last six digits are at
      least 10^6 apart. */
  lemma SameRemainderFarApart(a: int, b: int)
    requires 0 <= a && 0 <= b
    ensures a != b && a % 1_000_000 == b % 1_000_000 ==> a - b >= 1_000_000 || b - a >= 1_000_000
  {
    var qa, qb := a / 1_000_000, b / 1_000_000;
    assert a == qa * 1_000_000 + a % 1_000_000;
    assert b == qb * 1_000_000 + b % 1_000_000;
    if a % 1_000_000 == b % 1_000_000 {
      assert a - b == (qa - qb) * 1_000_000;
    }
  }

  /** After the epoch every counter value up to 10^9 gives a six-symbol code,
      which covers the counters 42 and 1000000. */
  lemma SixSymbolCodes(ts: int, c: int)
    requires ts >= 0 && 0 <= c <= 1_000_000_000
    ensures |ShortCode(Combine(ts, c))| == ShortCodeLength
  {
    var x := GoRem(ts, TimestampModulus) * CounterSpan + c;
    assert 0 <= x < 2_000_000_000;
    assert Combine(ts, c) == x;
    assert Pow(ShortCodeLength) == 56_800_235_584;
    ShortCodeLengthBound(x);
  }

  /** Before the epoch the remainder is negative, the exact value can be
      negative, and its wrap-around gives an eleven-symbol code. */
  lemma PreEpochCodeIsLonger()
    ensures |ShortCode(Combine(-1, 1))| == 11
  {
    var v := Combine(-1, 1);
    assert GoRem(-1, TimestampModulus) == -1;
    assert v == Uint64Modulus - 999;
    PowTenEleven();
    EncodeLength(v, 10);
    EncodeLength(v, 11);
  }

  lemma PowTenEleven()
    ensures Pow(10) == 839_299_365_868_340_224
    ensures Pow(11) == 52_036_560_683_837_093_888
  {
    assert Pow(6) == 56_800_235_584;
  }

  /** `strings.TrimRight(s, "/")`: `s` without its trailing run of slashes. */
  function TrimRightSlash(s: string): (t: string)
    ensures |t| <= |s| && t == s[..|t|]
    ensures t == [] || t[|t| - 1] != '/'
    ensures forall k :: |t| <= k < |s| ==> s[k] == '/'
  {
    if s != [] && s[|s| - 1] == '/' then TrimRightSlash(s[..|s| - 1]) else s
  }

  function Slashes(k: nat): (z: string)
    ensures |z| == k && forall i :: 0 <= i < k ==> z[i] == '/'
  {
    seq(k, _ => '/')
  }

  /** Any number of trailing slashes on a base URL makes no difference. */
  lemma {:induction false} TrimIgnoresTrailingSlashes(s: string, k: nat)
    ensures TrimRightSlash(s + Slashes(k)) == TrimRightSlash(s)
    decreases k
  {
    if k > 0 {
      assert (s + Slashes(k))[..|s| + k - 1] == s + Slashes(k - 1);
      TrimIgnoresTrailingSlashes(s, k - 1);
    } else {
      assert s + Slashes(k) == s;
    }
  }

  /** A code containing no slash is what follows the last slash of a link
      that ends with it. */
  lemma {:induction false} CodeAfterLastSlash(a: string, code: string)
    requires '/' !in code
    ensures AfterLast(a + "/" + code, '/') == code
    decreases |code|
  {
    if code != [] {
      var c := code[..|code| - 1];
      assert (a + "/" + code)[..|a + "/" + code| - 1] == a + "/" + c;
      assert code == c + [code[|code| - 1]];
      CodeAfterLastSlash(a, c);
    }
  }

  /** A link made of a base, a slash and a code starts with the base, and a
      code without a slash can be read back from it. */
  lemma JoinLink(base: string, code: string)
    ensures (base + "/" + code)[..|base|] == base
    ensures '/' !in code ==> AfterLast(base + "/" + code, '/') == code
  {
    assert (base + "/" + code)[..|base|] == base;
    if '/' !in code {
      CodeAfterLastSlash(base, code);
    }
  }

  /** Base-62 digits include no slash. */
  lemma DigitsHaveNoSlash(s: string)
    requires IsDigits(s)
    ensures '/' !in s
  {
  }

  /** URL validation: the empty string is rejected before any parsing, and a
      URL that does not parse or parses without a scheme or without a host is
      invalid. */
  function ValidateURL(s: string): (r: Outcome)
    ensures r == Fail(EmptyURL) <==> s == ""
    ensures r.Fail? ==> r.error == EmptyURL || r.error == InvalidURL
  {
    if s == "" then Fail(EmptyURL)
    else match Parse(s)
      case None => Fail(InvalidURL)
      case Some(p) => if p.scheme == "" || p.host == "" then Fail(InvalidURL) else Pass
  }

  /** Every absolute URL `scheme://host`, bare or followed by a path, a query
      or a fragment, passes, where the host has no delimiter or control
      character. */
  lemma ValidAbsoluteURL(sc: string, h: string, tail: string)
    requires IsSchemeName(sc)
    requires |h| >= 1 && forall k :: 0 <= k < |h| ==> IsHostChar(h[k])
    requires tail == [] || tail[0] in "/?#"
    requires !HasControl(BeforeFirst(tail, '#'))
    ensures ValidateURL(sc + "://" + h + tail) == Pass
  {
    ParseAbsolute(sc, h, tail);
  }

  /** Conversely every URL that passes starts with a scheme name, a colon
      and two slashes, and has a host character right after them. */
  lemma ValidURLShape(s: string)
    requires ValidateURL(s) == Pass
    ensures var i := IndexOf(s, ':');
      && i + 3 < |s| && IsSchemeName(s[..i]) && s[i + 1..i + 3] == "//" && s[i + 3] !in "/?#"
  {
    ParsedHostShape(s);
  }

  /** The accepted examples of the shortener's test table: the https URL of
      `example.com` bare, with the path `/path/to/resource` and with the query
      `?param=value`. The strings arrive as parameters fixed by `requires`
      rather than as literals in the `ensures`, because the verifier unrolls
      the recursive string functions over a literal argument and runs out of
      resource doing so. */
  lemma AcceptedExamples(s: string, tail: string)
    requires tail == "" || tail == "/path/to/resource" || tail == "?param=value"
    requires s == "https://example.com" + tail
    ensures ValidateURL(s) == Pass
  {
    var scheme, host := ExampleAuthority();
    ExampleTail(tail);
    ValidAbsoluteURL(scheme, host, tail);
  }

  lemma ExampleAuthority() returns (scheme: string, host: string)
    ensures IsSchemeName(scheme)
    ensures |host| >= 1 && forall k :: 0 <= k < |host| ==> IsHostChar(host[k])
    ensures scheme + "://" + host == "https://example.com"
  {
    scheme, host := "https", "example.com";
    assert forall k :: 0 <= k < |host| ==> IsHostChar(host[k]);
  }

  lemma ExampleTail(tail: string)
    requires tail == "" || tail == "/path/to/resource" || tail == "?param=value"
    ensures tail == [] || tail[0] in "/?#"
    ensures !HasControl(BeforeFirst(tail, '#'))
  {
    if tail != "" {
      PlainText(tail);
    }
  }

  /** Text of printable characters other than `#` has no fragment to cut and
      no control character. */
  lemma PlainText(t: string)
    requires forall k :: 0 <= k < |t| ==> ' ' <= t[k] <= '~' && t[k] != '#'
    ensures BeforeFirst(t, '#') == t && !HasControl(t)
  {
  }

  /** The rejected examples of the shortener's test table: no scheme, no
      host, or nothing at all. As above, the strings are parameters fixed by
      `requires` so that the verifier does not unroll over literals. */
  lemma RejectedExamples(s: string)
    requires s == "" || s == "not-a-url" || s == "example.com" || s == "https://"
    ensures ValidateURL(s) == Fail(if s == "" then EmptyURL else InvalidURL)
  {
    if s == "https://" {
      IndexOfIs(s, ':', 5);
      RejectedWithoutSchemeSlashes(s);
    } else if s != "" {
      assert ':' !in s;
      RejectedWithoutSchemeSlashes(s);
    }
  }

  /** A non-empty string without room for `scheme://` and a host is invalid. */
  lemma RejectedWithoutSchemeSlashes(s: string)
    requires s != "" && IndexOf(s, ':') + 3 >= |s|
    ensures ValidateURL(s) == Fail(InvalidURL)
  {
    if ValidateURL(s) == Pass {
      ValidURLShape(s);
    }
  }

  /** A URL the shortener accepts also passes the request check, which only
      rejects the empty string. */
  lemma ValidateURLStricterThanRequest(s: string, expiresAt: Option<Time>)
    ensures ValidateURL(s) == Pass ==> CreateURLRequest(s, expiresAt).Validate() == Pass
  {
  }

  /** The converse fails: `not-a-url` passes the request check and is
      rejected by the shortener. */
  lemma RequestCheckAcceptsMore(s: string, expiresAt: Option<Time>)
    requires s == "not-a-url"
    ensures CreateURLRequest(s, expiresAt).Validate() == Pass
    ensures ValidateURL(s) == Fail(InvalidURL)
  {
    RejectedExamples(s);
  }

  /** The short-code generator, bound to a counter table and a base URL. */
  class Shortener {
    /** The base URL without trailing slashes. */
    const baseURL: string
    const counter: CounterStorage

    constructor (base: string, counter: CounterStorage)
      ensures baseURL == TrimRightSlash(base) && this.counter == counter
    {
      baseURL := TrimRightSlash(base);
      this.counter := counter;
    }

    /** The full short link of `code`: the base URL, one slash and the code,
        from which a code without a slash can be read back. */
    function GetShortURL(code: string): (u: string)
      ensures |u| == |baseURL| + 1 + |code| && u[..|baseURL|] == baseURL
      ensures '/' !in code ==> AfterLast(u, '/') == code
    {
      JoinLink(baseURL, code);
      baseURL + "/" + code
    }

    /** Draws the next counter value for the bucket of `now`, then makes the
        code from the Unix second of `stampNow` (a later clock reading).
        A counter failure is passed on, wrapped, and yields no code. */
    method GenerateShortCode(now: Time, stampNow: Time, updateFails: bool) returns (r: Result<string>)
      modifies counter
      ensures updateFails ==>
        r == Err(CounterFailure(BackendFailure(UpdateCounter))) && counter.buckets == old(counter.buckets)
      ensures !updateFails ==> counter.buckets == Increment(old(counter.buckets), BucketKey(now))
      ensures !updateFails ==>
        var v := Current(old(counter.buckets), BucketKey(now)) + 1;
        r == if Int64Min <= v <= Int64Max then Ok(ShortCode(Combine(UnixSeconds(stampNow), v)))
             else Err(CounterFailure(BackendFailure(ParseCounter)))
    {
      ghost var v := Current(old(counter.buckets), BucketKey(now)) + 1;
      var c := counter.GetNextCounter(now, updateFails);
      assert !updateFails ==> c == Reply(v);
      if c.Err? {
        return Err(CounterFailure(c.error));
      }
      var timestamp := UnixSeconds(stampNow);
      assert c.value == v;
      var combined := Combine(timestamp, c.value);
      return Ok(ShortCode(combined));
    }

    /** Validates the URL, then generates a code, then builds the record; the
        record is returned, not stored. An invalid URL is reported before the
        counter is touched. */
    method CreateShortURL(originalURL: string, now: Time, stampNow: Time, createdNow: Time, updateFails: bool)
      returns (r: Result<URL>)
      modifies counter
      ensures ValidateURL(originalURL).Fail? ==>
        r == Err(ValidateURL(originalURL).error) && counter.buckets == old(counter.buckets)
      ensures ValidateURL(originalURL) == Pass && updateFails ==>
        r == Err(CounterFailure(BackendFailure(UpdateCounter))) && counter.buckets == old(counter.buckets)
      ensures ValidateURL(originalURL) == Pass && !updateFails ==>
        counter.buckets == Increment(old(counter.buckets), BucketKey(now))
      ensures ValidateURL(originalURL) == Pass && !updateFails ==>
        var v := Current(old(counter.buckets), BucketKey(now)) + 1;
        var code := ShortCode(Combine(UnixSeconds(stampNow), v));
        r == if Int64Min <= v <= Int64Max then Ok(NewURL(originalURL, code, createdNow).(shortURL := GetShortURL(code)))
             else Err(CounterFailure(BackendFailure(ParseCounter)))
      ensures r.Ok? ==> IsZero(r.value.expiresAt) && AfterLast(r.value.shortURL, '/') == r.value.shortCode
    {
      var valid := ValidateURL(originalURL);
      if valid.Fail? {
        return Err(valid.error);
      }
      var code := GenerateShortCode(now, stampNow, updateFails);
      if code.Err? {
        return Err(code.error);
      }
      DigitsHaveNoSlash(code.value);
      var url := NewURL(originalURL, code.value, createdNow);
      url := url.(shortURL := GetShortURL(code.value));
      return Ok(url);
    }
  }
}
