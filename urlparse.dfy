/** The part of Go's `net/url.Parse` that URL validation depends on: where the
    scheme ends and what the host is (sections 3.1 and 3.2 of RFC 3986, as Go
    reads them). The fragment is cut at the first `#`, a control character
    before it is an error, the scheme is the longest run of scheme characters
    before the first `:`, the query is cut at the first `?`, the authority is
    what follows `//` up to the next `/`, and the host is the authority after
    its last `@`. */
module UrlParse {
  import opened Errors

  /** The scheme and host of a parsed URL; either may be empty. */
  datatype Parts = Parts(scheme: string, host: string)

  /** What the scheme scan finds: no scheme, a scheme and the text after its
      colon, or a colon in first position (Go's "missing protocol scheme"). */
  datatype SchemeSplit = NoScheme | Scheme(name: string, rest: string) | MissingScheme

  predicate IsLetter(c: char) {
    'a' <= c <= 'z' || 'A' <= c <= 'Z'
  }

  predicate IsSchemeChar(c: char) {
    IsLetter(c) || '0' <= c <= '9' || c == '+' || c == '-' || c == '.'
  }

  /** A scheme name: a letter followed by letters, digits, `+`, `-` or `.`. */
  predicate IsSchemeName(n: string) {
    |n| >= 1 && IsLetter(n[0]) && forall k :: 0 <= k < |n| ==> IsSchemeChar(n[k])
  }

  predicate IsControl(c: char) {
    c < ' ' || c == '\U{7F}'
  }

  predicate HasControl(s: string) {
    exists k :: 0 <= k < |s| && IsControl(s[k])
  }

  /** The index of the first `c` in `s`, or `|s|` when there is none. */
  function IndexOf(s: string, c: char): (i: nat)
    ensures i <= |s|
    ensures i < |s| ==> s[i] == c
    ensures forall k :: 0 <= k < i ==> s[k] != c
  {
    if s == [] then 0 else if s[0] == c then 0 else 1 + IndexOf(s[1..], c)
  }

  /** `s` up to, not including, its first `c` (Go's `strings.Cut`). */
  function BeforeFirst(s: string, c: char): (b: string)
    ensures |b| <= |s| && b == s[..|b|]
    ensures c !in b
    ensures |b| < |s| ==> s[|b|] == c
  {
    s[..IndexOf(s, c)]
  }

  /** `s` after its last `c`, or all of `s` when there is none. */
  function AfterLast(s: string, c: char): (a: string)
    ensures |a| <= |s| && a == s[|s| - |a|..]
    ensures c !in a
    ensures |a| < |s| ==> s[|s| - |a| - 1] == c
  {
    if s == [] then []
    else if s[|s| - 1] == c then []
    else AfterLast(s[..|s| - 1], c) + [s[|s| - 1]]
  }

  predicate HasPrefix(s: string, p: string) {
    |p| <= |s| && s[..|p|] == p
  }

  /** Go's `getScheme`, scanning from position `i` of `raw`. A colon in first
      position is a missing scheme, and no scheme is found only when no
      scheme name followed by a colon starts `raw`. */
  function SchemeScan(raw: string, i: nat): (r: SchemeSplit)
    requires i <= |raw|
    requires i > 0 ==> IsSchemeName(raw[..i])
    ensures r.Scheme? ==> IsSchemeName(r.name) && raw == r.name + [':'] + r.rest
    ensures r.Scheme? ==> ':' !in r.name
    ensures r.MissingScheme? <==> |raw| > 0 && raw[0] == ':'
    ensures r.NoScheme? ==> forall k :: 0 < k < |raw| && raw[k] == ':' ==> !IsSchemeName(raw[..k])
    decreases |raw| - i
  {
    if i == |raw| then
      NoSchemeBefore(raw, i);
      NoScheme
    else
      var c := raw[i];
      if IsLetter(c) then
        assert raw[..i + 1] == raw[..i] + [c];
        SchemeScan(raw, i + 1)
      else if IsSchemeChar(c) then
        if i == 0 then NoScheme
        else
          assert raw[..i + 1] == raw[..i] + [c];
          SchemeScan(raw, i + 1)
      else if c == ':' then
        if i == 0 then MissingScheme
        else
          assert raw == raw[..i] + [':'] + raw[i + 1..];
          Scheme(raw[..i], raw[i + 1..])
      else
        NoSchemeBefore(raw, i);
        NoScheme
  }

  /** When `raw[..i]` is a scheme name and `raw[i]`, if present, is neither a
      scheme character nor a colon, no prefix of `raw` is a scheme name
      followed by a colon. */
  lemma NoSchemeBefore(raw: string, i: nat)
    requires i <= |raw| && (i > 0 ==> IsSchemeName(raw[..i]))
    requires i < |raw| ==> !IsSchemeChar(raw[i]) && raw[i] != ':'
    ensures forall k :: 0 < k < |raw| && raw[k] == ':' ==> !IsSchemeName(raw[..k])
  {
    forall k | 0 < k < |raw| && raw[k] == ':'
      ensures !IsSchemeName(raw[..k])
    {
      if k >= i {
        assert k > i && raw[..k][i] == raw[i] && !IsSchemeChar(raw[..k][i]);
      }
    }
  }

  /** The parse of what follows the scheme, with the query already cut off. */
  function SplitAuthority(scheme: string, r: string): (p: Option<Parts>)
    ensures p.Some? ==> p.value.scheme == scheme
    ensures p.Some? ==> '@' !in p.value.host && '/' !in p.value.host
  {
    if !HasPrefix(r, "/") then
      if scheme != "" then Some(Parts(scheme, ""))           // opaque, as in mailto:x
      else if ':' in BeforeFirst(r, '/') then None           // colon in first path segment
      else Some(Parts("", ""))
    else if (scheme != "" || !HasPrefix(r, "///")) && HasPrefix(r, "//") then
      Some(Parts(scheme, AfterLast(BeforeFirst(r[2..], '/'), '@')))
    else Some(Parts(scheme, ""))
  }

  /** `url.Parse(raw)`, reduced to its scheme and host; `None` is a parse error. */
  function Parse(raw: string): (p: Option<Parts>)
    ensures HasControl(BeforeFirst(raw, '#')) ==> p == None
    ensures |raw| > 0 && raw[0] == ':' ==> p == None
    ensures p.Some? && p.value.scheme != "" ==> IsSchemeName(p.value.scheme)
    ensures p.Some? ==> '@' !in p.value.host && '/' !in p.value.host
  {
    var u := BeforeFirst(raw, '#');
    if HasControl(u) then None
    else
      match SchemeScan(u, 0)
      case MissingScheme => None
      case NoScheme => SplitAuthority("", BeforeFirst(u, '?'))
      case Scheme(name, rest) => SplitAuthority(name, BeforeFirst(rest, '?'))
  }

  /** A character that may stand in a host written out whole: not a
      delimiter of the authority and not a control character. */
  predicate IsHostChar(c: char) {
    c !in "/?#@" && !IsControl(c)
  }

  /** An absolute URL `scheme://host` followed by nothing, a path, a query or
      a fragment parses with exactly that scheme and host. */
  lemma ParseAbsolute(sc: string, h: string, tail: string)
    requires IsSchemeName(sc)
    requires |h| >= 1 && forall k :: 0 <= k < |h| ==> IsHostChar(h[k])
    requires tail == [] || tail[0] in "/?#"
    requires !HasControl(BeforeFirst(tail, '#'))
    ensures Parse(sc + "://" + h + tail) == Some(Parts(sc, h))
  {
    var t1 := BeforeFirst(tail, '#');
    var rest := "//" + h + t1;
    var u := sc + [':'] + rest;
    assert sc + "://" + h + tail == sc + [':'] + ("//" + h) + tail;
    CutFragment(sc, h, tail);
    SchemeScanName(sc, rest, 0);
    AuthorityOfHost(sc, h, t1);
  }

  /** Cutting the fragment of `scheme://host tail` cuts it inside `tail`, and
      leaves no control character. */
  lemma CutFragment(sc: string, h: string, tail: string)
    requires IsSchemeName(sc)
    requires forall k :: 0 <= k < |h| ==> IsHostChar(h[k])
    requires !HasControl(BeforeFirst(tail, '#'))
    ensures var u := sc + [':'] + ("//" + h + BeforeFirst(tail, '#'));
      BeforeFirst(sc + [':'] + ("//" + h) + tail, '#') == u && !HasControl(u)
  {
    var pre := sc + [':'] + ("//" + h);
    forall k | 0 <= k < |pre| ensures pre[k] != '#' && !IsControl(pre[k]) {
      if k < |sc| {
        assert IsSchemeChar(sc[k]);
      } else if k >= |sc| + 3 {
        assert pre[k] == h[k - |sc| - 3];
      }
    }
    BeforeFirstAppend(pre, tail, '#');
    var t1 := BeforeFirst(tail, '#');
    var u := pre + t1;
    assert sc + [':'] + ("//" + h + t1) == u;
    forall k | 0 <= k < |u| ensures !IsControl(u[k]) {
      if k >= |pre| {
        assert u[k] == t1[k - |pre|];
      }
    }
  }

  /** After the scheme, `//host` followed by a text that is empty or starts
      with `/`, `?` or `#` has exactly `host` as its host. */
  lemma AuthorityOfHost(sc: string, h: string, t1: string)
    requires sc != ""
    requires |h| >= 1 && forall k :: 0 <= k < |h| ==> IsHostChar(h[k])
    requires t1 == [] || t1[0] in "/?"
    ensures SplitAuthority(sc, BeforeFirst("//" + h + t1, '?')) == Some(Parts(sc, h))
  {
    assert '?' !in "//" + h by {
      forall k | 0 <= k < |h| ensures h[k] != '?' {
        assert IsHostChar(h[k]);
      }
    }
    BeforeFirstAppend("//" + h, t1, '?');
    var t2 := BeforeFirst(t1, '?');
    var r := "//" + h + t2;
    assert HasPrefix(r, "/") && HasPrefix(r, "//");
    assert r[2..] == h + t2;
    assert '/' !in h by {
      forall k | 0 <= k < |h| ensures h[k] != '/' {
        assert IsHostChar(h[k]);
      }
    }
    assert BeforeFirst(t2, '/') == [] by {
      if t2 != [] {
        assert t2[0] == t1[0] == '/';
      }
    }
    BeforeFirstAppend(h, t2, '/');
    assert '@' !in h by {
      forall k | 0 <= k < |h| ensures h[k] != '@' {
        assert IsHostChar(h[k]);
      }
    }
    AfterLastAbsent(h, '@');
  }

  /** A parse with a non-empty scheme and host comes from text that begins
      with a scheme name, a colon and `//`, followed by something other than
      `/`, `?` or `#`, with no control character before the fragment. */
  lemma ParsedHostShape(s: string)
    requires Parse(s).Some? && Parse(s).value.scheme != "" && Parse(s).value.host != ""
    ensures var i := IndexOf(s, ':');
      && i + 3 < |s| && IsSchemeName(s[..i]) && s[i + 1..i + 3] == "//" && s[i + 3] !in "/?#"
      && Parse(s).value.scheme == s[..i]
    ensures !HasControl(BeforeFirst(s, '#'))
  {
    var u := BeforeFirst(s, '#');
    var name, rest := ParsedScheme(s);
    HostNeedsSlashes(name, rest);
    assert u == name + [':'] + rest;
    assert rest[2] == u[|name| + 3] != '#';
    SchemePrefix(s, u, name, rest);
  }

  /** A parse with a non-empty scheme went through the scheme branch. */
  lemma ParsedScheme(s: string) returns (name: string, rest: string)
    requires Parse(s).Some? && Parse(s).value.scheme != ""
    ensures !HasControl(BeforeFirst(s, '#'))
    ensures SchemeScan(BeforeFirst(s, '#'), 0) == Scheme(name, rest)
    ensures Parse(s) == SplitAuthority(name, BeforeFirst(rest, '?')) && name != ""
  {
    var sp := SchemeScan(BeforeFirst(s, '#'), 0);
    name, rest := sp.name, sp.rest;
  }

  /** Where the scheme of `s` ends, given that the fragment-free prefix `u`
      splits as `name:rest` with `rest` starting with `//` and a host symbol. */
  lemma SchemePrefix(s: string, u: string, name: string, rest: string)
    requires |u| <= |s| && s[..|u|] == u
    requires ':' !in name && u == name + [':'] + rest
    requires |rest| > 2 && rest[..2] == "//" && rest[2] !in "/?#"
    ensures var i := IndexOf(s, ':');
      i == |name| && i + 3 < |s| && s[..i] == name && s[i + 1..i + 3] == "//" && s[i + 3] !in "/?#"
  {
    var i := |name|;
    assert u[..i] == name;
    assert u[i] == ':' && u[i + 1] == rest[0] == '/' && u[i + 2] == rest[1] == '/' && u[i + 3] == rest[2];
    assert forall k :: 0 <= k < |u| ==> s[k] == u[k];
    assert s[..i] == u[..i];
    assert s[i] == ':' && s[i + 3] == rest[2];
    assert s[i + 1..i + 3] == [s[i + 1], s[i + 2]] == "//";
    forall k | 0 <= k < i ensures s[k] != ':' {
      assert s[k] == name[k];
    }
    IndexOfIs(s, ':', i);
  }

  lemma IndexOfIs(s: string, c: char, i: nat)
    requires i < |s| && s[i] == c
    requires forall k :: 0 <= k < i ==> s[k] != c
    ensures IndexOf(s, c) == i
  {
  }

  /** Only the `//` branch of the authority split yields a host, and only
      when something other than `/` or `?` follows the slashes. */
  lemma HostNeedsSlashes(sc: string, rest: string)
    requires sc != ""
    requires SplitAuthority(sc, BeforeFirst(rest, '?')).Some?
    requires SplitAuthority(sc, BeforeFirst(rest, '?')).value.host != ""
    ensures |rest| > 2 && rest[..2] == "//" && rest[2] !in "/?"
  {
    var r := BeforeFirst(rest, '?');
    assert HasPrefix(r, "//");
    var auth := BeforeFirst(r[2..], '/');
    assert AfterLast(auth, '@') != [];
    assert r[2] == rest[2];
  }

  lemma {:induction false} IndexOfAppend(a: string, b: string, c: char)
    requires c !in a
    ensures IndexOf(a + b, c) == |a| + IndexOf(b, c)
    decreases |a|
  {
    if a != [] {
      assert (a + b)[0] == a[0] != c;
      assert (a + b)[1..] == a[1..] + b;
      IndexOfAppend(a[1..], b, c);
    } else {
      assert a + b == b;
    }
  }

  lemma BeforeFirstAppend(a: string, b: string, c: char)
    requires c !in a
    ensures BeforeFirst(a + b, c) == a + BeforeFirst(b, c)
  {
    IndexOfAppend(a, b, c);
    assert (a + b)[..|a| + IndexOf(b, c)] == a + b[..IndexOf(b, c)];
  }
  lemma AfterLastAbsent(s: string, c: char)
    requires c !in s
    ensures AfterLast(s, c) == s
  {
  }

  lemma {:induction false} SchemeScanName(sc: string, rest: string, i: nat)
    requires IsSchemeName(sc) && i <= |sc|
    ensures i > 0 ==> (sc + [':'] + rest)[..i] == sc[..i]
    ensures SchemeScan(sc + [':'] + rest, i) == Scheme(sc, rest)
    decreases |sc| - i
  {
    var raw := sc + [':'] + rest;
    assert raw[..i] == sc[..i];
    if i < |sc| {
      assert IsSchemeChar(sc[i]);
      assert raw[..i + 1] == sc[..i + 1];
      SchemeScanName(sc, rest, i + 1);
    } else {
      assert raw[..i] == sc && raw[i + 1..] == rest;
    }
  }
}
