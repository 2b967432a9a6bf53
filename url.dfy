/** A simplified form of the WHATWG URL parser, enough for the video-link
    helpers: the scheme, the hostname, the pathname, the query and
    `searchParams.get`. Ports, credentials, IPv6 hosts, percent-decoding and
    the removal of tabs and newlines inside the input are not modelled. */
module WebUrl {
  import opened Common

  datatype Url = Url(scheme: string, hostname: string, pathname: string, query: string)

  /** `s` with its leading characters from `skip` removed. */
  function DropWhile(s: string, skip: set<char>): (r: string)
    ensures |r| <= |s| && r == s[|s| - |r|..]
    ensures r == [] || r[0] !in skip
  {
    if s != [] && s[0] in skip then DropWhile(s[1..], skip) else s
  }

  /** The characters the URL parser strips from both ends: C0 controls and space. */
  predicate IsC0OrSpace(c: char) {
    c <= ' '
  }

  function StripC0Start(s: string): (r: string)
    ensures |r| <= |s| && r == s[|s| - |r|..]
  {
    if s != [] && IsC0OrSpace(s[0]) then StripC0Start(s[1..]) else s
  }

  function StripC0End(s: string): (r: string)
    ensures |r| <= |s| && r == s[..|r|]
  {
    if s != [] && IsC0OrSpace(s[|s| - 1]) then StripC0End(s[..|s| - 1]) else s
  }

  /** The input with C0 controls and spaces removed from both ends. */
  function StripC0(s: string): (r: string)
    ensures |r| <= |s|
  {
    StripC0End(StripC0Start(s))
  }

  predicate IsAlpha(c: char) {
    ('a' <= c <= 'z') || ('A' <= c <= 'Z')
  }

  predicate IsSchemeChar(c: char) {
    IsAlpha(c) || ('0' <= c <= '9') || c == '+' || c == '-' || c == '.'
  }

  /** The length of the run of scheme characters at the start of `s`. */
  function SchemeRun(s: string): (n: nat)
    ensures n <= |s|
    ensures forall i :: 0 <= i < n ==> IsSchemeChar(s[i])
  {
    if s == [] || !IsSchemeChar(s[0]) then 0 else 1 + SchemeRun(s[1..])
  }

  /** The schemes the parser treats as special: they always carry a non-empty host. */
  predicate IsSpecial(scheme: string) {
    scheme in {"http", "https", "ws", "wss", "ftp", "file"}
  }

  const PathEnd: set<char> := {'?', '#'}
  const SpecialHostEnd: set<char> := {'/', '\\', '?', '#'}
  const HostEnd: set<char> := {'/', '?', '#'}

  /** The host inside an authority: after the credentials, before the port. */
  function HostOf(authority: string): string {
    var afterAt := LastAfter(authority, '@');
    TakeUntil(afterAt, {':'})
  }

  /** The part of `s` after the last `c`, or all of `s` when there is none. */
  function LastAfter(s: string, c: char): (r: string)
    ensures |r| <= |s|
  {
    if s == [] then []
    else if s[|s| - 1] == c then []
    else LastAfter(s[..|s| - 1], c) + [s[|s| - 1]]
  }

  /** Path and query of what follows the host. */
  function PathAndQuery(after: string, special: bool): (string, string) {
    var path := TakeUntil(after, PathEnd);
    var rest := after[|path|..];
    var query := if rest != [] && rest[0] == '?' then TakeUntil(rest[1..], {'#'}) else "";
    (if special && path == "" then "/" else path, query)
  }

  /** `new URL(s)`: `None` where the constructor throws (no scheme, or a special
      scheme with an empty host). */
  function Parse(input: string): (r: Option<Url>)
    ensures r.Some? ==> IsSpecial(r.value.scheme) ==> r.value.hostname != ""
  {
    ParseStripped(StripC0(input))
  }

  /** The scheme is a letter followed by scheme characters up to the first ':'. */
  function ParseStripped(s: string): (r: Option<Url>)
    ensures r.Some? ==> IsSpecial(r.value.scheme) ==> r.value.hostname != ""
  {
    var n := SchemeRun(s);
    if n == 0 || !IsAlpha(s[0]) || n == |s| || s[n] != ':' then None
    else AfterScheme(Lower(s[..n]), s[n + 1..])
  }

  function AfterScheme(scheme: string, rest: string): (r: Option<Url>)
    ensures r.Some? ==> r.value.scheme == scheme
    ensures r.Some? ==> IsSpecial(scheme) ==> r.value.hostname != ""
  {
    if IsSpecial(scheme) then SpecialUrl(scheme, DropWhile(rest, {'/', '\\'}))
    else if |rest| >= 2 && rest[..2] == "//" then
      var authority := TakeUntil(rest[2..], HostEnd);
      var pq := PathAndQuery(rest[2 + |authority|..], false);
      Some(Url(scheme, HostOf(authority), pq.0, pq.1))
    else
      var pq := PathAndQuery(rest, false);
      Some(Url(scheme, "", pq.0, pq.1))
  }

  /** A special scheme: any run of slashes, then a host that must not be empty. */
  function SpecialUrl(scheme: string, body: string): (r: Option<Url>)
    ensures r.Some? ==> r.value.scheme == scheme && r.value.hostname != ""
  {
    var authority := TakeUntil(body, SpecialHostEnd);
    var hostname := Lower(HostOf(authority));
    if hostname == "" then None
    else
      var pq := PathAndQuery(body[|authority|..], true);
      Some(Url(scheme, hostname, pq.0, pq.1))
  }

  /** `searchParams.get(name)`: the value of the first `&`-separated pair whose
      name is `name`; a pair without `=` has the empty value. */
  function Get(query: string, name: string): (r: Option<string>)
    decreases |query|
  {
    var pair := TakeUntil(query, {'&'});
    var key := TakeUntil(pair, {'='});
    if key == name then Some(if |key| < |pair| then pair[|key| + 1..] else "")
    else if |pair| < |query| then Get(query[|pair| + 1..], name)
    else None
  }

  /** `pathname.slice(1)` */
  function SliceFrom1(s: string): (r: string)
    ensures |s| >= 1 ==> r == s[1..]
    ensures |s| == 0 ==> r == ""
  {
    if s == [] then [] else s[1..]
  }

  // ---------------------------------------------------------------- lemmas

  /** `v=<value>` as the first pair of a query gives `<value>`. */
  lemma GetFirst(value: string, rest: string)
    requires forall i :: 0 <= i < |value| ==> value[i] != '&'
    requires rest == [] || rest[0] == '&'
    ensures Get("v=" + value + rest, "v") == Some(value)
  {
    var q := "v=" + value + rest;
    assert q == ("v=" + value) + rest;
    TakeUntilConcat("v=" + value, rest, {'&'});
    assert "v=" + value == "v" + ("=" + value);
    TakeUntilConcat("v", "=" + value, {'='});
    assert ("v=" + value)[2..] == value;
  }

  /** A lower-case host name character. */
  predicate IsHostChar(c: char) {
    ('a' <= c <= 'z') || ('0' <= c <= '9') || c == '.' || c == '-'
  }

  predicate IsPathChar(c: char) {
    c > ' ' && c != '?' && c != '#'
  }

  predicate IsQueryChar(c: char) {
    c > ' ' && c != '#'
  }

  /** `https://<host><path>` followed by `?<query>` when there is one. */
  function HttpsUrl(host: string, path: string, query: Option<string>): string {
    "https://" + host + path + (if query.Some? then "?" + query.value else "")
  }

  lemma {:induction false} SchemeRunConcat(a: string, b: string)
    requires forall i :: 0 <= i < |a| ==> IsSchemeChar(a[i])
    requires b == [] || !IsSchemeChar(b[0])
    ensures SchemeRun(a + b) == |a|
  {
    if a == [] {
      assert a + b == b;
    } else {
      assert (a + b)[1..] == a[1..] + b;
      SchemeRunConcat(a[1..], b);
    }
  }

  lemma {:induction false} DropWhileConcat(a: string, b: string, skip: set<char>)
    requires forall i :: 0 <= i < |a| ==> a[i] in skip
    requires b == [] || b[0] !in skip
    ensures DropWhile(a + b, skip) == b
  {
    if a == [] {
      assert a + b == b;
    } else {
      assert (a + b)[1..] == a[1..] + b;
      DropWhileConcat(a[1..], b, skip);
    }
  }

  lemma {:induction false} LastAfterAbsent(s: string, c: char)
    requires forall i :: 0 <= i < |s| ==> s[i] != c
    ensures LastAfter(s, c) == s
  {
    if s != [] {
      LastAfterAbsent(s[..|s| - 1], c);
    }
  }

  lemma LowerKeeps(s: string)
    requires forall i :: 0 <= i < |s| ==> !('A' <= s[i] <= 'Z')
    ensures Lower(s) == s
  {
  }

  lemma StripNothing(s: string)
    requires s != [] && s[0] > ' ' && s[|s| - 1] > ' '
    ensures Parse(s) == ParseStripped(s)
  {
    assert StripC0Start(s) == s;
  }

  /** After `https://` and any further slashes comes the host. */
  lemma HttpsPrefix(body: string)
    requires body != [] && body[0] != '/' && body[0] != '\\'
    ensures ParseStripped("https://" + body) == SpecialUrl("https", body)
  {
    SchemeHttps(body);
    SlashesSkipped(body);
  }

  lemma SchemeHttps(body: string)
    ensures ParseStripped("https://" + body) == AfterScheme("https", "//" + body)
  {
    var s := "https://" + body;
    assert s == "https" + (":" + ("//" + body));
    SchemeRunConcat("https", ":" + ("//" + body));
    assert s[..5] == "https";
    LowerKeeps("https");
    assert s[6..] == "//" + body;
  }

  lemma SlashesSkipped(body: string)
    requires body != [] && body[0] != '/' && body[0] != '\\'
    ensures AfterScheme("https", "//" + body) == SpecialUrl("https", body)
  {
    DropWhileConcat("//", body, {'/', '\\'});
  }

  lemma HostOfPlain(host: string)
    requires forall i :: 0 <= i < |host| ==> IsHostChar(host[i])
    ensures Lower(HostOf(host)) == host
  {
    LastAfterAbsent(host, '@');
    assert host + [] == host;
    TakeUntilConcat(host, [], {':'});
    LowerKeeps(host);
  }

  lemma PathThenQuery(path: string, tail: string, query: Option<string>)
    requires path != [] && forall i :: 0 <= i < |path| ==> IsPathChar(path[i])
    requires query.Some? ==> forall i :: 0 <= i < |query.value| ==> IsQueryChar(query.value[i])
    requires tail == if query.Some? then "?" + query.value else ""
    ensures PathAndQuery(path + tail, true) == (path, query.GetOr(""))
  {
    TakeUntilConcat(path, tail, PathEnd);
    assert (path + tail)[|path|..] == tail;
    if query.Some? {
      assert tail[1..] == query.value + [];
      TakeUntilConcat(query.value, [], {'#'});
    }
  }

  lemma HostAndPath(host: string, path: string, tail: string, query: Option<string>)
    requires host != [] && forall i :: 0 <= i < |host| ==> IsHostChar(host[i])
    requires path != [] && path[0] == '/' && forall i :: 0 <= i < |path| ==> IsPathChar(path[i])
    requires query.Some? ==> forall i :: 0 <= i < |query.value| ==> IsQueryChar(query.value[i])
    requires tail == if query.Some? then "?" + query.value else ""
    ensures SpecialUrl("https", host + (path + tail)) == Some(Url("https", host, path, query.GetOr("")))
  {
    var body := host + (path + tail);
    TakeUntilConcat(host, path + tail, SpecialHostEnd);
    HostOfPlain(host);
    assert body[|host|..] == path + tail;
    PathThenQuery(path, tail, query);
  }

  /** An `https` URL with a plain lower-case host, a path and an optional query
      decomposes into exactly those parts. */
  lemma {:induction false} ParseHttps(host: string, path: string, query: Option<string>)
    requires host != [] && forall i :: 0 <= i < |host| ==> IsHostChar(host[i])
    requires path != [] && path[0] == '/' && forall i :: 0 <= i < |path| ==> IsPathChar(path[i])
    requires query.Some? ==> forall i :: 0 <= i < |query.value| ==> IsQueryChar(query.value[i])
    ensures Parse(HttpsUrl(host, path, query)) == Some(Url("https", host, path, query.GetOr("")))
  {
    var tail := if query.Some? then "?" + query.value else "";
    var pt := path + tail;
    var body := host + pt;
    var s := "https://" + body;
    assert HttpsUrl(host, path, query) == s;
    var last := if tail != [] then tail[|tail| - 1] else path[|path| - 1];
    assert last > ' ';
    LastOf(path, tail, last);
    LastOf(host, pt, last);
    LastOf("https://", body, last);
    StripNothing(s);
    assert body[0] == host[0] && IsHostChar(host[0]);
    HttpsPrefix(body);
    HostAndPath(host, path, tail, query);
  }

  lemma LastOf(a: string, b: string, c: char)
    requires (b != [] && b[|b| - 1] == c) || (b == [] && a != [] && a[|a| - 1] == c)
    ensures a + b != [] && (a + b)[|a + b| - 1] == c
  {
  }
}
