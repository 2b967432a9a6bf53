/** The client's YouTube helpers: the thumbnail for a video link and the
    embeddable form of a video link. */
module ClientUtils {
  import opened Common
  import opened WebUrl
  import LessonController

  // ---------------------------------------------------------------- thumbnail

  const LineTerminators: set<char> := {'\n', '\r', '\U{2028}', '\U{2029}'}

  /** `\w` */
  predicate IsWordChar(c: char) {
    IsAlpha(c) || ('0' <= c <= '9') || c == '_'
  }

  /** The length and the last character of the alternative of
      `(youtu.be\/|v\/|u\/\w\/|embed\/|watch\?v=|&v=)` that begins with `c`:
      the alternatives begin with different letters. */
  function MarkerShape(c: char): Option<(nat, char)> {
    if c == 'y' then Some((9, '/'))
    else if c == 'v' then Some((2, '/'))
    else if c == 'u' then Some((4, '/'))
    else if c == 'e' then Some((6, '/'))
    else if c == 'w' then Some((8, '='))
    else if c == '&' then Some((3, '='))
    else None
  }

  /** The length of the alternative that matches at `p`, if one does. */
  function MarkerLength(s: string, p: nat): (r: Option<nat>)
    ensures r.Some? ==> p < |s| && MarkerShape(s[p]).Some?
    ensures r.Some? ==> r.value == MarkerShape(s[p]).value.0 && p + r.value <= |s|
    ensures r.Some? ==> s[p + r.value - 1] == MarkerShape(s[p]).value.1
  {
    if p >= |s| then None
    else if s[p] == 'y' && InfixAt(s, "youtu", p) && p + 9 <= |s| && !IsLineTerminator(s[p + 5]) && InfixAt(s, "be/", p + 6) then
      InfixEnds(s, "youtu", p);
      InfixEnds(s, "be/", p + 6);
      Some(9)
    else if s[p] == 'v' && InfixAt(s, "v/", p) then
      InfixEnds(s, "v/", p);
      Some(2)
    else if s[p] == 'u' && InfixAt(s, "u/", p) && p + 4 <= |s| && IsWordChar(s[p + 2]) && s[p + 3] == '/' then
      InfixEnds(s, "u/", p);
      Some(4)
    else if s[p] == 'e' && InfixAt(s, "embed/", p) then
      InfixEnds(s, "embed/", p);
      Some(6)
    else if s[p] == 'w' && InfixAt(s, "watch?v=", p) then
      InfixEnds(s, "watch?v=", p);
      Some(8)
    else if s[p] == '&' && InfixAt(s, "&v=", p) then
      InfixEnds(s, "&v=", p);
      Some(3)
    else None
  }

  /** An occurrence of `sub` at `p` starts and ends with `sub`'s first and
      last characters. */
  lemma InfixEnds(s: string, sub: string, p: nat)
    requires sub != [] && InfixAt(s, sub, p)
    ensures s[p] == sub[0] && s[p + |sub| - 1] == sub[|sub| - 1]
  {
    assert s[p..p + |sub|][0] == s[p];
    assert s[p..p + |sub|][|sub| - 1] == s[p + |sub| - 1];
  }

  /** No alternative matches where the first letter, the length or the last
      character rules it out. */
  lemma NoMarkerByShape(s: string, p: nat)
    requires p < |s| ==> var shape := MarkerShape(s[p]);
      shape.None? || p + shape.value.0 > |s| || s[p + shape.value.0 - 1] != shape.value.1
    ensures MarkerLength(s, p).None?
  {
  }

  /** Where the first line ends: `^.*` cannot reach past it. */
  function LineEnd(s: string): (n: nat)
    ensures n <= |s|
    ensures forall i :: 0 <= i < n ==> !IsLineTerminator(s[i])
    ensures n < |s| ==> IsLineTerminator(s[n])
  {
    |TakeUntil(s, LineTerminators)|
  }

  /** The greedy `.*` backtracks from the end of the line, so the marker used
      is the rightmost one that starts before `n`. */
  function LastMarker(s: string, n: nat): (r: Option<nat>)
    requires n <= |s|
    ensures r.Some? ==> r.value < n && MarkerLength(s, r.value).Some?
    ensures r.Some? ==> forall q :: r.value < q < n ==> MarkerLength(s, q).None?
    ensures r.None? ==> forall q :: 0 <= q < n ==> MarkerLength(s, q).None?
    decreases n
  {
    if n == 0 then None
    else if MarkerLength(s, n - 1).Some? then Some(n - 1)
    else
      var r := LastMarker(s, n - 1);
      assert forall q :: r.Some? && r.value < q < n - 1 ==> MarkerLength(s, q).None?;
      r
  }

  const CaptureStop: set<char> := {'#', '&', '?'}

  /** `match[2]`: the run of characters other than `#`, `&` and `?` after
      the rightmost marker of the first line, or nothing without a match. */
  function ThumbnailCapture(s: string): (r: Option<string>)
    ensures r.Some? ==> forall i :: 0 <= i < |r.value| ==> r.value[i] !in CaptureStop
  {
    match LastMarker(s, LineEnd(s))
    case None => None
    case Some(p) => Some(TakeUntil(s[p + MarkerLength(s, p).value..], CaptureStop))
  }

  /** `/\.(jpeg|jpg|gif|png)$/` */
  predicate IsImageUrl(s: string) {
    EndsWith(s, ".jpeg") || EndsWith(s, ".jpg") || EndsWith(s, ".gif") || EndsWith(s, ".png")
  }

  const ImagePrefix := "https://img.youtube.com/vi/"
  const ImageSuffix := "/hqdefault.jpg"

  /** `getYouTubeThumbnail`: null for a falsy url; an image url as it is;
      the thumbnail of an 11-character capture; otherwise the url itself. */
  function Thumbnail(url: Option<string>): (r: Option<string>)
    ensures r.None? <==> !Truthy(url)
    ensures r.Some? ==> (r.value == url.value ||
      (ThumbnailCapture(url.value).Some? && r.value == ImagePrefix + ThumbnailCapture(url.value).value + ImageSuffix))
  {
    if !Truthy(url) then None
    else if IsImageUrl(url.value) then url
    else match ThumbnailCapture(url.value)
      case Some(id) => if |id| == 11 then Some(ImagePrefix + id + ImageSuffix) else url
      case None => url
  }

  /** A thumbnail url ends in `.jpg`, so it is returned as it is. */
  lemma ThumbnailIsImage(id: string)
    ensures IsImageUrl(ImagePrefix + id + ImageSuffix)
  {
    var s := ImagePrefix + id + ImageSuffix;
    assert s[|s| - 4..] == ImageSuffix[|ImageSuffix| - 4..];
  }

  /** `getYouTubeThumbnail` is idempotent. */
  lemma ThumbnailIdempotent(url: Option<string>)
    ensures Thumbnail(Thumbnail(url)) == Thumbnail(url)
  {
    var r := Thumbnail(url);
    if r.Some? && r.value != url.value {
      var id := ThumbnailCapture(url.value).value;
      ThumbnailIsImage(id);
      assert r.value == ImagePrefix + id + ImageSuffix;
    }
  }

  /** The rightmost marker before `n` is `m` when none follows it. */
  lemma {:induction false} LastMarkerIs(s: string, m: nat, n: nat)
    requires m < n <= |s| && MarkerLength(s, m).Some?
    requires forall q :: m < q < n ==> MarkerLength(s, q).None?
    ensures LastMarker(s, n) == Some(m)
    decreases n
  {
    if n - 1 != m {
      LastMarkerIs(s, m, n - 1);
    }
  }

  /** The capture of a one-line url whose last marker is followed by `id`. */
  lemma CaptureAfter(s: string, m: nat, id: string)
    requires LineEnd(s) == |s|
    requires MarkerLength(s, m).Some? && s[m + MarkerLength(s, m).value..] == id
    requires forall q :: m < q < |s| ==> MarkerLength(s, q).None?
    requires forall i :: 0 <= i < |id| ==> id[i] !in CaptureStop
    ensures ThumbnailCapture(s) == Some(id)
  {
    LastMarkerIs(s, m, |s|);
    TakeUntilConcat(id, [], CaptureStop);
    assert id + [] == id;
  }

  /** The image of an 11-character capture. */
  lemma ThumbnailFromCapture(s: string, id: string)
    requires s != [] && !IsImageUrl(s) && ThumbnailCapture(s) == Some(id) && |id| == 11
    ensures Thumbnail(Some(s)) == Some(ImagePrefix + id + ImageSuffix)
  {
  }

  /** The thumbnail of an embed link, the form the server stores, is the
      image of its id. */
  lemma ThumbnailOfEmbed(id: string)
    requires LessonController.IsVideoId(id)
    ensures Thumbnail(Some(LessonController.EmbedPrefix + id)) == Some(ImagePrefix + id + ImageSuffix)
  {
    var s := LessonController.EmbedPrefix + id;
    PrefixesOneLine();
    OneLine(LessonController.EmbedPrefix, id);
    EmbedMarkers(id);
    assert s[30..] == id;
    CaptureAfter(s, 24, id);
    NotImage(s, id);
    ThumbnailFromCapture(s, id);
  }

  /** The embed and watch prefixes hold no line terminator. */
  lemma PrefixesOneLine()
    ensures forall c :: c in LessonController.EmbedPrefix ==> !IsLineTerminator(c)
    ensures forall c :: c in WatchPrefix ==> !IsLineTerminator(c)
  {
  }

  /** A link made of a prefix without line terminators and an id is one line. */
  lemma OneLine(prefix: string, id: string)
    requires forall c :: c in prefix ==> !IsLineTerminator(c)
    requires LessonController.IdChars(id)
    ensures LineEnd(prefix + id) == |prefix + id|
  {
    var s := prefix + id;
    forall i | 0 <= i < |s| ensures !IsLineTerminator(s[i]) {
      if i < |prefix| {
        assert s[i] == prefix[i] && prefix[i] in prefix;
      } else {
        assert s[i] == id[i - |prefix|];
      }
    }
    NoTerminators(s);
  }

  /** In an embed link the last marker is `embed/` at index 24. */
  lemma EmbedMarkers(id: string)
    requires LessonController.IdChars(id)
    ensures MarkerLength(LessonController.EmbedPrefix + id, 24) == Some(6)
    ensures forall q :: 24 < q < |LessonController.EmbedPrefix + id| ==> MarkerLength(LessonController.EmbedPrefix + id, q).None?
  {
    var s := LessonController.EmbedPrefix + id;
    assert s[24..30] == "embed/";
    assert MarkerLength(s, 24) == Some(6);
    assert forall i :: 30 <= i < |s| ==> s[i] == id[i - 30];
    forall q | 24 < q < 30 ensures MarkerLength(s, q).None? {
      assert s[q] == s[24..30][q - 24];
      if q == 27 && 32 < |s| {
        assert s[32] == id[2];
      }
      NoMarkerByShape(s, q);
    }
    IdHoldsNoMarker(s, 30, id);
  }

  /** No marker starts inside a run of id characters that ends the url. */
  lemma IdHoldsNoMarker(s: string, start: nat, id: string)
    requires start + |id| == |s| && LessonController.IdChars(id)
    requires forall i :: start <= i < |s| ==> s[i] == id[i - start]
    ensures forall q :: start <= q < |s| ==> MarkerLength(s, q).None?
  {
    forall q | start <= q < |s| ensures MarkerLength(s, q).None? {
      NoMarkerByShape(s, q);
    }
  }

  /** A url that ends in eleven id characters is no image url. */
  lemma NotImage(s: string, id: string)
    requires LessonController.IsVideoId(id)
    requires EndsWith(s, id)
    ensures !IsImageUrl(s)
  {
    assert s[|s| - 5] == id[6] && s[|s| - 4] == id[7];
  }

  lemma NoTerminators(s: string)
    requires forall i :: 0 <= i < |s| ==> !IsLineTerminator(s[i])
    ensures LineEnd(s) == |s|
  {
    assert s + [] == s;
    TakeUntilConcat(s, [], LineTerminators);
  }

  /** The thumbnail of a watch link is the image of its `v` parameter. */
  lemma ThumbnailOfWatchLink(id: string)
    requires LessonController.IsVideoId(id)
    ensures Thumbnail(Some(WatchPrefix + id)) == Some(ImagePrefix + id + ImageSuffix)
  {
    var s := WatchPrefix + id;
    WatchCapture(id);
    assert s[32..] == id;
    NotImage(s, id);
    ThumbnailFromCapture(s, id);
  }

  /** The regular expression captures a watch link's id. */
  lemma WatchCapture(id: string)
    requires LessonController.IdChars(id)
    ensures ThumbnailCapture(WatchPrefix + id) == Some(id)
  {
    var s := WatchPrefix + id;
    PrefixesOneLine();
    OneLine(WatchPrefix, id);
    WatchMarkers(id);
    assert s[32..] == id;
    CaptureAfter(s, 24, id);
  }

  /** In a watch link the last marker is `watch?v=` at index 24. */
  lemma WatchMarkers(id: string)
    requires LessonController.IdChars(id)
    ensures MarkerLength(WatchPrefix + id, 24) == Some(8)
    ensures forall q :: 24 < q < |WatchPrefix + id| ==> MarkerLength(WatchPrefix + id, q).None?
  {
    var s := WatchPrefix + id;
    assert s[24..32] == "watch?v=";
    assert MarkerLength(s, 24) == Some(8);
    assert forall i :: 32 <= i < |s| ==> s[i] == id[i - 32];
    forall q | 24 < q < 32 ensures MarkerLength(s, q).None? {
      assert s[q] == s[24..32][q - 24];
      if q == 30 {
        assert s[31] == s[24..32][7];
      }
      NoMarkerByShape(s, q);
    }
    IdHoldsNoMarker(s, 32, id);
  }

  const WatchPrefix := "https://www.youtube.com/watch?v="

  // ---------------------------------------------------------------- embed url

  /** The video id `getEmbedUrl` reads from a parsed url: the path after its
      first character on a `youtu.be` host, otherwise the `v` parameter. */
  function VideoIdOf(u: Url): (r: string)
    ensures Contains(u.hostname, "youtu.be") ==> r == SliceFrom1(u.pathname)
    ensures !Contains(u.hostname, "youtu.be") ==> r == Get(u.query, "v").GetOr("")
  {
    if Contains(u.hostname, "youtu.be") then SliceFrom1(u.pathname)
    else match Get(u.query, "v")
      case Some(v) => v
      case None => ""
  }

  /** `getEmbedUrl`: '' for a falsy url; a url holding `youtube.com/embed/`
      as it is; otherwise the trimmed url, with `https://` put in front when
      it does not start with `http`, is parsed and a non-empty video id gives
      its embed link; anything else gives back the url, untrimmed. */
  function EmbedUrl(url: Option<string>): (r: string)
    ensures !Truthy(url) <==> r == ""
    ensures Truthy(url) ==> r == url.value || StartsWith(r, LessonController.EmbedPrefix)
  {
    if !Truthy(url) then ""
    else if Contains(url.value, "youtube.com/embed/") then url.value
    else EmbedOfLink(url.value)
  }

  /** The parsing part of `getEmbedUrl`, for a url without the embed marker. */
  function EmbedOfLink(url: string): (r: string)
    ensures r == url || (StartsWith(r, LessonController.EmbedPrefix) && r != "")
  {
    var clean := Trim(url);
    match Parse(if StartsWith(clean, "http") then clean else "https://" + clean)
    case None => url
    case Some(u) =>
      var id := VideoIdOf(u);
      if id != "" then EmbedLink(id) else url
  }

  /** The embed link of a video id. */
  function EmbedLink(id: string): (r: string)
    ensures StartsWith(r, LessonController.EmbedPrefix) && r != ""
    ensures r[|LessonController.EmbedPrefix|..] == id
  {
    var r := LessonController.EmbedPrefix + id;
    assert r[..|LessonController.EmbedPrefix|] == LessonController.EmbedPrefix;
    r
  }

  lemma EmbedHoldsMarker(id: string)
    ensures Contains(LessonController.EmbedPrefix + id, "youtube.com/embed/")
  {
    assert LessonController.EmbedPrefix + id == "https://www." + "youtube.com/embed/" + id;
    ContainsInfix("https://www.", "youtube.com/embed/", id);
  }

  /** `getEmbedUrl` is idempotent. */
  lemma EmbedUrlIdempotent(url: Option<string>)
    ensures EmbedUrl(Some(EmbedUrl(url))) == EmbedUrl(url)
  {
    var r := EmbedUrl(url);
    if Truthy(url) && r != url.value {
      EmbedHoldsMarker(r[|LessonController.EmbedPrefix|..]);
      assert r == LessonController.EmbedPrefix + r[|LessonController.EmbedPrefix|..];
    }
  }

  /** The player shows a stored embed link as it is. */
  lemma EmbedUrlKeepsEmbed(id: string)
    ensures EmbedUrl(Some(LessonController.EmbedPrefix + id)) == LessonController.EmbedPrefix + id
  {
    EmbedHoldsMarker(id);
  }

  /** A url without the embed marker: `/` sits at index `q + 11` and `q + 17`
      of any occurrence. */
  lemma NoEmbedMarker(s: string, slashes: set<nat>)
    requires forall i :: 0 <= i < |s| && s[i] == '/' ==> i in slashes
    requires forall i :: i in slashes ==> i < 17 || (i - 6) !in slashes
    ensures !Contains(s, "youtube.com/embed/")
  {
    forall q: nat | q <= |s| ensures !InfixAt(s, "youtube.com/embed/", q) {
      if q + 18 <= |s| {
        assert !(s[q + 11] == '/' && s[q + 17] == '/');
        assert "youtube.com/embed/"[11] == '/' && "youtube.com/embed/"[17] == '/';
      }
    }
  }

  /** A url that `getEmbedUrl` parses as it is, and the link it then gives. */
  lemma EmbedFromParse(s: string, u: Url)
    requires s != [] && !Contains(s, "youtube.com/embed/") && Trim(s) == s && StartsWith(s, "http")
    requires Parse(s) == Some(u) && VideoIdOf(u) != ""
    ensures EmbedUrl(Some(s)) == LessonController.EmbedPrefix + VideoIdOf(u)
  {
  }

  /** A link that starts and ends with no white space is trimmed. */
  lemma TrimmedLink(s: string)
    requires s != [] && s[0] == 'h' && LessonController.IsIdChar(s[|s| - 1])
    ensures Trim(s) == s
  {
    var last := s[|s| - 1];
    assert !IsSpace(last) by {
      assert IsAlpha(last) || ('0' <= last <= '9') || last == '_' || last == '-';
    }
    TrimOfTrimmed(s);
  }

  /** A link spelled with `http` at its head starts with `http`. */
  lemma HttpLink(s: string)
    requires |s| >= 4 && s[0] == 'h' && s[1] == 't' && s[2] == 't' && s[3] == 'p'
    ensures StartsWith(s, "http")
  {
    assert s[..4] == "http";
  }

  /** `youtu.be/<id>` embeds `<id>`. */
  lemma EmbedOfShortLink(id: string)
    requires id != [] && LessonController.IdChars(id)
    ensures EmbedUrl(Some(HttpsUrl(LessonController.ShortHost, "/" + id, None))) == LessonController.EmbedPrefix + id
  {
    ShortLinkText(id);
    ShortParse(id);
    EmbedOfShortText(id);
  }

  const ShortPrefix := "https://youtu.be/"

  lemma ShortLinkText(id: string)
    ensures HttpsUrl(LessonController.ShortHost, "/" + id, None) == ShortPrefix + id
  {
  }

  /** The short link, once known to parse into its parts, embeds its id. */
  lemma EmbedOfShortText(id: string)
    requires id != [] && LessonController.IdChars(id)
    requires Parse(ShortPrefix + id) == Some(Url("https", LessonController.ShortHost, "/" + id, ""))
    ensures EmbedUrl(Some(ShortPrefix + id)) == LessonController.EmbedPrefix + id
  {
    ShortLinkShape(id);
    var u := Url("https", LessonController.ShortHost, "/" + id, "");
    LessonController.Hosts();
    assert VideoIdOf(u) == id by {
      assert ("/" + id)[1..] == id;
    }
    EmbedFromParse(ShortPrefix + id, u);
  }

  /** A short link is trimmed, starts with `http` and holds no embed marker. */
  lemma ShortLinkShape(id: string)
    requires id != [] && LessonController.IdChars(id)
    ensures var s := ShortPrefix + id;
      s != [] && !Contains(s, "youtube.com/embed/") && Trim(s) == s && StartsWith(s, "http")
  {
    var s := ShortPrefix + id;
    forall i | 0 <= i < |s| && s[i] == '/' ensures i in {6, 7, 16} {
      if i < 17 {
        assert s[i] == ShortPrefix[i];
      }
    }
    NoEmbedMarker(s, {6, 7, 16});
    TrimmedLink(s);
    HttpLink(s);
  }

  lemma ShortParse(id: string)
    requires LessonController.IdChars(id)
    ensures Parse(HttpsUrl(LessonController.ShortHost, "/" + id, None)) == Some(Url("https", LessonController.ShortHost, "/" + id, ""))
  {
    LessonController.Hosts();
    LessonController.IdCharsArePathChars(id);
    LessonController.PathCharsConcat("/", id);
    ParseHttps(LessonController.ShortHost, "/" + id, None);
  }

  lemma WatchLinkNoMarker(id: string)
    requires LessonController.IdChars(id)
    ensures !Contains(WatchPrefix + id, "youtube.com/embed/")
  {
    var s := WatchPrefix + id;
    forall i | 0 <= i < |s| && s[i] == '/' ensures i in {6, 7, 23} {
      if i < 32 {
        assert s[i] == WatchPrefix[i];
      }
    }
    NoEmbedMarker(s, {6, 7, 23});
  }

  lemma WatchVideoId(id: string)
    requires LessonController.IdChars(id)
    ensures VideoIdOf(Url("https", LessonController.WwwHost, "/watch", "v=" + id)) == id
  {
    LessonController.Hosts();
    GetFirst(id, []);
    assert "v=" + id + [] == "v=" + id;
  }

  /** `https://www.youtube.com/watch?v=<id>` embeds `<id>`. */
  lemma EmbedOfWatchLink(id: string)
    requires id != [] && LessonController.IdChars(id)
    ensures EmbedUrl(Some(HttpsUrl(LessonController.WwwHost, "/watch", Some("v=" + id)))) == LessonController.EmbedPrefix + id
  {
    WatchLinkText(id);
    LessonController.WatchLinkParts(id);
    EmbedOfWatchText(id);
  }

  lemma WatchLinkText(id: string)
    ensures HttpsUrl(LessonController.WwwHost, "/watch", Some("v=" + id)) == WatchPrefix + id
  {
  }

  /** The watch link, once known to parse into its parts, embeds its id. */
  lemma EmbedOfWatchText(id: string)
    requires id != [] && LessonController.IdChars(id)
    requires Parse(WatchPrefix + id) == Some(Url("https", LessonController.WwwHost, "/watch", "v=" + id))
    ensures EmbedUrl(Some(WatchPrefix + id)) == LessonController.EmbedPrefix + id
  {
    WatchLinkShape(id);
    WatchVideoId(id);
    EmbedFromParse(WatchPrefix + id, Url("https", LessonController.WwwHost, "/watch", "v=" + id));
  }

  /** A watch link is trimmed, starts with `http` and holds no embed marker. */
  lemma WatchLinkShape(id: string)
    requires id != [] && LessonController.IdChars(id)
    ensures var s := WatchPrefix + id;
      s != [] && !Contains(s, "youtube.com/embed/") && Trim(s) == s && StartsWith(s, "http")
  {
    var s := WatchPrefix + id;
    WatchLinkNoMarker(id);
    TrimmedLink(s);
    HttpLink(s);
  }
}
