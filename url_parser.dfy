/**
 * `MediaBox.parseUrl`: the href of a trigger is resolved to a provider and a
 * video id by two regular expressions, tried in order. Both expressions are
 * modelled by hand-written matchers, each proved against a description of
 * the language the expression accepts.
 */
module UrlParser {
  import opened Wrappers
  import opened Strings

  /** The result of `parseUrl`: `{provider, id}`. */
  datatype Service = Service(provider: string, id: string)

  // ---------------------------------------------------------------------
  // Character classes of the two expressions.

  /** The characters `.` does not match (no `s` flag): the line terminators. */
  predicate IsLineTerminator(c: char) {
    c == '\n' || c == '\r' || c == '\U{2028}' || c == '\U{2029}'
  }

  /**
   * A character one `.` matches on its own. Without the `u` flag `.` reads
   * one UTF-16 code unit, so a character above U+FFFF (two code units) is
   * never matched by a single `.` followed by a literal.
   */
  predicate IsDotChar(c: char) {
    !IsLineTerminator(c) && (c as int) < 0x1_0000
  }

  /** `\w` */
  predicate IsWordChar(c: char) {
    ('a' <= c <= 'z') || ('A' <= c <= 'Z') || ('0' <= c <= '9') || c == '_'
  }

  /** `\d` */
  predicate IsDigit(c: char) {
    '0' <= c <= '9'
  }

  predicate AllDigits(s: string) {
    forall k :: 0 <= k < |s| ==> IsDigit(s[k])
  }

  /** The characters excluded by `[^#\&\?]`. */
  predicate IsIdStop(c: char) {
    c == '#' || c == '&' || c == '?'
  }

  /** The language of `.*`: no line terminator. */
  predicate NoLineTerminator(s: string) {
    forall k :: 0 <= k < |s| ==> !IsLineTerminator(s[k])
  }

  // ---------------------------------------------------------------------
  // The YouTube expression `^.*(youtu.be\/|v\/|u\/\w\/|embed\/|watch\?v=)([^#\&\?]*).*`

  /** The language of capture group 1. */
  predicate IsYouTubeMarker(m: string) {
    || (|m| == 9 && m[..5] == "youtu" && IsDotChar(m[5]) && m[6..] == "be/")
    || m == "v/"
    || (|m| == 4 && m[..2] == "u/" && IsWordChar(m[2]) && m[3] == '/')
    || m == "embed/"
    || m == "watch?v="
  }

  /**
   * A match of group 1 can start at `p`: the text before it is matched by the
   * leading `^.*` and `s[p..q]` is a marker.
   */
  ghost predicate MarkerAt(s: string, p: nat, q: nat) {
    p <= q <= |s| && NoLineTerminator(s[..p]) && IsYouTubeMarker(s[p..q])
  }

  /** The YouTube expression matches `s` somewhere. */
  ghost predicate YouTubeMatches(s: string) {
    exists p: nat, q: nat :: MarkerAt(s, p, q)
  }

  /** Group 2 spans `s[q..e]`: a maximal run of characters other than `#&?`. */
  ghost predicate IdRun(s: string, q: nat, e: nat) {
    q <= e <= |s|
    && (forall k :: q <= k < e ==> !IsIdStop(s[k]))
    && (e == |s| || IsIdStop(s[e]))
  }

  /**
   * Length of the marker that starts at `p`, 0 when none does. The five
   * alternatives begin with five different characters, so at most one
   * marker starts at any position.
   */
  function MarkerLength(s: string, p: nat): (n: nat)
    requires p <= |s|
    ensures p + n <= |s|
    ensures n > 0 ==> IsYouTubeMarker(s[p..p + n])
  {
    if p == |s| then 0
    else
      match s[p]
      case 'y' =>
        if p + 9 <= |s| && s[p..p + 5] == "youtu" && IsDotChar(s[p + 5]) && s[p + 6..p + 9] == "be/" then 9 else 0
      case 'v' => if HasAt(s, p, "v/") then 2 else 0
      case 'u' =>
        if p + 4 <= |s| && s[p + 1] == '/' && IsWordChar(s[p + 2]) && s[p + 3] == '/' then
          UserMarker(s, p);
          4
        else 0
      case 'e' => if HasAt(s, p, "embed/") then 6 else 0
      case 'w' => if HasAt(s, p, "watch?v=") then 8 else 0
      case _ => 0
  }

  lemma {:induction false} UserMarker(s: string, p: nat)
    requires p + 4 <= |s| && s[p] == 'u' && s[p + 1] == '/' && IsWordChar(s[p + 2]) && s[p + 3] == '/'
    ensures IsYouTubeMarker(s[p..p + 4])
  {
    var m := s[p..p + 4];
    assert m[..2] == [m[0], m[1]] == "u/";
  }

  /** Every marker starting at `p` is the one `MarkerLength` finds. */
  lemma {:induction false} MarkerStart(s: string, p: nat, q: nat)
    requires p <= q <= |s| && IsYouTubeMarker(s[p..q])
    ensures MarkerLength(s, p) > 0 && q == p + MarkerLength(s, p)
  {
    var m := s[p..q];
    if |m| == 9 && m[..5] == "youtu" && IsDotChar(m[5]) && m[6..] == "be/" {
      MarkerYoutu(s, p, q);
    } else if |m| == 4 && m[..2] == "u/" && IsWordChar(m[2]) && m[3] == '/' {
      MarkerUser(s, p, q);
    } else {
      MarkerLiteral(s, p, q);
    }
  }

  lemma {:induction false} MarkerYoutu(s: string, p: nat, q: nat)
    requires p <= q <= |s|
    requires var m := s[p..q]; |m| == 9 && m[..5] == "youtu" && IsDotChar(m[5]) && m[6..] == "be/"
    ensures MarkerLength(s, p) == 9 && q == p + 9
  {
    var m := s[p..q];
    assert s[p] == m[..5][0] == 'y';
    assert s[p..p + 5] == m[..5] && s[p + 5] == m[5] && s[p + 6..p + 9] == m[6..];
  }

  lemma {:induction false} MarkerUser(s: string, p: nat, q: nat)
    requires p <= q <= |s|
    requires var m := s[p..q]; |m| == 4 && m[..2] == "u/" && IsWordChar(m[2]) && m[3] == '/'
    ensures MarkerLength(s, p) == 4 && q == p + 4
  {
    var m := s[p..q];
    assert s[p] == m[..2][0] == 'u';
    assert s[p + 1] == m[..2][1] == '/';
    assert s[p + 2] == m[2] && s[p + 3] == m[3];
  }

  lemma {:induction false} MarkerLiteral(s: string, p: nat, q: nat)
    requires p <= q <= |s|
    requires var m := s[p..q]; m == "v/" || m == "embed/" || m == "watch?v="
    ensures MarkerLength(s, p) > 0 && q == p + MarkerLength(s, p)
  {
    assert s[p] == s[p..q][0];
  }

  /** A marker is matched at `p` exactly when `MarkerLength` is positive. */
  lemma {:induction false} MarkerLengthExact(s: string, p: nat)
    requires p <= |s|
    ensures forall q :: p <= q <= |s| ==> (IsYouTubeMarker(s[p..q]) <==> MarkerLength(s, p) > 0 && q == p + MarkerLength(s, p))
  {
    forall q | p <= q <= |s| && IsYouTubeMarker(s[p..q]) ensures MarkerLength(s, p) > 0 && q == p + MarkerLength(s, p) {
      MarkerStart(s, p, q);
    }
  }

  /** A prefix matched by `.*` ends no later than the first line terminator `l`. */
  lemma {:induction false} PrefixWithinLine(s: string, p: nat, l: nat)
    requires p <= |s| && NoLineTerminator(s[..p])
    requires l == |s| || (l < |s| && IsLineTerminator(s[l]))
    ensures p <= l
  {
    assert forall k :: 0 <= k < p ==> s[..p][k] == s[k];
  }

  /** Index of the first line terminator at or after `i`, or `|s|`. */
  function LineEnd(s: string, i: nat): (e: nat)
    requires i <= |s|
    ensures i <= e <= |s|
    ensures NoLineTerminator(s[i..e])
    ensures e == |s| || IsLineTerminator(s[e])
    decreases |s| - i
  {
    if i == |s| || IsLineTerminator(s[i]) then i
    else
      var e := LineEnd(s, i + 1);
      assert s[i..e] == [s[i]] + s[i + 1..e];
      e
  }

  /** The largest position at or below `p` where a marker starts. */
  function LastMarker(s: string, p: nat): (r: Option<nat>)
    requires p <= |s|
    ensures r.Some? ==> r.value <= p && MarkerLength(s, r.value) > 0
    ensures r.Some? ==> forall q :: r.value < q <= p ==> MarkerLength(s, q) == 0
    ensures r.None? ==> forall q :: 0 <= q <= p ==> MarkerLength(s, q) == 0
  {
    if MarkerLength(s, p) > 0 then Some(p)
    else if p == 0 then None
    else LastMarker(s, p - 1)
  }

  /** End of the run of characters other than `#&?` that starts at `q`. */
  function IdEnd(s: string, q: nat): (e: nat)
    requires q <= |s|
    ensures q <= e <= |s|
    ensures forall k :: q <= k < e ==> !IsIdStop(s[k])
    ensures e == |s| || IsIdStop(s[e])
    decreases |s| - q
  {
    if q == |s| || IsIdStop(s[q]) then q else IdEnd(s, q + 1)
  }

  /** Where the YouTube expression matched: group 1 is `[start..markerEnd]`, group 2 `[markerEnd..idEnd]`. */
  datatype YouTubeMatch = YouTubeMatch(start: nat, markerEnd: nat, idEnd: nat)

  /**
   * The YouTube expression. The greedy `^.*` backtracks from the end of the
   * first line, so group 1 is the rightmost marker that starts on it.
   */
  function MatchYouTube(s: string): (r: Option<YouTubeMatch>)
    ensures r.None? <==> !YouTubeMatches(s)
    ensures r.Some? ==> MarkerAt(s, r.value.start, r.value.markerEnd)
    ensures r.Some? ==> IdRun(s, r.value.markerEnd, r.value.idEnd)
    ensures r.Some? ==> forall p: nat, q: nat :: MarkerAt(s, p, q) ==> p <= r.value.start
  {
    var l := LineEnd(s, 0);
    assert s[0..l] == s[..l];
    match LastMarker(s, l)
    case None =>
      NoMarkerBeyond(s, l, 0);
      assert !YouTubeMatches(s);
      None
    case Some(p) =>
      var q := p + MarkerLength(s, p);
      assert NoLineTerminator(s[..p]) by {
        assert s[..p] == s[..l][..p];
      }
      assert MarkerAt(s, p, q);
      NoMarkerBeyond(s, l, p + 1);
      Some(YouTubeMatch(p, q, IdEnd(s, q)))
  }

  /** No marker starts in `[from..]` when none starts in `[from..l]`, `l` being the end of the first line. */
  lemma {:induction false} NoMarkerBeyond(s: string, l: nat, from: nat)
    requires l <= |s| && (l == |s| || IsLineTerminator(s[l]))
    requires forall q :: from <= q <= l ==> MarkerLength(s, q) == 0
    ensures forall p: nat, q: nat :: from <= p ==> !MarkerAt(s, p, q)
  {
    forall p: nat, q: nat | from <= p ensures !MarkerAt(s, p, q) {
      if p <= q <= |s| && NoLineTerminator(s[..p]) {
        PrefixWithinLine(s, p, l);
        if IsYouTubeMarker(s[p..q]) {
          MarkerStart(s, p, q);
        }
      }
    }
  }

  // ---------------------------------------------------------------------
  // The Vimeo expression
  // `https?:\/\/(?:www\.)?vimeo.com\/(?:channels\/|groups\/([^\/]*)\/videos\/|album\/(\d+)\/video\/|)(\d+)(?:$|\/|\?)`

  /** Which of the four path alternatives matched, with groups 1 and 2. */
  datatype VimeoPath = Plain | Channels | Group(name: string) | Album(album: string)

  /** One way through the Vimeo expression; `id` is group 3. */
  datatype VimeoLink = VimeoLink(secure: bool, www: bool, dot: char, path: VimeoPath, id: string)

  /** The values each part of the expression can take. */
  predicate ValidLink(v: VimeoLink) {
    IsDotChar(v.dot) && ValidPath(v.path) && |v.id| > 0 && AllDigits(v.id)
  }

  predicate ValidPath(p: VimeoPath) {
    && (p.Group? ==> '/' !in p.name)
    && (p.Album? ==> |p.album| > 0 && AllDigits(p.album))
  }

  function PathText(p: VimeoPath): string {
    match p
    case Plain => ""
    case Channels => "channels/"
    case Group(name) => "groups/" + name + "/videos/"
    case Album(album) => "album/" + album + "/video/"
  }

  /** `https?:\/\/` */
  function SchemeText(secure: bool): string {
    if secure then "https://" else "http://"
  }

  /** `(?:www\.)?` */
  function WwwText(www: bool): string {
    if www then "www." else ""
  }

  /** `vimeo.com\/`, the unescaped `.` matching `dot`. */
  function HostText(dot: char): string {
    "vimeo" + [dot] + "com/"
  }

  /** `(?:$|\/|\?)` at index `k`. */
  predicate Terminated(s: string, k: nat) {
    k == |s| || (k < |s| && (s[k] == '/' || s[k] == '?'))
  }

  /**
   * The Vimeo expression matches at index `i` by way of `v`: each part of
   * the expression matches where the previous one ended, and the final
   * `(?:$|\/|\?)` holds after group 3.
   */
  ghost predicate LinkAt(s: string, i: nat, v: VimeoLink) {
    && ValidLink(v)
    && HasAt(s, i, SchemeText(v.secure))
    && HasAt(s, HostStart(i, v), WwwText(v.www) + HostText(v.dot))
    && HasAt(s, PathStart(i, v), PathText(v.path))
    && HasAt(s, IdStart(i, v), v.id)
    && Terminated(s, IdStart(i, v) + |v.id|)
  }

  /** Where the host, the path and group 3 start when `v` matches at `i`. */
  function HostStart(i: nat, v: VimeoLink): nat {
    i + |SchemeText(v.secure)|
  }

  function PathStart(i: nat, v: VimeoLink): nat {
    HostStart(i, v) + |WwwText(v.www) + HostText(v.dot)|
  }

  function IdStart(i: nat, v: VimeoLink): nat {
    PathStart(i, v) + |PathText(v.path)|
  }

  ghost predicate VimeoMatches(s: string) {
    exists i: nat, v: VimeoLink :: LinkAt(s, i, v)
  }

  /** End of the run of digits that starts at `j`. */
  function DigitEnd(s: string, j: nat): (e: nat)
    requires j <= |s|
    ensures j <= e <= |s| && AllDigits(s[j..e])
    ensures e == |s| || !IsDigit(s[e])
    decreases |s| - j
  {
    if j < |s| && IsDigit(s[j]) then
      var e := DigitEnd(s, j + 1);
      assert s[j..e] == [s[j]] + s[j + 1..e];
      e
    else j
  }

  /** End of the run of characters other than `/` that starts at `j`. */
  function SlashEnd(s: string, j: nat): (e: nat)
    requires j <= |s|
    ensures j <= e <= |s| && '/' !in s[j..e]
    ensures e == |s| || s[e] == '/'
    decreases |s| - j
  {
    if j < |s| && s[j] != '/' then
      var e := SlashEnd(s, j + 1);
      assert s[j..e] == [s[j]] + s[j + 1..e];
      e
    else j
  }

  /** A run of digits ending before a non-digit is what `DigitEnd` finds. */
  lemma {:induction false} DigitEndExact(s: string, j: nat, e: nat)
    requires j <= e <= |s| && AllDigits(s[j..e]) && (e == |s| || !IsDigit(s[e]))
    ensures DigitEnd(s, j) == e
    decreases e - j
  {
    if j < e {
      assert s[j] == s[j..e][0];
      assert s[j + 1..e] == s[j..e][1..];
      DigitEndExact(s, j + 1, e);
    }
  }

  /** A run free of `/` ending before a `/` is what `SlashEnd` finds. */
  lemma {:induction false} SlashEndExact(s: string, j: nat, e: nat)
    requires j <= e <= |s| && '/' !in s[j..e] && (e == |s| || s[e] == '/')
    ensures SlashEnd(s, j) == e
    decreases e - j
  {
    if j < e {
      assert s[j] == s[j..e][0];
      assert s[j + 1..e] == s[j..e][1..];
      SlashEndExact(s, j + 1, e);
    }
  }

  /** The path alternative at `j` and where it ends. */
  function MatchPath(s: string, j: nat): (r: Option<(VimeoPath, nat)>)
    requires j <= |s|
    ensures r.Some? ==> ValidPath(r.value.0) && r.value.1 == j + |PathText(r.value.0)|
    ensures r.Some? ==> HasAt(s, j, PathText(r.value.0))
  {
    if HasAt(s, j, "channels/") then Some((Channels, j + 9))
    else if HasAt(s, j, "groups/") then MatchGroupPath(s, j)
    else if HasAt(s, j, "album/") then MatchAlbumPath(s, j)
    else Some((Plain, j))
  }

  /** `groups\/([^\/]*)\/videos\/` at `j`, once `groups/` is known to be there. */
  function MatchGroupPath(s: string, j: nat): (r: Option<(VimeoPath, nat)>)
    requires HasAt(s, j, "groups/")
    ensures r.Some? ==> r.value.0.Group? && ValidPath(r.value.0) && r.value.1 == j + |PathText(r.value.0)|
    ensures r.Some? ==> HasAt(s, j, PathText(r.value.0))
  {
    var n := SlashEnd(s, j + 7);
    if HasAt(s, n, "/videos/") then
      var name := s[j + 7..n];
      assert HasAt(s, j + 7, name);
      HasAtConcat(s, j, "groups/", name);
      HasAtConcat(s, j, "groups/" + name, "/videos/");
      Some((Group(name), n + 8))
    else None
  }

  /** `album\/(\d+)\/video\/` at `j`, once `album/` is known to be there. */
  function MatchAlbumPath(s: string, j: nat): (r: Option<(VimeoPath, nat)>)
    requires HasAt(s, j, "album/")
    ensures r.Some? ==> r.value.0.Album? && ValidPath(r.value.0) && r.value.1 == j + |PathText(r.value.0)|
    ensures r.Some? ==> HasAt(s, j, PathText(r.value.0))
  {
    var d := DigitEnd(s, j + 6);
    if d > j + 6 && HasAt(s, d, "/video/") then
      var album := s[j + 6..d];
      assert HasAt(s, j + 6, album);
      HasAtConcat(s, j, "album/", album);
      HasAtConcat(s, j, "album/" + album, "/video/");
      Some((Album(album), d + 7))
    else None
  }

  /**
   * When the text of path `p` stands at `j` followed by a digit, `MatchPath`
   * finds `p`: the alternatives begin with different letters, and the
   * empty one only matches before a digit.
   */
  lemma {:induction false} MatchPathComplete(s: string, j: nat, p: VimeoPath)
    requires ValidPath(p) && HasAt(s, j, PathText(p))
    requires j + |PathText(p)| < |s| && IsDigit(s[j + |PathText(p)|])
    ensures MatchPath(s, j) == Some((p, j + |PathText(p)|))
  {
    match p
    case Plain => MatchPlain(s, j);
    case Channels =>
    case Group(name) => MatchGroup(s, j, name);
    case Album(album) => MatchAlbum(s, j, album);
  }

  lemma {:induction false} MatchPlain(s: string, j: nat)
    requires j < |s| && IsDigit(s[j])
    ensures MatchPath(s, j) == Some((Plain, j))
  {
    NotHasAt(s, j, "channels/");
    NotHasAt(s, j, "groups/");
    NotHasAt(s, j, "album/");
  }

  lemma {:induction false} MatchGroup(s: string, j: nat, name: string)
    requires '/' !in name && HasAt(s, j, "groups/" + name + "/videos/")
    ensures MatchPath(s, j) == Some((Group(name), j + 15 + |name|))
  {
    HasAtConcat(s, j, "groups/" + name, "/videos/");
    HasAtConcat(s, j, "groups/", name);
    HasAtFirst(s, j, "groups/");
    NotHasAt(s, j, "channels/");
    GroupPathExact(s, j, name);
  }

  lemma {:induction false} GroupPathExact(s: string, j: nat, name: string)
    requires '/' !in name && HasAt(s, j, "groups/")
    requires HasAt(s, j + 7, name) && HasAt(s, j + 7 + |name|, "/videos/")
    ensures MatchGroupPath(s, j) == Some((Group(name), j + 15 + |name|))
  {
    HasAtFirst(s, j + 7 + |name|, "/videos/");
    SlashEndName(s, j + 7, name);
    GroupPathAt(s, j, name);
  }

  /** `MatchGroupPath` once the end of the name is known. */
  lemma {:induction false} GroupPathAt(s: string, j: nat, name: string)
    requires HasAt(s, j, "groups/") && SlashEnd(s, j + 7) == j + 7 + |name|
    requires HasAt(s, j + 7 + |name|, "/videos/") && s[j + 7..j + 7 + |name|] == name
    ensures MatchGroupPath(s, j) == Some((Group(name), j + 15 + |name|))
  {
  }

  /** A name free of `/` and followed by `/` ends where `SlashEnd` stops. */
  lemma {:induction false} SlashEndName(s: string, j: nat, name: string)
    requires '/' !in name && HasAt(s, j, name)
    requires j + |name| < |s| && s[j + |name|] == '/'
    ensures SlashEnd(s, j) == j + |name|
  {
    assert s[j..j + |name|] == name;
    SlashEndExact(s, j, j + |name|);
  }

  lemma {:induction false} MatchAlbum(s: string, j: nat, album: string)
    requires |album| > 0 && AllDigits(album) && HasAt(s, j, "album/" + album + "/video/")
    ensures MatchPath(s, j) == Some((Album(album), j + 13 + |album|))
  {
    HasAtConcat(s, j, "album/" + album, "/video/");
    HasAtConcat(s, j, "album/", album);
    HasAtFirst(s, j, "album/");
    NotHasAt(s, j, "channels/");
    NotHasAt(s, j, "groups/");
    AlbumPathExact(s, j, album);
  }

  lemma {:induction false} AlbumPathExact(s: string, j: nat, album: string)
    requires |album| > 0 && AllDigits(album) && HasAt(s, j, "album/")
    requires HasAt(s, j + 6, album) && HasAt(s, j + 6 + |album|, "/video/")
    ensures MatchAlbumPath(s, j) == Some((Album(album), j + 13 + |album|))
  {
    var d := j + 6 + |album|;
    assert s[j + 6..d] == album;
    DigitEndExact(s, j + 6, d);
  }

  /** `https?:\/\/` at `i`: whether the `s` is there, and where the scheme ends. */
  function MatchScheme(s: string, i: nat): (r: Option<(bool, nat)>)
    ensures r.Some? ==> HasAt(s, i, SchemeText(r.value.0)) && r.value.1 == i + |SchemeText(r.value.0)|
  {
    if HasAt(s, i, "https://") then Some((true, i + 8))
    else if HasAt(s, i, "http://") then Some((false, i + 7))
    else None
  }

  /** `(?:www\.)?vimeo.com\/` at `j`: whether `www.` is there, the character `.` matched, and the end. */
  function MatchHost(s: string, j: nat): (r: Option<(bool, char, nat)>)
    ensures r.Some? ==> IsDotChar(r.value.1)
    ensures r.Some? ==> HasAt(s, j, WwwText(r.value.0) + HostText(r.value.1))
    ensures r.Some? ==> r.value.2 == j + |WwwText(r.value.0) + HostText(r.value.1)|
  {
    var www := HasAt(s, j, "www.");
    var h := if www then j + 4 else j;
    if h + 10 <= |s| && HasAt(s, h, "vimeo") && IsDotChar(s[h + 5]) && HasAt(s, h + 6, "com/") then
      HostAt(s, h, s[h + 5]);
      HasAtConcat(s, j, WwwText(www), HostText(s[h + 5]));
      Some((www, s[h + 5], h + 10))
    else None
  }

  /** `(\d+)(?:$|\/|\?)` at `k`: group 3 and where it ends. */
  function MatchId(s: string, k: nat): (r: Option<(string, nat)>)
    requires k <= |s|
    ensures r.Some? ==> |r.value.0| > 0 && AllDigits(r.value.0)
    ensures r.Some? ==> HasAt(s, k, r.value.0) && r.value.1 == k + |r.value.0| && Terminated(s, r.value.1)
  {
    var e := DigitEnd(s, k);
    if e == k || !Terminated(s, e) then None
    else Some((s[k..e], e))
  }

  /** The Vimeo expression anchored at index `i`. */
  function VimeoAt(s: string, i: nat): (r: Option<VimeoLink>)
    requires i <= |s|
    ensures r.Some? ==> LinkAt(s, i, r.value)
  {
    match MatchScheme(s, i)
    case None => None
    case Some((secure, j)) =>
      match MatchHost(s, j)
      case None => None
      case Some((www, dot, h)) =>
        match MatchPath(s, h)
        case None => None
        case Some((path, k)) =>
          match MatchId(s, k)
          case None => None
          case Some((id, e)) =>
            var v := VimeoLink(secure, www, dot, path, id);
            LinkAtIntro(s, i, v, j, h, k);
            Some(v)
  }

  /** The stages of `VimeoAt`, each finding its part, make up a match. */
  lemma {:induction false} LinkAtIntro(s: string, i: nat, v: VimeoLink, j: nat, h: nat, k: nat)
    requires HasAt(s, i, SchemeText(v.secure)) && j == i + |SchemeText(v.secure)|
    requires HasAt(s, j, WwwText(v.www) + HostText(v.dot)) && h == j + |WwwText(v.www) + HostText(v.dot)|
    requires HasAt(s, h, PathText(v.path)) && k == h + |PathText(v.path)|
    requires HasAt(s, k, v.id) && Terminated(s, k + |v.id|)
    requires IsDotChar(v.dot) && ValidPath(v.path) && |v.id| > 0 && AllDigits(v.id)
    ensures LinkAt(s, i, v)
  {
  }

  lemma {:induction false} HostAt(s: string, h: nat, dot: char)
    ensures HasAt(s, h, HostText(dot)) <==> h + 10 <= |s| && HasAt(s, h, "vimeo") && s[h + 5] == dot && HasAt(s, h + 6, "com/")
  {
    HasAtConcat(s, h, "vimeo", [dot]);
    HasAtConcat(s, h, "vimeo" + [dot], "com/");
    if h + 6 <= |s| {
      assert HasAt(s, h + 5, [dot]) <==> s[h + 5] == dot by {
        assert s[h + 5..h + 6] == [s[h + 5]];
      }
    }
  }

  /** Every way the Vimeo expression matches at `i` is the one `VimeoAt` finds. */
  lemma {:induction false} VimeoAtComplete(s: string, i: nat, v: VimeoLink)
    requires i <= |s| && LinkAt(s, i, v)
    ensures VimeoAt(s, i) == Some(v)
  {
    var j, h, k := LinkAtParts(s, i, v);
    VimeoAtFromParts(s, i, v, j, h, k);
  }

  /** Each stage of `VimeoAt` finds its part of the text, one stage at a time. */
  lemma {:induction false} VimeoAtFromParts(s: string, i: nat, v: VimeoLink, j: nat, h: nat, k: nat)
    requires i <= |s|
    requires HasAt(s, i, SchemeText(v.secure)) && j == i + |SchemeText(v.secure)|
    requires IsDotChar(v.dot)
    requires HasAt(s, j, WwwText(v.www) + HostText(v.dot)) && h == j + |WwwText(v.www) + HostText(v.dot)|
    requires ValidPath(v.path) && HasAt(s, h, PathText(v.path)) && k == h + |PathText(v.path)|
    requires k < |s| && IsDigit(s[k])
    requires |v.id| > 0 && AllDigits(v.id) && HasAt(s, k, v.id) && Terminated(s, k + |v.id|)
    ensures VimeoAt(s, i) == Some(v)
  {
    SchemeComplete(s, i, v.secure);
    VimeoAtFromHost(s, i, v, j, h, k);
  }

  lemma {:induction false} VimeoAtFromHost(s: string, i: nat, v: VimeoLink, j: nat, h: nat, k: nat)
    requires i <= |s| && MatchScheme(s, i) == Some((v.secure, j))
    requires IsDotChar(v.dot)
    requires HasAt(s, j, WwwText(v.www) + HostText(v.dot)) && h == j + |WwwText(v.www) + HostText(v.dot)|
    requires ValidPath(v.path) && HasAt(s, h, PathText(v.path)) && k == h + |PathText(v.path)|
    requires k < |s| && IsDigit(s[k])
    requires |v.id| > 0 && AllDigits(v.id) && HasAt(s, k, v.id) && Terminated(s, k + |v.id|)
    ensures VimeoAt(s, i) == Some(v)
  {
    HostComplete(s, j, v.www, v.dot);
    VimeoAtFromPath(s, i, v, j, h, k);
  }

  lemma {:induction false} VimeoAtFromPath(s: string, i: nat, v: VimeoLink, j: nat, h: nat, k: nat)
    requires i <= |s| && MatchScheme(s, i) == Some((v.secure, j))
    requires MatchHost(s, j) == Some((v.www, v.dot, h))
    requires ValidPath(v.path) && HasAt(s, h, PathText(v.path)) && k == h + |PathText(v.path)|
    requires k < |s| && IsDigit(s[k])
    requires |v.id| > 0 && AllDigits(v.id) && HasAt(s, k, v.id) && Terminated(s, k + |v.id|)
    ensures VimeoAt(s, i) == Some(v)
  {
    MatchPathComplete(s, h, v.path);
    VimeoAtFromId(s, i, v, j, h, k);
  }

  lemma {:induction false} VimeoAtFromId(s: string, i: nat, v: VimeoLink, j: nat, h: nat, k: nat)
    requires i <= |s| && MatchScheme(s, i) == Some((v.secure, j))
    requires MatchHost(s, j) == Some((v.www, v.dot, h))
    requires h <= |s| && MatchPath(s, h) == Some((v.path, k))
    requires k <= |s| && |v.id| > 0 && AllDigits(v.id) && HasAt(s, k, v.id) && Terminated(s, k + |v.id|)
    ensures VimeoAt(s, i) == Some(v)
  {
    IdComplete(s, k, v.id);
    VimeoAtStages(s, i, v, j, h, k);
  }

  lemma {:induction false} VimeoAtStages(s: string, i: nat, v: VimeoLink, j: nat, h: nat, k: nat)
    requires i <= |s| && k <= |s|
    requires MatchScheme(s, i) == Some((v.secure, j))
    requires MatchHost(s, j) == Some((v.www, v.dot, h))
    requires h <= |s| && MatchPath(s, h) == Some((v.path, k))
    requires MatchId(s, k) == Some((v.id, k + |v.id|))
    ensures VimeoAt(s, i) == Some(v)
  {
  }

  /** The text of a link, split back into its parts: the host starts at `j`, the path at `h`, the id at `k`. */
  lemma {:induction false} LinkAtParts(s: string, i: nat, v: VimeoLink) returns (j: nat, h: nat, k: nat)
    requires LinkAt(s, i, v)
    ensures HasAt(s, i, SchemeText(v.secure)) && j == i + |SchemeText(v.secure)|
    ensures IsDotChar(v.dot)
    ensures HasAt(s, j, WwwText(v.www) + HostText(v.dot)) && h == j + |WwwText(v.www) + HostText(v.dot)|
    ensures ValidPath(v.path) && HasAt(s, h, PathText(v.path)) && k == h + |PathText(v.path)|
    ensures k < |s| && IsDigit(s[k])
    ensures |v.id| > 0 && AllDigits(v.id) && HasAt(s, k, v.id) && Terminated(s, k + |v.id|)
  {
    j := HostStart(i, v);
    h := PathStart(i, v);
    k := IdStart(i, v);
    FirstDigit(s, k, v.id);
  }

  lemma {:induction false} FirstDigit(s: string, k: nat, id: string)
    requires |id| > 0 && AllDigits(id) && HasAt(s, k, id)
    ensures k < |s| && IsDigit(s[k])
  {
    assert s[k] == s[k..k + |id|][0] == id[0];
  }

  /** `s?` can be matched in one way only: `http:` has no `s` before the colon. */
  lemma {:induction false} SchemeComplete(s: string, i: nat, secure: bool)
    requires HasAt(s, i, SchemeText(secure))
    ensures MatchScheme(s, i) == Some((secure, i + |SchemeText(secure)|))
  {
    if !secure {
      assert s[i + 4] == s[i..i + 7][4] == ':';
    }
  }

  /** `(?:www\.)?` can be matched in one way only: `vimeo` does not start with `w`. */
  lemma {:induction false} HostComplete(s: string, j: nat, www: bool, dot: char)
    requires IsDotChar(dot) && HasAt(s, j, WwwText(www) + HostText(dot))
    ensures MatchHost(s, j) == Some((www, dot, j + |WwwText(www) + HostText(dot)|))
  {
    HasAtConcat(s, j, WwwText(www), HostText(dot));
    var h := j + |WwwText(www)|;
    HostAt(s, h, dot);
    assert |WwwText(www) + HostText(dot)| == |WwwText(www)| + 10;
    if www {
      assert HasAt(s, j, "www.");
    } else {
      HasAtFirst(s, j, "vimeo");
      NotHasAt(s, j, "www.");
    }
  }

  /** A run of digits followed by the end, `/` or `?` is what `MatchId` finds. */
  lemma {:induction false} IdComplete(s: string, k: nat, id: string)
    requires |id| > 0 && AllDigits(id) && HasAt(s, k, id) && Terminated(s, k + |id|)
    ensures MatchId(s, k) == Some((id, k + |id|))
  {
    assert s[k..k + |id|] == id;
    DigitEndExact(s, k, k + |id|);
  }

  /** The leftmost index at or after `i` where the Vimeo expression matches, and how. */
  function FindVimeo(s: string, i: nat): (r: Option<(nat, VimeoLink)>)
    requires i <= |s|
    ensures r.Some? ==> i <= r.value.0 <= |s| && VimeoAt(s, r.value.0) == Some(r.value.1)
    ensures r.Some? ==> forall j :: i <= j < r.value.0 ==> VimeoAt(s, j).None?
    ensures r.None? ==> forall j :: i <= j <= |s| ==> VimeoAt(s, j).None?
    decreases |s| - i
  {
    var here := VimeoAt(s, i);
    if here.Some? then Some((i, here.value))
    else if i == |s| then None
    else
      var r := FindVimeo(s, i + 1);
      FindVimeoStep(s, i, r);
      r
  }

  /** A miss at `i` extends what the search from `i + 1` says to the search from `i`. */
  lemma {:induction false} FindVimeoStep(s: string, i: nat, r: Option<(nat, VimeoLink)>)
    requires i < |s| && VimeoAt(s, i).None?
    requires r.Some? ==> i + 1 <= r.value.0 <= |s| && VimeoAt(s, r.value.0) == Some(r.value.1)
    requires r.Some? ==> forall j :: i + 1 <= j < r.value.0 ==> VimeoAt(s, j).None?
    requires r.None? ==> forall j :: i + 1 <= j <= |s| ==> VimeoAt(s, j).None?
    ensures r.Some? ==> i <= r.value.0 <= |s| && VimeoAt(s, r.value.0) == Some(r.value.1)
    ensures r.Some? ==> forall j :: i <= j < r.value.0 ==> VimeoAt(s, j).None?
    ensures r.None? ==> forall j :: i <= j <= |s| ==> VimeoAt(s, j).None?
  {
  }

  /** When the matcher finds nothing anywhere, the expression matches nowhere. */
  lemma {:induction false} NoVimeoMatch(s: string)
    requires forall j :: 0 <= j <= |s| ==> VimeoAt(s, j).None?
    ensures !VimeoMatches(s)
  {
    forall i: nat, v: VimeoLink | LinkAt(s, i, v) ensures false {
      VimeoAtComplete(s, i, v);
    }
  }

  // ---------------------------------------------------------------------
  // parseUrl

  /**
   * `parseUrl`: YouTube is tried first, then Vimeo; when neither expression
   * matches the provider is "Unknown" (capital U) and the id empty.
   */
  function ParseUrl(url: string): (r: Service)
    ensures r.provider == "youtube" <==> YouTubeMatches(url)
    ensures r.provider == "vimeo" <==> !YouTubeMatches(url) && VimeoMatches(url)
    ensures r.provider != "youtube" && r.provider != "vimeo" ==> r == Service("Unknown", "")
    ensures r.provider == "youtube" ==> forall k :: 0 <= k < |r.id| ==> !IsIdStop(r.id[k])
    ensures r.provider == "vimeo" ==> |r.id| > 0 && AllDigits(r.id)
  {
    match MatchYouTube(url)
    case Some(m) => Service("youtube", url[m.markerEnd..m.idEnd])
    case None =>
      match FindVimeo(url, 0)
      case Some((i, v)) =>
        assert LinkAt(url, i, v);
        Service("vimeo", v.id)
      case None =>
        NoVimeoMatch(url);
        Service("Unknown", "")
  }

  lemma {:induction false} IdRunUnique(s: string, q: nat, e1: nat, e2: nat)
    requires IdRun(s, q, e1) && IdRun(s, q, e2)
    ensures e1 == e2
  {
  }

  /**
   * The YouTube id is group 2 after the rightmost marker on the first line:
   * the run of characters up to the first `#`, `&` or `?` or the end.
   */
  lemma {:induction false} ParseUrlYouTubeId(s: string, p: nat, q: nat, e: nat)
    requires MarkerAt(s, p, q)
    requires forall p': nat, q': nat :: MarkerAt(s, p', q') ==> p' <= p
    requires IdRun(s, q, e)
    ensures ParseUrl(s) == Service("youtube", s[q..e])
  {
    var m := MatchYouTube(s).value;
    assert m.start == p;
    MarkerStart(s, p, q);
    MarkerStart(s, p, m.markerEnd);
    IdRunUnique(s, q, e, m.idEnd);
  }

  /**
   * When the YouTube expression does not match, the Vimeo id is group 3 of
   * the leftmost place where the Vimeo expression matches.
   */
  lemma {:induction false} ParseUrlVimeoId(s: string, i: nat, v: VimeoLink)
    requires !YouTubeMatches(s)
    requires i <= |s| && LinkAt(s, i, v)
    requires forall j: nat, w: VimeoLink :: j < i ==> !LinkAt(s, j, w)
    ensures ParseUrl(s) == Service("vimeo", v.id)
  {
    VimeoAtComplete(s, i, v);
    var found := FindVimeo(s, 0);
    assert found.Some?;
    var (i', v') := found.value;
    assert LinkAt(s, i', v');
    assert i' == i;
  }

  // ---------------------------------------------------------------------
  // A character above U+FFFF in place of a `.`

  /** A YouTube link with an emoji where `youtu.be` has its `.`. */
  const AstralYouTubeUrl: string := "https://youtu\U{1F600}be/abc"
  /** A Vimeo link with an emoji where `vimeo.com` has its `.`. */
  const AstralVimeoUrl: string := "https://vimeo\U{1F600}com/123"

  lemma {:induction false} AstralYouTubeNoMarker(q: nat)
    requires q <= |AstralYouTubeUrl|
    ensures MarkerLength(AstralYouTubeUrl, q) == 0
  {
    var s := AstralYouTubeUrl;
    if q == 8 {
      assert !IsDotChar(s[13]);
    } else if q < |s| {
      assert s[q] == 'u' ==> s[q + 1] != '/';
      if s[q] == 'e' { NotHasAt(s, q + 1, "mbed/"); assert !HasAt(s, q, "embed/"); }
    }
  }

  lemma {:induction false} AstralVimeoNoMarker(q: nat)
    requires q <= |AstralVimeoUrl|
    ensures MarkerLength(AstralVimeoUrl, q) == 0
  {
    var s := AstralVimeoUrl;
    if q < |s| {
      assert s[q] == 'v' ==> s[q + 1] != '/';
      if s[q] == 'e' { NotHasAt(s, q + 1, "mbed/"); assert !HasAt(s, q, "embed/"); }
    }
  }

  /** No scheme starts at `j` when the character there is not `h`. */
  lemma {:induction false} NoSchemeAfterStart(s: string, j: nat)
    requires 0 < j <= |s| && (j < |s| ==> s[j] != 'h')
    ensures VimeoAt(s, j).None?
  {
    if j < |s| {
      NotHasAt(s, j, "https://");
      NotHasAt(s, j, "http://");
    }
  }

  /**
   * The `.` of `youtu.be` does not match the two code units of an emoji,
   * and nothing else matches: the link is of no known provider.
   */
  lemma AstralYouTube()
    ensures ParseUrl(AstralYouTubeUrl) == Service("Unknown", "")
  {
    var s := AstralYouTubeUrl;
    forall q | 0 <= q <= |s| ensures MarkerLength(s, q) == 0 {
      AstralYouTubeNoMarker(q);
    }
    NoMarkerBeyond(s, |s|, 0);
    forall j | 0 <= j <= |s| ensures VimeoAt(s, j).None? {
      if j == 0 {
        assert HasAt(s, 0, "https://");
        assert s[8] == 'y';
        NotHasAt(s, 8, "www.");
        NotHasAt(s, 8, "vimeo");
      } else {
        NoSchemeAfterStart(s, j);
      }
    }
    NoVimeoMatch(s);
  }

  /** The same holds for the `.` of `vimeo.com`. */
  lemma AstralVimeo()
    ensures ParseUrl(AstralVimeoUrl) == Service("Unknown", "")
  {
    var s := AstralVimeoUrl;
    forall q | 0 <= q <= |s| ensures MarkerLength(s, q) == 0 {
      AstralVimeoNoMarker(q);
    }
    NoMarkerBeyond(s, |s|, 0);
    forall j | 0 <= j <= |s| ensures VimeoAt(s, j).None? {
      if j == 0 {
        assert HasAt(s, 0, "https://");
        assert s[8] == 'v' && s[13] == '\U{1F600}';
        NotHasAt(s, 8, "www.");
      } else {
        NoSchemeAfterStart(s, j);
      }
    }
    NoVimeoMatch(s);
  }
}
