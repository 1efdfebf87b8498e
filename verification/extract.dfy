/** `extractVideoId` and `extractPlaylistId` (script.js:27-47).

    Every regular expression these two functions use has the shape
    `(?:m1|m2|...)([^&\n?#]+)`: a choice of literal markers followed by a
    capture of one or more characters outside `{&, \n, ?, #}`. `String.match`
    without the `g` flag returns the leftmost match; at one position the
    alternatives are tried left to right; and the `+` is greedy, so the
    capture is the maximal delimiter-free run after the marker. A pattern is
    modelled as its sequence of markers, and `[?&]list=` as the two markers
    `?list=` and `&list=`. */
module Extract {

  import opened Wrappers

  predicate IsDelimiter(c: char) {
    c == '&' || c == '\n' || c == '?' || c == '#'
  }

  predicate DelimiterFree(s: string) {
    forall k :: 0 <= k < |s| ==> !IsDelimiter(s[k])
  }

  /** A pattern: its alternative markers, in the order the regex lists them. */
  type Pattern = seq<string>

  /** `(?:youtube\.com\/watch\?v=|youtu\.be\/)([^&\n?#]+)` */
  const WatchOrShort: Pattern := ["youtube.com/watch?v=", "youtu.be/"]
  /** `youtube\.com\/embed\/([^&\n?#]+)` */
  const Embed: Pattern := ["youtube.com/embed/"]
  /** `youtube\.com\/v\/([^&\n?#]+)` */
  const Direct: Pattern := ["youtube.com/v/"]
  /** `[?&]list=([^&\n?#]+)` */
  const PlaylistPattern: Pattern := ["?list=", "&list="]

  // Declarative meaning of a match

  /** Marker `m` starts at `i` and at least one capturable character follows it. */
  predicate AltMatchesAt(s: string, i: nat, m: string) {
    && i + |m| < |s|
    && s[i..i + |m|] == m
    && !IsDelimiter(s[i + |m|])
  }

  ghost predicate PatternMatchesAt(s: string, i: nat, p: Pattern) {
    exists a :: 0 <= a < |p| && AltMatchesAt(s, i, p[a])
  }

  /** The regex finds some match in `s`. */
  ghost predicate Matches(s: string, p: Pattern) {
    exists i: nat :: PatternMatchesAt(s, i, p)
  }

  /** Where a match starts and which alternative produced it. */
  datatype Match = Match(start: nat, alt: nat)

  /** `m` is the match the regex engine reports: no match starts further left,
      and at its start no earlier alternative succeeds. */
  ghost predicate IsLeftmostMatch(s: string, p: Pattern, m: Match) {
    && m.alt < |p|
    && AltMatchesAt(s, m.start, p[m.alt])
    && (forall b :: 0 <= b < m.alt ==> !AltMatchesAt(s, m.start, p[b]))
    && (forall k: nat :: k < m.start ==> !PatternMatchesAt(s, k, p))
  }

  /** `id` is the maximal non-empty delimiter-free run of `s` starting at `j`. */
  ghost predicate IsCaptureAt(s: string, j: nat, id: string) {
    && |id| > 0
    && j + |id| <= |s|
    && s[j..j + |id|] == id
    && DelimiterFree(id)
    && (j + |id| == |s| || IsDelimiter(s[j + |id|]))
  }

  /** `id` is what `match[1]` holds for pattern `p` on `s`. */
  ghost predicate CapturedBy(s: string, p: Pattern, id: string) {
    exists m :: IsLeftmostMatch(s, p, m) && IsCaptureAt(s, m.start + |p[m.alt]|, id)
  }

  // The regex engine

  /** End of the delimiter-free run of `s` that starts at `j`. */
  function RunEnd(s: string, j: nat): (e: nat)
    requires j <= |s|
    ensures j <= e <= |s|
    ensures DelimiterFree(s[j..e])
    ensures e == |s| || IsDelimiter(s[e])
    decreases |s| - j
  {
    if j == |s| || IsDelimiter(s[j]) then
      j
    else
      var e := RunEnd(s, j + 1);
      assert s[j..e] == [s[j]] + s[j + 1..e];
      e
  }

  /** The first alternative, from `a` on, that matches at `i`. */
  function FirstAltAt(s: string, i: nat, p: Pattern, a: nat): (r: Option<nat>)
    requires a <= |p|
    ensures r.Some? ==> a <= r.value < |p| && AltMatchesAt(s, i, p[r.value])
    ensures r.Some? ==> forall b :: a <= b < r.value ==> !AltMatchesAt(s, i, p[b])
    ensures r.None? ==> forall b :: a <= b < |p| ==> !AltMatchesAt(s, i, p[b])
    decreases |p| - a
  {
    if a == |p| then None
    else if AltMatchesAt(s, i, p[a]) then Some(a)
    else FirstAltAt(s, i, p, a + 1)
  }

  /** The regex engine's scan: try every start position from `i` rightwards. */
  function SearchFrom(s: string, p: Pattern, i: nat): (r: Option<Match>)
    requires i <= |s|
    ensures r.Some? ==> i <= r.value.start && r.value.alt < |p|
    ensures r.Some? ==> AltMatchesAt(s, r.value.start, p[r.value.alt])
    ensures r.Some? ==> forall b :: 0 <= b < r.value.alt ==> !AltMatchesAt(s, r.value.start, p[b])
    ensures r.Some? ==> forall k: nat :: i <= k < r.value.start ==> !PatternMatchesAt(s, k, p)
    ensures r.None? ==> forall k: nat :: i <= k ==> !PatternMatchesAt(s, k, p)
    decreases |s| - i
  {
    match FirstAltAt(s, i, p, 0)
    case Some(a) => Some(Match(i, a))
    case None =>
      if i == |s| then
        assert forall k: nat :: i <= k ==> !PatternMatchesAt(s, k, p);
        None
      else
        SearchFrom(s, p, i + 1)
  }

  /** `s.match(p)`, reduced to `match[1]` (null when there is no match). */
  function MatchCapture(s: string, p: Pattern): (r: Option<string>)
    ensures r.Some? ==> |r.value| > 0 && DelimiterFree(r.value)
  {
    match SearchFrom(s, p, 0)
    case None => None
    case Some(m) =>
      var j := m.start + |p[m.alt]|;
      Some(s[j..RunEnd(s, j)])
  }

  /** The engine agrees with the declarative reading: it finds a capture
      exactly when the regex matches, and the capture is the leftmost
      match's greedy group. */
  lemma MatchCaptureSpec(s: string, p: Pattern)
    ensures var r := MatchCapture(s, p);
      && (r.Some? <==> Matches(s, p))
      && (r.Some? ==> CapturedBy(s, p, r.value))
  {
    match SearchFrom(s, p, 0)
    case None =>
    case Some(m) =>
      var j := m.start + |p[m.alt]|;
      var id := s[j..RunEnd(s, j)];
      assert PatternMatchesAt(s, m.start, p);
      assert IsLeftmostMatch(s, p, m);
      assert IsCaptureAt(s, j, id);
  }

  /** At most one match is leftmost. */
  lemma LeftmostMatchUnique(s: string, p: Pattern, m1: Match, m2: Match)
    requires IsLeftmostMatch(s, p, m1) && IsLeftmostMatch(s, p, m2)
    ensures m1 == m2
  {
    if m1.start < m2.start {
      assert PatternMatchesAt(s, m1.start, p);
    } else if m2.start < m1.start {
      assert PatternMatchesAt(s, m2.start, p);
    }
  }

  /** The greedy capture starting at a fixed position is unique. */
  lemma CaptureUnique(s: string, j: nat, id1: string, id2: string)
    requires IsCaptureAt(s, j, id1) && IsCaptureAt(s, j, id2)
    ensures id1 == id2
  {
    assert forall k :: 0 <= k < |id1| ==> id1[k] == s[j + k] && !IsDelimiter(s[j + k]);
    assert forall k :: 0 <= k < |id2| ==> id2[k] == s[j + k] && !IsDelimiter(s[j + k]);
    assert |id1| == |id2|;
  }

  /** The match behind a capture. */
  lemma CaptureMatch(s: string, p: Pattern, id: string) returns (m: Match)
    requires CapturedBy(s, p, id)
    ensures IsLeftmostMatch(s, p, m) && IsCaptureAt(s, m.start + |p[m.alt]|, id)
  {
    m :| IsLeftmostMatch(s, p, m) && IsCaptureAt(s, m.start + |p[m.alt]|, id);
  }

  /** What a pattern captures is determined by the string. */
  lemma CapturedByUnique(s: string, p: Pattern, id1: string, id2: string)
    requires CapturedBy(s, p, id1) && CapturedBy(s, p, id2)
    ensures id1 == id2
  {
    var m1 := CaptureMatch(s, p, id1);
    var m2 := CaptureMatch(s, p, id2);
    LeftmostMatchUnique(s, p, m1, m2);
    SameMatchSameCapture(s, p, m1, m2, id1, id2);
  }

  lemma SameMatchSameCapture(s: string, p: Pattern, m1: Match, m2: Match, id1: string, id2: string)
    requires m1 == m2 && m1.alt < |p|
    requires IsCaptureAt(s, m1.start + |p[m1.alt]|, id1) && IsCaptureAt(s, m2.start + |p[m2.alt]|, id2)
    ensures id1 == id2
  {
    CaptureUnique(s, m1.start + |p[m1.alt]|, id1, id2);
  }

  /** `id` is the capture right after an occurrence of marker `m` at `i`. */
  ghost predicate CaptureAfter(url: string, i: nat, m: string, id: string) {
    && i + |m| <= |url|
    && url[i..i + |m|] == m
    && IsCaptureAt(url, i + |m|, id)
  }

  /** `id` is the capture right after an occurrence of one of `markers`. */
  ghost predicate FollowsMarker(url: string, markers: seq<string>, id: string) {
    exists m, i: nat :: m in markers && CaptureAfter(url, i, m, id)
  }

  lemma CapturedFollowsMarker(url: string, p: Pattern, id: string)
    requires CapturedBy(url, p, id)
    ensures FollowsMarker(url, p, id)
  {
    var m :| IsLeftmostMatch(url, p, m) && IsCaptureAt(url, m.start + |p[m.alt]|, id);
    assert CaptureAfter(url, m.start, p[m.alt], id);
  }

  /** Every marker `extractVideoId` recognises. */
  const VideoMarkers: seq<string> := WatchOrShort + Embed + Direct

  /** `extractVideoId(url)`: the patterns are tried in order and the first
      that matches gives the identifier. */
  function ExtractVideoId(url: string): (r: Option<string>)
    ensures r.Some? ==> |r.value| > 0 && DelimiterFree(r.value)
  {
    var w := MatchCapture(url, WatchOrShort);
    if w.Some? then w
    else
      var e := MatchCapture(url, Embed);
      if e.Some? then e
      else MatchCapture(url, Direct)
  }

  /** A capture of `p` is a match of `p`. */
  lemma CapturedMatches(s: string, p: Pattern, id: string)
    requires CapturedBy(s, p, id)
    ensures Matches(s, p)
  {
    var m := CaptureMatch(s, p, id);
    assert PatternMatchesAt(s, m.start, p);
  }

  /** A watch or short link decides `extractVideoId`: its leftmost capture
      is the identifier, whatever else the URL holds. */
  lemma VideoIdWatchOrShortFirst(url: string, id: string)
    requires CapturedBy(url, WatchOrShort, id)
    ensures ExtractVideoId(url) == Some(id)
  {
    CapturedMatches(url, WatchOrShort, id);
    MatchCaptureSpec(url, WatchOrShort);
    CapturedByUnique(url, WatchOrShort, id, ExtractVideoId(url).value);
  }

  /** Without a watch or short link, the embed link's capture is the identifier. */
  lemma VideoIdEmbedSecond(url: string, id: string)
    requires !Matches(url, WatchOrShort) && CapturedBy(url, Embed, id)
    ensures ExtractVideoId(url) == Some(id)
  {
    CapturedMatches(url, Embed, id);
    MatchCaptureSpec(url, WatchOrShort);
    MatchCaptureSpec(url, Embed);
    CapturedByUnique(url, Embed, id, ExtractVideoId(url).value);
  }

  /** Only when neither of those matches does the `/v/` link's capture decide. */
  lemma VideoIdDirectLast(url: string, id: string)
    requires !Matches(url, WatchOrShort) && !Matches(url, Embed) && CapturedBy(url, Direct, id)
    ensures ExtractVideoId(url) == Some(id)
  {
    CapturedMatches(url, Direct, id);
    MatchCaptureSpec(url, WatchOrShort);
    MatchCaptureSpec(url, Embed);
    MatchCaptureSpec(url, Direct);
    CapturedByUnique(url, Direct, id, ExtractVideoId(url).value);
  }

  /** `extractVideoId` returns null exactly when none of its patterns matches. */
  lemma VideoIdNone(url: string)
    ensures ExtractVideoId(url).None? <==>
      !Matches(url, WatchOrShort) && !Matches(url, Embed) && !Matches(url, Direct)
  {
    MatchCaptureSpec(url, WatchOrShort);
    MatchCaptureSpec(url, Embed);
    MatchCaptureSpec(url, Direct);
  }

  /** An identifier `extractVideoId` returns is the maximal delimiter-free
      run right after one of its markers. */
  lemma VideoIdFollowsMarker(url: string)
    ensures var r := ExtractVideoId(url);
      r.Some? ==> FollowsMarker(url, VideoMarkers, r.value)
  {
    var w := MatchCapture(url, WatchOrShort);
    var e := MatchCapture(url, Embed);
    var d := MatchCapture(url, Direct);
    if w.Some? {
      MatchCaptureSpec(url, WatchOrShort);
      CapturedFollowsMarker(url, WatchOrShort, w.value);
    } else if e.Some? {
      MatchCaptureSpec(url, Embed);
      CapturedFollowsMarker(url, Embed, e.value);
    } else if d.Some? {
      MatchCaptureSpec(url, Direct);
      CapturedFollowsMarker(url, Direct, d.value);
    }
  }

  /** `extractPlaylistId(url)`: the capture of `[?&]list=([^&\n?#]+)`. */
  function ExtractPlaylistId(url: string): (r: Option<string>)
    ensures r.Some? ==> |r.value| > 0 && DelimiterFree(r.value)
  {
    MatchCapture(url, PlaylistPattern)
  }

  /** What `extractPlaylistId` promises: the identifier is the capture after
      the leftmost `?list=` or `&list=` that has at least one capturable
      character after it, and there is none exactly when no such marker
      occurs. */
  lemma PlaylistIdSpec(url: string)
    ensures var r := ExtractPlaylistId(url);
      && (r.Some? ==> FollowsMarker(url, PlaylistPattern, r.value))
      && (r.Some? ==> CapturedBy(url, PlaylistPattern, r.value))
      && (r.None? <==> !Matches(url, PlaylistPattern))
  {
    MatchCaptureSpec(url, PlaylistPattern);
    var r := MatchCapture(url, PlaylistPattern);
    if r.Some? {
      CapturedFollowsMarker(url, PlaylistPattern, r.value);
    }
  }
}
