/** Worked inputs: concrete URLs and textarea contents run through the model,
    each proved from the declarative meaning of a match rather than by
    evaluating the engine. */
module Scenarios {

  import opened Wrappers
  import opened Text
  import opened Extract
  import opened Thumbnail
  import opened Archive
  import opened Batch

  /** No alternative of `p` can start at `k` when `s[k]` differs from the
      first character of every marker. */
  lemma NoMatchAt(s: string, p: Pattern, k: nat)
    requires k < |s|
    requires forall a :: 0 <= a < |p| ==> |p[a]| > 0 && p[a][0] != s[k]
    ensures !PatternMatchesAt(s, k, p)
  {
    forall a | 0 <= a < |p| && k + |p[a]| <= |s| ensures s[k..k + |p[a]|] != p[a] {
      assert s[k..k + |p[a]|][0] == s[k];
    }
  }

  /** A string with no character a marker starts with matches nowhere. */
  lemma NoMatchAnywhere(s: string, p: Pattern)
    requires forall a :: 0 <= a < |p| ==> |p[a]| > 0 && p[a][0] !in s
    ensures !Matches(s, p)
  {
    forall k: nat ensures !PatternMatchesAt(s, k, p) {
      if k < |s| {
        NoMatchAt(s, p, k);
      }
    }
  }

  /** `t` cannot occur in `s` when its first character is absent from `s`. */
  lemma NotIncludes(s: string, t: string)
    requires |t| > 0 && t[0] !in s
    ensures !Includes(s, t)
  {
    forall i | 0 <= i && i + |t| <= |s| ensures !OccursAt(s, t, i) {
      assert s[i..i + |t|][0] == s[i];
    }
  }

  /** A string with no surrounding whitespace is its own trim. */
  lemma TrimUnpadded(s: string)
    requires |s| > 0 && !IsJsWhitespace(s[0]) && !IsJsWhitespace(s[|s| - 1])
    ensures Trim(s) == s
  {
    assert SkipLeading(s, 0) == 0;
    assert SkipTrailing(s, 0, |s|) == |s|;
  }

  /** No marker of `p` starts inside the infix `a` when no character of `a`
      begins a marker. */
  lemma NoMatchInInfix(pre: string, a: string, tail: string, p: Pattern)
    requires forall b :: 0 <= b < |p| ==> |p[b]| > 0 && p[b][0] !in a
    ensures forall k: nat :: |pre| <= k < |pre| + |a| ==> !PatternMatchesAt(pre + a + tail, k, p)
  {
    forall k: nat | |pre| <= k < |pre| + |a| ensures !PatternMatchesAt(pre + a + tail, k, p) {
      assert (pre + a + tail)[k] == a[k - |pre|];
      NoMatchAt(pre + a + tail, p, k);
    }
  }

  /** The leftmost match sits right after the prefix `a`, with marker
      `p[alt]`, and captures `id` up to the delimiter that starts `rest`. */
  lemma CaptureAfterPrefix(a: string, m: string, id: string, rest: string, p: Pattern, alt: nat)
    requires alt < |p| && p[alt] == m
    requires |id| > 0 && DelimiterFree(id)
    requires |rest| == 0 || IsDelimiter(rest[0])
    requires forall b :: 0 <= b < alt ==> !AltMatchesAt(a + m + id + rest, |a|, p[b])
    requires forall k: nat :: k < |a| ==> !PatternMatchesAt(a + m + id + rest, k, p)
    ensures Matches(a + m + id + rest, p) && CapturedBy(a + m + id + rest, p, id)
  {
    var s := a + m + id + rest;
    var i := |a|;
    var j := |a| + |m|;
    assert s[i..j] == m;
    assert s[j..j + |id|] == id;
    assert s[j] == id[0];
    assert j + |id| < |s| ==> s[j + |id|] == rest[0];
    assert AltMatchesAt(s, i, p[alt]);
    assert PatternMatchesAt(s, i, p);
    assert IsLeftmostMatch(s, p, Match(i, alt));
    assert IsCaptureAt(s, j, id);
  }

  /** A short link: the identifier is everything after `youtu.be/`. */
  lemma ShortLink()
    ensures ExtractVideoId(ShortLinkText) == Some("abc123")
  {
    var s := "https://" + "youtu.be/" + "abc123" + "";
    assert s == "https://" + "youtu.be/" + "abc123";
    NoMatchInInfix("", "https://", "youtu.be/" + "abc123" + "", WatchOrShort);
    assert "" + "https://" + ("youtu.be/" + "abc123" + "") == s;
    CaptureAfterPrefix("https://", "youtu.be/", "abc123", "", WatchOrShort, 1);
    VideoIdWatchOrShortFirst(s, "abc123");
  }

  /** A watch link: the capture stops at the `&` of the next parameter. */
  lemma WatchLinkStopsAtAmpersand()
    ensures ExtractVideoId(WatchLinkText) == Some("xyz789")
  {
    var s := "https://www." + "youtube.com/watch?v=" + "xyz789" + "&t=5";
    NoMatchInInfix("", "https://www.", "youtube.com/watch?v=" + "xyz789" + "&t=5", WatchOrShort);
    assert "" + "https://www." + ("youtube.com/watch?v=" + "xyz789" + "&t=5") == s;
    CaptureAfterPrefix("https://www.", "youtube.com/watch?v=", "xyz789", "&t=5", WatchOrShort, 0);
    VideoIdWatchOrShortFirst(s, "xyz789");
  }

  /** Regrouping the five pieces of the embed scenario. */
  lemma Regroup(e: string, x: string, q: string, m: string, id: string)
    requires |e| > 0
    ensures e + x + q + m + id == "" + e + x + (q + m + id)
    ensures e + x + q + m + id == e + x + q + m + id + ""
    ensures e + x + q + m + id == [e[0]] + (e[1..] + x + q) + (m + id + "")
  {
    assert e == [e[0]] + e[1..];
  }

  /** In the embed scenario no watch/short marker starts before the short link. */
  lemma NoShortLinkBefore(e: string)
    requires e == "youtube.com/embed/"
    ensures var s := e + "AAA" + "?x=" + "youtu.be/" + "BBB";
      forall k: nat :: k < |e + "AAA" + "?x="| ==> !PatternMatchesAt(s, k, WatchOrShort)
  {
    var s := e + "AAA" + "?x=" + "youtu.be/" + "BBB";
    Regroup(e, "AAA", "?x=", "youtu.be/", "BBB");
    var rest := e[1..] + "AAA" + "?x=";
    assert e[0] == 'y' && e[1..] == "outube.com/embed/";
    assert 'y' !in rest by {
      assert 'y' !in "outube.com/embed/" && 'y' !in "AAA" && 'y' !in "?x=";
    }
    NoMatchInInfix([e[0]], rest, "youtu.be/" + "BBB" + "", WatchOrShort);
    assert s[0..20] != WatchOrShort[0] by { assert s[0..20][12] == s[12] == e[12]; }
    assert s[0..9] != WatchOrShort[1] by { assert s[0..9][5] == s[5] == e[5]; }
    assert !PatternMatchesAt(s, 0, WatchOrShort);
  }

  /** Pattern order beats position: an embed link whose query carries a short
      link yields the short link's identifier, because the watch/short
      pattern is tried first over the whole string, although the embed
      pattern alone would capture `AAA`. */
  lemma PatternOrderWins()
    ensures var s := "youtube.com/embed/" + "AAA" + "?x=" + "youtu.be/" + "BBB";
      && CapturedBy(s, Embed, "AAA")
      && ExtractVideoId(s) == Some("BBB")
  {
    var e := "youtube.com/embed/";
    EmbedCapture(e);
    ShortCapture(e);
    VideoIdWatchOrShortFirst(e + "AAA" + "?x=" + "youtu.be/" + "BBB", "BBB");
  }

  /** On its own, the embed pattern captures `AAA` in the embed scenario. */
  lemma EmbedCapture(e: string)
    requires e == "youtube.com/embed/"
    ensures CapturedBy(e + "AAA" + "?x=" + "youtu.be/" + "BBB", Embed, "AAA")
  {
    Regroup(e, "AAA", "?x=", "youtu.be/", "BBB");
    CaptureAfterPrefix("", e, "AAA", "?x=" + "youtu.be/" + "BBB", Embed, 0);
  }

  /** The watch/short pattern captures `BBB` in the embed scenario. */
  lemma ShortCapture(e: string)
    requires e == "youtube.com/embed/"
    ensures CapturedBy(e + "AAA" + "?x=" + "youtu.be/" + "BBB", WatchOrShort, "BBB")
  {
    Regroup(e, "AAA", "?x=", "youtu.be/", "BBB");
    NoShortLinkBefore(e);
    CaptureAfterPrefix(e + "AAA" + "?x=", "youtu.be/", "BBB", "", WatchOrShort, 1);
  }

  // Whole runs

  /** A textarea holding one line with no surrounding whitespace. */
  lemma OneLine(u: string)
    requires |u| > 0 && '\n' !in u
    requires !IsJsWhitespace(u[0]) && !IsJsWhitespace(u[|u| - 1])
    ensures InputLines(u) == [u]
  {
    TrimUnpadded(u);
    SplitJoin([u], '\n');
    assert !AllWhitespace(u);
  }

  /** Two such lines joined by a newline split back into the two lines. */
  lemma TwoLineParts(u1: string, u2: string)
    requires |u1| > 0 && '\n' !in u1 && !IsJsWhitespace(u1[0])
    requires |u2| > 0 && '\n' !in u2 && !IsJsWhitespace(u2[|u2| - 1])
    ensures Split(Trim(u1 + "\n" + u2), '\n') == [u1, u2]
  {
    var text := u1 + "\n" + u2;
    assert text[0] == u1[0] && text[|text| - 1] == u2[|u2| - 1];
    TrimUnpadded(text);
    assert Join([u1, u2], '\n') == text by {
      assert [u1, u2][1..] == [u2];
    }
    SplitJoin([u1, u2], '\n');
  }

  /** A textarea holding two such lines. */
  lemma TwoLines(u1: string, u2: string)
    requires |u1| > 0 && '\n' !in u1 && !IsJsWhitespace(u1[0]) && !IsJsWhitespace(u1[|u1| - 1])
    requires |u2| > 0 && '\n' !in u2 && !IsJsWhitespace(u2[0]) && !IsJsWhitespace(u2[|u2| - 1])
    ensures InputLines(u1 + "\n" + u2) == [u1, u2]
  {
    TwoLineParts(u1, u2);
    assert !AllWhitespace(u1) && !AllWhitespace(u2);
    assert NonBlank([u2]) == [u2] by { assert [u2][1..] == []; }
    assert NonBlank([u1, u2]) == [u1, u2] by { assert [u1, u2][1..] == [u2]; }
    assert InputLines(u1 + "\n" + u2) == NonBlank(Split(Trim(u1 + "\n" + u2), '\n'));
  }

  /** Adding a second identifier to a one-element set. */
  lemma AddSecond(id1: string, id2: string)
    ensures AddId([id1], id2) == if id1 == id2 then [id1] else [id1, id2]
  {
    if id1 != id2 {
      assert id2 !in [id1];
    }
  }

  /** The loop over two video lines. */
  lemma RouteTwoVideos(u1: string, u2: string, id1: string, id2: string)
    requires !IsPlaylistLine(u1) && ExtractVideoId(u1) == Some(id1)
    requires !IsPlaylistLine(u2) && ExtractVideoId(u2) == Some(id2)
    ensures Route([u1, u2], Scan([], [])) == Scan(AddId([id1], id2), [])
  {
    var urls := [u1, u2];
    assert urls[1..] == [u2];
    var s1 := Step(Scan([], []), u1);
    assert s1 == Scan([id1], []);
    var s2 := Step(s1, u2);
    assert s2 == Scan(AddId([id1], id2), []);
    assert Route(urls, Scan([], [])) == Route([u2], s1);
    assert [u2][1..] == [];
    assert Route([u2], s1) == Route([], s2);
  }

  /** A started run that found identifiers, from the lines and the loop's result. */
  lemma RunWithIds(text: string, urls: seq<string>, ids: seq<string>, probe: string -> bool, now: Clock)
    requires InputLines(text) == urls && |urls| > 0
    requires Route(urls, Scan([], [])).ids == ids && |ids| > 0
    ensures var th := ResolveAll(ids, probe);
      DownloadThumbnails(false, text, probe, now)
        == Outcome(false, true, Route(urls, Scan([], [])).notices, ids, th,
                   if |th| > 1 then Some(ZipRequest(ZipName(now), th)) else None)
  {
  }

  /** Two video lines with different identifiers: both are resolved, in
      order, no notice is shown, and the archive is requested. */
  lemma TwoVideosArchived(u1: string, u2: string, id1: string, id2: string, probe: string -> bool, now: Clock)
    requires |u1| > 0 && '\n' !in u1 && !IsJsWhitespace(u1[0]) && !IsJsWhitespace(u1[|u1| - 1])
    requires |u2| > 0 && '\n' !in u2 && !IsJsWhitespace(u2[0]) && !IsJsWhitespace(u2[|u2| - 1])
    requires !IsPlaylistLine(u1) && ExtractVideoId(u1) == Some(id1)
    requires !IsPlaylistLine(u2) && ExtractVideoId(u2) == Some(id2)
    requires id1 != id2
    ensures var th := ResolveAll([id1, id2], probe);
      DownloadThumbnails(false, u1 + "\n" + u2, probe, now)
        == Outcome(false, true, [], [id1, id2], th, Some(ZipRequest(ZipName(now), th)))
  {
    TwoLines(u1, u2);
    RouteTwoVideos(u1, u2, id1, id2);
    AddSecond(id1, id2);
    RunWithIds(u1 + "\n" + u2, [u1, u2], [id1, id2], probe, now);
  }

  /** The same video twice: one identifier, one thumbnail, no archive. */
  lemma DuplicateResolvedOnce(u1: string, u2: string, id: string, probe: string -> bool, now: Clock)
    requires |u1| > 0 && '\n' !in u1 && !IsJsWhitespace(u1[0]) && !IsJsWhitespace(u1[|u1| - 1])
    requires |u2| > 0 && '\n' !in u2 && !IsJsWhitespace(u2[0]) && !IsJsWhitespace(u2[|u2| - 1])
    requires !IsPlaylistLine(u1) && ExtractVideoId(u1) == Some(id)
    requires !IsPlaylistLine(u2) && ExtractVideoId(u2) == Some(id)
    ensures var o := DownloadThumbnails(false, u1 + "\n" + u2, probe, now);
      && o.notices == [] && o.ids == [id] && |o.thumbnails| == 1 && o.zip == None
  {
    TwoLines(u1, u2);
    RouteTwoVideos(u1, u2, id, id);
    AddSecond(id, id);
    RunWithIds(u1 + "\n" + u2, [u1, u2], [id], probe, now);
  }

  const ShortLinkText := "https://" + "youtu.be/" + "abc123"
  const WatchLinkText := "https://www." + "youtube.com/watch?v=" + "xyz789" + "&t=5"

  /** A single line without surrounding whitespace that `list=` routing
      leaves to video handling. */
  predicate PlainVideoLine(u: string) {
    |u| > 0 && '\n' !in u && !IsJsWhitespace(u[0]) && !IsJsWhitespace(u[|u| - 1]) && !IsPlaylistLine(u)
  }

  lemma ShortLinkIsPlain()
    ensures PlainVideoLine(ShortLinkText)
  {
    assert 'l' !in "https://" && 'l' !in "youtu.be/" && 'l' !in "abc123";
    assert '\n' !in "https://" && '\n' !in "youtu.be/" && '\n' !in "abc123";
    NotIncludes(ShortLinkText, "list=");
  }

  /** The watch link has no `l`, so no `list=` either. */
  lemma WatchLinkHasNoList()
    ensures !IsPlaylistLine(WatchLinkText)
  {
    assert 'l' !in "https://www." && 'l' !in "youtube.com/watch?v=" && 'l' !in "xyz789" && 'l' !in "&t=5";
    NotIncludes(WatchLinkText, "list=");
  }

  lemma WatchLinkIsPlain()
    ensures PlainVideoLine(WatchLinkText)
  {
    assert '\n' !in "https://www." && '\n' !in "youtube.com/watch?v=" && '\n' !in "xyz789" && '\n' !in "&t=5";
    WatchLinkHasNoList();
  }

  /** A short link and a watch link, one per line: thumbnails for `abc123`
      and `xyz789`, in that order, and one archive of both. */
  lemma TwoLinkExample(probe: string -> bool, now: Clock)
    ensures var th := ResolveAll(["abc123", "xyz789"], probe);
      DownloadThumbnails(false, ShortLinkText + "\n" + WatchLinkText, probe, now)
        == Outcome(false, true, [], ["abc123", "xyz789"], th, Some(ZipRequest(ZipName(now), th)))
  {
    ShortLink();
    WatchLinkStopsAtAmpersand();
    ShortLinkIsPlain();
    WatchLinkIsPlain();
    TwoVideosArchived(ShortLinkText, WatchLinkText, "abc123", "xyz789", probe, now);
  }

  /** `t` occurs in `a + t + b`. */
  lemma IncludesInfix(a: string, t: string, b: string)
    ensures Includes(a + t + b, t)
  {
    assert (a + t + b)[|a|..|a| + |t|] == t;
    assert OccursAt(a + t + b, t, |a|);
  }

  /** Marker `m` matches where it is followed by a capturable character. */
  lemma MarkerMatches(a: string, m: string, rest: string, p: Pattern, alt: nat)
    requires alt < |p| && p[alt] == m
    requires |rest| > 0 && !IsDelimiter(rest[0])
    ensures Matches(a + m + rest, p)
  {
    var s := a + m + rest;
    assert s[|a|..|a| + |m|] == m;
    assert s[|a| + |m|] == rest[0];
    assert AltMatchesAt(s, |a|, p[alt]);
    assert PatternMatchesAt(s, |a|, p);
  }

  /** A single line with `list=` starts the run and never resolves a
      thumbnail; it shows "Playlists Not Supported" exactly when its playlist
      identifier can be read, and nothing at all otherwise. */
  lemma OnePlaylistLineRun(u: string, probe: string -> bool, now: Clock)
    requires |u| > 0 && '\n' !in u && !IsJsWhitespace(u[0]) && !IsJsWhitespace(u[|u| - 1])
    requires IsPlaylistLine(u)
    ensures DownloadThumbnails(false, u, probe, now)
      == Outcome(false, true, if ExtractPlaylistId(u).Some? then [PlaylistsNotSupported] else [], [], [], None)
  {
    OneLine(u);
    var scan := Route([u], Scan([], []));
    assert scan == Route([], Step(Scan([], []), u));
    assert scan == Scan([], if ExtractPlaylistId(u).Some? then [PlaylistsNotSupported] else []);
    assert AnyPlaylistLine([u]) by { assert IsPlaylistLine([u][0]); }
    assert PlanRun(u) == Plan(true, scan.notices, []);
  }

  /** A line made of a prefix, a playlist marker and a capturable rest is a
      single playlist line whose identifier can be read. */
  lemma MarkedPlaylistLine(a: string, alt: nat, rest: string)
    requires alt < |PlaylistPattern|
    requires |a| > 0 && !IsJsWhitespace(a[0]) && '\n' !in a
    requires |rest| > 0 && !IsDelimiter(rest[0]) && !IsJsWhitespace(rest[|rest| - 1]) && '\n' !in rest
    ensures var u := a + PlaylistPattern[alt] + rest;
      && |u| > 0 && '\n' !in u && !IsJsWhitespace(u[0]) && !IsJsWhitespace(u[|u| - 1])
      && IsPlaylistLine(u) && ExtractPlaylistId(u).Some?
  {
    var m := PlaylistPattern[alt];
    var u := a + m + rest;
    assert m == [m[0]] + "list=" && '\n' !in m;
    assert u == (a + [m[0]]) + "list=" + rest;
    IncludesInfix(a + [m[0]], "list=", rest);
    MarkerMatches(a, m, rest, PlaylistPattern, alt);
    PlaylistIdSpec(u);
  }

  const PlaylistLinkText := "https://www.youtube.com/playlist" + "?list=" + "PL123"

  /** A playlist link gets the "Playlists Not Supported" notice and nothing
      else: no "No Valid URLs", no thumbnail, no archive. */
  lemma PlaylistLinkExample(probe: string -> bool, now: Clock)
    ensures DownloadThumbnails(false, PlaylistLinkText, probe, now)
      == Outcome(false, true, [PlaylistsNotSupported], [], [], None)
  {
    assert '\n' !in "https://www.youtube.com/playlist" && '\n' !in "PL123";
    MarkedPlaylistLine("https://www.youtube.com/playlist", 0, "PL123");
    OnePlaylistLineRun(PlaylistLinkText, probe, now);
  }

  const BareListText := "https://www.youtube.com/" + "list=" + "PL123"

  /** The bare `list=` example is a single playlist line. */
  lemma BareListLine()
    ensures |BareListText| > 0 && '\n' !in BareListText
    ensures !IsJsWhitespace(BareListText[0]) && !IsJsWhitespace(BareListText[|BareListText| - 1])
    ensures IsPlaylistLine(BareListText)
  {
    assert '\n' !in "https://www.youtube.com/" && '\n' !in "list=" && '\n' !in "PL123";
    IncludesInfix("https://www.youtube.com/", "list=", "PL123");
  }

  /** No playlist marker can start anywhere in the bare `list=` line. */
  lemma BareListHasNoMarker()
    ensures '?' !in BareListText && '&' !in BareListText
  {
    assert '?' !in "https://www.youtube.com/" && '?' !in "list=" && '?' !in "PL123";
    assert '&' !in "https://www.youtube.com/" && '&' !in "list=" && '&' !in "PL123";
  }

  /** A line with `list=` that is not preceded by `?` or `&` is routed to
      playlist handling, where `extractPlaylistId` finds nothing: the run
      starts and ends without any notice, thumbnail or archive. */
  lemma BareListIsSilent(probe: string -> bool, now: Clock)
    ensures DownloadThumbnails(false, BareListText, probe, now) == Outcome(false, true, [], [], [], None)
  {
    BareListLine();
    BareListHasNoMarker();
    NoMatchAnywhere(BareListText, PlaylistPattern);
    PlaylistIdSpec(BareListText);
    OnePlaylistLineRun(BareListText, probe, now);
  }

  const WatchInPlaylistText := "https://www." + "youtube.com/watch?v=" + "abc123" + ("&list=" + "PL123")

  /** The watch link inside a playlist has a readable video identifier. */
  lemma WatchInPlaylistHasVideoId()
    ensures ExtractVideoId(WatchInPlaylistText) == Some("abc123")
  {
    var u := WatchInPlaylistText;
    NoMatchInInfix("", "https://www.", "youtube.com/watch?v=" + "abc123" + ("&list=" + "PL123"), WatchOrShort);
    assert "" + "https://www." + ("youtube.com/watch?v=" + "abc123" + ("&list=" + "PL123")) == u;
    CaptureAfterPrefix("https://www.", "youtube.com/watch?v=", "abc123", "&list=" + "PL123", WatchOrShort, 0);
    VideoIdWatchOrShortFirst(u, "abc123");
  }

  /** The watch link inside a playlist is a single playlist line whose
      playlist identifier can be read. */
  lemma WatchInPlaylistLine()
    ensures var u := WatchInPlaylistText;
      && |u| > 0 && '\n' !in u && !IsJsWhitespace(u[0]) && !IsJsWhitespace(u[|u| - 1])
      && IsPlaylistLine(u) && ExtractPlaylistId(u).Some?
  {
    var a := "https://www." + "youtube.com/watch?v=" + "abc123";
    assert '\n' !in "https://www." && '\n' !in "youtube.com/watch?v=" && '\n' !in "abc123";
    assert '\n' !in "PL123";
    MarkedPlaylistLine(a, 1, "PL123");
    assert WatchInPlaylistText == a + PlaylistPattern[1] + "PL123";
  }

  /** The `list=` in it routes the line to playlist handling. */
  lemma WatchInPlaylistRun(probe: string -> bool, now: Clock)
    ensures DownloadThumbnails(false, WatchInPlaylistText, probe, now)
      == Outcome(false, true, [PlaylistsNotSupported], [], [], None)
  {
    WatchInPlaylistLine();
    OnePlaylistLineRun(WatchInPlaylistText, probe, now);
  }

  /** A watch link inside a playlist has a readable video identifier, but the
      `list=` in it routes the line to playlist handling, so the video is not
      downloaded and only "Playlists Not Supported" is shown. */
  lemma WatchInPlaylistNotDownloaded(probe: string -> bool, now: Clock)
    ensures ExtractVideoId(WatchInPlaylistText) == Some("abc123")
    ensures DownloadThumbnails(false, WatchInPlaylistText, probe, now).ids == []
    ensures DownloadThumbnails(false, WatchInPlaylistText, probe, now).notices == [PlaylistsNotSupported]
  {
    WatchInPlaylistHasVideoId();
    WatchInPlaylistRun(probe, now);
  }

  // The quality ladder

  /** When the first two rungs fail and the third loads, the climb tries
      exactly those three and settles on the third. */
  lemma ClimbStopsAtThird(ok: Quality -> bool)
    requires !ok(MaxRes) && !ok(Sd) && ok(Hq)
    ensures Climb(ok).tried == [MaxRes, Sd, Hq] && Climb(ok).chosen == Hq
  {
    var a := Climb(ok);
    var n := |a.tried|;
    assert a.tried[n - 1] == Ladder[n - 1];
    FirstFailBound(ok, Ladder, n - 1, 2);
    assert n == 3;
    assert a.tried == Ladder[..3];
  }

  /** When only the third rung and below load, the first three rungs are
      tried, in order, and the `hqdefault` image is chosen. */
  lemma LadderStopsAtFirstLoad(id: string, probe: string -> bool)
    requires !probe(ThumbnailUrl(id, MaxRes)) && !probe(ThumbnailUrl(id, Sd))
    requires probe(ThumbnailUrl(id, Hq))
    ensures LoadThumbnail(id, probe).tried == [MaxRes, Sd, Hq]
    ensures LoadThumbnail(id, probe).thumbnail == ResolvedThumbnail(ThumbnailUrl(id, Hq), id + ".jpg")
  {
    ClimbStopsAtThird(Prober(id, probe));
  }

  // The archive name

  /** `padStart` on a one-digit value: a leading zero. */
  lemma PadDigit(v: nat, d: char)
    requires v < 10 && d == "0123456789"[v]
    ensures Pad2(v) == ['0', d]
  {
    assert NatToString(v) == [DigitChar(v)];
  }

  lemma YearExample()
    ensures IntToString(2024) == "2024"
  {
    assert NatToString(2) == "2";
    assert NatToString(20) == "20";
    assert NatToString(202) == "202";
  }

  lemma TailExample()
    ensures TailOf(Clock(2024, 0, 5, 9, 3, 7)) == "-" + "01" + "-" + "05" + "-" + "09" + "-" + "03" + "-" + "07"
  {
    PadDigit(1, '1');
    PadDigit(5, '5');
    PadDigit(9, '9');
    PadDigit(3, '3');
    PadDigit(7, '7');
  }

  /** 9:03:07 on 5 January 2024 (month 0 as `getMonth()` reports it) names
      the archive `yt-thumbnails-2024-01-05-09-03-07.zip`. */
  lemma ArchiveNameExample()
    ensures ZipName(Clock(2024, 0, 5, 9, 3, 7))
      == "yt-thumbnails-" + ("2024" + ("-" + "01" + "-" + "05" + "-" + "09" + "-" + "03" + "-" + "07")) + ".zip"
  {
    YearExample();
    TailExample();
  }
}
