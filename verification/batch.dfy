/** The decisions of `downloadThumbnails` (script.js:158-247): the
    `isDownloading` guard, reading the textarea into lines, routing each line
    to playlist or video handling, collecting the video identifiers in a
    `Set`, choosing the error notice, resolving one thumbnail per identifier
    and archiving only when more than one was resolved.

    The run is a pure transition from the `isDownloading` flag and the
    textarea's text to an `Outcome`; the image probe and the clock are
    parameters. */
module Batch {

  import opened Wrappers
  import opened Text
  import opened Extract
  import opened Thumbnail
  import opened Archive

  /** The error notices `showStatus('error', title, ...)` can show, by title. */
  datatype Notice = NoUrlFound | NoValidUrls | PlaylistsNotSupported

  /** A call of `downloadAsZip(images)`, with the name its download gets. */
  datatype ZipRequest = ZipRequest(name: string, images: seq<ResolvedThumbnail>)

  /** What one click on the download button does.
      `running`: `isDownloading` after the call.
      `started`: the call set `isDownloading` and cleared the previews.
      `notices`: the `showStatus` error calls, in order.
      `ids`: the collected video identifiers, in `Set` insertion order.
      `thumbnails`: what `Promise.all` resolved, one per identifier.
      `zip`: the archive download, if any. */
  datatype Outcome = Outcome(
    running: bool,
    started: bool,
    notices: seq<Notice>,
    ids: seq<string>,
    thumbnails: seq<ResolvedThumbnail>,
    zip: Option<ZipRequest>)

  function Elems<T>(s: seq<T>): set<T> {
    set x | x in s
  }

  predicate NoDuplicates<T(==)>(s: seq<T>) {
    forall i, j :: 0 <= i < j < |s| ==> s[i] != s[j]
  }

  /** A duplicate-free sequence has as many elements as its set. */
  lemma {:induction false} DistinctCardinality<T>(s: seq<T>)
    requires NoDuplicates(s)
    ensures |Elems(s)| == |s|
    decreases |s|
  {
    if |s| > 0 {
      var t := s[..|s| - 1];
      assert NoDuplicates(t);
      DistinctCardinality(t);
      assert Elems(s) == Elems(t) + {s[|s| - 1]};
      assert s[|s| - 1] !in Elems(t);
    }
  }

  // Reading the textarea

  /** `url.trim().length > 0` fails exactly for whitespace-only lines. */
  predicate IsBlank(line: string) {
    Trim(line) == []
  }

  /** `.filter(url => url.trim().length > 0)`: every non-blank line is kept
      as often as it occurs, and every blank line is dropped. */
  function NonBlank(lines: seq<string>): (r: seq<string>)
    ensures forall k :: 0 <= k < |r| ==> !AllWhitespace(r[k])
    ensures forall l :: multiset(r)[l] == if AllWhitespace(l) then 0 else multiset(lines)[l]
    ensures forall l :: l in r <==> l in lines && !AllWhitespace(l)
    ensures |r| <= |lines|
    decreases |lines|
  {
    if |lines| == 0 then []
    else
      assert lines == [lines[0]] + lines[1..];
      if IsBlank(lines[0]) then NonBlank(lines[1..])
      else [lines[0]] + NonBlank(lines[1..])
  }

  /** Filtering a concatenation filters each part in place, so the kept lines
      keep their order. */
  lemma {:induction false} NonBlankAppend(a: seq<string>, b: seq<string>)
    ensures NonBlank(a + b) == NonBlank(a) + NonBlank(b)
    decreases |a|
  {
    if |a| > 0 {
      assert (a + b)[1..] == a[1..] + b;
      NonBlankAppend(a[1..], b);
    } else {
      assert a + b == b;
    }
  }

  /** `urlsTextarea.value.trim().split('\n').filter(...)`: the non-blank lines
      of the trimmed text. Lines keep their own surrounding spaces. */
  function InputLines(text: string): (urls: seq<string>)
    ensures forall k :: 0 <= k < |urls| ==> !AllWhitespace(urls[k]) && '\n' !in urls[k]
    ensures forall l :: multiset(urls)[l] ==
                        if AllWhitespace(l) then 0 else multiset(Split(Trim(text), '\n'))[l]
    ensures |urls| == 0 <==> AllWhitespace(text)
  {
    var parts := Split(Trim(text), '\n');
    NonBlankAvoids(parts, '\n');
    NoLinesIffBlank(text);
    NonBlank(parts)
  }

  /** Filtering keeps a character out of every line it was out of. */
  lemma NonBlankAvoids(lines: seq<string>, c: char)
    requires forall k :: 0 <= k < |lines| ==> c !in lines[k]
    ensures forall k :: 0 <= k < |NonBlank(lines)| ==> c !in NonBlank(lines)[k]
  {
    var r := NonBlank(lines);
    forall k | 0 <= k < |r| ensures c !in r[k] {
      assert r[k] in lines;
      var j :| 0 <= j < |lines| && lines[j] == r[k];
    }
  }

  /** Only whitespace-only text yields no lines. */
  lemma NoLinesIffBlank(text: string)
    ensures NonBlank(Split(Trim(text), '\n')) == [] <==> AllWhitespace(text)
  {
    var t := Trim(text);
    var parts := Split(t, '\n');
    if AllWhitespace(text) {
      assert t == [];
      assert IndexOf(t, '\n', 0) == 0;
      assert parts == [[]];
      assert NonBlank(parts) == NonBlank([]);
    } else {
      SplitFirstPart(t, '\n');
      assert !AllWhitespace(parts[0]);
      assert parts[0] in NonBlank(parts);
    }
  }

  // Routing the lines

  /** `url.includes('list=')` sends a line to playlist handling. */
  predicate IsPlaylistLine(url: string) {
    Includes(url, "list=")
  }

  /** A line that shows the "Playlists Not Supported" notice. */
  predicate ShowsPlaylistNotice(url: string) {
    IsPlaylistLine(url) && ExtractPlaylistId(url).Some?
  }

  /** `id` is the video identifier a line adds to the set. */
  predicate Contributes(url: string, id: string) {
    !IsPlaylistLine(url) && ExtractVideoId(url) == Some(id)
  }

  /** The non-null `extractVideoId` results of the lines without `list=`. */
  ghost function VideoIdsOf(urls: seq<string>): set<string> {
    set k | 0 <= k < |urls| && !IsPlaylistLine(urls[k]) && ExtractVideoId(urls[k]).Some?
      :: ExtractVideoId(urls[k]).value
  }

  /** What one line adds to the identifier set. */
  function Yield(url: string): (r: set<string>)
    ensures forall id :: id in r <==> Contributes(url, id)
    ensures r == VideoIdsOf([url])
  {
    assert [url][0] == url;
    if !IsPlaylistLine(url) && ExtractVideoId(url).Some? then {ExtractVideoId(url).value} else {}
  }

  lemma VideoIdsOfCons(urls: seq<string>)
    requires |urls| > 0
    ensures VideoIdsOf(urls) == Yield(urls[0]) + VideoIdsOf(urls[1..])
  {
    forall id | id in VideoIdsOf(urls)
      ensures id in Yield(urls[0]) + VideoIdsOf(urls[1..])
    {
      var k :| 0 <= k < |urls| && Contributes(urls[k], id);
      if k > 0 {
        assert urls[1..][k - 1] == urls[k];
      }
    }
    forall id | id in Yield(urls[0]) + VideoIdsOf(urls[1..])
      ensures id in VideoIdsOf(urls)
    {
      if id in Yield(urls[0]) {
        assert Contributes(urls[0], id);
      } else {
        var k :| 0 <= k < |urls[1..]| && Contributes(urls[1..][k], id);
        assert urls[k + 1] == urls[1..][k];
      }
    }
  }

  /** The loop's state: the identifier set and the notices shown so far. */
  datatype Scan = Scan(ids: seq<string>, notices: seq<Notice>)

  /** `videoIds.add(id)` on a `Set` kept in insertion order. */
  function AddId(ids: seq<string>, id: string): (r: seq<string>)
    ensures Elems(r) == Elems(ids) + {id}
    ensures NoDuplicates(ids) ==> NoDuplicates(r)
  {
    if id in ids then ids else ids + [id]
  }

  /** One iteration of the `for (const url of urls)` loop. */
  function Step(acc: Scan, url: string): (r: Scan)
    ensures Elems(r.ids) == Elems(acc.ids) + Yield(url)
    ensures NoDuplicates(acc.ids) ==> NoDuplicates(r.ids)
    ensures r.notices == if ShowsPlaylistNotice(url) then acc.notices + [PlaylistsNotSupported] else acc.notices
  {
    if IsPlaylistLine(url) then
      if ExtractPlaylistId(url).Some? then acc.(notices := acc.notices + [PlaylistsNotSupported])
      else acc
    else
      match ExtractVideoId(url)
      case Some(id) => acc.(ids := AddId(acc.ids, id))
      case None => acc
  }

  ghost predicate AnyPlaylistNotice(urls: seq<string>) {
    exists k :: 0 <= k < |urls| && ShowsPlaylistNotice(urls[k])
  }

  /** How many lines show the "Playlists Not Supported" notice. */
  function PlaylistNoticeCount(urls: seq<string>): (n: nat)
    ensures n <= |urls|
    decreases |urls|
  {
    if |urls| == 0 then 0
    else (if ShowsPlaylistNotice(urls[0]) then 1 else 0) + PlaylistNoticeCount(urls[1..])
  }

  /** The notice appears at least once exactly when some line shows it. */
  lemma {:induction false} PlaylistNoticeCountPositive(urls: seq<string>)
    ensures PlaylistNoticeCount(urls) > 0 <==> AnyPlaylistNotice(urls)
    decreases |urls|
  {
    if |urls| > 0 {
      PlaylistNoticeCountPositive(urls[1..]);
      if AnyPlaylistNotice(urls) && !ShowsPlaylistNotice(urls[0]) {
        var k :| 0 <= k < |urls| && ShowsPlaylistNotice(urls[k]);
        assert urls[1..][k - 1] == urls[k];
      }
      if AnyPlaylistNotice(urls[1..]) {
        var k :| 0 <= k < |urls[1..]| && ShowsPlaylistNotice(urls[1..][k]);
        assert urls[k + 1] == urls[1..][k];
      }
    }
  }

  function Repeat(n: nat, x: Notice): (r: seq<Notice>)
    ensures |r| == n && forall k :: 0 <= k < n ==> r[k] == x
  {
    seq(n, _ => x)
  }

  lemma RepeatCons(a: seq<Notice>, b: bool, n: nat)
    ensures (if b then a + [PlaylistsNotSupported] else a) + Repeat(n, PlaylistsNotSupported)
      == a + Repeat((if b then 1 else 0) + n, PlaylistsNotSupported)
  {
  }

  /** The whole loop, from state `acc`. The identifiers are exactly those the
      lines without `list=` yield, each once; one "Playlists Not Supported"
      notice is appended for each line with `list=` whose playlist identifier
      can be extracted, and nothing else is appended. */
  function Route(urls: seq<string>, acc: Scan): (r: Scan)
    requires NoDuplicates(acc.ids)
    ensures NoDuplicates(r.ids)
    ensures Elems(r.ids) == Elems(acc.ids) + VideoIdsOf(urls)
    ensures r.notices == acc.notices + Repeat(PlaylistNoticeCount(urls), PlaylistsNotSupported)
    decreases |urls|
  {
    if |urls| == 0 then
      assert acc.notices + Repeat(0, PlaylistsNotSupported) == acc.notices;
      acc
    else
      var next := Step(acc, urls[0]);
      var r := Route(urls[1..], next);
      VideoIdsOfCons(urls);
      RepeatCons(acc.notices, ShowsPlaylistNotice(urls[0]), PlaylistNoticeCount(urls[1..]));
      r
  }

  /** A line appended at the end adds what it yields and nothing else. */
  lemma VideoIdsOfSnoc(urls: seq<string>, url: string)
    ensures VideoIdsOf(urls + [url]) == VideoIdsOf(urls) + Yield(url)
  {
    var s := urls + [url];
    forall id | id in VideoIdsOf(s) ensures id in VideoIdsOf(urls) + Yield(url) {
      var k :| 0 <= k < |s| && Contributes(s[k], id);
      if k < |urls| {
        assert s[k] == urls[k];
      }
    }
    forall id | id in VideoIdsOf(urls) + Yield(url) ensures id in VideoIdsOf(s) {
      if id in Yield(url) {
        assert Contributes(s[|urls|], id);
      } else {
        var k :| 0 <= k < |urls| && Contributes(urls[k], id);
        assert Contributes(s[k], id);
      }
    }
  }

  /** Adding a line with `list=` never adds an identifier, even when it also
      holds a video link. */
  lemma PlaylistLineAddsNoId(urls: seq<string>, url: string)
    requires IsPlaylistLine(url)
    ensures VideoIdsOf(urls + [url]) == VideoIdsOf(urls)
  {
    VideoIdsOfSnoc(urls, url);
    assert Yield(url) == {};
  }

  // Resolving and archiving

  /** `Promise.all(Array.from(videoIds).map(loadThumbnail))`: one ladder per
      identifier, results in identifier order. */
  function ResolveAll(ids: seq<string>, probe: string -> bool): (r: seq<ResolvedThumbnail>)
    ensures |r| == |ids|
    ensures forall k :: 0 <= k < |r| ==> IsBestThumbnail(ids[k], probe, r[k])
  {
    var r := seq(|ids|, k requires 0 <= k < |ids| => LoadThumbnail(ids[k], probe).thumbnail);
    assert forall k :: 0 <= k < |r| ==> r[k] == LoadThumbnail(ids[k], probe).thumbnail;
    r
  }

  /** Distinct identifiers give distinct file names inside the archive. */
  lemma FilenamesDistinct(ids: seq<string>, probe: string -> bool)
    requires NoDuplicates(ids)
    ensures var r := ResolveAll(ids, probe);
      forall i, j :: 0 <= i < j < |r| ==> r[i].filename != r[j].filename
  {
    var r := ResolveAll(ids, probe);
    assert forall i :: 0 <= i < |r| ==>
      |r[i].filename| == |ids[i]| + 4 && r[i].filename[..|ids[i]|] == ids[i];
  }

  /** `urls.some(url => url.includes('list='))` */
  predicate AnyPlaylistLine(urls: seq<string>) {
    exists k :: 0 <= k < |urls| && IsPlaylistLine(urls[k])
  }

  /** The loop run from the empty set: no identifier means no video link, and
      the only notices it shows are "Playlists Not Supported". */
  lemma FirstScan(urls: seq<string>)
    ensures var scan := Route(urls, Scan([], []));
      && (|scan.ids| == 0 <==> VideoIdsOf(urls) == {})
      && NoUrlFound !in scan.notices && NoValidUrls !in scan.notices
  {
    var scan := Route(urls, Scan([], []));
    assert scan.notices == Repeat(PlaylistNoticeCount(urls), PlaylistsNotSupported);
    if |scan.ids| > 0 {
      assert scan.ids[0] in Elems(scan.ids);
    }
  }

  /** What a click decides before any image is probed: whether the run
      starts, the notices shown, and the identifiers to resolve, in `Set`
      insertion order. */
  datatype Plan = Plan(started: bool, notices: seq<Notice>, ids: seq<string>)

  /** The checks of `downloadThumbnails` once the guard has let the click
      through, on the lines read from the textarea. With no line, "No URL
      Found" is shown alone and the run does not start. Otherwise the run
      starts and the loop routes every line: one "Playlists Not Supported"
      per readable playlist line comes first, and "No Valid URLs" follows
      exactly when no identifier was found and no line has `list=`. */
  function PlanLines(urls: seq<string>): (p: Plan)
    ensures p.started <==> |urls| > 0
    ensures NoDuplicates(p.ids)
    ensures Elems(p.ids) == VideoIdsOf(urls)
    ensures NoUrlFound in p.notices <==> |urls| == 0
    ensures |urls| == 0 ==> p.notices == [NoUrlFound]
    ensures NoValidUrls in p.notices <==> |urls| > 0 && VideoIdsOf(urls) == {} && !AnyPlaylistLine(urls)
    ensures |urls| > 0 ==> (p.notices == Repeat(PlaylistNoticeCount(urls), PlaylistsNotSupported)
      + (if VideoIdsOf(urls) == {} && !AnyPlaylistLine(urls) then [NoValidUrls] else []))
  {
    if |urls| == 0 then
      Plan(false, [NoUrlFound], [])
    else
      var scan := Route(urls, Scan([], []));
      FirstScan(urls);
      var n := PlaylistNoticeCount(urls);
      assert scan.notices == Repeat(n, PlaylistsNotSupported);
      if |scan.ids| == 0 then
        if AnyPlaylistLine(urls) then
          Plan(true, scan.notices, [])
        else
          Plan(true, scan.notices + [NoValidUrls], [])
      else
        Plan(true, scan.notices, scan.ids)
  }

  /** The plan for the textarea's text: "No URL Found" exactly for
      whitespace-only text, and the notices of the lines otherwise. */
  function PlanRun(text: string): (p: Plan)
    ensures p.started <==> !AllWhitespace(text)
    ensures NoDuplicates(p.ids)
    ensures Elems(p.ids) == VideoIdsOf(InputLines(text))
    ensures NoUrlFound in p.notices <==> AllWhitespace(text)
    ensures AllWhitespace(text) ==> p.notices == [NoUrlFound] && p.ids == []
    ensures NoValidUrls in p.notices <==>
      p.started && VideoIdsOf(InputLines(text)) == {} && !AnyPlaylistLine(InputLines(text))
    ensures var urls := InputLines(text);
      p.started ==> (p.notices == Repeat(PlaylistNoticeCount(urls), PlaylistsNotSupported)
        + (if VideoIdsOf(urls) == {} && !AnyPlaylistLine(urls) then [NoValidUrls] else []))
  {
    PlanLines(InputLines(text))
  }

  /** `downloadThumbnails()` as a transition. `running` is `isDownloading`
      when the button is clicked, `text` the textarea's value, `probe` says
      which image URLs load, and `now` is the clock when the archive is named.
      A run that found no identifier resolves nothing, as the early return
      at script.js:190-196 does. */
  function DownloadThumbnails(running: bool, text: string, probe: string -> bool, now: Clock): (o: Outcome)
    // The guard and the flag.
    ensures running ==> o == Outcome(true, false, [], [], [], None)
    ensures !running ==> !o.running
    ensures o.started <==> !running && !AllWhitespace(text)
    // The identifiers, each resolved once.
    ensures NoDuplicates(o.ids)
    ensures !running ==> Elems(o.ids) == VideoIdsOf(InputLines(text))
    ensures |o.thumbnails| == |o.ids|
    ensures !running ==> |o.thumbnails| == |VideoIdsOf(InputLines(text))|
    ensures forall k :: 0 <= k < |o.thumbnails| ==> IsBestThumbnail(o.ids[k], probe, o.thumbnails[k])
    // The archive.
    ensures o.zip.Some? <==> |o.thumbnails| > 1
    ensures !running ==> (o.zip.Some? <==> |VideoIdsOf(InputLines(text))| > 1)
    ensures o.zip.Some? ==> o.zip.value == ZipRequest(ZipName(now), o.thumbnails)
    // The notices.
    ensures !running ==> (NoUrlFound in o.notices <==> AllWhitespace(text))
    ensures !running && AllWhitespace(text) ==> o.notices == [NoUrlFound] && o.ids == []
    ensures !running ==> (NoValidUrls in o.notices <==>
      o.started && VideoIdsOf(InputLines(text)) == {} && !AnyPlaylistLine(InputLines(text)))
    ensures var urls := InputLines(text);
      o.started ==> (o.notices == Repeat(PlaylistNoticeCount(urls), PlaylistsNotSupported)
        + (if VideoIdsOf(urls) == {} && !AnyPlaylistLine(urls) then [NoValidUrls] else []))
  {
    if running then
      Outcome(true, false, [], [], [], None)
    else
      var plan := PlanRun(text);
      DistinctCardinality(plan.ids);
      var thumbnails := ResolveAll(plan.ids, probe);
      var zip := if |thumbnails| > 1 then Some(ZipRequest(ZipName(now), thumbnails)) else None;
      Outcome(false, plan.started, plan.notices, plan.ids, thumbnails, zip)
  }
}
