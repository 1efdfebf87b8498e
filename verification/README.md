# thumbly: the download logic, modelled in Dafny

thumbly is a single-page tool. Paste YouTube links into a textarea and press
download, and it fetches each video's best available thumbnail. When more
than one is found, it also bundles them into a timestamped zip archive.

This project models the pure logic behind that button in `script.js`:

- **Identifier extraction.** `extractVideoId` and `extractPlaylistId` are
  modelled as a small regular-expression engine (module `Extract`). Each
  pattern is a list of literal markers followed by the greedy capture
  `[^&\n?#]+`. The leftmost match wins, and at one position the
  alternatives are tried left to right. Declarative predicates say what
  the regex means (`Matches`, `IsLeftmostMatch`, `IsCaptureAt`,
  `CapturedBy`), and the engine is proved to agree with them.
- **The thumbnail URL and the quality ladder** (module `Thumbnail`).
  - `getThumbnailUrl` is modelled together with a parser that inverts it.
  - `loadThumbnail`'s ladder probes `maxresdefault`, `sddefault`,
    `hqdefault`, `mqdefault` and `default`. It is a pure function over an
    oracle that says whether an image URL loads.
  - `TryLoad`, `Climb` and `IsBest` are stated over `Quality -> bool`. The
    URL layer (`Prober`, `LoadThumbnail`) sits on top of them.
- **The decisions of `downloadThumbnails`** (module `Batch`). This is a
  pure transition from the `isDownloading` flag, the textarea text, the
  probe and the clock to an `Outcome`. It covers:
  - the guard;
  - the notices shown, in order;
  - the collected identifiers, in `Set` insertion order;
  - the resolved thumbnails;
  - the archive request.
- **The archive name** `yt-thumbnails-YYYY-MM-DD-HH-mm-ss.zip` (module
  `Archive`), proved to read back to the clock it was built from.
- **The JavaScript string built-ins the page uses** (module `Text`):
  `trim`, `split` on one character, `includes`, `String(n)` and
  `padStart`.
- **Worked inputs** (module `Scenarios`): concrete links and textarea
  contents taken through the whole model.

The image probe, the clock and the browser are parameters:

- `probe: string -> bool` says whether the image at a URL fires `onload`;
- `Clock` holds the fields the page reads from `new Date()`, with the month
  counted from 0 as `getMonth()` counts it.

Two behaviours of the code deserve a note:

- **The `default` rung is probed too.** The ladder probes `default` as its
  fifth rung (script.js:201, 219-223). Only after that fifth probe fails
  does it resolve with the `default` URL anyway (script.js:224-230). A
  reading in which only four rungs are probed and `default` is then used
  unconditionally is not what the code does. The model follows the code:
  `Thumbnail.DefaultIsProbed` shows all five rungs tried.
- **Routing and extraction disagree about `list=`.** A line is routed to
  playlist handling when it merely contains `list=` (script.js:177, 191).
  `extractPlaylistId` only recognises `?list=` and `&list=`
  (script.js:45). So a line such as `https://www.youtube.com/list=PL123`
  is silently ignored: no notice, no identifier, and no "No Valid URLs"
  either. `Scenarios.BareListIsSilent` proves this. Likewise, a watch link
  inside a playlist is never downloaded, although its video identifier is
  readable (`Scenarios.WatchInPlaylistNotDownloaded`).

## Model

| member | source | states |
|---|---|---|
| Text.Trim | script.js:161 | `trim()` gives the empty string exactly for whitespace-only text. Otherwise it starts and ends with a non-whitespace character, and it is the text minus a whitespace-only prefix and suffix. |
| Text.Split | script.js:161 | `split('\n')` yields at least one part, no part contains the separator, and the parts joined with the separator give back the input. |
| Text.SplitJoin | script.js:161 | Splitting undoes joining for parts without the separator, so `split` loses no line and invents none. |
| Text.Includes | script.js:177 | `includes(t)` holds exactly when `t` occurs at some offset of the string. |
| Text.IntToStringRoundTrip | script.js:135 | `String(year)` reads back to the year, negative years included. |
| Text.PadStartShape | script.js:136-140 | `padStart` keeps the string as the suffix and puts only the fill character in front of it. |
| Text.TwoDigitPad | script.js:136-140 | `String(v).padStart(2, '0')` for `v < 100` is exactly two digits denoting `v`. |
| Extract.MatchCaptureSpec | script.js:35-37 | The engine returns a capture exactly when the regex matches somewhere. The capture is the greedy group of the leftmost match, with the earliest alternative at that position. |
| Extract.CapturedByUnique | script.js:35-37 | A pattern's `match[1]` is determined by the string: two captures of the same pattern are equal. |
| Extract.ExtractVideoId | script.js:27-41 | A returned identifier is non-empty and contains none of `&`, newline, `?`, `#`. |
| Extract.VideoIdFollowsMarker | script.js:29-37 | A returned identifier is the maximal delimiter-free run right after one of the recognised markers (`youtube.com/watch?v=`, `youtu.be/`, `youtube.com/embed/`, `youtube.com/v/`). |
| Extract.VideoIdWatchOrShortFirst | script.js:29-37 | Whatever else the URL holds, the watch/short pattern's capture, when there is one, is the identifier. |
| Extract.VideoIdEmbedSecond | script.js:30-37 | Without a watch/short match, the embed pattern's capture is the identifier. |
| Extract.VideoIdDirectLast | script.js:31-37 | Only when neither of those matches does the `/v/` pattern's capture decide. |
| Extract.VideoIdNone | script.js:34-40 | `extractVideoId` returns null exactly when none of its three patterns matches. |
| Extract.ExtractPlaylistId | script.js:44-47 | A returned playlist identifier is non-empty and delimiter-free. |
| Extract.PlaylistIdSpec | script.js:45-46 | The playlist identifier is the greedy capture after the leftmost `?list=` or `&list=` that has a capturable character after it. Null exactly when there is none. |
| Thumbnail.QualityNamed | script.js:201 | Each of the five names in the `qualities` array reads back as the quality that has it. Any other string reads as no quality. |
| Thumbnail.ThumbnailUrlRoundTrip | script.js:50-52 | The URL `https://img.youtube.com/vi/<id>/<quality>.jpg` parses back to its identifier and quality. An omitted quality reads back as `maxresdefault`. |
| Thumbnail.ThumbnailUrlInjective | script.js:50-52 | Different identifier/quality pairs never share a URL. |
| Thumbnail.TryLoad | script.js:205-231 | `tryLoadImage` probes a prefix of the remaining rungs in order, and every rung before the last one probed failed. When the last probe loads, that rung is chosen. When it fails, all rungs were probed and `default` is chosen. |
| Thumbnail.LastProbeLoaded | script.js:209-215 | A rung that loads after all better rungs failed is the best rung. |
| Thumbnail.AllProbesFailed | script.js:224-230 | When all five rungs failed, `default` is the answer. |
| Thumbnail.Climb | script.js:201-234 | The ladder probes a prefix of maxres, sd, hq, mq, default in that order. It stops at the first rung that loads and never fails. The chosen rung is the best that loads, or `default` when none does. |
| Thumbnail.LoadThumbnail | script.js:199-236 | `loadThumbnail` resolves with the URL of the best available quality and the filename `<id>.jpg`, after probing the ladder's rungs in order up to the first that loads. |
| Thumbnail.BestAvailableUnique | script.js:201-231 | The best available quality is unique, so the resolution depends only on which images load. |
| Thumbnail.ClimbToDefault | script.js:218-230 | When the four better rungs fail, all five rungs are tried and `default` is chosen, whether or not the fifth probe loads. |
| Thumbnail.DefaultIsProbed | script.js:218-230 | When the four better URLs fail to load, the `default` URL is probed too, and the result is the `default` URL either way. |
| Archive.Pad2Field | script.js:136-140 | A padded field of a value below 100 is two characters that read back as the value. |
| Archive.TailRoundTrip | script.js:135-140 | The fixed-width tail `-MM-DD-HH-mm-ss` reads back field by field, with the month as written (from 1). |
| Archive.ZipNameRoundTrip | script.js:134-141 | For every valid clock, the archive name `yt-thumbnails-<timestamp>.zip` parses back to exactly that clock. |
| Batch.DistinctCardinality | script.js:174 | A duplicate-free sequence has as many elements as its set, so the `Set`'s size is the number of identifiers. |
| Batch.NonBlank | script.js:161 | The filter drops every whitespace-only line and keeps every other line as many times as it occurs. |
| Batch.NonBlankAppend | script.js:161 | Filtering a concatenation filters each part in place, so the kept lines stay in their original order. |
| Batch.InputLines | script.js:161 | The lines read are the non-blank pieces of the trimmed text split at `\n`, each kept as many times as it occurs there. Every line is non-blank and newline-free. There are no lines exactly when the text is whitespace-only. |
| Batch.NoLinesIffBlank | script.js:161-163 | The filtered split of the trimmed text is empty exactly when the text is whitespace-only. |
| Batch.Yield | script.js:177-187 | What one line adds to the set is the identifier set of the one-line input. |
| Batch.VideoIdsOfCons | script.js:176-188 | The identifiers of the lines are those of the first line plus those of the rest. |
| Batch.AddId | script.js:185 | `Set.add` adds exactly the new element and keeps the elements distinct. |
| Batch.Step | script.js:176-188 | One iteration adds what the line yields and keeps the set duplicate-free. It appends "Playlists Not Supported" exactly for a `list=` line with a readable playlist identifier. |
| Batch.PlaylistNoticeCountPositive | script.js:177-181 | The playlist notice appears at least once exactly when some line shows it. |
| Batch.Route | script.js:176-188 | The loop collects, without duplicates, exactly the identifiers the non-`list=` lines yield. It appends only "Playlists Not Supported", once per readable playlist line. |
| Batch.VideoIdsOfSnoc | script.js:176-188 | A line appended at the end adds what it yields and nothing else. |
| Batch.PlaylistLineAddsNoId | script.js:177-181 | A line with `list=` never contributes a video identifier, even when it contains a video link. |
| Batch.ResolveAll | script.js:238-240 | One thumbnail per identifier, in identifier order, each the identifier's best available image. |
| Batch.FilenamesDistinct | script.js:215 | Distinct identifiers give distinct file names inside the archive. |
| Batch.FirstScan | script.js:176-190 | The loop collects no identifier exactly when no line yields one, and never shows "No URL Found" or "No Valid URLs". |
| Batch.PlanLines | script.js:163-196 | With no line, "No URL Found" is shown alone and the run does not start. Otherwise the identifiers are duplicate-free and exactly the extracted ones. The notices are exactly one "Playlists Not Supported" per readable playlist line, followed by "No Valid URLs" when no identifier was found and no line contains `list=`, and by nothing otherwise. |
| Batch.PlanRun | script.js:161-196 | The same decisions for the textarea text: "No URL Found" exactly for whitespace-only text, and the run starts exactly otherwise. The identifiers are those of the input lines. A started run shows exactly one "Playlists Not Supported" per readable playlist line, then "No Valid URLs" only when no identifier was found and no line contains `list=`. |
| Batch.DownloadThumbnails | script.js:158-247 | A click while `isDownloading` changes nothing. Otherwise the flag is false again when the call returns. The run starts exactly for non-blank text, and "No URL Found" is shown exactly for blank text, alone. There is one best-quality thumbnail per distinct extracted identifier, so duplicates across lines are resolved once. The archive, named after the clock, is requested exactly when more than one distinct identifier was extracted. "No Valid URLs" is shown exactly when the run found no identifier and saw no `list=` line. A started run shows exactly one "Playlists Not Supported" per readable playlist line, then "No Valid URLs" or nothing. |
| Scenarios.ShortLink | script.js:29 | `https://youtu.be/abc123` gives the identifier `abc123`. |
| Scenarios.WatchLinkStopsAtAmpersand | script.js:29 | `https://www.youtube.com/watch?v=xyz789&t=5` gives `xyz789`: the capture stops at `&`. |
| Scenarios.PatternOrderWins | script.js:28-39 | An embed link whose query carries a short link yields the short link's identifier. The watch/short pattern is tried first over the whole string, although the embed pattern alone would capture `AAA`. |
| Scenarios.TwoLinkExample | script.js:158-247 | A short link and a watch link give two thumbnails in order, no notice, and one archive. |
| Scenarios.DuplicateResolvedOnce | script.js:174-244 | The same video on two lines gives one identifier, one thumbnail and no archive. |
| Scenarios.PlaylistLinkExample | script.js:176-195 | A playlist link shows only "Playlists Not Supported": no "No Valid URLs", no thumbnail, no archive. |
| Scenarios.BareListIsSilent | script.js:177-191 | A line with `list=` but no `?list=` or `&list=` starts the run and ends it with no notice, no thumbnail and no archive. |
| Scenarios.WatchInPlaylistNotDownloaded | script.js:177-187 | A watch link inside a playlist has a readable video identifier, but it is not downloaded, and only the playlist notice is shown. |
| Scenarios.LadderStopsAtFirstLoad | script.js:209-223 | When `maxresdefault` and `sddefault` fail and `hqdefault` loads, exactly those three are probed and `hqdefault` is resolved. |
| Scenarios.ArchiveNameExample | script.js:134-141 | 9:03:07 on 5 January 2024 names the archive `yt-thumbnails-2024-01-05-09-03-07.zip`. |

## Left out

- The DOM is left out because it is presentation, not logic. This covers `showStatus`'s visuals, `createPreviewElement`, the `emptyState` element, `clearAll` and the mobile menu. Notices are modelled by their titles only.
- `downloadImage`, `fetch`, blobs, `URL.createObjectURL` and anchor clicks are left out because they are browser I/O. The archive request records the name and the images it is given, not the bytes.
- Loading JSZip and building the archive (script.js:106-128) are left out because JSZip is a foreign library. That also leaves out the per-entry fetch failures it swallows and the "Zip Creation Failed" notice (script.js:145-147).
- `Promise.all` concurrency and callback timing (script.js:238-239) are left out. Resolution is modelled as a map over the identifiers in `Set` order, which is the order `Promise.all` reports. The order previews are appended in is not modelled.
- `new Date()` is left out because it is a clock read. The clock fields are a parameter.
- The early return when no identifier was found (script.js:190-196) is modelled as resolving the empty list of identifiers. No probe is made in either case.
- Batch.DownloadThumbnails — the model assumes that the JSZip script load (script.js:106-112) and every image probe (script.js:205-231) settle. The source sets no error handler for the script and no timeout for the images. If either never fires, `isDownloading` stays true and every later click returns at script.js:159. The model cannot express a run that never finishes.
- `processPlaylist` is modelled only by the notice it shows. It always returns an empty list, which the loop ignores.
- Clock values outside the ranges a `Date` keeps are not modelled. A `Clock` holds the getter values as plain integers, and the archive-name round trip is stated for clocks within those ranges (`ValidClock`).
