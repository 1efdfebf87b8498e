/** `getThumbnailUrl` (script.js:50-52) and the quality ladder of
    `loadThumbnail` (script.js:199-236).

    The image probe — an `Image` whose `onload` or `onerror` fires — is an
    oracle `probe: string -> bool` that says whether the image at a URL loads. */
module Thumbnail {

  import opened Wrappers

  /** The thumbnail variants the host serves, best first. */
  datatype Quality = MaxRes | Sd | Hq | Mq | Default

  /** The file stem the host uses for each variant. */
  function Name(q: Quality): string {
    match q
    case MaxRes => "maxresdefault"
    case Sd => "sddefault"
    case Hq => "hqdefault"
    case Mq => "mqdefault"
    case Default => "default"
  }

  /** The inverse of `Name`. */
  function QualityNamed(name: string): (r: Option<Quality>)
    ensures r.Some? ==> Name(r.value) == name
    ensures forall q :: Name(q) == name ==> r == Some(q)
  {
    if name == "maxresdefault" then Some(MaxRes)
    else if name == "sddefault" then Some(Sd)
    else if name == "hqdefault" then Some(Hq)
    else if name == "mqdefault" then Some(Mq)
    else if name == "default" then Some(Default)
    else None
  }

  /** The `qualities` array, in the order the ladder probes it. */
  const Ladder: seq<Quality> := [MaxRes, Sd, Hq, Mq, Default]

  /** Position of `q` on the ladder. */
  function Rank(q: Quality): (n: nat)
    ensures n < |Ladder| && Ladder[n] == q
  {
    match q
    case MaxRes => 0
    case Sd => 1
    case Hq => 2
    case Mq => 3
    case Default => 4
  }

  const UrlPrefix := "https://img.youtube.com/vi/"
  const UrlSuffix := ".jpg"

  /** Index of the last `c` in `s`, if any. */
  function LastIndexOf(s: string, c: char): (r: Option<nat>)
    ensures r.Some? ==> r.value < |s| && s[r.value] == c && c !in s[r.value + 1..]
    ensures r.None? ==> c !in s
    decreases |s|
  {
    if |s| == 0 then None
    else if s[|s| - 1] == c then Some(|s| - 1)
    else
      var r := LastIndexOf(s[..|s| - 1], c);
      assert s == s[..|s| - 1] + [s[|s| - 1]];
      if r.Some? then
        assert s[r.value + 1..] == s[..|s| - 1][r.value + 1..] + [s[|s| - 1]];
        r
      else
        r
  }

  /** Reads the video identifier and quality back out of a thumbnail URL.
      The identifier may itself contain `/`; the quality name never does, so
      the last `/` separates them. */
  function ParseThumbnailUrl(url: string): Option<(string, Quality)>
  {
    if |url| < |UrlPrefix| + |UrlSuffix| || url[..|UrlPrefix|] != UrlPrefix
       || url[|url| - |UrlSuffix|..] != UrlSuffix then
      None
    else
      var body := url[|UrlPrefix|..|url| - |UrlSuffix|];
      match LastIndexOf(body, '/')
      case None => None
      case Some(k) =>
        match QualityNamed(body[k + 1..])
        case None => None
        case Some(q) => Some((body[..k], q))
  }

  lemma NameHasNoSlash(q: Quality)
    ensures '/' !in Name(q)
  {
    match q
    case MaxRes =>
    case Sd =>
    case Hq =>
    case Mq =>
    case Default =>
  }

  lemma QualityNamedName(q: Quality)
    ensures QualityNamed(Name(q)) == Some(q)
  {
    match q
    case MaxRes =>
    case Sd =>
    case Hq =>
    case Mq =>
    case Default =>
  }

  /** In `a + [c] + b` with no `c` in `b`, the last `c` sits right after `a`. */
  lemma {:induction false} LastIndexOfSplit(a: string, c: char, b: string)
    requires c !in b
    ensures LastIndexOf(a + [c] + b, c) == Some(|a|)
    decreases |b|
  {
    var s := a + [c] + b;
    if |b| == 0 {
      assert s[|s| - 1] == c;
    } else {
      var b' := b[..|b| - 1];
      assert s[..|s| - 1] == a + [c] + b';
      assert s[|s| - 1] == b[|b| - 1] != c;
      assert c !in b' by {
        assert forall k :: 0 <= k < |b'| ==> b'[k] == b[k];
      }
      LastIndexOfSplit(a, c, b');
      assert LastIndexOf(s, c) == LastIndexOf(s[..|s| - 1], c);
    }
  }

  /** `getThumbnailUrl(videoId, quality)`; an omitted `quality` (`None`)
      is `maxresdefault`. */
  function GetThumbnailUrl(id: string, quality: Option<Quality>): string {
    ThumbnailUrl(id, quality.GetOr(MaxRes))
  }

  /** The URL for one rung of the ladder. */
  function ThumbnailUrl(id: string, q: Quality): string {
    UrlPrefix + id + "/" + Name(q) + UrlSuffix
  }

  /** A thumbnail URL carries exactly the identifier and quality it was built
      from; an omitted quality reads back as `maxresdefault`. */
  lemma ThumbnailUrlRoundTrip(id: string, quality: Option<Quality>)
    ensures ParseThumbnailUrl(GetThumbnailUrl(id, quality)) == Some((id, quality.GetOr(MaxRes)))
  {
    var q := quality.GetOr(MaxRes);
    var body := id + "/" + Name(q);
    var url := GetThumbnailUrl(id, quality);
    assert url == UrlPrefix + body + UrlSuffix;
    assert url[..|UrlPrefix|] == UrlPrefix;
    assert url[|url| - |UrlSuffix|..] == UrlSuffix;
    assert url[|UrlPrefix|..|url| - |UrlSuffix|] == body;
    NameHasNoSlash(q);
    LastIndexOfSplit(id, '/', Name(q));
    assert body[|id| + 1..] == Name(q);
    assert body[..|id|] == id;
    QualityNamedName(q);
  }

  /** Different identifiers or qualities never share a thumbnail URL. */
  lemma ThumbnailUrlInjective(id1: string, q1: Quality, id2: string, q2: Quality)
    requires ThumbnailUrl(id1, q1) == ThumbnailUrl(id2, q2)
    ensures id1 == id2 && q1 == q2
  {
    ThumbnailUrlRoundTrip(id1, Some(q1));
    ThumbnailUrlRoundTrip(id2, Some(q2));
  }

  /** The value `loadThumbnail` resolves with. */
  datatype ResolvedThumbnail = ResolvedThumbnail(url: string, filename: string)

  /** A finished ladder: the rung settled on, the thumbnail it gives, and
      the rungs whose URL was probed, in the order they were probed. */
  datatype Resolution = Resolution(quality: Quality, thumbnail: ResolvedThumbnail, tried: seq<Quality>)

  /** Whether the image of each rung loads for `id`: the `onload` (true)
      or `onerror` (false) outcome of an `Image` pointed at the rung's URL. */
  function Prober(id: string, probe: string -> bool): (ok: Quality -> bool)
    ensures forall q :: ok(q) == probe(ThumbnailUrl(id, q))
  {
    q => probe(ThumbnailUrl(id, q))
  }

  /** `q` is the rung a ladder over `ok` should settle on: the best one that
      loads, or `default` when none of the five does. */
  ghost predicate IsBest(ok: Quality -> bool, q: Quality) {
    || (ok(q) && forall q' :: Rank(q') < Rank(q) ==> !ok(q'))
    || (q == Default && forall q' :: !ok(q'))
  }

  /** `q` is the quality `id` should be shown at: the best one whose image
      loads, or `default` when none of the five does. */
  ghost predicate IsBestAvailable(id: string, probe: string -> bool, q: Quality) {
    IsBest(Prober(id, probe), q)
  }

  /** `t` shows `id` at its best available quality and is named after it. */
  ghost predicate IsBestThumbnail(id: string, probe: string -> bool, t: ResolvedThumbnail) {
    && (exists q :: IsBestAvailable(id, probe, q) && t.url == ThumbnailUrl(id, q))
    && t.filename == id + ".jpg"
  }

  /** None of the first `m` rungs of `qs` loads. */
  ghost predicate FirstFail(ok: Quality -> bool, qs: seq<Quality>, m: nat)
    requires m <= |qs|
    decreases m
  {
    m == 0 || (!ok(qs[0]) && FirstFail(ok, qs[1..], m - 1))
  }

  /** Every rung counted by `FirstFail` fails on its own. */
  lemma {:induction false} FirstFailAt(ok: Quality -> bool, qs: seq<Quality>, m: nat, k: int)
    requires m <= |qs| && FirstFail(ok, qs, m) && 0 <= k < m
    ensures !ok(qs[k])
    decreases m
  {
    if k > 0 {
      FirstFailAt(ok, qs[1..], m - 1, k - 1);
    }
  }

  /** A rung that loads bounds the failing run before it. */
  lemma {:induction false} FirstFailBound(ok: Quality -> bool, qs: seq<Quality>, m: nat, k: int)
    requires m <= |qs| && FirstFail(ok, qs, m)
    requires 0 <= k < |qs| && ok(qs[k])
    ensures m <= k
    decreases m
  {
    if m > 0 && k > 0 {
      FirstFailBound(ok, qs[1..], m - 1, k - 1);
    }
  }

  /** The outcome of `tryLoadImage`: the rung whose URL it resolves with,
      and the rungs it probed. */
  datatype Attempt = Attempt(chosen: Quality, tried: seq<Quality>)

  /** `tryLoadImage` over the rungs not tried yet: probe the first one; on
      success settle on it; on failure move one rung down, and once the last
      rung has failed settle on `default` without probing again. */
  function TryLoad(ok: Quality -> bool, rungs: seq<Quality>): (a: Attempt)
    requires |rungs| > 0
    ensures 1 <= |a.tried| <= |rungs| && a.tried == rungs[..|a.tried|]
    ensures FirstFail(ok, rungs, |a.tried| - 1)
    ensures var last := a.tried[|a.tried| - 1];
      && (ok(last) ==> a.chosen == last)
      && (!ok(last) ==> |a.tried| == |rungs| && a.chosen == Default)
    decreases |rungs|
  {
    if ok(rungs[0]) then
      Attempt(rungs[0], [rungs[0]])
    else if |rungs| > 1 then
      var rest := TryLoad(ok, rungs[1..]);
      var tried := [rungs[0]] + rest.tried;
      assert tried == rungs[..|tried|];
      Attempt(rest.chosen, tried)
    else
      Attempt(Default, [rungs[0]])
  }

  /** `tried` is a prefix of the ladder in which every rung but the last
      failed to load. */
  ghost predicate FailedPrefix(ok: Quality -> bool, tried: seq<Quality>) {
    && 1 <= |tried| <= |Ladder|
    && tried == Ladder[..|tried|]
    && FirstFail(ok, Ladder, |tried| - 1)
  }

  /** When the last tried rung loaded, it is the best one. */
  lemma LastProbeLoaded(ok: Quality -> bool, tried: seq<Quality>)
    requires FailedPrefix(ok, tried) && ok(tried[|tried| - 1])
    ensures IsBest(ok, tried[|tried| - 1])
  {
    var q := tried[|tried| - 1];
    assert q == Ladder[|tried| - 1];
    assert Rank(q) == |tried| - 1;
    forall q' | Rank(q') < Rank(q) ensures !ok(q') {
      FirstFailAt(ok, Ladder, |tried| - 1, Rank(q'));
    }
  }

  /** When all five rungs were tried and the last failed, every rung failed
      and `default` is the answer. */
  lemma AllProbesFailed(ok: Quality -> bool, tried: seq<Quality>)
    requires FailedPrefix(ok, tried) && |tried| == |Ladder| && !ok(tried[|tried| - 1])
    ensures IsBest(ok, Default)
  {
    assert tried == Ladder;
    forall q ensures !ok(q) {
      assert tried[Rank(q)] == q;
      if Rank(q) < |tried| - 1 {
        FirstFailAt(ok, Ladder, |tried| - 1, Rank(q));
      }
    }
  }

  /** The ladder from its top rung: it probes the rungs strictly in ladder
      order, stops at the first one that loads, never fails, and settles on
      the best rung. */
  function Climb(ok: Quality -> bool): (a: Attempt)
    ensures 1 <= |a.tried| <= |Ladder| && a.tried == Ladder[..|a.tried|]
    ensures FirstFail(ok, Ladder, |a.tried| - 1)
    ensures |a.tried| < |Ladder| ==> ok(a.tried[|a.tried| - 1])
    ensures IsBest(ok, a.chosen)
  {
    var a := TryLoad(ok, Ladder);
    if ok(a.tried[|a.tried| - 1]) then
      LastProbeLoaded(ok, a.tried);
      a
    else
      AllProbesFailed(ok, a.tried);
      a
  }

  /** `loadThumbnail(videoId)`: the ladder over the rungs' URLs. The file is
      always named after the identifier. */
  function LoadThumbnail(id: string, probe: string -> bool): (r: Resolution)
    ensures 1 <= |r.tried| <= |Ladder| && r.tried == Ladder[..|r.tried|]
    ensures FirstFail(Prober(id, probe), Ladder, |r.tried| - 1)
    ensures |r.tried| < |Ladder| ==> Prober(id, probe)(r.tried[|r.tried| - 1])
    ensures IsBestAvailable(id, probe, r.quality)
    ensures r.thumbnail == ResolvedThumbnail(ThumbnailUrl(id, r.quality), id + ".jpg")
  {
    var a := Climb(Prober(id, probe));
    Resolution(a.chosen, ResolvedThumbnail(ThumbnailUrl(id, a.chosen), id + ".jpg"), a.tried)
  }

  /** The best available quality is unique, so `LoadThumbnail`'s choice is
      fully determined by the probe. */
  lemma BestAvailableUnique(id: string, probe: string -> bool, q1: Quality, q2: Quality)
    requires IsBestAvailable(id, probe, q1) && IsBestAvailable(id, probe, q2)
    ensures q1 == q2
  {
  }

  /** When the four better rungs fail, the climb tries all five rungs and
      settles on `default`, whether or not that fifth probe loads. */
  lemma ClimbToDefault(ok: Quality -> bool)
    requires !ok(MaxRes) && !ok(Sd) && !ok(Hq) && !ok(Mq)
    ensures Climb(ok).tried == Ladder && Climb(ok).chosen == Default
  {
    var a := Climb(ok);
    var n := |a.tried|;
    assert a.tried[n - 1] == Ladder[n - 1];
    assert n == |Ladder|;
  }

  /** The `default` rung is probed too: when the four better rungs fail, all
      five rungs are tried, and the result is the `default` URL whether or
      not that fifth probe loads. */
  lemma DefaultIsProbed(id: string, probe: string -> bool)
    requires !probe(ThumbnailUrl(id, MaxRes)) && !probe(ThumbnailUrl(id, Sd))
    requires !probe(ThumbnailUrl(id, Hq)) && !probe(ThumbnailUrl(id, Mq))
    ensures LoadThumbnail(id, probe).tried == Ladder
    ensures LoadThumbnail(id, probe).thumbnail.url == ThumbnailUrl(id, Default)
  {
    ClimbToDefault(Prober(id, probe));
  }
}
