/** The archive file name `downloadAsZip` gives the batch download
    (script.js:134-141): `yt-thumbnails-` and a local-time stamp
    `YYYY-MM-DD-HH-mm-ss`, every field after the year padded to two digits. */
module Archive {

  import opened Wrappers
  import opened Text

  /** The fields the page reads from `new Date()`, as its getters return
      them; `month` is `getMonth()`, which counts from 0. */
  datatype Clock = Clock(year: int, month: nat, date: nat, hours: nat, minutes: nat, seconds: nat)

  /** The ranges a JavaScript `Date` keeps its local-time fields in. */
  predicate ValidClock(c: Clock) {
    c.month < 12 && 1 <= c.date <= 31 && c.hours < 24 && c.minutes < 60 && c.seconds < 60
  }

  /** `String(v).padStart(2, '0')` */
  function Pad2(v: nat): string {
    PadStart(NatToString(v), 2, '0')
  }

  /** The `timestamp` string: the unpadded year, then `-MM-DD-HH-mm-ss`. */
  function Timestamp(c: Clock): string {
    IntToString(c.year) + TailOf(c)
  }

  const ZipPrefix := "yt-thumbnails-"
  const ZipSuffix := ".zip"

  /** `link.download` for the archive. */
  function ZipName(c: Clock): string {
    ZipPrefix + Timestamp(c) + ZipSuffix
  }

  /** Length of the fixed-width tail `-MM-DD-HH-mm-ss` after the year. */
  const TailLength := 15

  /** The value of a two-character field, if both characters are digits. */
  function Field(s: string): Option<nat>
    requires |s| == 2
  {
    if AllDigits(s) then Some(DigitsValue(s)) else None
  }

  /** The five fields of a tail `-MM-DD-HH-mm-ss`, month as written (from 1). */
  datatype Tail = Tail(month: nat, date: nat, hours: nat, minutes: nat, seconds: nat)

  function ParseTail(t: string): Option<Tail>
    requires |t| == TailLength
  {
    if t[0] != '-' || t[3] != '-' || t[6] != '-' || t[9] != '-' || t[12] != '-' then
      None
    else
      match (Field(t[1..3]), Field(t[4..6]), Field(t[7..9]), Field(t[10..12]), Field(t[13..15]))
      case (Some(mo), Some(d), Some(h), Some(mi), Some(se)) => Some(Tail(mo, d, h, mi, se))
      case _ => None
  }

  /** The tail of the timestamp: `-MM-DD-HH-mm-ss`. */
  function TailOf(c: Clock): string {
    "-" + Pad2(c.month + 1) + "-" + Pad2(c.date) + "-" + Pad2(c.hours)
    + "-" + Pad2(c.minutes) + "-" + Pad2(c.seconds)
  }

  /** Reads a clock back out of an archive name: the year is everything
      between the prefix and the fixed-width tail. */
  function ParseZipName(name: string): Option<Clock>
  {
    if |name| < |ZipPrefix| + 1 + TailLength + |ZipSuffix|
       || name[..|ZipPrefix|] != ZipPrefix
       || name[|name| - |ZipSuffix|..] != ZipSuffix then
      None
    else
      var stamp := name[|ZipPrefix|..|name| - |ZipSuffix|];
      Assemble(ParseInt(stamp[..|stamp| - TailLength]), ParseTail(stamp[|stamp| - TailLength..]))
  }

  /** A clock from a parsed year and tail; the month is stored from 0. */
  function Assemble(year: Option<int>, tail: Option<Tail>): Option<Clock> {
    match (year, tail)
    case (Some(y), Some(t)) =>
      if t.month == 0 then None
      else Some(Clock(y, t.month - 1, t.date, t.hours, t.minutes, t.seconds))
    case _ => None
  }

  /** A two-digit field reads back as its value. */
  lemma Pad2Field(v: nat)
    requires v < 100
    ensures |Pad2(v)| == 2 && Field(Pad2(v)) == Some(v)
  {
    TwoDigitPad(v);
  }

  /** Where the five fields of a tail sit. */
  lemma TailLayout(a: string, b: string, c: string, d: string, e: string)
    requires |a| == 2 && |b| == 2 && |c| == 2 && |d| == 2 && |e| == 2
    ensures var t := "-" + a + "-" + b + "-" + c + "-" + d + "-" + e;
      && |t| == TailLength
      && t[0] == '-' && t[3] == '-' && t[6] == '-' && t[9] == '-' && t[12] == '-'
      && t[1..3] == a && t[4..6] == b && t[7..9] == c && t[10..12] == d && t[13..15] == e
  {
    var t := "-" + a + "-" + b + "-" + c + "-" + d + "-" + e;
    assert t[1..3] == a by { assert forall k :: 0 <= k < 2 ==> t[1 + k] == a[k]; }
    assert t[4..6] == b by { assert forall k :: 0 <= k < 2 ==> t[4 + k] == b[k]; }
    assert t[7..9] == c by { assert forall k :: 0 <= k < 2 ==> t[7 + k] == c[k]; }
    assert t[10..12] == d by { assert forall k :: 0 <= k < 2 ==> t[10 + k] == d[k]; }
    assert t[13..15] == e by { assert forall k :: 0 <= k < 2 ==> t[13 + k] == e[k]; }
  }

  /** A tail built from five two-digit fields parses back to their values. */
  lemma ParseFields(a: string, b: string, c: string, d: string, e: string,
                    va: nat, vb: nat, vc: nat, vd: nat, ve: nat)
    requires |a| == 2 && |b| == 2 && |c| == 2 && |d| == 2 && |e| == 2
    requires Field(a) == Some(va) && Field(b) == Some(vb) && Field(c) == Some(vc)
    requires Field(d) == Some(vd) && Field(e) == Some(ve)
    ensures |"-" + a + "-" + b + "-" + c + "-" + d + "-" + e| == TailLength
    ensures ParseTail("-" + a + "-" + b + "-" + c + "-" + d + "-" + e) == Some(Tail(va, vb, vc, vd, ve))
  {
    TailLayout(a, b, c, d, e);
  }

  /** The fixed-width tail reads back field by field. */
  lemma TailRoundTrip(c: Clock)
    requires ValidClock(c)
    ensures |TailOf(c)| == TailLength
    ensures ParseTail(TailOf(c)) == Some(Tail(c.month + 1, c.date, c.hours, c.minutes, c.seconds))
  {
    Pad2Field(c.month + 1);
    Pad2Field(c.date);
    Pad2Field(c.hours);
    Pad2Field(c.minutes);
    Pad2Field(c.seconds);
    ParseFields(Pad2(c.month + 1), Pad2(c.date), Pad2(c.hours), Pad2(c.minutes), Pad2(c.seconds),
                c.month + 1, c.date, c.hours, c.minutes, c.seconds);
  }

  /** An archive name splits into its year and its tail. */
  lemma ParseNameParts(y: string, t: string)
    requires |y| > 0 && |t| == TailLength
    ensures ParseZipName(ZipPrefix + (y + t) + ZipSuffix) == Assemble(ParseInt(y), ParseTail(t))
  {
    var name := ZipPrefix + (y + t) + ZipSuffix;
    assert name[..|ZipPrefix|] == ZipPrefix;
    assert name[|name| - |ZipSuffix|..] == ZipSuffix;
    var stamp := name[|ZipPrefix|..|name| - |ZipSuffix|];
    assert stamp == y + t;
    assert stamp[..|stamp| - TailLength] == y;
    assert stamp[|stamp| - TailLength..] == t;
  }

  /** The archive name records the clock exactly: every padded field is two
      digits wide, so the name can be read back field by field. */
  lemma ZipNameRoundTrip(c: Clock)
    requires ValidClock(c)
    ensures ParseZipName(ZipName(c)) == Some(c)
  {
    var y := IntToString(c.year);
    var t := TailOf(c);
    var name := ZipPrefix + (y + t) + ZipSuffix;
    assert ZipName(c) == name;
    assert ParseZipName(name) == Some(c) by {
      assert ParseInt(y) == Some(c.year) && |y| > 0 by {
        IntToStringRoundTrip(c.year);
      }
      assert |t| == TailLength && ParseTail(t) == Some(Tail(c.month + 1, c.date, c.hours, c.minutes, c.seconds)) by {
        TailRoundTrip(c);
      }
      ParseNameParts(y, t);
    }
  }
}
