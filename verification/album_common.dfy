/** What the current and the legacy album builders share
    (`src/services/album.ts`, `src/api/album.ts`): the directory listing an
    album is scanned from, the blocks a scan synthesises, the photo timestamp
    range and the year span shown as an album's kicker. */
module AlbumCommon {
  import opened Wrappers
  import opened Strings
  import opened JsonValues
  import opened NodePath
  import opened AlbumTypes
  import Sorting

  /** The parts of JavaScript's `Date` the builders call, as functions of
      their input. `dateParse` is `Date.parse` (and `new Date(s).valueOf()` of
      a string) and yields a number, never NaN; `timeOf` is
      `new Date(v).getTime()` of a possibly missing value, `None` standing
      for NaN; `fullYear` is `new Date(t).getFullYear()` in the build
      machine's time zone. */
  datatype Calendar = Calendar(
    dateParse: Json -> int,
    timeOf: Option<Json> -> Option<int>,
    fullYear: int -> int)

  /** One entry of a directory listing and whether `lstat` calls it a
      directory. */
  datatype DirEntry = DirEntry(name: string, isDir: bool)

  /** A JSON file read and parsed: `JSON.parse` throws on `Unparsable`. */
  datatype Parse<T> = Unparsable | Parsed(value: T)

  /** One entry of the albums directory: `dir` is `None` when the entry is
      not a directory. */
  datatype AlbumEntry<D> = AlbumEntry(name: string, dir: Option<D>)

  const ManifestName: string := "manifest.json"

  /** `fs.existsSync(path.join(albumPath, name))`: the listing has an entry
      of that name. */
  predicate Listed(listing: seq<DirEntry>, name: string) {
    exists i :: 0 <= i < |listing| && listing[i].name == name
  }

  /** A listing entry a scan turns into a photo: not a directory, and not a
      name ending in `.json`. */
  predicate IsPhotoEntry(e: DirEntry) {
    !e.isDir && !EndsWith(e.name, ".json")
  }

  /** `entries.map(e => e.name)`. */
  function EntryNames(entries: seq<DirEntry>): (r: seq<string>)
    ensures |r| == |entries| && forall i :: 0 <= i < |entries| ==> r[i] == entries[i].name
  {
    seq(|entries|, i requires 0 <= i < |entries| => entries[i].name)
  }

  /** The names of the photo entries, in listing order. */
  function ScanPhotos(listing: seq<DirEntry>): (r: seq<string>)
    ensures |r| <= |listing|
    ensures forall n :: n in r <==> exists i :: 0 <= i < |listing| && listing[i].name == n && IsPhotoEntry(listing[i])
    decreases |listing|
  {
    if |listing| == 0 then []
    else
      var rest := ScanPhotos(listing[1..]);
      assert forall i :: 1 <= i < |listing| ==> listing[i] == listing[1..][i - 1];
      if IsPhotoEntry(listing[0]) then [listing[0].name] + rest else rest
  }

  /** The scan is the listing filtered to photo entries and mapped to names:
      listing order and every occurrence are kept. */
  lemma {:induction false} ScanPhotosFilterMap(listing: seq<DirEntry>)
    ensures ScanPhotos(listing) == EntryNames(Sorting.Filter(listing, IsPhotoEntry))
    decreases |listing|
  {
    if |listing| > 0 {
      ScanPhotosFilterMap(listing[1..]);
    }
  }

  /** A scanned photo entry as a stored block: its id and its source are the
      file name. */
  function ScanPhoto(name: string): (p: SerializedPhoto)
    ensures p.id == name && p.data.src == name && p.formatting.None?
  {
    SerializedPhoto(name, PhotoData(name, None, None, None), None)
  }

  /** The title block a scan puts first: a text block with just a title. */
  function TitleBlock(id: string, title: string): (t: TextBlock)
    ensures t.id == id && t.data.title == title && t.data.kicker.None?
  {
    TextBlock(id, TextData(title, None, None), None)
  }

  /** The stored blocks of a scan: the title, then one photo per name. */
  function ScanBlocks(titleId: string, title: string, photos: seq<string>): (r: seq<SerializedBlock>)
    ensures |r| == 1 + |photos|
    ensures r[0] == SText(TitleBlock(titleId, title))
    ensures forall i :: 0 <= i < |photos| ==> r[i + 1] == SPhoto(ScanPhoto(photos[i]))
  {
    [SText(TitleBlock(titleId, title))] + seq(|photos|, i requires 0 <= i < |photos| => SPhoto(ScanPhoto(photos[i])))
  }

  /** `photos.find(p => p.includes("cover"))`, as the index found. */
  function FirstCover(photos: seq<string>): (r: Option<nat>)
    ensures r.None? <==> forall i :: 0 <= i < |photos| ==> !Contains(photos[i], "cover")
    ensures r.Some? ==>
      r.value < |photos| && Contains(photos[r.value], "cover")
      && forall j :: 0 <= j < r.value ==> !Contains(photos[j], "cover")
    decreases |photos|
  {
    if |photos| == 0 then None
    else if Contains(photos[0], "cover") then Some(0)
    else
      var rest := FirstCover(photos[1..]);
      assert forall i :: 1 <= i < |photos| ==> photos[i] == photos[1..][i - 1];
      match rest
      case None => None
      case Some(k) => Some(k + 1)
  }

  /** The cover a scan records: the first photo whose name mentions
      `cover`, as a whole block. */
  function ScanCover(photos: seq<string>): (r: Option<SerializedPhoto>)
    ensures r.None? <==> forall i :: 0 <= i < |photos| ==> !Contains(photos[i], "cover")
    ensures r.Some? ==> exists i :: 0 <= i < |photos| && r.value == ScanPhoto(photos[i])
    ensures r.Some? ==> Contains(r.value.data.src, "cover")
  {
    match FirstCover(photos)
    case None => None
    case Some(i) => Some(ScanPhoto(photos[i]))
  }

  // ---------------------------------------------------------------------------
  // Timestamp range (`getImageTimestampRange`)
  // ---------------------------------------------------------------------------

  /** The reduction to the smallest valid timestamp, starting from
      `Number.MAX_VALUE` (no JavaScript date reaches it): `None` when no block
      has one. */
  function Earliest<B>(bs: seq<B>, time: B -> Option<int>): (r: Option<int>)
    ensures r.None? <==> forall i :: 0 <= i < |bs| ==> time(bs[i]).None?
    ensures r.Some? ==> exists i :: 0 <= i < |bs| && time(bs[i]) == Some(r.value)
    ensures r.Some? ==> forall i :: 0 <= i < |bs| && time(bs[i]).Some? ==> r.value <= time(bs[i]).value
    decreases |bs|
  {
    if |bs| == 0 then None
    else
      var rest := Earliest(bs[1..], time);
      assert forall i :: 1 <= i < |bs| ==> bs[i] == bs[1..][i - 1];
      match time(bs[0])
      case None => rest
      case Some(t) => if rest.Some? && rest.value <= t then rest else Some(t)
  }

  /** The reduction to the largest valid timestamp, starting from 0. */
  function Latest<B>(bs: seq<B>, time: B -> Option<int>): (r: int)
    ensures r >= 0
    ensures r == 0 || exists i :: 0 <= i < |bs| && time(bs[i]) == Some(r)
    ensures forall i :: 0 <= i < |bs| && time(bs[i]).Some? ==> time(bs[i]).value <= r
    decreases |bs|
  {
    if |bs| == 0 then 0
    else
      var rest := Latest(bs[1..], time);
      assert forall i :: 1 <= i < |bs| ==> bs[i] == bs[1..][i - 1];
      match time(bs[0])
      case None => rest
      case Some(t) => if t > rest then t else rest
  }

  /** `getImageTimestampRange`: the earliest timestamp, and the latest one
      unless it is 0 (no positive timestamp). */
  function TimestampRange<B>(bs: seq<B>, time: B -> Option<int>): (r: TimeRange)
    ensures r.earliest == Earliest(bs, time)
    ensures r.latest.Some? <==> Latest(bs, time) != 0
    ensures r.latest.Some? ==> r.latest.value == Latest(bs, time)
  {
    var latest := Latest(bs, time);
    TimeRange(Earliest(bs, time), if latest != 0 then Some(latest) else None)
  }

  /** Every block of `a` also in `b` can only lower the earliest timestamp. */
  lemma EarliestSubset<B>(a: seq<B>, b: seq<B>, time: B -> Option<int>)
    requires forall x :: x in a ==> x in b
    ensures Earliest(a, time).Some? ==> Earliest(b, time).Some? && Earliest(b, time).value <= Earliest(a, time).value
  {
    var ea := Earliest(a, time);
    if ea.Some? {
      var i :| 0 <= i < |a| && time(a[i]) == Some(ea.value);
      assert a[i] in b;
      var j :| 0 <= j < |b| && b[j] == a[i];
    }
  }

  /** Every block of `a` also in `b` can only raise the latest timestamp. */
  lemma LatestSubset<B>(a: seq<B>, b: seq<B>, time: B -> Option<int>)
    requires forall x :: x in a ==> x in b
    ensures Latest(a, time) <= Latest(b, time)
  {
    var la := Latest(a, time);
    if la != 0 {
      var i :| 0 <= i < |a| && time(a[i]) == Some(la);
      assert a[i] in b;
      var j :| 0 <= j < |b| && b[j] == a[i];
    }
  }

  /** The range depends only on which blocks there are, not on their order. */
  lemma TimestampRangePermutation<B>(a: seq<B>, b: seq<B>, time: B -> Option<int>)
    requires multiset(a) == multiset(b)
    ensures TimestampRange(a, time) == TimestampRange(b, time)
  {
    forall x ensures x in a <==> x in b {
      assert x in a <==> x in multiset(a);
      assert x in b <==> x in multiset(b);
    }
    EarliestSubset(a, b, time);
    EarliestSubset(b, a, time);
    LatestSubset(a, b, time);
    LatestSubset(b, a, time);
  }

  /** Blocks with the same timestamps, position by position, have the same
      range. */
  lemma {:induction false} TimestampRangePointwise<B>(a: seq<B>, b: seq<B>, time: B -> Option<int>)
    requires |a| == |b| && forall i :: 0 <= i < |a| ==> time(a[i]) == time(b[i])
    ensures TimestampRange(a, time) == TimestampRange(b, time)
    decreases |a|
  {
    if |a| > 0 {
      assert time(a[0]) == time(b[0]);
      assert forall i :: 0 <= i < |a[1..]| ==> a[1..][i] == a[i + 1] && b[1..][i] == b[i + 1];
      TimestampRangePointwise(a[1..], b[1..], time);
    }
  }

  /** Replacing a block by one with the same timestamp leaves the range
      alone. */
  lemma TimestampRangeUpdate<B>(bs: seq<B>, k: nat, x: B, time: B -> Option<int>)
    requires k < |bs| && time(bs[k]) == time(x)
    ensures TimestampRange(bs[k := x], time) == TimestampRange(bs, time)
  {
    TimestampRangePointwise(bs[k := x], bs, time);
  }

  // ---------------------------------------------------------------------------
  // Kicker
  // ---------------------------------------------------------------------------

  /** The kicker text: the first year alone when both years agree, otherwise
      both joined by `dash`. */
  function YearSpan(first: int, second: int, dash: string): string {
    IntToString(first) + (if second == first then "" else dash + IntToString(second))
  }

  /** A single year is shown exactly when the two years agree. */
  lemma YearSpanSingle(first: int, second: int, dash: string)
    requires dash != ""
    ensures YearSpan(first, second, dash) == IntToString(first) <==> first == second
  {
    if first != second {
      assert |YearSpan(first, second, dash)| > |IntToString(first)|;
    }
  }

  /** The years of a timestamp range, a missing end read as time 0
      (`new Date(null)`). */
  function RangeYears(range: TimeRange, cal: Calendar): (years: (int, int))
    ensures years.0 == cal.fullYear(range.earliest.GetOr(0))
    ensures years.1 == cal.fullYear(range.latest.GetOr(0))
  {
    (cal.fullYear(range.earliest.GetOr(0)), cal.fullYear(range.latest.GetOr(0)))
  }

  /** `getAlbumNames`: the last `/`-separated segment of each album's source
      directory. */
  function AlbumNames(srcdirs: seq<string>): (r: seq<string>)
    ensures |r| == |srcdirs|
    ensures forall i :: 0 <= i < |srcdirs| ==> r[i] == LastSegment(srcdirs[i])
  {
    seq(|srcdirs|, i requires 0 <= i < |srcdirs| => LastSegment(srcdirs[i]))
  }
}
