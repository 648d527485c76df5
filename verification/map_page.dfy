/** The world map page (`src/pages/map/index.tsx`): every photo of every
    album whose EXIF carries a GPS position becomes one marker entry, with
    its decimal coordinates, a link back to the photo in its album and a
    placeholder colour. */
module MapPage {
  import opened Wrappers
  import opened JsonValues
  import opened AlbumTypes
  import opened Strings
  import NodePath
  import Sorting
  import Dms

  const LngKey: string := "GPSLongitude"
  const LatKey: string := "GPSLatitude"
  const LngRefKey: string := "GPSLongitudeRef"
  const LatRefKey: string := "GPSLatitudeRef"
  const DateKey: string := "DateTimeOriginal"

  /** `hasLatLng`: a photo whose EXIF has all four GPS tags, each truthy. */
  predicate HasLatLng(b: Block) {
    b.Photo?
    && TruthyOpt(Field(b.build.exif, LngKey)) && TruthyOpt(Field(b.build.exif, LatKey))
    && TruthyOpt(Field(b.build.exif, LngRefKey)) && TruthyOpt(Field(b.build.exif, LatRefKey))
  }

  /** An array item JavaScript's arithmetic reads as a number: a number,
      or `null` (a NaN rational after the JSON round trip), which reads as
      `0`. */
  predicate Numeric(j: Json) {
    j.JNum? || j.JNull?
  }

  /** The number arithmetic makes of a numeric item. */
  function NumberOf(j: Json): real
    requires Numeric(j)
  {
    if j.JNum? then j.n else 0.0
  }

  /** A GPS tag as an array of numbers (degrees, minutes, seconds), where a
      `null` item counts as `0`; anything else reads as absent. */
  function Coords(j: Option<Json>): (r: Option<seq<real>>)
    ensures r.Some? <==> j.Some? && j.value.JArr? && forall i :: 0 <= i < |j.value.items| ==> Numeric(j.value.items[i])
    ensures r.Some? ==>
      |r.value| == |j.value.items|
      && forall i :: 0 <= i < |r.value| ==>
           r.value[i] == (if j.value.items[i].JNum? then j.value.items[i].n else 0.0)
  {
    match j
    case Some(JArr(items)) =>
      if forall i :: 0 <= i < |items| ==> Numeric(items[i]) then
        Some(seq(|items|, i requires 0 <= i < |items| && Numeric(items[i]) => NumberOf(items[i])))
      else None
    case _ => None
  }

  /** A GPS reference tag as text; a value of any other type matches no
      hemisphere letter. */
  function RefText(j: Option<Json>): (r: string)
    ensures j.Some? && j.value.JStr? ==> r == j.value.s
    ensures r != "" ==> j.Some? && j.value.JStr?
  {
    match j
    case Some(JStr(s)) => s
    case _ => ""
  }

  /** `photo.data.src.split("/").at(-1)`: the text after the last `/`, or
      the whole path when it has none. */
  function FileName(src: string): (r: string)
    ensures '/' !in r
    ensures LastIndex(src, '/').None? ==> r == src
    ensures LastIndex(src, '/').Some? ==> r == src[LastIndex(src, '/').value + 1..]
  {
    var parts := Split(src, '/');
    var r := parts[|parts| - 1];
    match LastIndex(src, '/')
    case None =>
      SplitNoSeparator(src, '/');
      r
    case Some(k) =>
      assert src == src[..k] + ['/'] + src[k + 1..];
      NodePath.SplitAtLast(src[..k], '/', src[k + 1..]);
      r
  }

  /** The link of a marker: the photo's anchor in its album page. */
  function Href(slug: string, src: string): string {
    "/album/" + slug + "#" + FileName(src)
  }

  /** The link takes apart again into the album slug and the file name when
      neither contains `#`. */
  lemma HrefParts(slug: string, src: string)
    requires '#' !in slug && '#' !in FileName(src)
    ensures Split(Href(slug, src), '#') == ["/album/" + slug, FileName(src)]
  {
    var head := "/album/" + slug;
    assert '#' !in head by {
      assert forall i :: 0 <= i < |head| ==> head[i] == '#' ==> i >= 7 && slug[i - 7] == '#';
    }
    assert Href(slug, src) == head + ['#'] + FileName(src);
    SplitAtFirst(head, '#', FileName(src));
    SplitNoSeparator(FileName(src), '#');
  }

  /** The marker's placeholder: `transparent` unless the photo's first
      dominant colour is set; its channels are the colour's first three
      elements, rendered by JavaScript's own number formatting. */
  datatype Placeholder = Transparent | Rgba(r: Option<Json>, g: Option<Json>, b: Option<Json>)

  /** `MapWorldEntry`. */
  datatype MapEntry = MapEntry(
    album: string,
    src: Option<OptimisedPhoto>,
    decLng: Option<real>,
    decLat: Option<real>,
    date: Json,
    href: string,
    placeholder: Placeholder,
    placeholderHeight: nat,
    placeholderWidth: nat)

  /** The first dominant colour, `photo._build?.tags?.colors?.[0]`. */
  function FirstColor(build: PhotoBuild): Option<Json> {
    Elem(Prop(build.tags, "colors"), 0)
  }

  /** The entry of one located photo of the album with the given slug. */
  function EntryOf(slug: string, p: Block): (e: MapEntry)
    requires p.Photo?
    ensures e.album == slug && e.href == Href(slug, p.data.src)
    ensures e.src.Some? <==> |p.build.srcset| > 0
    ensures e.src.Some? ==> e.src.value == p.build.srcset[0]
    ensures e.date.JNull? <==> DateKey !in p.build.exif || p.build.exif[DateKey].JNull?
    ensures !e.date.JNull? ==> e.date == p.build.exif[DateKey]
    ensures e.placeholder.Transparent? <==> !TruthyOpt(FirstColor(p.build))
    ensures e.placeholderHeight == p.build.height && e.placeholderWidth == p.build.width
  {
    var exif := p.build.exif;
    var pos := Dms.GetDegLatLngFromExif(Coords(Field(exif, LngKey)), Coords(Field(exif, LatKey)),
                                        RefText(Field(exif, LngRefKey)), RefText(Field(exif, LatRefKey)));
    var color := FirstColor(p.build);
    MapEntry(
      slug,
      if |p.build.srcset| > 0 then Some(p.build.srcset[0]) else None,
      pos.decLng,
      pos.decLat,
      Coalesce(Field(exif, DateKey), JNull),
      Href(slug, p.data.src),
      if TruthyOpt(color) then Rgba(Elem(color, 0), Elem(color, 1), Elem(color, 2)) else Transparent,
      p.build.height,
      p.build.width)
  }

  /** A photo whose longitude tag is three numbers and whose reference is
      `W` sits west of the prime meridian by exactly its degrees, minutes
      and seconds. */
  lemma WesternLongitude(slug: string, p: Block, d: real, m: real, s: real)
    requires p.Photo? && LngKey in p.build.exif && LngRefKey in p.build.exif
    requires p.build.exif[LngKey] == JArr([JNum(d), JNum(m), JNum(s)])
    requires p.build.exif[LngRefKey] == JStr("W")
    ensures EntryOf(slug, p).decLng == Some(-Dms.Magnitude(d, m, s))
  {
    var items := [JNum(d), JNum(m), JNum(s)];
    assert Field(p.build.exif, LngKey) == Some(JArr(items));
    assert forall i :: 0 <= i < |items| ==> Numeric(items[i]);
    var c := Coords(Field(p.build.exif, LngKey));
    assert c.value == [d, m, s];
  }

  /** A `null` seconds reading (a 0/0 rational) does not hide the photo's
      position: it counts as zero seconds. */
  lemma NullSecondsCountZero(slug: string, p: Block, d: real, m: real)
    requires p.Photo? && LngKey in p.build.exif && LngRefKey in p.build.exif
    requires p.build.exif[LngKey] == JArr([JNum(d), JNum(m), JNull])
    requires p.build.exif[LngRefKey] == JStr("W")
    ensures EntryOf(slug, p).decLng == Some(-Dms.Magnitude(d, m, 0.0))
  {
    var items := [JNum(d), JNum(m), JNull];
    assert Field(p.build.exif, LngKey) == Some(JArr(items));
    assert forall i :: 0 <= i < |items| ==> Numeric(items[i]);
    var c := Coords(Field(p.build.exif, LngKey));
    assert c.value == [d, m, 0.0];
  }

  /** The entries of one album: its located photos, in block order. */
  function AlbumEntries(a: Content): (r: seq<MapEntry>)
    ensures var located := Sorting.Filter(a.blocks, HasLatLng);
      |r| == |located| && forall i :: 0 <= i < |r| ==> r[i] == EntryOf(a.build.slug, located[i])
  {
    var located := Sorting.Filter(a.blocks, HasLatLng);
    seq(|located|, i requires 0 <= i < |located| => EntryOf(a.build.slug, located[i]))
  }

  /** `albums.flatMap(...)`: the entries of every album, album after album. */
  function MapEntries(albums: seq<Content>): seq<MapEntry> {
    Sorting.FlatMap(albums, AlbumEntries)
  }

  /** Every located photo of every album is on the map. */
  lemma MapEntriesComplete(albums: seq<Content>, i: nat, j: nat)
    requires i < |albums| && j < |albums[i].blocks| && HasLatLng(albums[i].blocks[j])
    ensures EntryOf(albums[i].build.slug, albums[i].blocks[j]) in MapEntries(albums)
  {
    var a := albums[i];
    var located := Sorting.Filter(a.blocks, HasLatLng);
    var b := a.blocks[j];
    Sorting.FilterMembers(a.blocks, HasLatLng);
    assert b in located;
    var k :| 0 <= k < |located| && located[k] == b;
    assert AlbumEntries(a)[k] == EntryOf(a.build.slug, b);
    Sorting.FlatMapMember(albums, AlbumEntries, i, EntryOf(a.build.slug, b));
  }

  /** The album and block an entry on the map comes from. */
  lemma MapEntryIndex(albums: seq<Content>, e: MapEntry) returns (i: nat, j: nat)
    requires e in MapEntries(albums)
    ensures i < |albums| && j < |albums[i].blocks|
    ensures HasLatLng(albums[i].blocks[j]) && e == EntryOf(albums[i].build.slug, albums[i].blocks[j])
  {
    var n :| 0 <= n < |MapEntries(albums)| && MapEntries(albums)[n] == e;
    var k;
    i, k := Sorting.FlatMapIndex(albums, AlbumEntries, n);
    j := Sorting.FilterIndex(albums[i].blocks, HasLatLng, k);
  }

  /** Every entry on the map is the entry of a located photo of one of the
      albums. */
  lemma MapEntriesSound(albums: seq<Content>, e: MapEntry)
    requires e in MapEntries(albums)
    ensures exists i, j :: (0 <= i < |albums| && 0 <= j < |albums[i].blocks|
      && HasLatLng(albums[i].blocks[j]) && e == EntryOf(albums[i].build.slug, albums[i].blocks[j]))
  {
    var i, j := MapEntryIndex(albums, e);
  }
}
