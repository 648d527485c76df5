/** Assembling the albums of the current build (`src/services/album.ts`).
    An album directory is built from its legacy `manifest.json` when that is
    there and no `album.json` sidecar is; otherwise its listing is scanned
    into a title block and one photo block per image, the sidecar adds
    videos and a cover, the blocks are ordered by date with text pinned to
    the front, and the title block gets the album's year span as kicker. */
module Album {
  import opened Wrappers
  import opened Strings
  import opened NodePath
  import opened JsonValues
  import opened Environment
  import opened AlbumTypes
  import opened AlbumCommon
  import opened Deserialize
  import Sorting
  import Batch

  const SidecarName: string := "album.json"

  /** The directory-name marker a scan reads the sort order from. */
  const NewestMarker: string := "." + NewestExtension
  const NewestExtension: string := "newest-first"

  /** The separator of a two-year kicker, an en dash. */
  const Dash: string := "\U{2013}"

  /** An album directory: its listing, and what reading and parsing its
      `manifest.json` and `album.json` give (consulted only when the listing
      has them). A sidecar that parses to a falsy value is `Parsed(None)`. */
  datatype AlbumDir = AlbumDir(
    listing: seq<DirEntry>,
    manifest: Parse<SerializedContent>,
    sidecar: Parse<Option<V2AlbumMetadata>>)

  /** The legacy manifest is used when it exists and the sidecar does not. */
  predicate ManifestMode(d: AlbumDir) {
    Listed(d.listing, ManifestName) && !Listed(d.listing, SidecarName)
  }

  /** The sidecar the scan applies: none unless `album.json` exists and
      parses to a truthy value. */
  function Sidecar(d: AlbumDir): (meta: Option<V2AlbumMetadata>)
    ensures meta.Some? ==> Listed(d.listing, SidecarName) && d.sidecar == Parsed(meta)
  {
    if Listed(d.listing, SidecarName) && d.sidecar.Parsed? then d.sidecar.value else None
  }

  /** Only the sidecar's `sort` decides the order and the kicker direction. */
  predicate NewestFirstBy(meta: Option<V2AlbumMetadata>) {
    meta.Some? && meta.value.sort == Some(NewestFirst)
  }

  // ---------------------------------------------------------------------------
  // Directory scan (`getAlbumWithoutManifest`)
  // ---------------------------------------------------------------------------

  /** The manifest a scan synthesises: named and titled after the directory
      (`path.parse(albumPath).name`), the scanned blocks, the first photo
      mentioning `cover` as cover, and a sort order read from the directory
      name. */
  function ScanManifest(albumPath: string, listing: seq<DirEntry>, titleId: string): (sc: SerializedContent)
    ensures var dirname := ParseName(albumPath);
      sc.name == dirname && sc.title == dirname && sc.kicker.None? && sc.order.None?
      && sc.blocks == ScanBlocks(titleId, dirname, ScanPhotos(listing))
      && sc.formatting.overlay.None?
      && (sc.formatting.sort == Some(NewestFirst) <==> Contains(dirname, NewestMarker))
      && (sc.formatting.sort == Some(OldestFirst) <==> !Contains(dirname, NewestMarker))
      && (sc.cover.Some? <==> ScanCover(ScanPhotos(listing)).Some?)
      && (sc.cover.Some? ==> sc.cover.value == CoverBlock(ScanCover(ScanPhotos(listing)).value))
  {
    var dirname := ParseName(albumPath);
    var photos := ScanPhotos(listing);
    var cover := match ScanCover(photos) case None => None case Some(p) => Some(CoverBlock(p));
    var sort := if Contains(dirname, NewestMarker) then NewestFirst else OldestFirst;
    SerializedContent(dirname, dirname, None, None, cover, AlbumFormatting(None, Some(sort)),
                      ScanBlocks(titleId, dirname, photos))
  }

  /** The marker is looked for after `path.parse` has cut the last extension
      off the directory name, so a directory named `<stem>.newest-first` is
      scanned oldest-first. */
  lemma NewestMarkerDropped(albumPath: string, stem: string)
    requires Basename(albumPath) == stem + NewestMarker
    requires stem != "" && !Contains(stem, NewestMarker)
    ensures ParseName(albumPath) == stem
    ensures forall listing, titleId :: ScanManifest(albumPath, listing, titleId).formatting.sort == Some(OldestFirst)
  {
    ConcatAssoc(stem, ".", NewestExtension);
    ParseNameDropsLastExtension(albumPath, stem, NewestExtension);
    forall listing, titleId ensures ScanManifest(albumPath, listing, titleId).formatting.sort == Some(OldestFirst) {
      var sc := ScanManifest(albumPath, listing, titleId);
    }
  }

  /** The marker takes effect only when an extension follows it: a
      directory named `<stem>.newest-first.<ext>` keeps it through
      `path.parse` and is scanned newest-first. */
  lemma NewestMarkerKept(albumPath: string, stem: string, ext: string)
    requires Basename(albumPath) == stem + NewestMarker + "." + ext
    requires stem != "" && '.' !in ext
    ensures ParseName(albumPath) == stem + NewestMarker
    ensures forall listing, titleId :: ScanManifest(albumPath, listing, titleId).formatting.sort == Some(NewestFirst)
  {
    ParseNameDropsLastExtension(albumPath, stem + NewestMarker, ext);
    var dirname := stem + NewestMarker;
    assert OccursAt(dirname, NewestMarker, |stem|) by {
      assert dirname[|stem|..|stem| + |NewestMarker|] == NewestMarker;
    }
    assert Contains(dirname, NewestMarker);
  }

  // ---------------------------------------------------------------------------
  // Dates
  // ---------------------------------------------------------------------------

  predicate IsTextBlock(b: Block) {
    b.Text?
  }

  /** `Date.parse(block._build?.exif?.DateTimeOriginal ?? 0)`: blocks without
      a capture date (and every non-photo) parse `0`. */
  function CaptureDate(cal: Calendar, b: Block): (t: int)
    ensures !b.Photo? ==> t == cal.dateParse(JNum(0.0))
    ensures b.Photo? && "DateTimeOriginal" in b.build.exif && !b.build.exif["DateTimeOriginal"].JNull? ==>
      t == cal.dateParse(b.build.exif["DateTimeOriginal"])
  {
    var dto := if b.Photo? then Field(b.build.exif, "DateTimeOriginal") else None;
    cal.dateParse(Coalesce(dto, JNum(0.0)))
  }

  /** The key of the first sort. */
  function CaptureKey(cal: Calendar): Block -> int {
    (b: Block) => CaptureDate(cal, b)
  }

  /** `getBlockDate`: text 1, a photo its capture date, a video its date or
      0 when it has none. */
  function BlockDate(cal: Calendar, b: Block): (t: int)
    ensures b.Text? ==> t == 1
    ensures b.Photo? ==> t == CaptureDate(cal, b)
    ensures b.Video? && (b.video.date.None? || b.video.date == Some("")) ==> t == 0
    ensures b.Video? && b.video.date.Some? && b.video.date.value != "" ==> t == cal.dateParse(JStr(b.video.date.value))
  {
    match b
    case Text(_) => 1
    case Photo(_, _, _, _) => CaptureDate(cal, b)
    case Video(_, v) => if v.date.Some? && v.date.value != "" then cal.dateParse(JStr(v.date.value)) else 0
  }

  /** The key of the second sort: the block date, negated for newest-first. */
  function OrderKey(cal: Calendar, newest: bool): Block -> int {
    (b: Block) => if newest then -BlockDate(cal, b) else BlockDate(cal, b)
  }

  /** `a` may come before `b` in the final order. */
  predicate InOrder(cal: Calendar, newest: bool, a: Block, b: Block) {
    if newest then BlockDate(cal, a) >= BlockDate(cal, b) else BlockDate(cal, a) <= BlockDate(cal, b)
  }

  /** The timestamp a block contributes to the album's range: only photos
      have one (`new Date(exif.DateTimeOriginal).getTime()`). */
  function BlockTime(cal: Calendar): Block -> Option<int> {
    (b: Block) => if b.Photo? then cal.timeOf(Field(b.build.exif, "DateTimeOriginal")) else None
  }

  // ---------------------------------------------------------------------------
  // Sidecar
  // ---------------------------------------------------------------------------

  predicate IsYoutube(e: External) {
    e.kind == "youtube"
  }

  /** The sidecar's youtube externals, in order. */
  function YoutubeOf(meta: Option<V2AlbumMetadata>): (r: seq<External>)
    ensures forall i :: 0 <= i < |r| ==> r[i].kind == "youtube"
  {
    if meta.Some? && meta.value.externals.Some? then Sorting.Filter(meta.value.externals.value, IsYoutube) else []
  }

  /** One video block per youtube external, with fresh ids `uuid(next)`,
      `uuid(next + 1)`, ... */
  function YoutubeVideos(exts: seq<External>, uuid: nat -> string, next: nat): (r: seq<Block>)
    ensures var yt := Sorting.Filter(exts, IsYoutube);
      |r| == |yt|
      && forall i :: 0 <= i < |r| ==> r[i] == Video(uuid(next + i), VideoData(yt[i].href, yt[i].date))
  {
    var yt := Sorting.Filter(exts, IsYoutube);
    seq(|yt|, i requires 0 <= i < |yt| => Video(uuid(next + i), VideoData(yt[i].href, yt[i].date)))
  }

  /** One more external adds exactly one video when it is a youtube one, and
      nothing otherwise. */
  lemma YoutubeVideosSnoc(exts: seq<External>, e: External, uuid: nat -> string, next: nat)
    ensures var before := YoutubeVideos(exts, uuid, next);
      YoutubeVideos(exts + [e], uuid, next)
        == before + (if IsYoutube(e) then [Video(uuid(next + |before|), VideoData(e.href, e.date))] else [])
  {
    var before := YoutubeVideos(exts, uuid, next);
    var after := YoutubeVideos(exts + [e], uuid, next);
    var tail := if IsYoutube(e) then [Video(uuid(next + |before|), VideoData(e.href, e.date))] else [];
    var yt := Sorting.Filter(exts, IsYoutube);
    var yt2 := Sorting.Filter(exts + [e], IsYoutube);
    Sorting.FilterSnoc(exts, e, IsYoutube);
    assert |after| == |before + tail|;
    forall i | 0 <= i < |after| ensures after[i] == (before + tail)[i] {
      if i < |before| {
        assert yt2[i] == yt[i];
      } else {
        assert yt2[i] == e;
      }
    }
  }

  /** A block found by the sidecar cover: one whose `data.src` includes it
      (only photos have a `src`). */
  predicate MentionsCover(b: Block, cover: string) {
    b.Photo? && Contains(b.data.src, cover)
  }

  /** `blocks.find(b => b.data?.src?.includes(cover))`, as an index. */
  function FindCover(bs: seq<Block>, cover: string): (r: Option<nat>)
    ensures r.None? <==> forall i :: 0 <= i < |bs| ==> !MentionsCover(bs[i], cover)
    ensures r.Some? ==>
      r.value < |bs| && MentionsCover(bs[r.value], cover)
      && forall j :: 0 <= j < r.value ==> !MentionsCover(bs[j], cover)
    decreases |bs|
  {
    if |bs| == 0 then None
    else if MentionsCover(bs[0], cover) then Some(0)
    else
      assert forall i :: 1 <= i < |bs| ==> bs[i] == bs[1..][i - 1];
      match FindCover(bs[1..], cover)
      case None => None
      case Some(k) => Some(k + 1)
  }

  /** `{...formatting, cover: true}`. */
  function WithCoverFlag(f: Option<PhotoFormatting>): (g: PhotoFormatting)
    ensures g.cover == Some(true)
    ensures f.Some? ==> g.immersive == f.value.immersive
    ensures f.None? ==> g.immersive.None?
  {
    match f
    case None => PhotoFormatting(None, Some(true))
    case Some(h) => h.(cover := Some(true))
  }

  /** Two blocks that differ at most in a photo's formatting. */
  predicate SameButFormatting(a: Block, b: Block) {
    a == b || (a.Photo? && b.Photo? && a.id == b.id && a.data == b.data && a.build == b.build)
  }

  /** Flags the found block as the cover when it is a photo; every other
      block, and every other formatting key, stays as it was. */
  function MarkCover(bs: seq<Block>, cover: string): (r: seq<Block>)
    ensures |r| == |bs|
    ensures forall i :: 0 <= i < |bs| ==> SameButFormatting(r[i], bs[i])
    ensures forall i, j :: 0 <= i < j < |bs| ==> r[i] == bs[i] || r[j] == bs[j]
    ensures forall i :: 0 <= i < |bs| && r[i] != bs[i] ==>
      MentionsCover(bs[i], cover) && forall j :: 0 <= j < i ==> !MentionsCover(bs[j], cover)
    ensures FindCover(bs, cover).Some? ==>
      var k := FindCover(bs, cover).value;
      r[k].Photo? && r[k].formatting == Some(WithCoverFlag(bs[k].formatting))
    ensures FindCover(bs, cover).None? ==> r == bs
  {
    match FindCover(bs, cover)
    case None => bs
    case Some(k) =>
      if bs[k].Photo? then bs[k := bs[k].(formatting := Some(WithCoverFlag(bs[k].formatting)))] else bs
  }

  /** The blocks and album cover after the sidecar: its youtube externals
      appended (ids `uuid(1)`, `uuid(2)`, ...), and a truthy `cover` recorded
      as the album cover's source and flagged on the block it finds. */
  function ApplySidecar(bs: seq<Block>, cover: Option<Cover>, meta: V2AlbumMetadata, uuid: nat -> string)
    : (r: (seq<Block>, Option<Cover>))
    ensures |r.0| == |bs| + |YoutubeOf(Some(meta))|
    ensures meta.cover.Some? && meta.cover.value != "" ==> r.1 == Some(CoverSrc(meta.cover.value))
    ensures meta.cover.None? || meta.cover == Some("") ==> r.1 == cover
  {
    var videos := if meta.externals.Some? then YoutubeVideos(meta.externals.value, uuid, 1) else [];
    var withVideos := bs + videos;
    if meta.cover.Some? && meta.cover.value != "" then
      (MarkCover(withVideos, meta.cover.value), Some(CoverSrc(meta.cover.value)))
    else (withVideos, cover)
  }

  // ---------------------------------------------------------------------------
  // Ordering and kicker
  // ---------------------------------------------------------------------------

  /** The second sort, then text moved to the front: `filter` text plus
      `filter` the rest. */
  function Arrange(bs: seq<Block>, cal: Calendar, newest: bool): seq<Block> {
    Sorting.Partition(Sorting.SortBy(bs, OrderKey(cal, newest)), IsTextBlock)
  }

  /** The arranged blocks are the same blocks; the text blocks come first, in
      their order before sorting; everything after them is ordered by date,
      newest first exactly when asked. */
  lemma ArrangeShape(bs: seq<Block>, cal: Calendar, newest: bool)
    ensures var r := Arrange(bs, cal, newest);
      var texts := Sorting.Filter(bs, IsTextBlock);
      |r| == |bs| && multiset(r) == multiset(bs)
      && |texts| <= |r| && r[..|texts|] == texts
      && (forall i :: |texts| <= i < |r| ==> !r[i].Text?)
      && (forall i, j :: |texts| <= i < j < |r| ==> InOrder(cal, newest, r[i], r[j]))
  {
    var key := OrderKey(cal, newest);
    var v := if newest then -1 else 1;
    Sorting.PartitionSorted(bs, IsTextBlock, key, v);
    var r := Arrange(bs, cal, newest);
    var t := |Sorting.Filter(bs, IsTextBlock)|;
    forall i, j | t <= i < j < |r| ensures InOrder(cal, newest, r[i], r[j]) {
      assert key(r[i]) <= key(r[j]);
    }
  }

  /** The kicker text for a timestamp range: earliest year first, or latest
      first for newest-first albums. */
  function KickerText(range: TimeRange, cal: Calendar, newest: bool): string {
    var years := RangeYears(range, cal);
    if newest then YearSpan(years.1, years.0, Dash) else YearSpan(years.0, years.1, Dash)
  }

  /** Sets the kicker of block 0 when it is a text block, from the range of
      the blocks. The source computes the oldest-first text and then, for a
      newest-first sidecar, overwrites it; this is the text that remains. */
  function SetKicker(bs: seq<Block>, cal: Calendar, newest: bool): (r: seq<Block>)
    ensures |r| == |bs|
    ensures forall i :: 1 <= i < |bs| ==> r[i] == bs[i]
    ensures |bs| > 0 && !bs[0].Text? ==> r == bs
    ensures |bs| > 0 && bs[0].Text? ==>
      r[0].Text? && r[0].text.id == bs[0].text.id && r[0].text.data.title == bs[0].text.data.title
      && r[0].text.data.kicker == Some(KickerText(TimestampRange(r, BlockTime(cal)), cal, newest))
  {
    if |bs| > 0 && bs[0].Text? then
      var kicker := KickerText(TimestampRange(bs, BlockTime(cal)), cal, newest);
      var title := bs[0].text.(data := bs[0].text.data.(kicker := Some(kicker)));
      TimestampRangeUpdate(bs, 0, Text(title), BlockTime(cal));
      bs[0 := Text(title)]
    else bs
  }

  /** The first sort keeps the title as the only text block. */
  lemma SortKeepsTitle(bs: seq<Block>, title: Block, key: Block -> int)
    requires Sorting.Filter(bs, IsTextBlock) == [title]
    ensures Sorting.Filter(Sorting.SortBy(bs, key), IsTextBlock) == [title]
  {
    Sorting.FilterPermutation(Sorting.SortBy(bs, key), bs, IsTextBlock);
    Sorting.SingletonMultiset(Sorting.Filter(Sorting.SortBy(bs, key), IsTextBlock), title);
  }

  /** Flagging the cover touches no text block. */
  lemma MarkCoverKeepsText(bs: seq<Block>, cover: string)
    ensures Sorting.Filter(MarkCover(bs, cover), IsTextBlock) == Sorting.Filter(bs, IsTextBlock)
  {
    match FindCover(bs, cover)
    case None =>
    case Some(k) =>
      var marked := MarkCover(bs, cover);
      assert marked == bs[k := marked[k]];
      Sorting.FilterUpdate(bs, k, marked[k], IsTextBlock);
  }

  /** The sidecar adds no text block and changes none. */
  lemma ApplySidecarKeepsText(bs: seq<Block>, cover: Option<Cover>, meta: V2AlbumMetadata, uuid: nat -> string)
    ensures Sorting.Filter(ApplySidecar(bs, cover, meta, uuid).0, IsTextBlock) == Sorting.Filter(bs, IsTextBlock)
  {
    var videos := if meta.externals.Some? then YoutubeVideos(meta.externals.value, uuid, 1) else [];
    Sorting.FilterNone(videos, IsTextBlock);
    Sorting.FilterAppend(bs, videos, IsTextBlock);
    if meta.cover.Some? && meta.cover.value != "" {
      MarkCoverKeepsText(bs + videos, meta.cover.value);
    }
  }

  /** The sidecar's effect, when there is one. */
  function ApplyMeta(bs: seq<Block>, cover: Option<Cover>, meta: Option<V2AlbumMetadata>, uuid: nat -> string)
    : (r: (seq<Block>, Option<Cover>))
    ensures |r.0| == |bs| + |YoutubeOf(meta)|
    ensures Sorting.Filter(r.0, IsTextBlock) == Sorting.Filter(bs, IsTextBlock)
    ensures meta.None? ==> r == (bs, cover)
  {
    if meta.Some? then
      ApplySidecarKeepsText(bs, cover, meta.value, uuid);
      ApplySidecar(bs, cover, meta.value, uuid)
    else (bs, cover)
  }

  /** Blocks whose only text block is `title` are arranged with the title
      alone at the front and the rest ordered by date. */
  lemma ArrangedTitle(bs: seq<Block>, title: Block, cal: Calendar, newest: bool)
    requires Sorting.Filter(bs, IsTextBlock) == [title]
    ensures var r := Arrange(bs, cal, newest);
      |r| == |bs| && r[0] == title
      && (forall i :: 1 <= i < |r| ==> !r[i].Text?)
      && (forall i, j :: 1 <= i < j < |r| ==> InOrder(cal, newest, r[i], r[j]))
  {
    ArrangeShape(bs, cal, newest);
    var r := Arrange(bs, cal, newest);
    assert r[..1] == [title];
  }

  /** Everything the scan path does after building the scanned manifest. */
  function Finish(c: Content, meta: Option<V2AlbumMetadata>, cal: Calendar, uuid: nat -> string): (r: Content)
    ensures r == c.(blocks := r.blocks, cover := r.cover)
  {
    var sorted := Sorting.SortBy(c.blocks, CaptureKey(cal));
    var applied := ApplyMeta(sorted, c.cover, meta, uuid);
    var newest := NewestFirstBy(meta);
    c.(blocks := SetKicker(Arrange(applied.0, cal, newest), cal, newest), cover := applied.1)
  }

  // ---------------------------------------------------------------------------
  // One album (`getAlbum`)
  // ---------------------------------------------------------------------------

  /** `getAlbum(albumPath)`, threading the file map through the photo
      derivatives it writes. `uuid` stands for `v4()`: `uuid(0)` is the title
      block's id, the videos take the next ones. */
  function GetAlbum(fs: FileSystem, albumPath: string, d: AlbumDir, env: Env, cal: Calendar, uuid: nat -> string)
    : (st: ContentStep)
    ensures st.result.Success? ==> st.result.value.build == ContentBuild(st.result.value.name, albumPath, None)
  {
    if ManifestMode(d) then
      match d.manifest
      case Unparsable => ContentStep(Failure(MalformedManifest(albumPath)), fs)
      case Parsed(sc) => DeserializeContentBlock(fs, sc, albumPath, env)
    else
      var scanned := DeserializeContentBlock(fs, ScanManifest(albumPath, d.listing, uuid(0)), albumPath, env);
      match scanned.result
      case Failure(e) => ContentStep(Failure(e), scanned.fs)
      case Success(c) =>
        if Listed(d.listing, SidecarName) && d.sidecar.Unparsable? then
          ContentStep(Failure(MalformedSidecar(albumPath)), scanned.fs)
        else ContentStep(Success(Finish(c, Sidecar(d), cal, uuid)), scanned.fs)
  }

  /** Mode selection: the legacy manifest is deserialised as it is exactly
      when it exists and the sidecar does not; otherwise the scan runs, its
      failure is the album's failure, and an unparsable sidecar fails the
      album after the scan. */
  lemma GetAlbumMode(fs: FileSystem, albumPath: string, d: AlbumDir, env: Env, cal: Calendar, uuid: nat -> string)
    ensures var st := GetAlbum(fs, albumPath, d, env, cal, uuid);
      (ManifestMode(d) && d.manifest.Unparsable? ==> st == ContentStep(Failure(MalformedManifest(albumPath)), fs))
      && (ManifestMode(d) && d.manifest.Parsed? ==> st == DeserializeContentBlock(fs, d.manifest.value, albumPath, env))
      && (!ManifestMode(d) ==>
            var scanned := DeserializeContentBlock(fs, ScanManifest(albumPath, d.listing, uuid(0)), albumPath, env);
            st.fs == scanned.fs
            && (scanned.result.Failure? ==> st.result == Failure(scanned.result.error))
            && (Listed(d.listing, SidecarName) && d.sidecar.Unparsable? && scanned.result.Success? ==>
                  st.result == Failure(MalformedSidecar(albumPath)))
            && (st.result.Success? <==> scanned.result.Success? && !(Listed(d.listing, SidecarName) && d.sidecar.Unparsable?)))
  {
  }

  /** The built blocks of a scan: the title block, then photos only. */
  lemma ScannedBlocks(fs: FileSystem, albumPath: string, listing: seq<DirEntry>, env: Env, titleId: string)
    requires DeserializeContentBlock(fs, ScanManifest(albumPath, listing, titleId), albumPath, env).result.Success?
    ensures var c := DeserializeContentBlock(fs, ScanManifest(albumPath, listing, titleId), albumPath, env).result.value;
      |c.blocks| == 1 + |ScanPhotos(listing)|
      && Sorting.Filter(c.blocks, IsTextBlock) == [Text(TitleBlock(titleId, ParseName(albumPath)))]
  {
    ScannedBuilt(fs, ScanManifest(albumPath, listing, titleId), albumPath, env, titleId, ParseName(albumPath),
                 ScanPhotos(listing));
  }

  /** Building a manifest whose blocks are a title and photos. */
  lemma ScannedBuilt(fs: FileSystem, sc: SerializedContent, dirname: string, env: Env, titleId: string, title: string,
                     photos: seq<string>)
    requires sc.blocks == ScanBlocks(titleId, title, photos)
    requires DeserializeContentBlock(fs, sc, dirname, env).result.Success?
    ensures var c := DeserializeContentBlock(fs, sc, dirname, env).result.value;
      |c.blocks| == 1 + |photos| && Sorting.Filter(c.blocks, IsTextBlock) == [Text(TitleBlock(titleId, title))]
  {
    var run := DeserializeBlocks(fs, sc.blocks, dirname, env);
    DeserializeBlocksCorrespond(fs, sc.blocks, dirname, env);
    BuiltTitleThenPhotos(sc.blocks, run.result.value, dirname);
    Sorting.FilterOnlyHead(run.result.value, IsTextBlock);
  }

  /** Blocks built from a title block followed by photos are the title block
      followed by photos. */
  lemma BuiltTitleThenPhotos(bs: seq<SerializedBlock>, built: seq<Block>, dirname: string)
    requires |built| == |bs| > 0 && bs[0].SText?
    requires forall i :: 1 <= i < |bs| ==> bs[i].SPhoto?
    requires forall i :: 0 <= i < |bs| ==> Corresponds(bs[i], built[i], dirname)
    ensures built[0] == Text(bs[0].text) && forall i :: 1 <= i < |built| ==> built[i].Photo?
  {
    assert Corresponds(bs[0], built[0], dirname);
    forall i | 1 <= i < |built| ensures built[i].Photo? {
      assert Corresponds(bs[i], built[i], dirname);
    }
  }

  /** What the scan path makes of a built album whose only text block is its
      title: the title alone at the front with the year span as kicker, then
      the other blocks and the youtube videos, ordered by date as the
      sidecar's `sort` says. */
  lemma FinishShape(c: Content, title: Block, meta: Option<V2AlbumMetadata>, cal: Calendar, uuid: nat -> string)
    requires title.Text? && Sorting.Filter(c.blocks, IsTextBlock) == [title]
    ensures var r := Finish(c, meta, cal, uuid);
      var newest := NewestFirstBy(meta);
      |r.blocks| == |c.blocks| + |YoutubeOf(meta)|
      && r.blocks[0].Text? && r.blocks[0].text.id == title.text.id
      && r.blocks[0].text.data.title == title.text.data.title
      && r.blocks[0].text.data.kicker == Some(KickerText(TimestampRange(r.blocks, BlockTime(cal)), cal, newest))
      && (forall i :: 1 <= i < |r.blocks| ==> !r.blocks[i].Text?)
      && (forall i, j :: 1 <= i < j < |r.blocks| ==> InOrder(cal, newest, r.blocks[i], r.blocks[j]))
  {
    var newest := NewestFirstBy(meta);
    var sorted := Sorting.SortBy(c.blocks, CaptureKey(cal));
    SortKeepsTitle(c.blocks, title, CaptureKey(cal));
    var applied := ApplyMeta(sorted, c.cover, meta, uuid);
    ArrangedTitle(applied.0, title, cal, newest);
    var arranged := Arrange(applied.0, cal, newest);
    KickedTitle(arranged, title, cal, newest);
    assert Finish(c, meta, cal, uuid).blocks == SetKicker(arranged, cal, newest);
  }

  /** Setting the kicker of arranged blocks headed by the title keeps the
      title's id and name, the rest of the blocks and their order. */
  lemma KickedTitle(bs: seq<Block>, title: Block, cal: Calendar, newest: bool)
    requires |bs| > 0 && bs[0] == title && title.Text?
    requires forall i :: 1 <= i < |bs| ==> !bs[i].Text?
    requires forall i, j :: 1 <= i < j < |bs| ==> InOrder(cal, newest, bs[i], bs[j])
    ensures var r := SetKicker(bs, cal, newest);
      |r| == |bs| && r[0].Text? && r[0].text.id == title.text.id
      && r[0].text.data.title == title.text.data.title
      && r[0].text.data.kicker == Some(KickerText(TimestampRange(r, BlockTime(cal)), cal, newest))
      && (forall i :: 1 <= i < |r| ==> !r[i].Text?)
      && (forall i, j :: 1 <= i < j < |r| ==> InOrder(cal, newest, r[i], r[j]))
  {
  }

  /** A successful scan-mode album is the scanned album finished. */
  lemma ScanModeResult(fs: FileSystem, albumPath: string, d: AlbumDir, env: Env, cal: Calendar, uuid: nat -> string)
    requires !ManifestMode(d)
    requires GetAlbum(fs, albumPath, d, env, cal, uuid).result.Success?
    ensures var scanned := DeserializeContentBlock(fs, ScanManifest(albumPath, d.listing, uuid(0)), albumPath, env);
      scanned.result.Success?
      && GetAlbum(fs, albumPath, d, env, cal, uuid).result.value == Finish(scanned.result.value, Sidecar(d), cal, uuid)
  {
  }

  /** What the scan path builds: the title block (named after the
      directory, with the album's year span as kicker) alone at the front,
      then every photo and every youtube external as a block, ordered by
      date as the sidecar's `sort` says. */
  lemma ScanModeAlbum(fs: FileSystem, albumPath: string, d: AlbumDir, env: Env, cal: Calendar, uuid: nat -> string)
    requires !ManifestMode(d)
    requires GetAlbum(fs, albumPath, d, env, cal, uuid).result.Success?
    ensures var c := GetAlbum(fs, albumPath, d, env, cal, uuid).result.value;
      var newest := NewestFirstBy(Sidecar(d));
      var dirname := ParseName(albumPath);
      |c.blocks| == 1 + |ScanPhotos(d.listing)| + |YoutubeOf(Sidecar(d))|
      && c.name == dirname && c.title == dirname
      && c.build == ContentBuild(dirname, albumPath, None)
      && c.blocks[0].Text? && c.blocks[0].text.id == uuid(0) && c.blocks[0].text.data.title == dirname
      && c.blocks[0].text.data.kicker == Some(KickerText(TimestampRange(c.blocks, BlockTime(cal)), cal, newest))
      && (forall i :: 1 <= i < |c.blocks| ==> !c.blocks[i].Text?)
      && (forall i, j :: 1 <= i < j < |c.blocks| ==> InOrder(cal, newest, c.blocks[i], c.blocks[j]))
  {
    var sc := ScanManifest(albumPath, d.listing, uuid(0));
    ScanModeResult(fs, albumPath, d, env, cal, uuid);
    var c0 := DeserializeContentBlock(fs, sc, albumPath, env).result.value;
    ScannedBlocks(fs, albumPath, d.listing, env, uuid(0));
    FinishShape(c0, Text(TitleBlock(uuid(0), ParseName(albumPath))), Sidecar(d), cal, uuid);
  }

  // ---------------------------------------------------------------------------
  // All albums (`getAlbums`, `getAlbumNames`)
  // ---------------------------------------------------------------------------

  predicate IsDirectory(e: AlbumEntry<AlbumDir>) {
    e.dir.Some?
  }

  /** Entry `e` of the albums directory built as the album at
      `path.join(albumsPath, e.name)`; listing an entry that is not a
      directory throws. */
  function BuildEntry(fs: FileSystem, albumsPath: string, e: AlbumEntry<AlbumDir>, env: Env, cal: Calendar,
                      uuid: nat -> string): (st: ContentStep)
    ensures st.result.Success? ==> st.result.value.build.srcdir == Join2(albumsPath, e.name)
    ensures e.dir.None? ==> st == ContentStep(Failure(NotADirectory(Join2(albumsPath, e.name))), fs)
  {
    match e.dir
    case None => ContentStep(Failure(NotADirectory(Join2(albumsPath, e.name))), fs)
    case Some(d) => GetAlbum(fs, Join2(albumsPath, e.name), d, env, cal, uuid)
  }

  /** One step of the batch: album number `k` draws its ids from `uuid(k)`. */
  function AlbumStep(albumsPath: string, env: Env, cal: Calendar, uuid: nat -> nat -> string)
    : (FileSystem, AlbumEntry<AlbumDir>, nat) -> (Result<Content, Error>, FileSystem)
  {
    (fs: FileSystem, e: AlbumEntry<AlbumDir>, k: nat) =>
      var st := BuildEntry(fs, albumsPath, e, env, cal, uuid(k));
      (st.result, st.fs)
  }

  lemma AlbumStepOf(fs: FileSystem, albumsPath: string, e: AlbumEntry<AlbumDir>, k: nat, env: Env, cal: Calendar,
                    uuid: nat -> nat -> string)
    ensures var st := BuildEntry(fs, albumsPath, e, env, cal, uuid(k));
      AlbumStep(albumsPath, env, cal, uuid)(fs, e, k) == (st.result, st.fs)
  {
  }

  /** `getAlbums(albumsPath)`: every directory entry (by `lstat`) built as
      an album, all or nothing. */
  function GetAlbums(fs: FileSystem, albumsPath: string, entries: seq<AlbumEntry<AlbumDir>>, env: Env, cal: Calendar,
                     uuid: nat -> nat -> string): (run: Batch.Run<Content, Error, FileSystem>)
    ensures run.result.Success? ==> |run.result.value| == |Sorting.Filter(entries, IsDirectory)|
  {
    Batch.Fold(fs, Sorting.Filter(entries, IsDirectory), AlbumStep(albumsPath, env, cal, uuid), 0)
  }

  /** A successful batch has one album per directory entry, in listing
      order, each with its own directory as source. */
  lemma GetAlbumsShape(fs: FileSystem, albumsPath: string, entries: seq<AlbumEntry<AlbumDir>>, env: Env, cal: Calendar,
                       uuid: nat -> nat -> string)
    ensures var run := GetAlbums(fs, albumsPath, entries, env, cal, uuid);
      var dirs := Sorting.Filter(entries, IsDirectory);
      run.result.Success? ==>
        |run.result.value| == |dirs|
        && forall i :: 0 <= i < |dirs| ==> run.result.value[i].build.srcdir == Join2(albumsPath, dirs[i].name)
  {
    var step := AlbumStep(albumsPath, env, cal, uuid);
    var prop := (e: AlbumEntry<AlbumDir>, c: Content) => c.build.srcdir == Join2(albumsPath, e.name);
    forall s, a, n | step(s, a, n).0.Success? ensures prop(a, step(s, a, n).0.value) {
      AlbumStepOf(s, albumsPath, a, n, env, cal, uuid);
    }
    Batch.FoldAll(fs, Sorting.Filter(entries, IsDirectory), step, 0, prop);
  }

  /** An album that fails to build whatever files exist: an unparsable
      manifest it reads, or an unparsable sidecar. */
  predicate AlwaysFails(d: AlbumDir) {
    if ManifestMode(d) then d.manifest.Unparsable? else Listed(d.listing, SidecarName) && d.sidecar.Unparsable?
  }

  lemma AlwaysFailsFails(fs: FileSystem, albumPath: string, d: AlbumDir, env: Env, cal: Calendar, uuid: nat -> string)
    requires AlwaysFails(d)
    ensures GetAlbum(fs, albumPath, d, env, cal, uuid).result.Failure?
  {
  }

  lemma BuildEntryFails(fs: FileSystem, albumsPath: string, e: AlbumEntry<AlbumDir>, env: Env, cal: Calendar,
                        uuid: nat -> string)
    requires e.dir.Some? && AlwaysFails(e.dir.value)
    ensures BuildEntry(fs, albumsPath, e, env, cal, uuid).result.Failure?
  {
    AlwaysFailsFails(fs, Join2(albumsPath, e.name), e.dir.value, env, cal, uuid);
  }

  /** One album that cannot be built fails the whole batch (`Promise.all`),
      although every album is still attempted. */
  lemma GetAlbumsWholeBatch(fs: FileSystem, albumsPath: string, entries: seq<AlbumEntry<AlbumDir>>, env: Env,
                            cal: Calendar, uuid: nat -> nat -> string, bad: nat)
    requires bad < |entries| && entries[bad].dir.Some? && AlwaysFails(entries[bad].dir.value)
    ensures GetAlbums(fs, albumsPath, entries, env, cal, uuid).result.Failure?
  {
    var dirs := Sorting.Filter(entries, IsDirectory);
    Sorting.FilterMembers(entries, IsDirectory);
    assert entries[bad] in dirs;
    var j :| 0 <= j < |dirs| && dirs[j] == entries[bad];
    var step := AlbumStep(albumsPath, env, cal, uuid);
    forall s, n ensures step(s, dirs[j], n).0.Failure? {
      BuildEntryFails(s, albumsPath, dirs[j], env, cal, uuid(n));
      AlbumStepOf(s, albumsPath, dirs[j], n, env, cal, uuid);
    }
    Batch.FoldFails(fs, dirs, step, 0, j);
  }

  /** `getAlbumNames(albumsPath)`: the last segment of each album's source
      directory. */
  function GetAlbumNames(fs: FileSystem, albumsPath: string, entries: seq<AlbumEntry<AlbumDir>>, env: Env,
                         cal: Calendar, uuid: nat -> nat -> string): (r: Result<seq<string>, Error>)
    ensures r.Success? <==> GetAlbums(fs, albumsPath, entries, env, cal, uuid).result.Success?
    ensures r.Success? ==>
      var albums := GetAlbums(fs, albumsPath, entries, env, cal, uuid).result.value;
      |r.value| == |albums| && forall i :: 0 <= i < |albums| ==> r.value[i] == LastSegment(albums[i].build.srcdir)
  {
    var albums :- GetAlbums(fs, albumsPath, entries, env, cal, uuid).result;
    Success(AlbumNames(SourceDirs(albums)))
  }

  /** The source directory of each album, in order. */
  function SourceDirs(albums: seq<Content>): (r: seq<string>)
    ensures |r| == |albums| && forall i :: 0 <= i < |albums| ==> r[i] == albums[i].build.srcdir
  {
    seq(|albums|, i requires 0 <= i < |albums| => albums[i].build.srcdir)
  }

  lemma NamesOfJoined(albumsPath: string, dirs: seq<AlbumEntry<AlbumDir>>, albums: seq<Content>, names: seq<string>)
    requires |albums| == |dirs| == |names|
    requires forall i :: 0 <= i < |dirs| ==> PlainSegment(dirs[i].name)
    requires forall i :: 0 <= i < |dirs| ==> albums[i].build.srcdir == Join2(albumsPath, dirs[i].name)
    requires forall i :: 0 <= i < |dirs| ==> names[i] == LastSegment(albums[i].build.srcdir)
    ensures forall i :: 0 <= i < |dirs| ==> names[i] == dirs[i].name
  {
    forall i | 0 <= i < |dirs| ensures names[i] == dirs[i].name {
      LastSegmentJoin2(albumsPath, dirs[i].name);
    }
  }

  /** For directories with plain names, the album names are the directory
      names, in listing order. */
  lemma GetAlbumNamesAreDirectoryNames(fs: FileSystem, albumsPath: string, entries: seq<AlbumEntry<AlbumDir>>,
                                       env: Env, cal: Calendar, uuid: nat -> nat -> string)
    requires forall i :: 0 <= i < |entries| ==> PlainSegment(entries[i].name)
    requires GetAlbums(fs, albumsPath, entries, env, cal, uuid).result.Success?
    ensures var dirs := Sorting.Filter(entries, IsDirectory);
      var names := GetAlbumNames(fs, albumsPath, entries, env, cal, uuid).value;
      |names| == |dirs| && forall i :: 0 <= i < |dirs| ==> names[i] == dirs[i].name
  {
    var dirs := Sorting.Filter(entries, IsDirectory);
    var albums := GetAlbums(fs, albumsPath, entries, env, cal, uuid).result.value;
    GetAlbumsShape(fs, albumsPath, entries, env, cal, uuid);
    Sorting.FilterKeeps(entries, IsDirectory, (e: AlbumEntry<AlbumDir>) => PlainSegment(e.name));
    var names := GetAlbumNames(fs, albumsPath, entries, env, cal, uuid).value;
    assert |names| == |albums| == |dirs|;
    NamesOfJoined(albumsPath, dirs, albums, GetAlbumNames(fs, albumsPath, entries, env, cal, uuid).value);
  }
}
