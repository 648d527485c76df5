/** Assembling the albums of the legacy build (`src/api/album.ts`). An
    album directory holding a `manifest.json` is built from it as it is;
    otherwise its listing is scanned into a title block and one photo block
    per image, the blocks are sorted once by capture date, and a title block
    still at the front gets the album's year span as kicker. */
module LegacyAlbum {
  import opened Wrappers
  import opened NodePath
  import opened JsonValues
  import opened Environment
  import opened AlbumTypes
  import opened LegacyTypes
  import opened AlbumCommon
  import opened LegacyDeserialize
  import Sorting
  import Batch

  /** The two-year separator as the source file spells it: the UTF-8 bytes
      of an en dash read as Windows-1252, `â€“`. */
  const LegacyDash: string := "\U{00E2}\U{20AC}\U{201C}"

  /** A legacy album directory: its listing, and what reading and parsing
      its `manifest.json` gives (consulted only when the listing has one). */
  datatype LegacyAlbumDir = LegacyAlbumDir(listing: seq<DirEntry>, manifest: Parse<LegacySerializedContent>)

  // ---------------------------------------------------------------------------
  // Directory scan (`getAlbumWithoutManifest`)
  // ---------------------------------------------------------------------------

  /** The stored blocks of a scan: the title, then one photo per name. */
  function ScanBlocks(titleId: string, title: string, photos: seq<string>): (r: seq<LegacySerializedBlock>)
    ensures |r| == 1 + |photos|
    ensures r[0] == LSText(TitleBlock(titleId, title))
    ensures forall i :: 0 <= i < |photos| ==> r[i + 1] == LSPhoto(ScanPhoto(photos[i]))
  {
    [LSText(TitleBlock(titleId, title))] + seq(|photos|, i requires 0 <= i < |photos| => LSPhoto(ScanPhoto(photos[i])))
  }

  /** The manifest a scan synthesises: named and titled after the directory,
      the scanned blocks, the first photo mentioning `cover` as cover, and an
      empty album formatting. */
  function ScanManifest(albumPath: string, listing: seq<DirEntry>, titleId: string): (sc: LegacySerializedContent)
    ensures var dirname := ParseName(albumPath);
      sc.name == dirname && sc.title == dirname && sc.kicker.None? && sc.order.None? && sc.overlay.None?
      && sc.blocks == ScanBlocks(titleId, dirname, ScanPhotos(listing))
      && sc.cover == ScanCover(ScanPhotos(listing))
  {
    var dirname := ParseName(albumPath);
    var photos := ScanPhotos(listing);
    LegacySerializedContent(dirname, dirname, None, None, ScanCover(photos), None, ScanBlocks(titleId, dirname, photos))
  }

  // ---------------------------------------------------------------------------
  // Date order and kicker
  // ---------------------------------------------------------------------------

  /** `Date.parse(block._build?.exif?.DateTimeOriginal ?? 0)`: text blocks,
      and photos without a capture date, parse `0`. */
  function CaptureDate(cal: Calendar, b: LegacyBlock): (t: int)
    ensures b.LText? ==> t == cal.dateParse(JNum(0.0))
    ensures b.LPhoto? && "DateTimeOriginal" in b.build.exif && !b.build.exif["DateTimeOriginal"].JNull? ==>
      t == cal.dateParse(b.build.exif["DateTimeOriginal"])
  {
    var dto := if b.LPhoto? then Field(b.build.exif, "DateTimeOriginal") else None;
    cal.dateParse(Coalesce(dto, JNum(0.0)))
  }

  /** The key of the single ascending sort. */
  function CaptureKey(cal: Calendar): LegacyBlock -> int {
    (b: LegacyBlock) => CaptureDate(cal, b)
  }

  /** The timestamp a block contributes to the album's range: only photos
      have one. */
  function BlockTime(cal: Calendar): LegacyBlock -> Option<int> {
    (b: LegacyBlock) => if b.LPhoto? then cal.timeOf(Field(b.build.exif, "DateTimeOriginal")) else None
  }

  /** The kicker text: the earliest year, and the latest after the legacy
      separator when they differ. */
  function KickerText(range: TimeRange, cal: Calendar): string {
    var years := RangeYears(range, cal);
    YearSpan(years.0, years.1, LegacyDash)
  }

  /** Sets the kicker of block 0 when it is a text block, from the range of
      the blocks. */
  function SetKicker(bs: seq<LegacyBlock>, cal: Calendar): (r: seq<LegacyBlock>)
    ensures |r| == |bs|
    ensures forall i :: 1 <= i < |bs| ==> r[i] == bs[i]
    ensures |bs| > 0 && !bs[0].LText? ==> r == bs
    ensures |bs| > 0 && bs[0].LText? ==>
      r[0].LText? && r[0].text.id == bs[0].text.id && r[0].text.data.title == bs[0].text.data.title
      && r[0].text.data.kicker == Some(KickerText(TimestampRange(r, BlockTime(cal)), cal))
  {
    if |bs| > 0 && bs[0].LText? then
      var kicker := KickerText(TimestampRange(bs, BlockTime(cal)), cal);
      var title := bs[0].text.(data := bs[0].text.data.(kicker := Some(kicker)));
      TimestampRangeUpdate(bs, 0, LText(title), BlockTime(cal));
      bs[0 := LText(title)]
    else bs
  }

  /** What the scan path does after building the scanned manifest: one
      ascending sort by capture date (text blocks are not pinned), then the
      kicker. */
  function Finish(c: LegacyContent, cal: Calendar): (r: LegacyContent)
    ensures r == c.(blocks := r.blocks)
  {
    c.(blocks := SetKicker(Sorting.SortBy(c.blocks, CaptureKey(cal)), cal))
  }

  /** With no block dated before the title, sorting leaves the title first. */
  lemma SortedTitleStays(s: seq<LegacyBlock>, cal: Calendar)
    requires |s| > 0 && s[0].LText?
    requires forall i :: 0 <= i < |s| ==> cal.dateParse(JNum(0.0)) <= CaptureKey(cal)(Sorting.SortBy(s, CaptureKey(cal))[i])
    ensures Sorting.SortBy(s, CaptureKey(cal))[0] == s[0]
  {
    Sorting.SortByBoundedHead(s, CaptureKey(cal), cal.dateParse(JNum(0.0)));
  }

  /** When only the first block is text, a text block at the front of the
      sorted blocks is that first block. */
  lemma SortedTextIsTitle(s: seq<LegacyBlock>, cal: Calendar)
    requires |s| > 0 && forall i :: 1 <= i < |s| ==> !s[i].LText?
    ensures Sorting.SortBy(s, CaptureKey(cal))[0].LText? ==> Sorting.SortBy(s, CaptureKey(cal))[0] == s[0]
  {
    var sorted := Sorting.SortBy(s, CaptureKey(cal));
    if sorted[0].LText? {
      var m := Sorting.PermutationIndex(sorted, s, 0);
      assert m == 0;
    }
  }

  /** Setting the kicker keeps every block's capture date. */
  lemma SetKickerKeys(bs: seq<LegacyBlock>, cal: Calendar)
    ensures var r := SetKicker(bs, cal);
      forall i :: 0 <= i < |r| ==> CaptureKey(cal)(r[i]) == CaptureKey(cal)(bs[i])
  {
  }

  /** The finished blocks are in capture-date order. */
  lemma FinishSorted(c: LegacyContent, cal: Calendar)
    ensures var r := Finish(c, cal).blocks;
      |r| == |c.blocks| && forall i, j :: 0 <= i < j < |r| ==> CaptureKey(cal)(r[i]) <= CaptureKey(cal)(r[j])
  {
    var sorted := Sorting.SortBy(c.blocks, CaptureKey(cal));
    Sorting.SortBySorted(c.blocks, CaptureKey(cal));
    SetKickerKeys(sorted, cal);
  }

  /** The title stays first exactly when no block is dated before it. */
  lemma FinishTitleFirst(c: LegacyContent, cal: Calendar)
    requires |c.blocks| > 0 && c.blocks[0].LText?
    requires forall i :: 1 <= i < |c.blocks| ==> !c.blocks[i].LText?
    ensures var r := Finish(c, cal).blocks;
      r[0].LText? <==> forall i :: 0 <= i < |r| ==> cal.dateParse(JNum(0.0)) <= CaptureKey(cal)(r[i])
  {
    var s := c.blocks;
    var key := CaptureKey(cal);
    var sorted := Sorting.SortBy(s, key);
    var r := SetKicker(sorted, cal);
    FinishSorted(c, cal);
    SetKickerKeys(sorted, cal);
    if forall i :: 0 <= i < |r| ==> cal.dateParse(JNum(0.0)) <= key(r[i]) {
      SortedTitleStays(s, cal);
    }
    SortedTextIsTitle(s, cal);
  }

  /** For blocks whose only text block is the first: the result is sorted by
      capture date, and the title keeps its place at the front (and gets the
      kicker) exactly when no block is dated before it, that is before
      `Date.parse(0)`. */
  lemma FinishTitle(c: LegacyContent, cal: Calendar)
    requires |c.blocks| > 0 && c.blocks[0].LText?
    requires forall i :: 1 <= i < |c.blocks| ==> !c.blocks[i].LText?
    ensures var r := Finish(c, cal).blocks;
      var key := CaptureKey(cal);
      |r| == |c.blocks|
      && (forall i, j :: 0 <= i < j < |r| ==> key(r[i]) <= key(r[j]))
      && (r[0].LText? <==> forall i :: 0 <= i < |r| ==> cal.dateParse(JNum(0.0)) <= key(r[i]))
      && (r[0].LText? ==>
            r[0].text.id == c.blocks[0].text.id && r[0].text.data.title == c.blocks[0].text.data.title
            && r[0].text.data.kicker == Some(KickerText(TimestampRange(r, BlockTime(cal)), cal)))
  {
    FinishSorted(c, cal);
    FinishTitleFirst(c, cal);
    SortedTextIsTitle(c.blocks, cal);
  }



  // ---------------------------------------------------------------------------
  // One album (`getAlbum`)
  // ---------------------------------------------------------------------------

  /** Legacy `getAlbum(albumPath)`: `manifest.json` as it is when it exists,
      otherwise the scan with `titleId` (the one `v4()` it draws) as the title
      block's id. */
  function GetAlbum(fs: FileSystem, albumPath: string, d: LegacyAlbumDir, env: Env, cal: Calendar, titleId: string)
    : (st: ContentStep)
    ensures st.result.Success? ==> st.result.value.build == ContentBuild(st.result.value.name, albumPath, None)
  {
    if Listed(d.listing, ManifestName) then
      match d.manifest
      case Unparsable => ContentStep(Failure(MalformedManifest(albumPath)), fs)
      case Parsed(sc) => DeserializeContentBlock(fs, sc, albumPath, env)
    else
      var scanned := DeserializeContentBlock(fs, ScanManifest(albumPath, d.listing, titleId), albumPath, env);
      match scanned.result
      case Failure(e) => ContentStep(Failure(e), scanned.fs)
      case Success(c) => ContentStep(Success(Finish(c, cal)), scanned.fs)
  }

  /** An existing manifest is used verbatim: the blocks are built in its
      order, with no sort and no kicker; one that does not parse fails the
      album. */
  lemma ManifestVerbatim(fs: FileSystem, albumPath: string, d: LegacyAlbumDir, env: Env, cal: Calendar, titleId: string)
    requires Listed(d.listing, ManifestName)
    ensures var st := GetAlbum(fs, albumPath, d, env, cal, titleId);
      (d.manifest.Unparsable? ==> st == ContentStep(Failure(MalformedManifest(albumPath)), fs))
      && (d.manifest.Parsed? && st.result.Success? ==>
            var sc := d.manifest.value;
            var c := st.result.value;
            c.kicker == sc.kicker && c.title == sc.title && |c.blocks| == |sc.blocks|
            && forall i :: 0 <= i < |sc.blocks| ==> Corresponds(sc.blocks[i], c.blocks[i], albumPath))
  {
    if d.manifest.Parsed? {
      DeserializeBlocksCorrespond(fs, d.manifest.value.blocks, albumPath, env);
    }
  }

  /** The built blocks of a scan: the title block, then photos only. */
  lemma ScannedBlocks(fs: FileSystem, albumPath: string, listing: seq<DirEntry>, env: Env, titleId: string)
    requires DeserializeContentBlock(fs, ScanManifest(albumPath, listing, titleId), albumPath, env).result.Success?
    ensures var c := DeserializeContentBlock(fs, ScanManifest(albumPath, listing, titleId), albumPath, env).result.value;
      |c.blocks| == 1 + |ScanPhotos(listing)|
      && c.blocks[0] == LText(TitleBlock(titleId, ParseName(albumPath)))
      && forall i :: 1 <= i < |c.blocks| ==> c.blocks[i].LPhoto?
  {
    ScannedBuilt(fs, ScanManifest(albumPath, listing, titleId), albumPath, env, titleId, ParseName(albumPath),
                 ScanPhotos(listing));
  }

  /** Building a manifest whose blocks are a title and photos. */
  lemma ScannedBuilt(fs: FileSystem, sc: LegacySerializedContent, dirname: string, env: Env, titleId: string,
                     title: string, photos: seq<string>)
    requires sc.blocks == ScanBlocks(titleId, title, photos)
    requires DeserializeContentBlock(fs, sc, dirname, env).result.Success?
    ensures var c := DeserializeContentBlock(fs, sc, dirname, env).result.value;
      |c.blocks| == 1 + |photos| && c.blocks[0] == LText(TitleBlock(titleId, title))
      && forall i :: 1 <= i < |c.blocks| ==> c.blocks[i].LPhoto?
  {
    var run := DeserializeBlocks(fs, sc.blocks, dirname, env);
    var built := DeserializeContentBlock(fs, sc, dirname, env).result.value.blocks;
    assert built == run.result.value;
    DeserializeBlocksCorrespond(fs, sc.blocks, dirname, env);
    assert Corresponds(sc.blocks[0], built[0], dirname);
    forall i | 1 <= i < |built| ensures built[i].LPhoto? {
      assert Corresponds(sc.blocks[i], built[i], dirname);
    }
  }

  /** The shape of a scanned album: named after its directory, one block
      per photo besides the title, sorted by capture date; the title block is
      at the front, with the year span as kicker, exactly when no photo is
      dated before `Date.parse(0)`. */
  predicate ScanShape(c: LegacyContent, cal: Calendar, titleId: string, dirname: string, photos: seq<string>) {
    var key := CaptureKey(cal);
    |c.blocks| == 1 + |photos|
    && c.name == dirname && c.title == dirname && c.overlay.None?
    && c.cover == ScanCover(photos)
    && (forall i, j :: 0 <= i < j < |c.blocks| ==> key(c.blocks[i]) <= key(c.blocks[j]))
    && (c.blocks[0].LText? <==> forall i :: 0 <= i < |c.blocks| ==> cal.dateParse(JNum(0.0)) <= key(c.blocks[i]))
    && (c.blocks[0].LText? ==>
          c.blocks[0].text.id == titleId && c.blocks[0].text.data.title == dirname
          && c.blocks[0].text.data.kicker == Some(KickerText(TimestampRange(c.blocks, BlockTime(cal)), cal)))
  }

  /** What the scan path builds: the title and one photo per image, sorted
      by capture date; the title block stays at the front, with the year span
      as kicker, exactly when no photo is dated before `Date.parse(0)`. */
  lemma ScanModeAlbum(fs: FileSystem, albumPath: string, d: LegacyAlbumDir, env: Env, cal: Calendar, titleId: string)
    requires !Listed(d.listing, ManifestName)
    requires GetAlbum(fs, albumPath, d, env, cal, titleId).result.Success?
    ensures ScanShape(GetAlbum(fs, albumPath, d, env, cal, titleId).result.value, cal, titleId, ParseName(albumPath),
                      ScanPhotos(d.listing))
  {
    var sc := ScanManifest(albumPath, d.listing, titleId);
    var c0 := DeserializeContentBlock(fs, sc, albumPath, env).result.value;
    ScanModeIsFinish(fs, albumPath, d, env, cal, titleId);
    ScannedBlocks(fs, albumPath, d.listing, env, titleId);
    FinishedScan(c0, cal, titleId, ParseName(albumPath), ScanPhotos(d.listing));
  }

  /** A successful scan-mode album is the scanned album finished. */
  lemma ScanModeIsFinish(fs: FileSystem, albumPath: string, d: LegacyAlbumDir, env: Env, cal: Calendar, titleId: string)
    requires !Listed(d.listing, ManifestName)
    requires GetAlbum(fs, albumPath, d, env, cal, titleId).result.Success?
    ensures var scanned := DeserializeContentBlock(fs, ScanManifest(albumPath, d.listing, titleId), albumPath, env);
      scanned.result.Success?
      && GetAlbum(fs, albumPath, d, env, cal, titleId).result.value == Finish(scanned.result.value, cal)
  {
  }

  /** Finishing a scanned album: its title block and photos sorted by
      capture date, the title first with its kicker exactly when no photo is
      dated before it. */
  lemma FinishedScan(c0: LegacyContent, cal: Calendar, titleId: string, dirname: string, photos: seq<string>)
    requires c0.name == dirname && c0.title == dirname && c0.overlay.None? && c0.cover == ScanCover(photos)
    requires |c0.blocks| == 1 + |photos| && c0.blocks[0] == LText(TitleBlock(titleId, dirname))
    requires forall i :: 1 <= i < |c0.blocks| ==> c0.blocks[i].LPhoto?
    ensures ScanShape(Finish(c0, cal), cal, titleId, dirname, photos)
  {
    FinishTitle(c0, cal);
  }

  // ---------------------------------------------------------------------------
  // All albums (`getAlbums`, `getAlbumNames`)
  // ---------------------------------------------------------------------------

  /** Entry `e` of the albums directory built as the album at
      `path.join(albumsPath, e.name)`. Nothing checks that it is a
      directory: for a file there is no manifest, and listing it throws. */
  function BuildEntry(fs: FileSystem, albumsPath: string, e: AlbumEntry<LegacyAlbumDir>, env: Env, cal: Calendar,
                      titleId: string): (st: ContentStep)
    ensures st.result.Success? ==> st.result.value.build.srcdir == Join2(albumsPath, e.name)
    ensures e.dir.None? ==> st == ContentStep(Failure(NotADirectory(Join2(albumsPath, e.name))), fs)
  {
    match e.dir
    case None => ContentStep(Failure(NotADirectory(Join2(albumsPath, e.name))), fs)
    case Some(d) => GetAlbum(fs, Join2(albumsPath, e.name), d, env, cal, titleId)
  }

  /** One step of the batch: album number `k` draws the id `uuid(k)`. */
  function AlbumStep(albumsPath: string, env: Env, cal: Calendar, uuid: nat -> string)
    : (FileSystem, AlbumEntry<LegacyAlbumDir>, nat) -> (Result<LegacyContent, Error>, FileSystem)
  {
    (fs: FileSystem, e: AlbumEntry<LegacyAlbumDir>, k: nat) =>
      var st := BuildEntry(fs, albumsPath, e, env, cal, uuid(k));
      (st.result, st.fs)
  }

  lemma AlbumStepOf(fs: FileSystem, albumsPath: string, e: AlbumEntry<LegacyAlbumDir>, k: nat, env: Env,
                    cal: Calendar, uuid: nat -> string)
    ensures var st := BuildEntry(fs, albumsPath, e, env, cal, uuid(k));
      AlbumStep(albumsPath, env, cal, uuid)(fs, e, k) == (st.result, st.fs)
  {
  }

  /** Legacy `getAlbums(albumsPath)`: every entry of the albums directory
      built as an album, all or nothing. */
  function GetAlbums(fs: FileSystem, albumsPath: string, entries: seq<AlbumEntry<LegacyAlbumDir>>, env: Env,
                     cal: Calendar, uuid: nat -> string): (run: Batch.Run<LegacyContent, Error, FileSystem>)
    ensures run.result.Success? ==> |run.result.value| == |entries|
  {
    Batch.Fold(fs, entries, AlbumStep(albumsPath, env, cal, uuid), 0)
  }

  /** A successful batch has one album per entry, in listing order, each
      with its own directory as source. */
  lemma GetAlbumsShape(fs: FileSystem, albumsPath: string, entries: seq<AlbumEntry<LegacyAlbumDir>>, env: Env,
                       cal: Calendar, uuid: nat -> string)
    ensures var run := GetAlbums(fs, albumsPath, entries, env, cal, uuid);
      run.result.Success? ==>
        |run.result.value| == |entries|
        && forall i :: 0 <= i < |entries| ==> run.result.value[i].build.srcdir == Join2(albumsPath, entries[i].name)
  {
    var step := AlbumStep(albumsPath, env, cal, uuid);
    var prop := (e: AlbumEntry<LegacyAlbumDir>, c: LegacyContent) => c.build.srcdir == Join2(albumsPath, e.name);
    forall s, a, n | step(s, a, n).0.Success? ensures prop(a, step(s, a, n).0.value) {
      AlbumStepOf(s, albumsPath, a, n, env, cal, uuid);
    }
    Batch.FoldAll(fs, entries, step, 0, prop);
  }

  /** A plain file among the album directories fails the whole batch. */
  lemma GetAlbumsFileEntryFails(fs: FileSystem, albumsPath: string, entries: seq<AlbumEntry<LegacyAlbumDir>>, env: Env,
                                cal: Calendar, uuid: nat -> string, bad: nat)
    requires bad < |entries| && entries[bad].dir.None?
    ensures GetAlbums(fs, albumsPath, entries, env, cal, uuid).result.Failure?
  {
    var step := AlbumStep(albumsPath, env, cal, uuid);
    forall s, n ensures step(s, entries[bad], n).0.Failure? {
      AlbumStepOf(s, albumsPath, entries[bad], n, env, cal, uuid);
    }
    Batch.FoldFails(fs, entries, step, 0, bad);
  }

  /** Legacy `getAlbumNames(albumsPath)`: the last segment of each album's
      source directory. */
  function GetAlbumNames(fs: FileSystem, albumsPath: string, entries: seq<AlbumEntry<LegacyAlbumDir>>, env: Env,
                         cal: Calendar, uuid: nat -> string): (r: Result<seq<string>, Error>)
    ensures r.Success? <==> GetAlbums(fs, albumsPath, entries, env, cal, uuid).result.Success?
    ensures r.Success? ==>
      var albums := GetAlbums(fs, albumsPath, entries, env, cal, uuid).result.value;
      |r.value| == |albums| && forall i :: 0 <= i < |albums| ==> r.value[i] == LastSegment(albums[i].build.srcdir)
  {
    var albums :- GetAlbums(fs, albumsPath, entries, env, cal, uuid).result;
    Success(AlbumNames(SourceDirs(albums)))
  }

  /** The source directory of each album, in order. */
  function SourceDirs(albums: seq<LegacyContent>): (r: seq<string>)
    ensures |r| == |albums| && forall i :: 0 <= i < |albums| ==> r[i] == albums[i].build.srcdir
  {
    seq(|albums|, i requires 0 <= i < |albums| => albums[i].build.srcdir)
  }

  /** For entries with plain names, the album names are the entry names, in
      listing order. */
  lemma GetAlbumNamesAreEntryNames(fs: FileSystem, albumsPath: string, entries: seq<AlbumEntry<LegacyAlbumDir>>,
                                   env: Env, cal: Calendar, uuid: nat -> string)
    requires forall i :: 0 <= i < |entries| ==> PlainSegment(entries[i].name)
    requires GetAlbums(fs, albumsPath, entries, env, cal, uuid).result.Success?
    ensures var names := GetAlbumNames(fs, albumsPath, entries, env, cal, uuid).value;
      |names| == |entries| && forall i :: 0 <= i < |entries| ==> names[i] == entries[i].name
  {
    GetAlbumsShape(fs, albumsPath, entries, env, cal, uuid);
    var names := GetAlbumNames(fs, albumsPath, entries, env, cal, uuid).value;
    forall i | 0 <= i < |entries| ensures names[i] == entries[i].name {
      LastSegmentJoin2(albumsPath, entries[i].name);
    }
  }
}
