# Album build pipeline, modelled in Dafny

This project models the static photo-album site `album`. It covers how albums are built from directories of photos, how their blocks are stored and rebuilt, and the resized-image cache. It also covers the pure helpers the map page, the search page and the Python indexer rely on.

The repository has two generations of the build, and both are modelled side by side:

- the current build in `src/services/*`, used by the map page;
- the legacy build in `src/api/*`, used by the home page.

Each source file or component has its own module:

| module | source | what it is |
|---|---|---|
| `AlbumTypes`, `LegacyTypes` | `src/services/types.ts`, `src/api/types.ts` | The stored and built blocks (photo, text and video; legacy has only photo and text), the album content and the sidecar. |
| `Album`, `LegacyAlbum`, `AlbumCommon` | `src/services/album.ts`, `src/api/album.ts` | Choosing between the manifest and a directory scan; the scan; the sidecar's videos, cover and sort; date ordering with text pinned first; the timestamp range and kicker; the album batch. |
| `Deserialize`, `Serialize`, `LegacyDeserialize` | `deserialize.ts` and `serialize.ts` in both trees | The block codec and its round trip. |
| `PhotoCache`, `LegacyPhotoCache` | `src/services/photo.ts`, `src/api/photo.ts` | Derivative names, cache hits and misses, and the two janitor sweeps. |
| `Dms`, `ExifText`, `MapPage` | `src/util/dms2deg.ts`, `src/util/extractExifFromDb.ts`, `src/pages/map/index.tsx` | Coordinates, the EXIF text dump and map entries. |
| `SearchApi`, `SearchUi`, `ResultTile` | `src/components/search/*` | The query and paging, the tag reducers and the result tile. |
| `Indexer`, `IndexStore` | `index/index.py` | The indexer's string helpers and its effect on the `images`, `tags` and `metadata` tables. |

Shared helpers live in their own modules: `Wrappers` (Option/Result), `Strings` (JavaScript and Python string operations), `NodePath` (Node's POSIX `path`), `JsonValues`, `Sorting` (stable sort, filter, partition) and `Batch` (`Promise.all` as a fold).

The outside world is passed in as parameters, so every operation is pure:

- **The disk** is a map from path to file record, holding its size and, when it decodes, its dimensions. The sweeps are methods that delete keys from it.
- **Libraries** (`image-size`, `sharp`, `exifr` and the search-index row lookup) are oracle functions in an `Env` record.
- **`JSON.parse`** of `album.json` and `manifest.json` is a `Parse<T>` value that the album directory carries already parsed, or `Unparsable` when the parse throws. The search tile takes it as a `parse` function parameter.
- **Date parsing** and `getFullYear` are functions in a `Calendar` record.
- **`uuid.v4`** is a function from a counter to an id.
- **The browser's SQLite database** is a function from bound values to rows.

Concurrency (`Promise.all`) is a left-to-right fold in which each step sees the files the previous steps wrote.

Where the code does something other than one might expect from its purpose, the model follows the code:

- **One failing album fails the whole batch.** `getAlbums` wraps every album in one `Promise.all`, so a single failing album rejects all of them. It is not an album-by-album failure (`Album.GetAlbumsWholeBatch`).
- **Storing a built album does not give back the stored album.** Photo `src` is moved under the public root, the inferred cover flag is made explicit, and video blocks cannot be stored or built (`Serialize.RoundTripBlocks`, `Serialize.RoundTripMovesPhoto`).
- **A `.newest-first` marker at the end of a directory name is lost.** `path.parse` drops it as an extension, so a directory named `<stem>.newest-first` is scanned oldest-first (`Album.NewestMarkerDropped`). The marker survives only when another extension follows it, as in `trip.newest-first.2019` (`Album.NewestMarkerKept`).
- **The scanned `sort` does not change the order.** Whatever the scan records in `formatting.sort`, the block ordering and the kicker direction read only the sidecar's `sort` (`Album.ArrangeShape`, `Album.SetKicker`).
- **The indexer's `metadata` date is always `None`.** The indexer writes `iso8601`, a key its analysis never sets (`IndexStore.IndexFile`).
- **The search tile asks for a width the build never generates.** Its 600-px image exists only if an older build left it behind (`ResultTile.TileWidthNotGenerated`).
- **Page 0 never gets a `next` from `exec`.** The `next` computed by `exec` is never set for page 0, while the widget's own `getNextPageParam` does give page 0 a next page (`SearchUi.NextPageParam`).

## Model

| member | source | states |
|---|---|---|
| `Album.Sidecar` | src/services/album.ts:143-150 | A sidecar is applied only when `album.json` is listed and parses to a truthy value. |
| `Album.ScanManifest` | src/services/album.ts:69-106 | The scanned manifest is named and titled after `path.parse(albumPath).name`; its blocks are the title and one photo per listed non-directory, non-`.json` entry; the cover is the first photo naming `cover`; the sort is newest-first exactly when that name contains `.newest-first`. |
| `Album.NewestMarkerDropped` | src/services/album.ts:77-103 | A directory named `<stem>.newest-first` loses the marker to `path.parse`, so its scan is always oldest-first. |
| `Album.NewestMarkerKept` | src/services/album.ts:77-103 | A directory named `<stem>.newest-first.<ext>` keeps the marker through `path.parse`, so its scan is always newest-first. |
| `Album.CaptureDate` | src/services/album.ts:153-158 | The first sort's key is `Date.parse` of the photo's `DateTimeOriginal`, and `Date.parse(0)` for other blocks and for photos without that field. |
| `Album.BlockDate` | src/services/album.ts:193-204 | In `getBlockDate` a text block is 1, a photo is its capture date, and a video is its parsed date, or 0 when the date is missing or empty. |
| `Album.YoutubeVideosSnoc` | src/services/album.ts:164-178 | Each further external adds exactly one video block when its type is `youtube` and nothing otherwise; the video carries its `href` and `date`. |
| `Album.FindCover` | src/services/album.ts:182-185 | The block the sidecar cover finds is the first photo whose `src` contains it, or none. |
| `Album.WithCoverFlag` | src/services/album.ts:187 | The cover flag is set to true and the photo's `immersive` key is kept. |
| `Album.MarkCover` | src/services/album.ts:180-189 | At most one block changes: the first one that mentions the cover, and only its formatting. Its formatting gets `cover: true`; every other block stays as it was. |
| `Album.ApplySidecar` | src/services/album.ts:162-190 | The sidecar adds one block per youtube external. A non-empty `cover` becomes the album cover's `src`; without one, the cover is unchanged. |
| `Album.ApplyMeta` | src/services/album.ts:162-190 | Applying the sidecar adds no text block and changes none; without a sidecar nothing changes. |
| `Album.ArrangeShape` | src/services/album.ts:192-216 | The final order is a permutation of the blocks. All text blocks come first, in their prior order; every later block is ordered by block date, descending exactly for newest-first. |
| `Album.SetKicker` | src/services/album.ts:218-240 | Only a text block at index 0 gets a kicker. It is the year span of the blocks' timestamp range, with the later year first for a newest-first sidecar. Every other block is unchanged. |
| `Album.ArrangedTitle` | src/services/album.ts:192-216 | When the title is the only text block, it ends up alone at the front, followed by date-ordered non-text blocks. |
| `Album.Finish` | src/services/album.ts:152-242 | Finishing a scanned album changes only its blocks and cover; name, title, formatting and build data are kept. |
| `Album.FinishShape` | src/services/album.ts:152-242 | The finished album has one block more per youtube external. The title leads with its id, its title and the year-span kicker; the rest are ordered by date. |
| `Album.GetAlbum` | src/services/album.ts:124-140 | A built album's `_build` is `{slug: name, srcdir: albumPath}`, with no time range. |
| `Album.GetAlbumMode` | src/services/album.ts:129-150 | The legacy manifest is used exactly when `manifest.json` exists and `album.json` does not; otherwise the scan runs. A failed scan or an unparsable sidecar fails the album. |
| `Album.ScannedBlocks` | src/services/album.ts:72-105 | A scan builds the title block followed by one photo per photo entry, and no other text block. |
| `Album.ScanModeResult` | src/services/album.ts:137-242 | A successful scan-mode album is the scanned album with the sidecar, the ordering and the kicker applied. |
| `Album.ScanModeAlbum` | src/services/album.ts:69-242 | A scan-mode album has the title block first, named after the directory, with the year-span kicker. Then come every photo and every youtube external, ordered by date as the sidecar's `sort` says. |
| `Album.BuildEntry` | src/services/album.ts:53-60 | Each album is built from `path.join(albumsPath, name)` and records that as its source directory. |
| `Album.GetAlbums` | src/services/album.ts:53-63 | A successful batch has one album per directory entry. |
| `Album.GetAlbumsShape` | src/services/album.ts:53-63 | The albums come in listing order, each with its own directory as `srcdir`. |
| `Album.GetAlbumsWholeBatch` | src/services/album.ts:57-62 | A single album that cannot be built rejects the whole batch (`Promise.all`). |
| `Album.GetAlbumNames` | src/services/album.ts:45-51 | The names are the last path segment of each album's `srcdir`; they exist exactly when the batch succeeds. |
| `Album.GetAlbumNamesAreDirectoryNames` | src/services/album.ts:45-51 | For plain directory names, the album names are the directory names in listing order. |
| `AlbumCommon.ScanPhotos` | src/services/album.ts:72-75 | A name is scanned as a photo exactly when it is listed, is not a directory, and does not end in `.json`. |
| `AlbumCommon.ScanPhotosFilterMap` | src/services/album.ts:72-75 | The scanned names are the listing filtered to photo entries and mapped to their names. Listing order and every occurrence are kept. |
| `AlbumCommon.ScanCover` | src/services/album.ts:95-96 | The scan's cover is a photo block whose `src` contains `cover`; there is none exactly when no photo name contains it. |
| `AlbumCommon.Earliest` | src/services/album.ts:23-29 | The earliest value is the minimum valid photo timestamp, attained by some block, and null when no block has one. |
| `AlbumCommon.Latest` | src/services/album.ts:31-37 | The latest value is at least 0, bounds every valid timestamp, and is 0 or attained by some block. |
| `AlbumCommon.TimestampRangePermutation` | src/services/album.ts:19-43 | The timestamp range depends only on which blocks there are, not on their order. |
| `AlbumCommon.YearSpanSingle` | src/services/album.ts:224-226 | The kicker is a single year exactly when both years agree. |
| `LegacyAlbum.ScanManifest` | src/api/album.ts:65-103 | The legacy scan synthesises the same title and photo blocks and cover, with empty album formatting and no sort. |
| `LegacyAlbum.CaptureDate` | src/api/album.ts:128-133 | The legacy sort key is `Date.parse` of `DateTimeOriginal`, or of 0 for text blocks. |
| `LegacyAlbum.SetKicker` | src/api/album.ts:135-143 | Only a text block at index 0 gets a kicker: the earliest year, then `â€“` and the latest year when they differ. |
| `LegacyAlbum.Finish` | src/api/album.ts:127-145 | Finishing a legacy scanned album changes only its blocks. |
| `LegacyAlbum.FinishTitle` | src/api/album.ts:127-145 | Legacy ordering is a single ascending sort with no text pinning. The title stays first, with the kicker, exactly when no block is dated before `Date.parse(0)`. |
| `LegacyAlbum.GetAlbum` | src/api/album.ts:118-126 | A built legacy album's `_build` is `{slug: name, srcdir: albumPath}`. |
| `LegacyAlbum.ManifestVerbatim` | src/api/album.ts:105-126 | An existing `manifest.json` is used verbatim: its blocks are built in order, with no sort and no kicker; an unparsable one fails. |
| `LegacyAlbum.ScannedBlocks` | src/api/album.ts:65-103 | A legacy scan builds the title block and then only photos. |
| `LegacyAlbum.ScanModeAlbum` | src/api/album.ts:65-146 | A legacy scan-mode album is named after the directory and sorted by capture date. The title leads, with the kicker, exactly when nothing is dated before `Date.parse(0)`. |
| `LegacyAlbum.BuildEntry` | src/api/album.ts:51-59 | Every entry is built from `path.join(albumsPath, name)`; a non-directory entry throws. |
| `LegacyAlbum.GetAlbums` | src/api/album.ts:51-59 | A successful legacy batch has one album per directory entry of any kind, with no directory filter. |
| `LegacyAlbum.GetAlbumsShape` | src/api/album.ts:51-59 | The legacy albums come in listing order, each with its own `srcdir`. |
| `LegacyAlbum.GetAlbumsFileEntryFails` | src/api/album.ts:51-59 | A plain file among the entries fails the whole legacy batch. |
| `LegacyAlbum.GetAlbumNames` | src/api/album.ts:43-49 | The legacy names are the last path segment of each `srcdir`; they exist exactly when the batch succeeds. |
| `LegacyAlbum.GetAlbumNamesAreEntryNames` | src/api/album.ts:43-49 | For plain entry names, the legacy album names are the entry names in order. |
| `Deserialize.PublicSrc` | src/services/deserialize.ts:104 | A photo's public `src` always starts with `/`: it is the joined path with its first segment stripped. |
| `Deserialize.InferFormatting` | src/services/deserialize.ts:98-101 | `cover` defaults to whether `src` contains `cover`, and an explicit stored `cover` overrides it. `immersive` is carried over. |
| `Deserialize.DeserializePhotoBlock` | src/services/deserialize.ts:73-116 | The built photo keeps its id and every data field except `src`, which becomes the public path. `_build` is exactly the oracles' srcset, EXIF, index row and probed size. A derivative failure is the block's failure, and the files are then as the failed run left them. On success, the size sweep of the photo's cache directory has already deleted its files before the next block is built. |
| `Deserialize.DeserializeBlock` | src/services/deserialize.ts:118-133 | Text is copied unchanged. A photo without `dirname` throws, and so does every other kind, `video` included. A success has the same kind as its input. |
| `Deserialize.DeserializeBlocks` | src/services/deserialize.ts:142-144 | A successful block deserialisation keeps the block count. |
| `Deserialize.DeserializeBlocksCorrespond` | src/services/deserialize.ts:135-150 | Block order is kept: the built block at each position corresponds to the stored block there. |
| `Deserialize.DeserializeBlocksRefuses` | src/services/deserialize.ts:118-144 | One video, unknown kind, or photo without an album directory fails the whole album. |
| `Deserialize.DeserializeContentBlock` | src/services/deserialize.ts:135-150 | The album is built exactly when its blocks are. Top-level fields are kept. The blocks are exactly the ones the block builder returns for the stored blocks, one per stored block. `_build` is `{slug: name, srcdir: dirname}` with no time range. |
| `Serialize.SerializeFormatting` | src/services/serialize.ts:17-22 | On the returned copy, a falsy `immersive` is removed and `cover` is kept. An emptied formatting object stays on the copy. |
| `Serialize.SerializeBlock` | src/services/serialize.ts:12-27 | The stored photo keeps id and data and loses `_build`. Text is returned unchanged. Any other kind, `video` included, throws. |
| `Serialize.SerializeBlocks` | src/services/serialize.ts:30 | Serialising the blocks succeeds exactly when none is a video, and it keeps count and order. |
| `Serialize.SerializeContentBlock` | src/services/serialize.ts:29-34 | The stored album drops `_build` and keeps `name`, `title`, `kicker`, `order`, `cover` and `formatting`, with its blocks mapped in order. |
| `Serialize.RoundTripContent` | src/services/serialization.test.ts:95-100 | Building an album and storing it again returns it with each photo's `src` rewritten and its cover flag written out; everything else is unchanged. |
| `Serialize.RoundTripTextOnly` | src/services/serialize.ts:36-44 | An album of text blocks survives the round trip unchanged. |
| `Serialize.RoundTripMovesPhoto` | src/services/deserialize.ts:102-105 | A photo with a relative `src` never survives the round trip unchanged. |
| `Sorting.SortBy` | src/services/album.ts:192-211 | The sorted blocks are a permutation of the input: same length, same multiset. |
| `Sorting.SortBySorted` | src/services/album.ts:206-210 | The sorted blocks are in non-decreasing order of key. |
| `Sorting.SortByStable` | src/services/album.ts:192-211 | Blocks with equal keys keep their relative order, as in the stable `Array.prototype.sort`. |
| `Sorting.PartitionPermutes` | src/services/album.ts:213-216 | Moving the text blocks to the front neither adds nor loses a block. |
| `Sorting.PartitionSorted` | src/services/album.ts:192-216 | After the sort and the text pinning, the text blocks come first in their original order, and the rest follow in key order as a permutation of the non-text blocks. |
| `AlbumCommon.TimestampRange` | src/services/album.ts:19-43 | The first component is the earliest photo timestamp. The second is the latest one, or null when the latest is 0. |
| `AlbumCommon.TimestampRangePointwise` | src/services/album.ts:19-43 | The range depends only on the blocks' timestamps, position by position. |
| `AlbumCommon.TimestampRangeUpdate` | src/services/album.ts:19-43 | Replacing a block with one that has the same timestamp leaves the range unchanged. |
| `AlbumCommon.ScanBlocks` | src/services/album.ts:79-93 | A scan produces the title text block, then one photo block per listed photo, in listing order. |
| `Album.YoutubeVideos` | src/services/album.ts:164-178 | One video block is produced per `youtube` external, in order, and carries that external's `href` and `date`. |
| `Album.SortKeepsTitle` | src/services/album.ts:192-211 | The date sort keeps the title as the only text block. |
| `PhotoCache.StripPublicFromPath` | src/services/photo.ts:181-183 | The stripped path always starts with `/`. |
| `PhotoCache.CacheFileName` | src/services/photo.ts:125 | For a file name without `/`, the cache file name `<file>@<size>.avif` is a single plain path segment. |
| `PhotoCache.OptimiseAll` | src/services/photo.ts:120-178 | A successful run reports exactly one photo per width. |
| `LegacyPhotoCache.OptimiseAllCached` | src/api/photo.ts:64-67 | When a file already exists for every width, a run succeeds, writes nothing and never calls the encoder. |
| `Serialize.RoundTripBlocks` | src/services/serialize.ts:12-30 | Storing built blocks gives back the stored blocks, except that each photo's `src` is moved under the public root and its formatting becomes the inferred cover flag, as serialize would store it. |
| `Serialize.DeserializeTextOnly` | src/services/deserialize.ts:118-133 | A block list of text blocks alone always builds. |
| `NodePath.ParseName` | src/services/album.ts:77 | `path.parse(p).name` contains no `/`. It is either the base name or a prefix of it that ends before a non-leading `.`. |
| `NodePath.ParseNameDropsLastExtension` | src/services/album.ts:77 | Only the last extension is dropped: `stem.ext` gives `stem`, with every earlier dot kept. |
| `PhotoCache.AscendingSizes` | src/services/photo.ts:8 | The generated widths are a permutation of `OPTIMISED_SIZES`. |
| `PhotoCache.AscendingSizesValue` | src/services/photo.ts:121 | After the in-place ascending sort, the widths are generated in the order 800, 1600, 3200. |
| `PhotoCache.GetPhotoSize` | src/services/photo.ts:12-29 | The size is 100×100 when the probe throws; otherwise it is the probe's dimensions, with a missing side read as 0. |
| `PhotoCache.GetNextJsSafeExif` | src/services/photo.ts:32-45 | The EXIF is the parsed tags, or `{}` when parsing rejects. |
| `PhotoCache.StripDropsFirstSegment` | src/services/photo.ts:181-183 | `stripPublicFromPath` drops exactly the first segment and roots the rest at `/`. |
| `PhotoCache.StripSingleSegment` | src/services/photo.ts:181-183 | A single-segment path strips to `/`. |
| `PhotoCache.CachePathsDistinct` | src/services/photo.ts:122-126 | The cache path `<album>/.resized_images/<file>@<size>.avif` is a deterministic key: different widths never share a cache file. |
| `PhotoCache.OptimiseOne` | src/services/photo.ts:131-176 | A cache hit needs the file to exist, be non-empty and decode to a positive width and height; it reports the decoded size and the stripped path and writes nothing. An undecodable file rejects. On a miss the encoder's size is reported with the unstripped path, and only that file is written; an encode error is rethrown. |
| `PhotoCache.OptimiseImages` | src/services/photo.ts:110-179 | `optimiseImages` returns one entry per configured width. |
| `PhotoCache.OptimiseAllFrame` | src/services/photo.ts:120-178 | A run touches no file except its own cache paths. |
| `PhotoCache.OptimiseAllIndependent` | src/services/photo.ts:120-178 | The widths do not interfere: the sequential run gives each width the result it would get alone, so the order in which concurrent writes land does not matter. |
| `PhotoCache.OptimiseAllCached` | src/services/photo.ts:131-149 | With every width validly cached, a run writes nothing and reports the stripped cached entries. |
| `PhotoCache.OptimiseAllFillsCache` | src/services/photo.ts:155-171 | After a successful run with a well-behaved encoder, every width has a valid cache file of the reported size. |
| `PhotoCache.OptimiseImagesRerun` | src/services/photo.ts:110-179 | A rebuild writes nothing and reports the same dimensions, with every path now stripped. |
| `PhotoCache.OptimiseAllFresh` | src/services/photo.ts:155-171 | On an empty cache, every entry is the encoder's output under its unstripped cache path. |
| `PhotoCache.OptimiseImagesFreshThenStripped` | src/services/photo.ts:142-166 | `src` is asymmetric: a fresh encode reports the path as written and a cache hit reports it stripped. Under a relative output root the two differ. |
| `PhotoCache.SizeToken` | src/services/photo.ts:92-94 | A name has a width token exactly when it contains `@`; without one, the source's `split("@")[1]` throws. |
| `PhotoCache.RemoveUnneededImageSizes` | src/services/photo.ts:81-107 | With no cache directory nothing happens. Otherwise exactly the listed files whose token does not parse to a member of `OPTIMISED_SIZES` are deleted. No other file is touched and no file is changed. When the listing names every file in the directory, the result is `PhotoCache.SweepSizes`. |
| `PhotoCache.SweepSizes` | src/services/photo.ts:81-105 | The size sweep as the block build sees it: only files are removed, never changed, every file directly in the cache directory with an unneeded width token is gone, and every other file stays. |
| `PhotoCache.SweepSizesKeepsDerivatives` | src/services/photo.ts:92-104 | A cache file named after an `@`-free photo and a configured width survives the sweep. |
| `PhotoCache.DerivativeSurvivesSizeSweep` | src/services/photo.ts:92-104 | Every derivative `optimiseImages` writes for an `@`-free name survives the size sweep. |
| `PhotoCache.AtSignNameDerivativeDeleted` | src/services/photo.ts:92-104 | For a photo named `<a>@<b>.<ext>`, every cache name has the width token `b`. So the size sweep deletes all its derivatives exactly when `b` does not parse to a configured width. |
| `PhotoCache.AtSignHomeDeleted` | src/services/photo.ts:92-104 | For example, the 800-wide derivative of `me@home.jpg` has the width token `home` and is deleted. |
| `PhotoCache.RemoveStaleImages` | src/services/photo.ts:47-79 | With no cache directory nothing happens. Otherwise every deleted file was listed and its original (`parse(name).name.split("@")[0]`) is missing, and every listed file whose original was missing is deleted. No other file changes. |
| `LegacyPhotoCache.AscendingSizes` | src/api/photo.ts:8 | The legacy widths are a permutation of `[4896, 2400, 1200, 800]`. |
| `LegacyPhotoCache.AscendingSizesValue` | src/api/photo.ts:51 | The legacy widths are generated in ascending order: 800, 1200, 2400, 4896. |
| `LegacyPhotoCache.CachePathsDistinct` | src/api/photo.ts:52-56 | The legacy cache path `dirname/.resized_images/<file>@<size>.webp` differs for different widths. |
| `LegacyPhotoCache.OptimiseOne` | src/api/photo.ts:59-81 | A legacy cache hit is file existence alone. The entry is the stripped path with the requested width, whether the file was reused or encoded. On a miss the photo is encoded into that file, and an encode error is rethrown. No existing file changes. |
| `LegacyPhotoCache.OptimiseImages` | src/api/photo.ts:44-84 | Legacy `optimiseImages` returns one entry per configured width. |
| `LegacyPhotoCache.OptimiseAllShape` | src/api/photo.ts:59-62 | Every legacy entry is the stripped cache path with the requested width, whatever the cache held. |
| `LegacyPhotoCache.OptimiseAllNeverOverwrites` | src/api/photo.ts:64-81 | A legacy run never changes an existing file and adds only its own cache files. |
| `LegacyPhotoCache.OptimiseAllSucceeds` | src/api/photo.ts:64-81 | A legacy run succeeds exactly when each width has a file of its cache name or can be encoded. |
| `LegacyPhotoCache.OptimiseAllFillsCache` | src/api/photo.ts:68-76 | After a successful legacy run, every width has its cache file. |
| `LegacyPhotoCache.OptimiseImagesRerun` | src/api/photo.ts:44-84 | A legacy rebuild writes nothing and reports exactly what the first run reported. |
| `LegacyDeserialize.DeserializePhotoBlock` | src/api/deserialize.ts:28-60 | The legacy photo keeps id and data except `src`, which is rewritten via `stripPublicFromPath(join(dirname, src))`. The cover flag is inferred from `src` and can be overridden. `_build` is exactly `{srcset, exif, width, height}`, with no tags. |
| `LegacyDeserialize.DeserializeBlock` | src/api/deserialize.ts:62-78 | Legacy text is copied. A photo without `dirname` throws, and so does every other kind. |
| `LegacyDeserialize.DeserializeBlocks` | src/api/deserialize.ts:87-89 | A successful legacy block deserialisation keeps the block count. |
| `LegacyDeserialize.DeserializeBlocksCorrespond` | src/api/deserialize.ts:80-95 | Legacy block order is kept: each built block corresponds to the stored block at the same position. |
| `LegacyDeserialize.DeserializeBlocksRefuses` | src/api/deserialize.ts:62-89 | One unknown kind, or a photo without a directory, fails the whole legacy album. |
| `LegacyDeserialize.DeserializeContentBlock` | src/api/deserialize.ts:80-95 | The legacy album is built exactly when its blocks are and keeps its top-level fields. Its blocks are exactly the ones the block builder returns for the stored blocks, one per stored block. It sets `slug = name` and `srcdir = dirname`. |
| `LegacyDeserialize.DeserializeTextAlbum` | src/api/deserialize.ts:19-26 | A legacy album of text blocks builds to identical copies of them and writes nothing. |
| `Dms.ConvertDmsToDegree` | src/util/dms2deg.ts:1-9 | The result is null exactly when `coords` is absent or does not have 3 entries. Otherwise it is `d + m/60 + s/3600`, negated exactly when `isSOrW` holds. |
| `Dms.GetDegLatLngFromExif` | src/util/dms2deg.ts:11-26 | Longitude is negated exactly when its ref is `"W"`, and latitude exactly when its ref is `"S"`. |
| `ExifText.ParseLine` | src/util/extractExifFromDb.ts:5-8 | Each line splits at its first `:`. The key is untrimmed and holds no `:`; the value is the rest, with later `:`s kept, trimmed. |
| `ExifText.ParseLineRendered` | src/util/extractExifFromDb.ts:6-7 | A line `key: value` reads back as the entry `(key, value)`. |
| `ExifText.FromEntriesKeys` | src/util/extractExifFromDb.ts:4-9 | The table has a key exactly when some line has it. |
| `ExifText.FromEntriesLastWins` | src/util/extractExifFromDb.ts:4-9 | For a duplicated key the later line wins (`Object.fromEntries`). |
| `ExifText.Lines` | src/util/extractExifFromDb.ts:5 | There is one entry per `\n`-separated line, in order. |
| `ExifText.DateFromData` | src/util/extractExifFromDb.ts:12-35 | A date comes out exactly when `EXIF DateTimeOriginal` is truthy. The offset is applied exactly when `EXIF OffsetTime` is truthy. |
| `ExifText.DateFromStamp` | src/util/extractExifFromDb.ts:13-18 | The date text is the first space token with every `:` replaced by `-`, then `T`, then the second token. |
| `ExifText.ExtractDateFromExifString` | src/util/extractExifFromDb.ts:1-40 | The result is null for an empty or missing dump, and otherwise exactly when the capture-date key is present and non-empty. |
| `ExifText.ExtractDateFromStampLine` | src/util/extractExifFromDb.ts:1-32 | End to end, a dump whose last `EXIF DateTimeOriginal: <date> <time>` line is given yields `<date with - for :>T<time>`. |
| `MapPage.Coords` | src/pages/map/index.tsx:54-67 | A GPS tag is read as coordinates exactly when it is an array of numbers and `null`s, element for element. A `null` (a 0/0 rational after the JSON round trip) counts as 0, as it does in JavaScript arithmetic. |
| `MapPage.NullSecondsCountZero` | src/util/dms2deg.ts:1-9 | A longitude `[d, m, null]` with ref `W` still places the photo, at minus `d + m/60` degrees. |
| `MapPage.FileName` | src/pages/map/index.tsx:69 | The file name is the text after the last `/`, or the whole `src` when there is none; it contains no `/`. |
| `MapPage.HrefParts` | src/pages/map/index.tsx:79 | The link `/album/<slug>#<file>` splits at `#` back into the album path and the file name. |
| `MapPage.EntryOf` | src/pages/map/index.tsx:51-86 | The entry's `album` is the slug and its `href` is `/album/<slug>#<file>`. `src` is the first srcset element. `date` is `DateTimeOriginal`, or null when absent. The placeholder is transparent exactly when there is no first tag colour. Its size is the photo's. |
| `MapPage.WesternLongitude` | src/pages/map/index.tsx:62-67 | A longitude of three numbers with ref `W` becomes minus its degree magnitude. |
| `MapPage.AlbumEntries` | src/pages/map/index.tsx:48-52 | An album's entries are those of its located photos, in block order. |
| `MapPage.MapEntriesComplete` | src/pages/map/index.tsx:36-49 | Every photo with all four GPS fields truthy has its entry on the map. |
| `MapPage.MapEntriesSound` | src/pages/map/index.tsx:36-88 | Every map entry is the entry of a located photo of some album. |
| `SearchApi.MatchExpression` | src/components/search/api.ts:78 | The match string is the column exclusion prefix, then the query in double quotes with every `"` of the query turned into `'`. Its only `"` characters are the two delimiters, and every other character of the query is kept in place. |
| `SearchApi.MatchExpressionVerbatim` | src/components/search/api.ts:78 | A query without `"` is quoted verbatim. |
| `SearchApi.Bind` | src/components/search/api.ts:77-81 | The bind list is `[match, pageSize, page*pageSize]`. |
| `SearchApi.Prev` | src/components/search/api.ts:42-45 | `prev` is undefined exactly when `page` is ≤ 0, and otherwise is `page - 1`. |
| `SearchApi.Next` | src/components/search/api.ts:46-50 | `next` is `page + 1` exactly when `page` is non-zero and the row count equals `pageSize`, so page 0 never gets a `next`. From a positive page, the next page's `prev` is that page again. |
| `SearchApi.Columns` | src/components/search/api.ts:36-38 | The record has a key exactly for each column name. |
| `SearchApi.ColumnsLookup` | src/components/search/api.ts:36-38 | A column name that is not repeated later holds `row[i]`. |
| `SearchApi.Record` | src/components/search/api.ts:34-40 | The record holds the column names plus `type`, and `type` is the message type. |
| `SearchApi.RecordColumn` | src/components/search/api.ts:34-40 | Every non-`type` column that is not repeated keeps its own value in the record. |
| `SearchApi.Exec` | src/components/search/api.ts:33-51 | The result holds one record per row, in order, with `prev`, `next` and `query` as computed. |
| `SearchApi.FetchResults` | src/components/search/api.ts:62-92 | The statement is run with the bound values, and a database failure is passed on. |
| `SearchUi.NextPageParam` | src/components/search/Search.tsx:51-60 | Another page is requested exactly when the last page had 48 results, and the new page parameter is the previous one plus 1. From a non-zero page this agrees with the `next` that `exec` computes. Page 0 is the exception: this function gives it a next page and `exec` does not. |
| `SearchUi.QueryText` | src/components/search/Search.tsx:40 | The terms are joined with `\|`. When no term contains `\|`, splitting the result at `\|` gives back exactly the terms. |
| `SearchUi.InputTerms` | src/components/search/Search.tsx:174 | Typing yields one term per `,`-separated part, each part trimmed. No term contains a comma. |
| `SearchUi.InputRoundTrip` | src/components/search/Search.tsx:169-174 | For trimmed terms without commas, displaying them in the input and reading them back gives the same terms. |
| `SearchUi.UrlQuery` | src/components/search/Search.tsx:104-110 | The `q` URL parameter is absent exactly when there are no terms. |
| `SearchUi.ReadUrlQuery` | src/components/search/Search.tsx:95-101 | Only a non-empty `q` replaces the terms. The new terms join back, with commas, to exactly `q`. |
| `SearchUi.UrlRoundTrip` | src/components/search/Search.tsx:95-116 | Terms written to the URL and read back on load come back unchanged, provided they contain no comma and do not join to the empty text. |
| `SearchUi.Suggestions` | src/components/search/Search.tsx:151-155 | A tag is suggested exactly when it is a row of the tag table whose name has at least 3 characters. |
| `SearchUi.KeyIndex` | src/components/search/Search.tsx:205-206 | When a merged tag has the given lower-cased key, the result is its position. When no merged tag has that key, the result is none. |
| `SearchUi.AddTag` | src/components/search/Search.tsx:204-212 | A tag whose key is `constructor` or `__proto__` changes nothing, because `{}` inherits a truthy value for those keys. Otherwise, a tag with a known key adds its count to that entry and leaves the others alone. A tag with a new key is appended unchanged. No existing entry changes its name. |
| `SearchUi.MergeTagsKeys` | src/components/search/Search.tsx:201-214 | The merged tags have exactly the lower-cased keys of the input, less `constructor` and `__proto__`, and no key appears twice. |
| `SearchUi.MergeTagsCounts` | src/components/search/Search.tsx:203-213 | Each merged tag's count is the sum of the counts of all input tags with its key. |
| `SearchUi.MergeTagsFirstName` | src/components/search/Search.tsx:206-207 | Each merged tag keeps the name of the first input tag that has its key. |
| `SearchUi.TagViews` | src/components/search/Search.tsx:215-222 | Each suggestion shows the merged name and the count minus 1. It is active exactly when its lower-cased name is among the terms. |
| `SearchUi.Toggle` | src/components/search/Search.tsx:223-230 | Clicking a tag removes its lower-cased name when active and appends it when inactive. Every other non-empty term stays. Empty terms are dropped. |
| `SearchUi.ToggleKeepsOrder` | src/components/search/Search.tsx:223-230 | The remaining terms keep their order, each as often as it occurred before. Removing a tag drops exactly its occurrences and the empty terms. Adding one puts it last, after the other non-empty terms. |
| `ResultTile.ImageSrc` | src/components/search/SearchResultTile.tsx:23 | A path that starts with `../src/public` loses that prefix. A path that does not contain it is unchanged. |
| `ResultTile.ResizedInDirectory` | src/components/search/SearchResultTile.tsx:24-29 | For `dir/file`, the tile image is the 600-wide cache file in `dir/.resized_images`. |
| `ResultTile.ResizedBareFile` | src/components/search/SearchResultTile.tsx:24-29 | For a path with no `/`, the tile image is the 600-wide cache file directly under `.resized_images`. |
| `ResultTile.TileWidthNotGenerated` | src/components/search/SearchResultTile.tsx:29 | The tile's width of 600 is not one of the sizes the build generates. |
| `ResultTile.AlbumName` | src/components/search/SearchResultTile.tsx:30 | An album name is defined exactly when the path contains `/`, and it never contains `/` itself. |
| `ResultTile.AlbumNameOf` | src/components/search/SearchResultTile.tsx:30 | The album of `root/album/file` is `album`. |
| `ResultTile.Index` | src/components/search/SearchResultTile.tsx:14-15 | Indexing throws exactly on `undefined` and `null`. On an array it reads the element, which is `undefined` past the end. |
| `ResultTile.AsJsonArrayText` | src/components/search/SearchResultTile.tsx:13 | The text keeps its length, and no `(` or `)` is left in it. |
| `ResultTile.Colour` | src/components/search/SearchResultTile.tsx:9-19 | A missing or empty `colors` gives the default colour, and so does one that fails to parse. |
| `ResultTile.ColourOfPalette` | src/components/search/SearchResultTile.tsx:8-16 | A palette that parses gives the three channels of its first colour. |
| `ResultTile.ColourOfEmptyPalette` | src/components/search/SearchResultTile.tsx:11-19 | An empty palette gives the default colour. |
| `Indexer.RatioValue` | index/index.py:37-39 | A rational's value exists exactly when its denominator is non-zero, and the value times the denominator is the numerator. |
| `Indexer.ConvertToDegrees` | index/index.py:34-40 | A reading exists exactly when there are three rationals with non-zero denominators. It is the degrees-minutes-seconds conversion the map page uses, negated for `W` and `S`. |
| `Indexer.ConvertSign` | index/index.py:35-36 | A non-zero reading of non-negative rationals is negative exactly when the reference is `W` or `S`. |
| `Indexer.Parts` | index/index.py:59-60 | Every part is either the leading root `/` or a non-empty component without `/` that is not `.`. |
| `Indexer.PartsSnoc` | index/index.py:59-60 | `dir/seg` ends in `seg`. When `dir` is non-empty, its parts are those of `dir` followed by `seg`. |
| `Indexer.AlbumRelativePath` | index/index.py:56-60 | A link exists exactly when the path has at least two parts. Otherwise `p.parts[-2]` raises. |
| `Indexer.FileName` | index/index.py:63-64 | The base name contains no `/`. When the path has a part other than the root, the base name is the last part. |
| `Indexer.AlbumRelativePathOf` | index/index.py:56-64 | For `root/album/file` the link is `/album/<album>#<file>` and the file name is `file`. The link is the map page's link for that photo, and the search tile names the same album. |
| `Indexer.FileNameAgrees` | index/index.py:63-64 | The indexer's file name and the map page's file name agree for `dir/file`. |
| `Indexer.FormatMapping` | index/index.py:364-367 | `None` gives `"None"`, an empty dict gives `"{}"`, and any other value gives its `str` text. |
| `Indexer.FormatMappingValues` | index/index.py:370-373 | `None` gives `"None"`, an empty dict gives `"{}"`, and any other value gives its `str` text. |
| `Indexer.FormatMappingLines` | index/index.py:367 | For keys without `:` or line breaks and values without line breaks, the text splits at line breaks into exactly one `key:value` line per item, in order. |
| `Indexer.FormatMappingValuesLines` | index/index.py:373 | For values without line breaks, the text splits at line breaks into exactly the values, in order. |
| `Indexer.FormatMappingEntries` | index/index.py:364-367 | The browser's EXIF reader sees one entry per item, in order, with the same key and the value trimmed. |
| `Indexer.FormatMappingReadBack` | index/index.py:251 | Reading the `exif` column back gives each key whose last occurrence is item `i`, mapped to that item's trimmed value. Every key that is read back is a key of some item. |
| `Indexer.DateTime` | index/index.py:345-354 | A missing or empty stamp gives no date. Otherwise the date is one character longer than the stamp and ends in `Z`. |
| `Indexer.DateTimeOfStamp` | index/index.py:345-350 | `YYYY:MM:DD HH:MM:SS` becomes `YYYY-MM-DDTHH:MM:SSZ`: only the first two `:` and the first space are replaced. |
| `Indexer.DateTimeAgreesWithBrowser` | index/index.py:345-354 | The indexer's date is the date the browser later extracts from the `exif` column, with `Z` appended. |
| `IndexStore.AlreadyExists` | index/index.py:92-98 | A path counts as indexed exactly when some `images` row has that path. |
| `IndexStore.InsertField` | index/index.py:152-168 | No table other than `images` changes. An indexed path gets the column set in each of its rows and nothing else changes. A new path gets one row, appended at the end, holding only that column. |
| `IndexStore.InsertFieldPaths` | index/index.py:156-167 | The path list is unchanged for an indexed path. For a new path, the path is appended. |
| `IndexStore.InsertFieldOneRow` | index/index.py:160-167 | Afterwards the path is indexed. A new path gets exactly one row, and an indexed path gets no extra row. |
| `IndexStore.InsertFieldStores` | index/index.py:160-167 | Afterwards every row of the path holds the value in that column. |
| `IndexStore.InsertFieldKeeps` | index/index.py:161 | For an indexed path, the other columns of its row keep their values. |
| `IndexStore.InsertFieldIdempotent` | index/index.py:152-168 | Writing the same value twice has the same effect as writing it once. |
| `IndexStore.InsertTag` | index/index.py:170-181 | The tag is now in the table and no other tag's count changes. |
| `IndexStore.InsertTagsCount` | index/index.py:170-181 | After a series of inserts, a tag is present exactly when it was present before or was inserted. Its count is its old count, or 1 for a new tag, plus the number of times it was inserted. |
| `IndexStore.InsertTagsFromEmpty` | index/index.py:174-179 | Starting from an empty table, a tag inserted n times has count n + 1. The search page shows count - 1, which is n. |
| `IndexStore.InsertMetadata` | index/index.py:183-206 | The path's `metadata` row ends up with the given values, whether or not the row existed before. No other path's row changes. |
| `IndexStore.InsertTagsAppend` | index/index.py:170-181 | Inserting one list of tags and then another is the same as inserting the two lists joined. |
| `IndexStore.LookupAll` | index/index.py:260-262 | A list of keys is found exactly when every key is present, and then gives each key's value in key order. |
| `IndexStore.GeocodeTags` | index/index.py:260-262 | The place names go in without error exactly when all three geocode keys are present. The country, city and country code are then each counted once, in that order. Otherwise the raised error names a key that is missing. |
| `IndexStore.LaterFields` | index/index.py:245-259 | After the file name, the columns are written in this order: link, EXIF, palette, then the place for a located photo. No column is written twice. |
| `IndexStore.Analyse` | index/index.py:322-362 | The analysis fails exactly when the photo has GPS data and a latitude or longitude has fewer than three parts or a zero denominator. On success, the EXIF, palette and classifier tags are passed through and the date is the reformatted stamp. Without GPS there is no geocode and there are no degrees. With GPS, the degrees are the converted coordinates and the geocode is the geocoder's answer for them. The conversion is `convert_to_degress` at index/index.py:34-40, which divides by each denominator. |
| `IndexStore.IndexFile` | index/index.py:239-276 | Once the analysis has succeeded, indexing the file fails exactly when its path has fewer than two parts or a geocode key is missing. On success, the file's `metadata` row holds its coordinates with no date. The tag counts are the old counts plus the place names and then the classifier tags. |
| `IndexStore.IndexFileRows` | index/index.py:239-276 | Once the analysis has succeeded, whatever else happens, the file gets a row. No other path's row changes, and paths stay unique. |
| `IndexStore.IndexFileStores` | index/index.py:244-264 | After a successful index, the file's row holds the file name, link, EXIF, palette and tag text, plus the place text for a located photo. |
| `IndexStore.ValidFiles` | index/index.py:224-225 | The files kept are exactly the globbed files that have no row yet. |
| `IndexStore.IndexFilesRows` | index/index.py:239-276 | The loop adds rows only for the files it indexes and keeps paths unique. When it finishes without error, every file has a row. |
| `IndexStore.IndexFilesUnanalysed` | index/index.py:239-243 | When the loop stops because a file could not be read or analysed, the error names that file, and a file that had no row before still has none. |
| `IndexStore.IndexRunRows` | index/index.py:219-276 | A run never changes the rows indexed before it and never gives a path a second row. A run that is not a dry run and finishes without error leaves every globbed file with a row. |

## Left out

- File and image I/O: `fs`, `sharp` encoding, `image-size`, `exifr`, `sqlite3` and the SQLite WASM worker. These are oracle parameters or a file map, and directory creation (`mkdirSync`) is not modelled.
- `uuid.v4` is a parameter, a counter-indexed id source, because it is random.
- Deserialize.DeserializePhotoBlock: the promise of `removeUnneededImageSizes` (src/services/deserialize.ts:85) is never awaited. A cache name without `@` makes it reject, and the model does not follow that rejection; the deletions themselves are part of the block's file map.
- `deserializeVideoBlock` (src/services/deserialize.ts:32-39) is a field-for-field copy that `deserializeBlock` never reaches, because it refuses video blocks. It has no member of its own.
- JavaScript `Date`: parsing, time zones and `getFullYear` are the `Calendar` parameter. Comparators take integer keys, so a NaN sort key cannot arise.
- Floating point: degrees-minutes-seconds conversion is over `real`, and display rounding is not modelled.
- Concurrency: `Promise.all` is a sequential fold, so interleavings of the cache writes are not modelled.
- The machine-learning classifier, reverse geocoding, ColorThief and the `click` command wiring in index/index.py. Reading and decoding a file, together with the classifier's tags and ColorThief's palette, is the `read` parameter. Reverse geocoding is the `geocoder` parameter.
- The indexer's `search`, `search-tags`, `search-metadata`, `dump` and `inspect` commands and `setup_tables`, which are plain SQL reads and schema set-up.
- URL encoding of the `q` parameter, `Object.values` key ordering for integer-like keys, and lower-casing beyond ASCII.
- MapPage.Coords: JavaScript's arithmetic on other array items is not modelled. It would turn strings into concatenation or `NaN` and booleans into 0 and 1. Such a GPS tag reads as absent here. EXIF readers produce numbers, and `null` only after the JSON round trip of a NaN.
- The counts added to `Object.prototype` or `Object` by a tag keyed `__proto__` or `constructor` are not modelled. They never reach the rendered tags.
- SearchUi.Suggestions: `name.length >= 3` is counted in characters, while JavaScript counts UTF-16 code units. A name with characters outside the Basic Multilingual Plane can be long enough in JavaScript and too short here. Strings are modelled as sequences of characters throughout.
- Serialize.SerializeBlock: the serializers also delete a falsy `immersive` and an empty `formatting` from the block they are given (src/services/serialize.ts:17-22, 39-41). The model returns only the copy and does not model that change to the argument. No caller reads the block again after serialising it.
- `pathlib` edge cases such as `//` roots and `..` components, beyond dropping empty and `.` components.
- The React and Next.js rendering, the slideshow page (timers and DOM), the home page's album ordering (its comparator is not a consistent ordering), the Playwright specs and the one-off migration scripts.
- PhotoCache.StripPublicFromPath: its own contract says only that the result starts with `/`. What it removes is stated by `PhotoCache.StripDropsFirstSegment` and `PhotoCache.StripSingleSegment`.
- PhotoCache.OptimiseAll: its own contract gives only the count of photos. The contents are stated by `PhotoCache.OptimiseAllCached`, `PhotoCache.OptimiseAllFresh` and `PhotoCache.OptimiseAllFrame`.
