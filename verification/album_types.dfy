/** The album data shapes of the current build (`src/services/types.ts`):
    blocks as stored in a manifest, blocks as built for the pages, and the
    album content that holds them. */
module AlbumTypes {
  import opened Wrappers
  import opened JsonValues

  /** One generated derivative of a photo. */
  datatype OptimisedPhoto = OptimisedPhoto(src: string, width: nat, height: nat)

  datatype TextData = TextData(title: string, kicker: Option<string>, description: Option<string>)

  /** A text block; it is stored and built in the same shape. `formatting`
      is an arbitrary (normally empty) object. */
  datatype TextBlock = TextBlock(id: string, data: TextData, formatting: Option<map<string, Json>>)

  datatype PhotoData = PhotoData(
    src: string,
    title: Option<string>,
    kicker: Option<string>,
    description: Option<string>)

  datatype PhotoFormatting = PhotoFormatting(immersive: Option<bool>, cover: Option<bool>)

  /** The data the build attaches to a photo; only photos carry it. */
  datatype PhotoBuild = PhotoBuild(
    height: nat,
    width: nat,
    exif: map<string, Json>,
    tags: Option<Json>,
    srcset: seq<OptimisedPhoto>)

  /** The data of an embedded video; its `type` is always `youtube`. */
  datatype VideoData = VideoData(href: string, date: Option<string>)

  /** A built block: exactly one of photo, text or video. */
  datatype Block =
    | Text(text: TextBlock)
    | Photo(id: string, data: PhotoData, formatting: Option<PhotoFormatting>, build: PhotoBuild)
    | Video(id: string, video: VideoData)
  {
    predicate IsText() { Text? }
  }

  /** A photo as it appears in a manifest: no build data, optional formatting. */
  datatype SerializedPhoto = SerializedPhoto(id: string, data: PhotoData, formatting: Option<PhotoFormatting>)

  /** A stored block. Manifests are untyped JSON, so a block may carry any
      `kind`; `Other` stands for every kind but the three known ones. */
  datatype SerializedBlock =
    | SText(text: TextBlock)
    | SPhoto(photo: SerializedPhoto)
    | SVideo(id: string, video: VideoData)
    | SOther(kind: string, id: string)

  datatype SortOrder = NewestFirst | OldestFirst

  datatype AlbumFormatting = AlbumFormatting(overlay: Option<bool>, sort: Option<SortOrder>)

  /** An album cover: a whole photo block (directory scan) or just a source
      path (sidecar). */
  datatype Cover = CoverBlock(block: SerializedPhoto) | CoverSrc(src: string)

  /** An album as stored; it has no build data. */
  datatype SerializedContent = SerializedContent(
    name: string,
    title: string,
    kicker: Option<string>,
    order: Option<real>,
    cover: Option<Cover>,
    formatting: AlbumFormatting,
    blocks: seq<SerializedBlock>)

  /** Earliest and latest photo timestamps; `None` is `null`. */
  datatype TimeRange = TimeRange(earliest: Option<int>, latest: Option<int>)

  datatype ContentBuild = ContentBuild(slug: string, srcdir: string, timeRange: Option<TimeRange>)

  /** A built album. */
  datatype Content = Content(
    name: string,
    title: string,
    kicker: Option<string>,
    order: Option<real>,
    cover: Option<Cover>,
    formatting: AlbumFormatting,
    blocks: seq<Block>,
    build: ContentBuild)

  /** One entry of a sidecar's `externals`; only `youtube` entries are used. */
  datatype External = External(kind: string, href: string, date: Option<string>)

  /** The `album.json` sidecar. */
  datatype V2AlbumMetadata = V2AlbumMetadata(
    sort: Option<SortOrder>,
    cover: Option<string>,
    externals: Option<seq<External>>)
}
