/** The album data shapes of the legacy build (`src/api/types.ts`): photo
    and text blocks only, derivatives without a height, photo build data
    without search tags, album formatting with `overlay` alone. Text blocks,
    photo data and photo formatting are shared with the current build. */
module LegacyTypes {
  import opened Wrappers
  import opened JsonValues
  import opened AlbumTypes

  /** One generated derivative: its public path and the width it was
      requested at. */
  datatype LegacyOptimisedPhoto = LegacyOptimisedPhoto(src: string, width: nat)

  datatype LegacyPhotoBuild = LegacyPhotoBuild(
    height: nat,
    width: nat,
    exif: map<string, Json>,
    srcset: seq<LegacyOptimisedPhoto>)

  /** A built legacy block: exactly one of photo or text. */
  datatype LegacyBlock =
    | LText(text: TextBlock)
    | LPhoto(id: string, data: PhotoData, formatting: PhotoFormatting, build: LegacyPhotoBuild)

  /** A stored legacy block; `LOther` stands for any other `kind` a manifest
      may carry. */
  datatype LegacySerializedBlock =
    | LSText(text: TextBlock)
    | LSPhoto(photo: SerializedPhoto)
    | LSOther(kind: string, id: string)

  /** A legacy album as stored. A directory scan also records its cover
      photo block. */
  datatype LegacySerializedContent = LegacySerializedContent(
    name: string,
    title: string,
    kicker: Option<string>,
    order: Option<real>,
    cover: Option<SerializedPhoto>,
    overlay: Option<bool>,
    blocks: seq<LegacySerializedBlock>)

  /** A built legacy album. */
  datatype LegacyContent = LegacyContent(
    name: string,
    title: string,
    kicker: Option<string>,
    order: Option<real>,
    cover: Option<SerializedPhoto>,
    overlay: Option<bool>,
    blocks: seq<LegacyBlock>,
    build: ContentBuild)
}
