/** Turning a stored album into a built one (`src/services/deserialize.ts`):
    text blocks are copied, photo blocks get their public source path, their
    cover flag, and the build data the image libraries and the search index
    provide; every other kind of block is refused. */
module Deserialize {
  import opened Wrappers
  import opened Strings
  import opened NodePath
  import opened JsonValues
  import opened Environment
  import opened AlbumTypes
  import PhotoCache

  /** The path a photo is served from: the album directory joined with the
      stored source, without its first segment. */
  function PublicSrc(dirname: string, src: string): (r: string)
    ensures |r| >= 1 && r[0] == Sep
  {
    PhotoCache.StripPublicFromPath(Join2(dirname, src))
  }

  /** A photo's formatting: the stored formatting laid over a cover flag
      that defaults to whether the source mentions `cover`. */
  function InferFormatting(src: string, stored: Option<PhotoFormatting>): (r: PhotoFormatting)
    ensures stored.Some? ==> r.immersive == stored.value.immersive
    ensures stored.None? ==> r.immersive.None?
    ensures r.cover.Some?
    ensures stored.Some? && stored.value.cover.Some? ==> r.cover == stored.value.cover
    ensures (stored.None? || stored.value.cover.None?) ==> (r.cover.value <==> Contains(src, "cover"))
  {
    var default := Some(Contains(src, "cover"));
    match stored
    case None => PhotoFormatting(None, default)
    case Some(f) => PhotoFormatting(f.immersive, if f.cover.Some? then f.cover else default)
  }

  datatype BlockStep = BlockStep(result: Result<Block, Error>, fs: FileSystem)

  /** `deserializePhotoBlock(block, {dirname})`: the photo's probed size and
      EXIF, its derivatives under the public albums root, and its search-index
      row (`null` when there is none). Fails when a derivative cannot be made.
      Once the derivatives are made, the size sweep of the photo's cache
      directory runs; it is not awaited, but its deletions are done before
      the build goes on. */
  function DeserializePhotoBlock(fs: FileSystem, photo: SerializedPhoto, dirname: string, env: Env): (st: BlockStep)
    ensures var local := Join2(dirname, photo.data.src);
      var run := PhotoCache.OptimiseImages(fs, local, PhotoCache.PublicAlbumsDir, env);
      (st.result.Success? <==> run.result.Success?)
      && st.fs == (if run.result.Success? then PhotoCache.SweepSizes(run.fs, local) else run.fs)
      && (st.result.Failure? ==> st.result.error == run.result.error)
      && (st.result.Success? ==>
            var b := st.result.value;
            b.Photo? && b.id == photo.id
            && b.data == photo.data.(src := PublicSrc(dirname, photo.data.src))
            && b.formatting == Some(InferFormatting(photo.data.src, photo.formatting))
            && b.build.srcset == run.result.value
            && |b.build.srcset| == |PhotoCache.OptimisedSizes|
            && b.build.exif == PhotoCache.GetNextJsSafeExif(env, local)
            && b.build.tags == env.tags(local)
            && Dims(b.build.width, b.build.height) == PhotoCache.GetPhotoSize(env, local))
  {
    var local := Join2(dirname, photo.data.src);
    var size := PhotoCache.GetPhotoSize(env, local);
    var exif := PhotoCache.GetNextJsSafeExif(env, local);
    var run := PhotoCache.OptimiseImages(fs, local, PhotoCache.PublicAlbumsDir, env);
    match run.result
    case Failure(e) => BlockStep(Failure(e), run.fs)
    case Success(srcset) =>
      var build := PhotoBuild(size.height, size.width, exif, env.tags(local), srcset);
      var data := photo.data.(src := PublicSrc(dirname, photo.data.src));
      BlockStep(Success(Photo(photo.id, data, Some(InferFormatting(photo.data.src, photo.formatting)), build)),
                PhotoCache.SweepSizes(run.fs, local))
  }

  /** `deserializeBlock(b, dirname)`: photos need a non-empty album directory;
      text is copied unchanged; videos and unknown kinds are refused. Only
      photos touch the file map. */
  function DeserializeBlock(fs: FileSystem, b: SerializedBlock, dirname: string, env: Env): (st: BlockStep)
    ensures st.result.Success? ==> (st.result.value.Text? <==> b.SText?) && (st.result.value.Photo? <==> b.SPhoto?)
    ensures st.result.Success? ==> !st.result.value.Video?
    ensures b.SText? ==> st == BlockStep(Success(Text(b.text)), fs)
    ensures b.SVideo? ==> st == BlockStep(Failure(UnsupportedKind("video")), fs)
    ensures b.SOther? ==> st == BlockStep(Failure(UnsupportedKind(b.kind)), fs)
    ensures b.SPhoto? && dirname == "" ==> st == BlockStep(Failure(MissingDirname), fs)
    ensures b.SPhoto? && dirname != "" ==> st == DeserializePhotoBlock(fs, b.photo, dirname, env)
  {
    match b
    case SPhoto(p) =>
      if dirname != "" then DeserializePhotoBlock(fs, p, dirname, env)
      else BlockStep(Failure(MissingDirname), fs)
    case SText(t) => BlockStep(Success(Text(t)), fs)
    case SVideo(_, _) => BlockStep(Failure(UnsupportedKind("video")), fs)
    case SOther(kind, _) => BlockStep(Failure(UnsupportedKind(kind)), fs)
  }

  datatype BlocksRun = BlocksRun(result: Result<seq<Block>, Error>, fs: FileSystem)

  /** Every block in turn (all of them are started, as under `Promise.all`),
      each seeing the files the earlier ones wrote; the result fails with the
      first failure in block order. */
  function DeserializeBlocks(fs: FileSystem, bs: seq<SerializedBlock>, dirname: string, env: Env): (run: BlocksRun)
    ensures run.result.Success? ==> |run.result.value| == |bs|
    decreases |bs|
  {
    if |bs| == 0 then BlocksRun(Success([]), fs)
    else
      var st := DeserializeBlock(fs, bs[0], dirname, env);
      var rest := DeserializeBlocks(st.fs, bs[1..], dirname, env);
      var result :=
        if st.result.Failure? then Failure(st.result.error)
        else if rest.result.Failure? then Failure(rest.result.error)
        else Success([st.result.value] + rest.result.value);
      BlocksRun(result, rest.fs)
  }

  /** The block a stored block becomes, up to the build data: the shape the
      result of a successful deserialisation has at each position. */
  predicate Corresponds(b: SerializedBlock, built: Block, dirname: string) {
    match b
    case SText(t) => built == Text(t)
    case SPhoto(p) =>
      built.Photo? && built.id == p.id
      && built.data == p.data.(src := PublicSrc(dirname, p.data.src))
      && built.formatting == Some(InferFormatting(p.data.src, p.formatting))
    case _ => false
  }

  /** A single built block corresponds to the block it was built from. */
  lemma DeserializeBlockCorresponds(fs: FileSystem, b: SerializedBlock, dirname: string, env: Env)
    ensures var st := DeserializeBlock(fs, b, dirname, env);
      st.result.Success? ==> Corresponds(b, st.result.value, dirname)
  {
  }

  /** The block at position `i` of a successful deserialisation corresponds
      to the stored block at position `i`. */
  lemma {:induction false} DeserializeBlocksAt(fs: FileSystem, bs: seq<SerializedBlock>, dirname: string, env: Env, i: nat)
    requires i < |bs|
    ensures var run := DeserializeBlocks(fs, bs, dirname, env);
      run.result.Success? ==> Corresponds(bs[i], run.result.value[i], dirname)
    decreases i
  {
    var st := DeserializeBlock(fs, bs[0], dirname, env);
    var rest := DeserializeBlocks(st.fs, bs[1..], dirname, env);
    var run := DeserializeBlocks(fs, bs, dirname, env);
    DeserializeBlocksSuccess(fs, bs, dirname, env);
    if run.result.Success? {
      if i == 0 {
        DeserializeBlockCorresponds(fs, bs[0], dirname, env);
      } else {
        DeserializeBlocksAt(st.fs, bs[1..], dirname, env, i - 1);
        assert bs[1..][i - 1] == bs[i];
      }
    }
  }

  /** A successful run is the first block followed by the rest. */
  lemma DeserializeBlocksSuccess(fs: FileSystem, bs: seq<SerializedBlock>, dirname: string, env: Env)
    requires |bs| > 0
    ensures var st := DeserializeBlock(fs, bs[0], dirname, env);
      var rest := DeserializeBlocks(st.fs, bs[1..], dirname, env);
      var run := DeserializeBlocks(fs, bs, dirname, env);
      run.result.Success? ==>
        st.result.Success? && rest.result.Success? && run.result.value == [st.result.value] + rest.result.value
  {
  }

  /** A successful deserialisation keeps the block count and order: each
      built block corresponds to the stored block at the same position. */
  lemma DeserializeBlocksCorrespond(fs: FileSystem, bs: seq<SerializedBlock>, dirname: string, env: Env)
    ensures var run := DeserializeBlocks(fs, bs, dirname, env);
      run.result.Success? ==>
        |run.result.value| == |bs|
        && forall i :: 0 <= i < |bs| ==> Corresponds(bs[i], run.result.value[i], dirname)
  {
    forall i | 0 <= i < |bs| {
      DeserializeBlocksAt(fs, bs, dirname, env, i);
    }
  }

  /** A stored block that can never be built. */
  predicate Refused(b: SerializedBlock, dirname: string) {
    b.SVideo? || b.SOther? || (b.SPhoto? && dirname == "")
  }

  /** One video, unknown kind, or photo without an album directory fails the
      whole album. */
  lemma {:induction false} DeserializeBlocksRefuses(fs: FileSystem, bs: seq<SerializedBlock>, dirname: string, env: Env, k: nat)
    requires k < |bs| && Refused(bs[k], dirname)
    ensures DeserializeBlocks(fs, bs, dirname, env).result.Failure?
    decreases |bs|
  {
    var st := DeserializeBlock(fs, bs[0], dirname, env);
    if k > 0 {
      assert bs[1..][k - 1] == bs[k];
      DeserializeBlocksRefuses(st.fs, bs[1..], dirname, env, k - 1);
    }
    DeserializeBlocksFailure(fs, bs, dirname, env);
  }

  /** A failing first block, or a failing rest, fails the whole run. */
  lemma DeserializeBlocksFailure(fs: FileSystem, bs: seq<SerializedBlock>, dirname: string, env: Env)
    requires |bs| > 0
    ensures var st := DeserializeBlock(fs, bs[0], dirname, env);
      st.result.Failure? || DeserializeBlocks(st.fs, bs[1..], dirname, env).result.Failure? ==>
        DeserializeBlocks(fs, bs, dirname, env).result.Failure?
  {
  }

  datatype ContentStep = ContentStep(result: Result<Content, Error>, fs: FileSystem)

  /** `deserializeContentBlock(serialized, dirname)`: the stored album with
      its blocks built, its slug taken from its name, its source directory
      recorded, and no time range. */
  function DeserializeContentBlock(fs: FileSystem, sc: SerializedContent, dirname: string, env: Env): (st: ContentStep)
    ensures st.result.Success? <==> DeserializeBlocks(fs, sc.blocks, dirname, env).result.Success?
    ensures st.fs == DeserializeBlocks(fs, sc.blocks, dirname, env).fs
    ensures st.result.Success? ==>
      var c := st.result.value;
      c.name == sc.name && c.title == sc.title && c.kicker == sc.kicker && c.order == sc.order
      && c.cover == sc.cover && c.formatting == sc.formatting
      && c.blocks == DeserializeBlocks(fs, sc.blocks, dirname, env).result.value
      && |c.blocks| == |sc.blocks|
      && c.build == ContentBuild(sc.name, dirname, None)
  {
    var run := DeserializeBlocks(fs, sc.blocks, dirname, env);
    match run.result
    case Failure(e) => ContentStep(Failure(e), run.fs)
    case Success(blocks) =>
      ContentStep(Success(Content(sc.name, sc.title, sc.kicker, sc.order, sc.cover, sc.formatting,
                                  blocks, ContentBuild(sc.name, dirname, None))), run.fs)
  }
}
