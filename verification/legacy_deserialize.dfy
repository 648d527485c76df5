/** Turning a stored legacy album into a built one
    (`src/api/deserialize.ts`): text blocks are copied, photo blocks get
    their public source path, their cover flag and the build data of the
    image libraries (no search tags); any other kind is refused. */
module LegacyDeserialize {
  import opened Wrappers
  import opened NodePath
  import opened Environment
  import opened AlbumTypes
  import opened LegacyTypes
  import PhotoCache
  import LegacyPhotoCache
  import Deserialize
  import Batch

  datatype BlockStep = BlockStep(result: Result<LegacyBlock, Error>, fs: FileSystem)

  /** Legacy `deserializePhotoBlock(block, {dirname})`: the probed size, the
      EXIF, and the WebP derivatives beside the photo. Fails when a
      derivative cannot be made. */
  function DeserializePhotoBlock(fs: FileSystem, photo: SerializedPhoto, dirname: string, env: Env): (st: BlockStep)
    ensures var local := Join2(dirname, photo.data.src);
      var run := LegacyPhotoCache.OptimiseImages(fs, local, env);
      st.fs == run.fs
      && (st.result.Success? <==> run.result.Success?)
      && (st.result.Failure? ==> st.result.error == run.result.error)
      && (st.result.Success? ==>
            var b := st.result.value;
            b.LPhoto? && b.id == photo.id
            && b.data == photo.data.(src := Deserialize.PublicSrc(dirname, photo.data.src))
            && b.formatting == Deserialize.InferFormatting(photo.data.src, photo.formatting)
            && b.build.srcset == run.result.value
            && |b.build.srcset| == |LegacyPhotoCache.LegacySizes|
            && b.build.exif == PhotoCache.GetNextJsSafeExif(env, local)
            && Dims(b.build.width, b.build.height) == PhotoCache.GetPhotoSize(env, local))
  {
    var local := Join2(dirname, photo.data.src);
    var size := PhotoCache.GetPhotoSize(env, local);
    var exif := PhotoCache.GetNextJsSafeExif(env, local);
    var run := LegacyPhotoCache.OptimiseImages(fs, local, env);
    match run.result
    case Failure(e) => BlockStep(Failure(e), run.fs)
    case Success(srcset) =>
      var data := photo.data.(src := Deserialize.PublicSrc(dirname, photo.data.src));
      var build := LegacyPhotoBuild(size.height, size.width, exif, srcset);
      BlockStep(Success(LPhoto(photo.id, data, Deserialize.InferFormatting(photo.data.src, photo.formatting), build)),
                run.fs)
  }

  /** Legacy `deserializeBlock(b, dirname)`: photos need a non-empty album
      directory, text is copied, every other kind is refused. */
  function DeserializeBlock(fs: FileSystem, b: LegacySerializedBlock, dirname: string, env: Env): (st: BlockStep)
    ensures st.result.Success? ==> (st.result.value.LText? <==> b.LSText?)
    ensures b.LSText? ==> st == BlockStep(Success(LText(b.text)), fs)
    ensures b.LSOther? ==> st == BlockStep(Failure(UnsupportedKind(b.kind)), fs)
    ensures b.LSPhoto? && dirname == "" ==> st == BlockStep(Failure(MissingDirname), fs)
    ensures b.LSPhoto? && dirname != "" ==> st == DeserializePhotoBlock(fs, b.photo, dirname, env)
  {
    match b
    case LSPhoto(p) =>
      if dirname != "" then DeserializePhotoBlock(fs, p, dirname, env)
      else BlockStep(Failure(MissingDirname), fs)
    case LSText(t) => BlockStep(Success(LText(t)), fs)
    case LSOther(kind, _) => BlockStep(Failure(UnsupportedKind(kind)), fs)
  }

  /** One step of `Promise.all(blocks.map(deserializeBlock))`. */
  function BlockStepOf(dirname: string, env: Env)
    : (FileSystem, LegacySerializedBlock, nat) -> (Result<LegacyBlock, Error>, FileSystem)
  {
    (fs: FileSystem, b: LegacySerializedBlock, k: nat) =>
      var st := DeserializeBlock(fs, b, dirname, env);
      (st.result, st.fs)
  }

  lemma StepOf(fs: FileSystem, b: LegacySerializedBlock, k: nat, dirname: string, env: Env)
    ensures var st := DeserializeBlock(fs, b, dirname, env);
      BlockStepOf(dirname, env)(fs, b, k) == (st.result, st.fs)
  {
  }

  /** Every block in turn, each seeing the files the earlier ones wrote; the
      first failure in block order is the result. */
  function DeserializeBlocks(fs: FileSystem, bs: seq<LegacySerializedBlock>, dirname: string, env: Env)
    : (run: Batch.Run<LegacyBlock, Error, FileSystem>)
    ensures run.result.Success? ==> |run.result.value| == |bs|
  {
    Batch.Fold(fs, bs, BlockStepOf(dirname, env), 0)
  }

  /** The block a stored legacy block becomes, up to the build data. */
  predicate Corresponds(b: LegacySerializedBlock, built: LegacyBlock, dirname: string) {
    match b
    case LSText(t) => built == LText(t)
    case LSPhoto(p) =>
      built.LPhoto? && built.id == p.id
      && built.data == p.data.(src := Deserialize.PublicSrc(dirname, p.data.src))
      && built.formatting == Deserialize.InferFormatting(p.data.src, p.formatting)
    case LSOther(_, _) => false
  }

  /** A single built block corresponds to the block it was built from. */
  lemma BlockCorresponds(fs: FileSystem, b: LegacySerializedBlock, dirname: string, env: Env)
    ensures var st := DeserializeBlock(fs, b, dirname, env);
      st.result.Success? ==> Corresponds(b, st.result.value, dirname)
  {
  }

  /** A successful deserialisation keeps the block count and order: each
      built block corresponds to the stored block at the same position. */
  lemma DeserializeBlocksCorrespond(fs: FileSystem, bs: seq<LegacySerializedBlock>, dirname: string, env: Env)
    ensures var run := DeserializeBlocks(fs, bs, dirname, env);
      run.result.Success? ==>
        |run.result.value| == |bs|
        && forall i :: 0 <= i < |bs| ==> Corresponds(bs[i], run.result.value[i], dirname)
  {
    var step := BlockStepOf(dirname, env);
    var prop := (b: LegacySerializedBlock, built: LegacyBlock) => Corresponds(b, built, dirname);
    forall s, b, n | step(s, b, n).0.Success? ensures prop(b, step(s, b, n).0.value) {
      StepOf(s, b, n, dirname, env);
      BlockCorresponds(s, b, dirname, env);
    }
    Batch.FoldAll(fs, bs, step, 0, prop);
  }

  /** A stored legacy block that can never be built. */
  predicate Refused(b: LegacySerializedBlock, dirname: string) {
    b.LSOther? || (b.LSPhoto? && dirname == "")
  }

  /** One unknown kind, or a photo without an album directory, fails the
      whole album. */
  lemma DeserializeBlocksRefuses(fs: FileSystem, bs: seq<LegacySerializedBlock>, dirname: string, env: Env, k: nat)
    requires k < |bs| && Refused(bs[k], dirname)
    ensures DeserializeBlocks(fs, bs, dirname, env).result.Failure?
  {
    var step := BlockStepOf(dirname, env);
    forall s, n ensures step(s, bs[k], n).0.Failure? {
      StepOf(s, bs[k], n, dirname, env);
    }
    Batch.FoldFails(fs, bs, step, 0, k);
  }

  datatype ContentStep = ContentStep(result: Result<LegacyContent, Error>, fs: FileSystem)

  /** Legacy `deserializeContentBlock(serialized, dirname)`: the stored album
      with its blocks built, its slug taken from its name and its source
      directory recorded. */
  function DeserializeContentBlock(fs: FileSystem, sc: LegacySerializedContent, dirname: string, env: Env)
    : (st: ContentStep)
    ensures st.result.Success? <==> DeserializeBlocks(fs, sc.blocks, dirname, env).result.Success?
    ensures st.fs == DeserializeBlocks(fs, sc.blocks, dirname, env).state
    ensures st.result.Success? ==>
      var c := st.result.value;
      c.name == sc.name && c.title == sc.title && c.kicker == sc.kicker && c.order == sc.order
      && c.cover == sc.cover && c.overlay == sc.overlay
      && c.blocks == DeserializeBlocks(fs, sc.blocks, dirname, env).result.value
      && |c.blocks| == |sc.blocks|
      && c.build == ContentBuild(sc.name, dirname, None)
  {
    var run := DeserializeBlocks(fs, sc.blocks, dirname, env);
    match run.result
    case Failure(e) => ContentStep(Failure(e), run.state)
    case Success(blocks) =>
      ContentStep(Success(LegacyContent(sc.name, sc.title, sc.kicker, sc.order, sc.cover, sc.overlay,
                                        blocks, ContentBuild(sc.name, dirname, None))), run.state)
  }

  /** An album of text blocks builds to the same blocks, with nothing
      written. */
  lemma DeserializeTextAlbum(fs: FileSystem, sc: LegacySerializedContent, dirname: string, env: Env)
    requires forall i :: 0 <= i < |sc.blocks| ==> sc.blocks[i].LSText?
    ensures var st := DeserializeContentBlock(fs, sc, dirname, env);
      st.fs == fs && st.result.Success?
      && forall i :: 0 <= i < |sc.blocks| ==> st.result.value.blocks[i] == LText(sc.blocks[i].text)
  {
    TextBlocksRun(fs, sc.blocks, dirname, env);
  }

  /** The text of a text block as a built block. */
  function TextOf(b: LegacySerializedBlock): LegacyBlock {
    if b.LSText? then LText(b.text) else LText(TextBlock("", TextData("", None, None), None))
  }

  /** Text blocks build to themselves, one step at a time, with nothing
      written. */
  lemma TextBlocksRun(fs: FileSystem, bs: seq<LegacySerializedBlock>, dirname: string, env: Env)
    requires forall i :: 0 <= i < |bs| ==> bs[i].LSText?
    ensures var run := DeserializeBlocks(fs, bs, dirname, env);
      run.state == fs && run.result.Success?
      && forall i :: 0 <= i < |bs| ==> run.result.value[i] == LText(bs[i].text)
  {
    var step := BlockStepOf(dirname, env);
    forall s, i, n | 0 <= i < |bs| ensures step(s, bs[i], n) == (Success(TextOf(bs[i])), s) {
      StepOf(s, bs[i], n, dirname, env);
    }
    Batch.FoldPure(fs, bs, step, 0, TextOf);
  }
}
