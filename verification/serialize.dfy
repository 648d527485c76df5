/** Turning a built album back into its stored form
    (`src/services/serialize.ts`), and how that relates to building: the
    round trip keeps text blocks, but rewrites every photo's source path and
    writes its cover flag out. */
module Serialize {
  import opened Wrappers
  import opened Environment
  import opened AlbumTypes
  import opened Deserialize

  /** The stored photo formatting: a falsy `immersive` is dropped, and an
      object left empty is kept (it is removed from the argument only). */
  function SerializeFormatting(f: Option<PhotoFormatting>): (r: Option<PhotoFormatting>)
    ensures r.Some? <==> f.Some?
    ensures r.Some? ==> r.value.cover == f.value.cover
    ensures r.Some? ==> (r.value.immersive.Some? <==> f.value.immersive == Some(true))
    ensures r.Some? && r.value.immersive.Some? ==> r.value.immersive.value
  {
    match f
    case None => None
    case Some(g) => Some(g.(immersive := if g.immersive == Some(true) then Some(true) else None))
  }

  /** `serializeBlock`: text as it is, photos without their build data,
      videos refused. */
  function SerializeBlock(b: Block): (r: Result<SerializedBlock, Error>)
    ensures r.Success? <==> !b.Video?
    ensures b.Text? ==> r == Success(SText(b.text))
    ensures b.Photo? ==>
      (r.Success? && r.value.SPhoto? && r.value.photo == SerializedPhoto(b.id, b.data, SerializeFormatting(b.formatting)))
    ensures b.Video? ==> r == Failure(UnsupportedKind("video"))
  {
    match b
    case Photo(id, data, formatting, _) => Success(SPhoto(SerializedPhoto(id, data, SerializeFormatting(formatting))))
    case Text(t) => Success(SText(t))
    case Video(_, _) => Failure(UnsupportedKind("video"))
  }

  /** `blocks.map(serializeBlock)`: stops at the first block that throws. */
  function SerializeBlocks(bs: seq<Block>): (r: Result<seq<SerializedBlock>, Error>)
    ensures r.Success? <==> forall i :: 0 <= i < |bs| ==> !bs[i].Video?
    ensures r.Success? ==>
      (|r.value| == |bs| && forall i :: 0 <= i < |bs| ==> SerializeBlock(bs[i]) == Success(r.value[i]))
    decreases |bs|
  {
    if |bs| == 0 then Success([])
    else
      var head :- SerializeBlock(bs[0]);
      var tail :- SerializeBlocks(bs[1..]);
      assert forall i :: 1 <= i < |bs| ==> bs[i] == bs[1..][i - 1];
      Success([head] + tail)
  }

  /** `serializeContentBlock`: the album without its build data. */
  function SerializeContentBlock(c: Content): (r: Result<SerializedContent, Error>)
    ensures r.Success? <==> SerializeBlocks(c.blocks).Success?
    ensures r.Success? ==>
      r.value == SerializedContent(c.name, c.title, c.kicker, c.order, c.cover, c.formatting,
                                   SerializeBlocks(c.blocks).value)
  {
    var blocks :- SerializeBlocks(c.blocks);
    Success(SerializedContent(c.name, c.title, c.kicker, c.order, c.cover, c.formatting, blocks))
  }

  // ---------------------------------------------------------------------------
  // Round trip
  // ---------------------------------------------------------------------------

  /** What a stored block looks like after it is built and stored again. */
  function Restored(b: SerializedBlock, dirname: string): SerializedBlock {
    match b
    case SPhoto(p) =>
      SPhoto(SerializedPhoto(p.id, p.data.(src := PublicSrc(dirname, p.data.src)),
                             SerializeFormatting(Some(InferFormatting(p.data.src, p.formatting)))))
    case _ => b
  }

  function RestoredAll(bs: seq<SerializedBlock>, dirname: string): (r: seq<SerializedBlock>)
    ensures |r| == |bs| && forall i :: 0 <= i < |bs| ==> r[i] == Restored(bs[i], dirname)
  {
    seq(|bs|, i requires 0 <= i < |bs| => Restored(bs[i], dirname))
  }

  /** A built block stored again is its stored block restored. */
  lemma RestoredBlock(b: SerializedBlock, built: Block, dirname: string)
    requires Corresponds(b, built, dirname)
    ensures SerializeBlock(built) == Success(Restored(b, dirname))
  {
  }

  /** Storing blocks one by one as `expected` says stores the list as it. */
  lemma SerializeBlocksPointwise(bs: seq<Block>, expected: seq<SerializedBlock>)
    requires |bs| == |expected|
    requires forall i :: 0 <= i < |bs| ==> SerializeBlock(bs[i]) == Success(expected[i])
    ensures SerializeBlocks(bs) == Success(expected)
  {
    assert forall i :: 0 <= i < |bs| ==> !bs[i].Video?;
  }

  /** Building and storing again gives every block back as `Restored` says. */
  lemma RoundTripBlocks(fs: FileSystem, bs: seq<SerializedBlock>, dirname: string, env: Env)
    requires DeserializeBlocks(fs, bs, dirname, env).result.Success?
    ensures SerializeBlocks(DeserializeBlocks(fs, bs, dirname, env).result.value) == Success(RestoredAll(bs, dirname))
  {
    var built := DeserializeBlocks(fs, bs, dirname, env).result.value;
    DeserializeBlocksCorrespond(fs, bs, dirname, env);
    var expected := RestoredAll(bs, dirname);
    forall i | 0 <= i < |bs| ensures SerializeBlock(built[i]) == Success(expected[i]) {
      RestoredBlock(bs[i], built[i], dirname);
    }
    SerializeBlocksPointwise(built, expected);
  }

  /** The album-level round trip: the stored album comes back with its
      blocks restored and everything else unchanged. */
  lemma RoundTripContent(fs: FileSystem, sc: SerializedContent, dirname: string, env: Env)
    requires DeserializeContentBlock(fs, sc, dirname, env).result.Success?
    ensures SerializeContentBlock(DeserializeContentBlock(fs, sc, dirname, env).result.value)
         == Success(sc.(blocks := RestoredAll(sc.blocks, dirname)))
  {
    RoundTripBlocks(fs, sc.blocks, dirname, env);
  }

  /** Text blocks alone always build. */
  lemma {:induction false} DeserializeTextOnly(fs: FileSystem, bs: seq<SerializedBlock>, dirname: string, env: Env)
    requires forall i :: 0 <= i < |bs| ==> bs[i].SText?
    ensures DeserializeBlocks(fs, bs, dirname, env).result.Success?
    decreases |bs|
  {
    if |bs| > 0 {
      assert forall i :: 0 <= i < |bs[1..]| ==> bs[1..][i] == bs[i + 1];
      DeserializeTextOnly(fs, bs[1..], dirname, env);
    }
  }

  /** An album of text blocks survives the round trip unchanged. */
  lemma RoundTripTextOnly(fs: FileSystem, sc: SerializedContent, dirname: string, env: Env)
    requires forall i :: 0 <= i < |sc.blocks| ==> sc.blocks[i].SText?
    ensures DeserializeContentBlock(fs, sc, dirname, env).result.Success?
    ensures SerializeContentBlock(DeserializeContentBlock(fs, sc, dirname, env).result.value) == Success(sc)
  {
    DeserializeTextOnly(fs, sc.blocks, dirname, env);
    RoundTripContent(fs, sc, dirname, env);
    assert RestoredAll(sc.blocks, dirname) == sc.blocks;
  }

  /** But an album holding a photo stored under a relative source (as every
      directory scan produces) never comes back unchanged: the source is
      rewritten to a rooted public path. */
  lemma RoundTripMovesPhoto(fs: FileSystem, sc: SerializedContent, dirname: string, env: Env, k: nat)
    requires DeserializeContentBlock(fs, sc, dirname, env).result.Success?
    requires k < |sc.blocks| && sc.blocks[k].SPhoto?
    requires var src := sc.blocks[k].photo.data.src; src != "" && src[0] != '/'
    ensures SerializeContentBlock(DeserializeContentBlock(fs, sc, dirname, env).result.value) != Success(sc)
  {
    RoundTripContent(fs, sc, dirname, env);
    assert RestoredAll(sc.blocks, dirname)[k] != sc.blocks[k];
  }
}
