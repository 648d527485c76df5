/** One search result as a tile (`src/components/search/SearchResultTile.tsx`):
    the public path of its resized image, the album it belongs to and its
    background colour. `JSON.parse` is a parameter. */
module ResultTile {
  import opened Wrappers
  import opened Strings
  import opened JsonValues
  import NodePath
  import PhotoCache

  /** The prefix the indexer's paths carry before the public directory. */
  const IndexedPrefix: string := "../src/public"
  const TileWidth: nat := 600

  /** `result.path.replace("../src/public", "")`: only the first occurrence
      is removed. */
  function ImageSrc(path: string): (r: string)
    ensures StartsWith(path, IndexedPrefix) ==> r == path[|IndexedPrefix|..]
    ensures !Contains(path, IndexedPrefix) ==> r == path
  {
    if StartsWith(path, IndexedPrefix) then
      assert OccursAt(path, IndexedPrefix, 0);
      ReplaceFirst(path, IndexedPrefix, "")
    else ReplaceFirst(path, IndexedPrefix, "")
  }

  /** The resized image: `.resized_images` inserted before the last path
      segment and `@600.avif` appended. */
  function Resized(imageSrc: string): string {
    var parts := Split(imageSrc, '/');
    var n := |parts| - 1;
    Join(parts[..n] + [PhotoCache.ResizedImageDir] + [parts[n]], "/") + "@" + NatToString(TileWidth) + ".avif"
  }

  /** For a file in a directory, the resized image is the cache file of
      width 600 in that directory's `.resized_images`. */
  lemma ResizedInDirectory(dir: string, file: string)
    requires '/' !in file
    ensures Resized(dir + "/" + file)
      == dir + "/" + PhotoCache.ResizedImageDir + "/" + PhotoCache.CacheFileName(file, TileWidth)
  {
    var src := dir + "/" + file;
    assert src == dir + ['/'] + file;
    NodePath.SplitAtLast(dir, '/', file);
    var parts := Split(src, '/');
    var n := |parts| - 1;
    assert parts[..n] == Split(dir, '/');
    assert parts[n] == file;
    var joined := Split(dir, '/') + [PhotoCache.ResizedImageDir] + [file];
    NodePath.JoinSnoc(Split(dir, '/') + [PhotoCache.ResizedImageDir], file, "/");
    NodePath.JoinSnoc(Split(dir, '/'), PhotoCache.ResizedImageDir, "/");
    JoinSplit(dir, '/');
  }

  /** A bare file name gets only the directory prefix. */
  lemma ResizedBareFile(file: string)
    requires '/' !in file
    ensures Resized(file) == PhotoCache.ResizedImageDir + "/" + PhotoCache.CacheFileName(file, TileWidth)
  {
    SplitNoSeparator(file, '/');
    var parts := Split(file, '/');
    assert parts[..0] + [PhotoCache.ResizedImageDir] + [parts[0]] == [PhotoCache.ResizedImageDir] + [file];
    JoinCons(PhotoCache.ResizedImageDir, [file], "/");
    assert Join([PhotoCache.ResizedImageDir] + [file], "/") == PhotoCache.ResizedImageDir + "/" + file;
  }

  /** The width the tile asks for is not one the current build generates,
      so the tile's image exists only if an older build left it behind. */
  lemma TileWidthNotGenerated()
    ensures TileWidth !in PhotoCache.AscendingSizes()
  {
    PhotoCache.AscendingSizesValue();
  }

  /** `result.path.split("/").at(-2)`: the name of the photo's directory,
      `undefined` for a path without `/`. */
  function AlbumName(path: string): (r: Option<string>)
    ensures r.Some? <==> '/' in path
    ensures r.Some? ==> '/' !in r.value
  {
    var parts := Split(path, '/');
    SplitSeveral(path, '/');
    if |parts| >= 2 then Some(parts[|parts| - 2]) else None
  }

  /** The album of `<root>/<album>/<file>` is `<album>`. */
  lemma AlbumNameOf(root: string, album: string, file: string)
    requires '/' !in album && '/' !in file
    ensures AlbumName(root + "/" + album + "/" + file) == Some(album)
  {
    var dir := root + "/" + album;
    assert dir == root + ['/'] + album;
    NodePath.SplitAtLast(root, '/', album);
    assert root + "/" + album + "/" + file == dir + ['/'] + file;
    NodePath.SplitAtLast(dir, '/', file);
  }

  /** The tile's background colour: the translucent white default, or the
      first dominant colour of the photo. */
  datatype TileColour = DefaultColour | Rgba(r: Option<Json>, g: Option<Json>, b: Option<Json>)

  /** JavaScript's `v[i]` on a parsed value: it throws on `undefined` and
      `null`, reads an element of an array, a field named by the index of an
      object and a character of a string, and is `undefined` on numbers and
      booleans. */
  function Index(v: Option<Json>, i: nat): (r: Result<Option<Json>, ()>)
    ensures r.Failure? <==> v.None? || v.value.JNull?
    ensures v.Some? && v.value.JArr? ==> r == Success(Elem(v, i))
  {
    match v
    case None => Failure(())
    case Some(JNull) => Failure(())
    case Some(JArr(items)) => Success(if i < |items| then Some(items[i]) else None)
    case Some(JObj(fields)) => Success(Field(fields, NatToString(i)))
    case Some(JStr(s)) => Success(if i < |s| then Some(JStr([s[i]])) else None)
    case Some(_) => Success(None)
  }

  /** The Python tuple text `[(r, g, b), ...]` read as a JSON array: every
      `(` becomes `[` and every `)` becomes `]`. */
  function AsJsonArrayText(colors: string): (r: string)
    ensures |r| == |colors| && '(' !in r && ')' !in r
  {
    ReplaceChar(ReplaceChar(colors, '(', '['), ')', ']')
  }

  /** The colour of a result: the default unless `colors` is set and parses,
      and indexing its first element three times does not throw. */
  function Colour(colors: Option<string>, parse: string -> Option<Json>): (c: TileColour)
    ensures colors.None? || colors.value == "" ==> c.DefaultColour?
    ensures colors.Some? && colors.value != "" && parse(AsJsonArrayText(colors.value)).None? ==> c.DefaultColour?
  {
    if colors.None? || colors.value == "" then DefaultColour
    else
      match parse(AsJsonArrayText(colors.value))
      case None => DefaultColour
      case Some(parsed) =>
        match Index(Some(parsed), 0)
        case Failure(_) => DefaultColour
        case Success(first) =>
          match (Index(first, 0), Index(first, 1), Index(first, 2))
          case (Success(r), Success(g), Success(b)) => Rgba(r, g, b)
          case _ => DefaultColour
  }

  /** The indexer's colour list, parsed, gives the first colour's three
      channels. */
  lemma ColourOfPalette(colors: string, parse: string -> Option<Json>, r: real, g: real, b: real, rest: seq<Json>)
    requires colors != ""
    requires parse(AsJsonArrayText(colors)) == Some(JArr([JArr([JNum(r), JNum(g), JNum(b)])] + rest))
    ensures Colour(Some(colors), parse) == Rgba(Some(JNum(r)), Some(JNum(g)), Some(JNum(b)))
  {
    var first := JArr([JNum(r), JNum(g), JNum(b)]);
    assert Index(Some(JArr([first] + rest)), 0) == Success(Some(first));
  }

  /** A palette whose first entry is missing leaves the default colour. */
  lemma ColourOfEmptyPalette(colors: string, parse: string -> Option<Json>)
    requires colors != ""
    requires parse(AsJsonArrayText(colors)) == Some(JArr([]))
    ensures Colour(Some(colors), parse) == DefaultColour
  {
    assert Index(Some(JArr([])), 0) == Success(None);
  }
}
